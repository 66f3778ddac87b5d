/**
 What a request handler reports: success, or one distinguishable failure, and
 the store as the handler leaves it.  A failure can come after some writes, so
 the store is part of every reply.
 */
module Replies {
  import opened Db

  datatype Failure =
    | MissingRow                 // a row the handler unwraps is absent: the request panics
    | StoreFailure               // an INSERT broke a primary key: the request panics
    | OwnGift                    // "You can't claim/unclaim your own gifts"
    | AlreadyClaimed(name: string) // "Item already claimed by <name>"
    | NotClaimed                 // "Item isn't claimed"
    | ClaimedByOther(name: string) // "Item claimed by <name>"
    | NotOwner                   // "Can't modify item/list you don't own", "Can't delete list you don't own"
    | NoCreatePermission         // "You don't have permission to create lists"
    | UnknownPlaceholder         // an alternate names a placeholder not in the batch: the request panics
    | Unauthorized               // not a member of the list (only the guarded reconciliation)

  datatype Outcome = Done | Failed(why: Failure)

  datatype Reply = Reply(outcome: Outcome, store: Store)
}
