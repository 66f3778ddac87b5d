/**
 The records exchanged between the store and the request handlers of the
 gift-list service: the page-facing views of users, lists and gifts, and the
 form inputs a client submits.  Identifiers and text are plain strings.
 */
module Data {

  /** A durable identifier (a UUID in the service, any string here). */
  type Id = string

  datatype Option<+T> = None | Some(value: T)

  /** A user as a read returns it; `isMe` says whether it is the viewer. */
  datatype User = User(uuid: Id, email: string, name: string, canCreate: bool, isMe: bool)

  /** A list as a read returns it; `imOwner` says whether the viewer owns it. */
  datatype List = List(uuid: Id, name: string, owner: Id, imOwner: bool)

  /** A gift as a read returns it: the claimer is resolved to a user summary,
      or is absent when the stored claimer id names no user. */
  datatype Gift = Gift(
    uuid: Id,
    owner: Id,
    url: string,
    comment: string,
    claimed: bool,
    claimedBy: Option<User>,
    alternateTo: Option<Id>)

  /** A member to invite, as typed into the create/modify list forms. */
  datatype ListUser = ListUser(name: string, email: string)

  /** One row of a submitted gift list.  `uuid` is an existing gift's id, a
      placeholder for a new row, or empty; `alternateTo` likewise. */
  datatype FormGift = FormGift(uuid: string, url: string, comment: string, alternateTo: string)

  function GiftIds(gs: seq<Gift>): (r: seq<Id>)
    ensures |r| == |gs| && forall i :: 0 <= i < |gs| ==> r[i] == gs[i].uuid
  {
    seq(|gs|, i requires 0 <= i < |gs| => gs[i].uuid)
  }
}
