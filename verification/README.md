# Gift coordination: store and request handlers in Dafny

This project models the core of a small gift-list web service. Users belong to
lists. Each member keeps a list of gifts, and other members claim those gifts
without the owner seeing who claimed what.

The model covers:

- the relational store (`src/db.rs`): users, lists, list memberships, gifts and list items;
- the claim and unclaim handlers;
- the gift-list reconciliation handler, which replaces one owner's gifts on a list with a submitted snapshot;
- the list-administration handlers: create, modify and delete a list, and invite members.

Everything is a pure function from a store value to a reply. A reply carries an
outcome and the store as the handler leaves it.

Modules:

- `Data` (`data.dfy`): the records a read returns and the form inputs a client submits. The records are `User`, `List` and `Gift`; the form inputs are `ListUser` and `FormGift`.
- `Db` (`db.dfy`): the five tables and every SQL statement as a function on `Store`.
  - USERS is a sequence of rows. Lookups by e-mail and by login token are not by key, and a single-row query takes the first match.
  - LISTS and ITEMS are maps keyed by their primary key.
  - The two join tables, LIST_USERS and LIST_ITEMS, have no key. They are kept as sequences in insertion order, and their contracts are stated as multisets.
  - An INSERT that would break a primary key returns `None`, standing for the service's panic.
  - An unclaimed gift stores the claimer id `"None"` (`NoClaimer`).
- `Replies` (`replies.dfy`): the failures a handler can report. A panic on a missing row is `MissingRow`, and a panic on a key clash is `StoreFailure`.
- `Claims` (`claims.dfy`): `claim_gift` and `unclaim_gift`.
- `Reconcile` (`reconcile.dfy`) and `ReconcileFacts` (`reconcile_facts.dfy`): `modify_gift_list` and what it does to the store.
- `ListAdmin` (`list_admin.dfy`): `create_list`, `modify_list`, `delete_list` and `create_user_and_add_to_list`.

Random UUIDs and login tokens are replaced by a supplied sequence of values, used in the order the service generates them:

- reconciliation takes one per placeholder row while it builds the id map, then one per empty-id row;
- `create_list` takes one for the list;
- each new invitee takes a token, then a user id.

Properties that need the values to be fresh assume it explicitly (`ReconcileFacts.FreshSupply`).

## Model

| member | source | states |
|---|---|---|
| Db.FirstRow | src/db.rs:51-72 | a single-row query returns the first USERS row whose column holds the value, and nothing exactly when no row does |
| Db.UserFromEmail | src/db.rs:51-72 | the user found by e-mail exists exactly when some row has that e-mail; the result carries that row's id and name and is never `isMe` |
| Db.UserFromUuid | src/db.rs:74-99 | found exactly when some row has the id; `isMe` holds exactly when the id is the viewer's |
| Db.UserOfToken | src/db.rs:18-34 | a login token resolves exactly when some row holds it, to that row's user id |
| Db.TokenOfUser | src/db.rs:36-49 | a user's token is found exactly when the user exists, and is that user's row's token |
| Db.ListFromUuid | src/db.rs:129-154 | a list is found exactly when its row exists; `imOwner` holds exactly when the owner is the viewer |
| Db.ListsOfUser | src/db.rs:101-127 | one entry per membership row of the user whose list exists (as multisets); every entry has a membership row and `imOwner` exactly when the user owns it |
| Db.ListsOfRowsCount | src/db.rs:101-127 | the LIST_USERS ⋈ LISTS join has as many copies of a list as there are membership rows for it |
| Db.UsersOfList | src/db.rs:156-187 | one entry per membership row of the list whose user exists (as multisets), `isMe` exactly on the viewer |
| Db.UsersOfRowsCount | src/db.rs:156-187 | the LIST_USERS ⋈ USERS join has as many copies of a user as there are membership rows for them |
| Db.ClaimerView | src/db.rs:208-216 | the claimer of a gift is reported exactly when the stored claimer id names a user; it carries that user's id and name, a blank e-mail and no create permission, and `isMe` exactly when it is the viewer |
| Db.GiftView | src/db.rs:189-231 | a gift read copies every stored field, and its claimer is the claimer view of the stored claimer id: present iff that id names a user, `isMe` iff it is the viewer |
| Db.GiftFromUuid | src/db.rs:233-271 | a gift is found exactly when its row exists, and reads as that row |
| Db.GiftsOfListUser | src/db.rs:189-231 | exactly the gifts with a (list, user) item row, once per such row (as multisets) |
| Db.GiftsOfRowsCount | src/db.rs:189-231 | the LIST_ITEMS ⋈ ITEMS join has as many copies of a gift as there are item rows for it |
| Db.FirstRowAppend | src/db.rs:51-99 | appending a USERS row never changes which row a lookup finds first, and finds the new row only when nothing earlier matches |
| Db.CreateUser | src/db.rs:273-293 | refused exactly when the id is taken; otherwise the row (id, token, e-mail, name, create permission) is appended, the token then resolves, to the new user when it was unused, other tables are unchanged, and unique ids stay unique |
| Db.AddUserToList | src/db.rs:295-309 | exactly one more membership row, even when the same row already exists; earlier rows and every other table are unchanged |
| Db.CreateList | src/db.rs:311-335 | refused exactly when the id is taken; otherwise the list row is added and the owner gets a membership row |
| Db.CreateGift | src/db.rs:337-354 | refused exactly when the id is taken; otherwise the gift is stored unclaimed with the `"None"` claimer and the given alternate, plus exactly one (list, owner, gift) item row |
| Db.ModifyList | src/db.rs:372-386 | only the name of the matching list changes |
| Db.ModifyGift | src/db.rs:388-416 | only url, comment, claim flag and claimer of the matching gift change; owner, alternate and every other row are kept |
| Db.DeleteGift | src/db.rs:516-534 | the gift row and exactly its item rows go; nothing else changes |
| Db.DeleteList | src/db.rs:475-514 | the list row goes, with all its membership rows, the gifts listed on it and its item rows; rows of other lists survive |
| Claims.Claim | src/webserver.rs:183-204 | a missing gift fails first, then the actor's own gift, then an already claimed one, each leaving the store as it was; on success only the claim flag and claimer of that gift change, to true and the actor |
| Claims.Unclaim | src/webserver.rs:206-231 | failure order: missing, own gift, not claimed, claimed by someone else, each leaving the store unchanged; on success only that gift's claim is cleared to `"None"` |
| Claims.ClaimsKeepInv | src/webserver.rs:183-231 | when a stored user acts, claim and unclaim keep every gift's claim flag in step with its claimer: claimed exactly when the claimer is not `"None"`, and a claimer is a stored user |
| Claims.ClaimThenUnclaim | src/webserver.rs:183-231 | claiming an unclaimed gift and unclaiming it as the same user gives back the original store |
| Reconcile.Mint | src/webserver.rs:265-276 | the id map has exactly the placeholders as new keys, each bound to one of the fresh ids drawn for them |
| Reconcile.MintIds | src/webserver.rs:265-276 | every placeholder row's id is mapped to a fresh id before anything is written |
| Reconcile.SubmittedIds | src/webserver.rs:265-282 | a non-empty id is kept by the deletion pass exactly when some row submits it and it is not a placeholder |
| Reconcile.DeleteAbsent | src/webserver.rs:278-282 | exactly the listed ids missing from the kept ids lose their gift and item rows; if every id is kept the store is unchanged |
| Reconcile.Apply | src/webserver.rs:284-330 | one row: an unresolvable alternate fails before anything else, even for an existing gift; a failure leaves the store unchanged; memberships, lists and users never change, gifts and item rows only grow, and new gifts are the actor's and unclaimed |
| Reconcile.ApplyCreates | src/webserver.rs:293-316 | a new row is stored under its new id, owned by the actor, unclaimed, with the resolved alternate and one item row; it fails only when the id is taken |
| Reconcile.ApplyUpdates | src/webserver.rs:317-329 | an unknown id fails as a missing row, another owner's gift fails as not owned; otherwise only url and comment change, and a claimer id naming no user is reset to `"None"` |
| Reconcile.Upsert | src/webserver.rs:284-330 | users, lists and memberships never change; gifts and item rows only grow; every gift it adds is the actor's, unclaimed and listed under (list, actor), and stays so |
| Reconcile.ModifyGiftList | src/webserver.rs:233-332 | reconciliation never touches users, lists or memberships, and every gift it leaves behind that was not there before is the actor's, unclaimed, on the list |
| Reconcile.ModifyGiftListGuarded | src/webserver.rs:243-250 | the intended version: a non-member is refused with the store unchanged, and a member gets exactly the as-written behaviour |
| Reconcile.MemberIffListed | src/webserver.rs:239-250 | the membership test sees a list exactly when it exists and the user has a membership row for it |
| ReconcileFacts.ExistingIds | src/webserver.rs:252-264 | the deletion pass inspects exactly the stored gifts with a (list, actor) item row |
| ReconcileFacts.MintIdsInjective | src/webserver.rs:265-276 | with distinct fresh ids, distinct placeholders get distinct ids |
| ReconcileFacts.AlternateResolvesInBatch | src/webserver.rs:265-292 | a placeholder alternate fails to resolve exactly when no row of the batch carries it, so a forward reference to a later row resolves |
| ReconcileFacts.UpsertAppend | src/webserver.rs:284-330 | the rows run in order and stop at the first failure: once a prefix of the batch fails, the rows after it are not applied; otherwise the rest runs on the prefix's store with the fresh ids the prefix left |
| ReconcileFacts.ApplyLeaves | src/webserver.rs:284-330 | one row leaves alone every gift it neither names nor creates |
| ReconcileFacts.UpsertLeaves | src/webserver.rs:284-330 | a gift no row names and no fresh id can become passes through the upsert pass unchanged, present or absent alike |
| ReconcileFacts.UpsertNoRecreate | src/webserver.rs:293-316 | a successful pass never mints a placeholder id that was already a stored gift |
| ReconcileFacts.UpsertStoresPlaceholder | src/webserver.rs:305-316 | after a successful pass, a placeholder row is stored under its minted id with its url, comment, resolved alternate and item row, unclaimed |
| ReconcileFacts.ReconcileDeletesExactly | src/webserver.rs:252-282 | with fresh ids, a (list, actor) gift no longer submitted is gone whatever the outcome, and an unsubmitted gift outside (list, actor) is unchanged |
| ReconcileFacts.ReconcileCreatesPlaceholders | src/webserver.rs:265-316 | with fresh ids, after success each placeholder row is stored under its minted id; an alternate naming a placeholder of the batch, earlier or later, points at that row's new id, which exists |
| ReconcileFacts.UpsertStoresEmpty | src/webserver.rs:293-316 | after a successful pass, a row with an empty id is stored under the fresh id it draws, with its url, comment, resolved alternate and item row, unclaimed |
| ReconcileFacts.ReconcileCreatesNewRows | src/webserver.rs:265-316 | with fresh ids, after success each row with an empty id is stored under its own fresh id (the one after the ids minted for placeholders and those drawn by the empty rows before it), owned by the actor, unclaimed and listed under (list, actor); an alternate naming a placeholder of the batch, earlier or later, points at that row's new id, which exists |
| ReconcileFacts.UpsertUpdatesExisting | src/webserver.rs:317-329 | after a successful pass, a row naming an existing id that no other row, fresh id or minted id reaches found that gift stored and owned by the actor, and leaves it with the row's url and comment, its owner, claim flag and alternate kept, and its claimer kept when it names a user and `"None"` otherwise |
| ReconcileFacts.ReconcileUpdatesExisting | src/webserver.rs:253-329 | with fresh ids, after success a row naming an existing id (and the only row naming it) refers to a gift the actor owned before the call; afterwards that gift has the row's url and comment, keeps its owner, claim flag and alternate, and its claimer is kept when it names a user and `"None"` otherwise |
| ReconcileFacts.ForwardReferenceResolves | src/webserver.rs:265-316 | two new gifts where the first has an empty id and names the second's placeholder as its alternate: the owner's request succeeds and the first gift's stored alternate is the second's new id |
| ReconcileFacts.UpsertEchoes | src/webserver.rs:317-329 | rows that write their own gifts back unchanged leave the store as it was |
| ReconcileFacts.ResubmitIsIdentity | src/webserver.rs:253-331 | resubmitting the actor's gifts on the list exactly as read succeeds, needs no fresh ids and leaves the store unchanged, provided each is the actor's own, has a non-placeholder id and alternate, and a claimer id that is a user or `"None"` |
| ReconcileFacts.PartialFailureKeepsEarlierWrites | src/webserver.rs:293-330 | a new row then a row naming another owner's gift fails as not owned, yet the new gift stays stored and the foreign gift is untouched |
| ReconcileFacts.OutsiderEditsList | src/webserver.rs:243-250 | as written, a registered user with no membership row puts a gift on another user's list |
| ReconcileFacts.OutsiderRefused | src/webserver.rs:243-250 | with the guard, that same request is refused and the store is unchanged |
| ListAdmin.CreateUserAndAddToList | src/webserver.rs:426-459 | a known e-mail adds a membership row for the first user with it and draws nothing; an unknown one registers a user who cannot create lists, from a token and then an id, and adds their membership; the invitation names the list, the e-mail and that user's login token |
| ListAdmin.InviteJoins | src/webserver.rs:426-459 | after an invitation the e-mail resolves to a user with a membership row for the list |
| ListAdmin.AddMembers | src/webserver.rs:383-395 | the invitation loop only appends users and memberships, never touches lists, gifts or items, and does nothing when every e-mail is skipped |
| ListAdmin.AddMembersJoins | src/webserver.rs:383-395 | after a successful loop every member not skipped resolves by e-mail to a user with a membership row |
| ListAdmin.AddMembersInvitesInOrder | src/webserver.rs:383-395 | one invitation per member not skipped, in submission order |
| ListAdmin.AddMembersKeeps | src/webserver.rs:383-395 | memberships by e-mail survive the loop |
| ListAdmin.CreateList | src/webserver.rs:334-362 | a user who may not create lists is refused; otherwise the only possible failure is a key clash, and the list is created under the next fresh id with the actor as owner and member, and members are only added |
| ListAdmin.CreatedListInvitesAll | src/webserver.rs:351-360 | a successful creation sends one invitation per submitted member, in order, naming the new list |
| ListAdmin.CreatedListVisibleToOwner | src/db.rs:311-335 | once created, the list is found by id and among the creator's lists, with `imOwner` set |
| ListAdmin.CreatedListHasMembers | src/webserver.rs:351-360 | after success every submitted member belongs to the new list |
| ListAdmin.ModifyList | src/webserver.rs:364-399 | a missing list fails, then a list the actor does not own; past those the only possible failure is a key clash; otherwise the list is renamed and no membership is removed |
| ListAdmin.ModifyListInvitesNewEmails | src/webserver.rs:377-396 | a successful edit invites, in order and under the new name, exactly the submitted members whose e-mail no current member of the list has |
| ListAdmin.ModifyListSkipsKnownEmails | src/webserver.rs:383-388 | when every submitted e-mail is already a member's, the list is only renamed: no user, membership or invitation is added |
| ListAdmin.ModifiedListHasMembers | src/webserver.rs:383-396 | after success every submitted member belongs to the list |
| ListAdmin.DeleteList | src/webserver.rs:401-417 | a missing list fails, then a list the actor does not own; otherwise the store is exactly the list-deletion cascade: the list, its memberships, its item rows and the gifts on it are gone, and other lists are intact |
| ListAdmin.DeletedListGone | src/db.rs:475-514 | after deletion nobody finds the list by id or among their lists |

## Left out

- `src/main.rs`: HTTP routing, the authentication request guard and the error pages are glue around the handlers. The acting user is an input.
- `src/email.rs` and `send_email_for_list`: mail transport, templates and configuration are I/O. The model returns the invitation data (list name, user, token) that would be mailed.
- Cookies, sessions, login and every `*_page` renderer in `src/webserver.rs`, and the JSON export mapping: presentation only.
- Randomness: UUIDs and the 256-byte random login token come from a supplied sequence. The token's hex encoding is not modelled, and freshness is assumed only where a property needs it.
- ListAdmin.CreateUserAndAddToList: requires two supplied values even when the e-mail is known and none is drawn. The supply stands in for an unbounded random source. `AddMembers`, `CreateList` and `ModifyList` likewise require enough values for every submitted member.
- `init_db`, the SQL text and the async connection plumbing: only the table shapes are kept.
- `modify_user` and `delete_user`: no handler calls them.
- `Db.DeleteList` models the cascade that the `DELETE … INNER JOIN` statements of `src/db.rs:491-502` describe. SQLite does not accept that statement form, so the deployed service would fail at that step instead.
- Concurrency: each request is one atomic step. The read-then-write race in claim and unclaim is not modelled.
- Panics: an `unwrap` on a missing row is the failure `MissingRow`, and an insert that breaks a primary key is `StoreFailure`. Writes made before the panic are kept in the reply's store.
- Presentation structs of `src/data.rs` (page contexts, the invite e-mail, the export gift).
- ListAdmin.AddMembers: `send_email_for_list` (src/webserver.rs:419-424) unwraps the mail client's result, so a failed delivery panics and abandons the remaining invitations. The model treats every mail as delivered.
- Reconcile.Mint: a placeholder submitted twice is rebound to a second fresh id, as a hash-map insert does. The properties about placeholders assume a successful run, and a repeated placeholder cannot complete one.

## Findings

| source | as written | input that shows it | evidently intended | confidence | as-written member | corrected member |
|---|---|---|---|---|---|---|
| src/webserver.rs:243-250 | the membership test builds the string "Unauthorized" and discards it, so reconciliation proceeds for anyone | store with list "L" whose only member is its owner "o"; registered user "u" submits one new row for "L" | return "Unauthorized" before any write when the actor is not a member of the list | high (not executed) | ReconcileFacts.OutsiderEditsList | ReconcileFacts.OutsiderRefused |

Every property proved of `Reconcile.ModifyGiftList` carries over to `Reconcile.ModifyGiftListGuarded`. The guarded version's contract makes it equal to the as-written one for members, and leaves the store unchanged for everyone else.
