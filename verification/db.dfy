/**
 The relational store behind the gift-list service, as an immutable value.

 Five tables: USERS (a sequence of rows, because users are also looked up by
 e-mail and by login token, neither of which is a key, and a single-row query
 returns the first match), LISTS and ITEMS (maps keyed by their primary key),
 and the two join tables LIST_USERS and LIST_ITEMS, which have no key at all:
 they are sequences in insertion order and their contracts speak of them as
 multisets.  Every SQL statement of the store becomes a function on `Store`.
 */
module Db {
  import opened Data

  /** The claimer id stored for an unclaimed gift. */
  const NoClaimer: Id := "None"

  datatype UserRow = UserRow(uuid: Id, token: string, email: string, name: string, canCreate: bool)
  datatype ListRow = ListRow(name: string, owner: Id)
  datatype GiftRow = GiftRow(
    owner: Id,
    url: string,
    comment: string,
    claimed: bool,
    claimedBy: Id,
    alternateTo: Option<Id>)
  /** A LIST_USERS row: `user` may see and add gifts to `list`. */
  datatype Member = Member(list: Id, user: Id)
  /** A LIST_ITEMS row: gift `gift` of owner `user` belongs to `list`. */
  datatype Item = Item(list: Id, user: Id, gift: Id)

  datatype Store = Store(
    users: seq<UserRow>,
    lists: map<Id, ListRow>,
    members: seq<Member>,
    gifts: map<Id, GiftRow>,
    items: seq<Item>)

  /** The rows of `xs` that satisfy `keep`, in order (a DELETE of the others). */
  function Filter<T(==,!new)>(xs: seq<T>, keep: T -> bool): (r: seq<T>)
    ensures forall x :: multiset(r)[x] == if keep(x) then multiset(xs)[x] else 0
    ensures forall x :: x in r <==> x in xs && keep(x)
    ensures (forall k :: 0 <= k < |xs| ==> keep(xs[k])) ==> r == xs
  {
    if |xs| == 0 then []
    else
      assert xs == [xs[0]] + xs[1..];
      (if keep(xs[0]) then [xs[0]] else []) + Filter(xs[1..], keep)
  }

  // ---------------------------------------------------------------------
  // USERS lookups

  datatype Column = ByUuid | ByEmail | ByToken

  function Key(row: UserRow, col: Column): (v: string) {
    match col
    case ByUuid => row.uuid
    case ByEmail => row.email
    case ByToken => row.token
  }

  /** The index of the first USERS row whose column `col` holds `v`. */
  function FirstRow(users: seq<UserRow>, col: Column, v: string): (r: Option<nat>)
    ensures r.Some? ==> r.value < |users| && Key(users[r.value], col) == v
    ensures r.Some? ==> forall j :: 0 <= j < r.value ==> Key(users[j], col) != v
    ensures r.None? <==> forall j :: 0 <= j < |users| ==> Key(users[j], col) != v
  {
    if |users| == 0 then None
    else if Key(users[0], col) == v then Some(0)
    else match FirstRow(users[1..], col, v)
      case None => None
      case Some(i) => Some(i + 1)
  }

  predicate IsUser(s: Store, uuid: Id) {
    FirstRow(s.users, ByUuid, uuid).Some?
  }

  /** USERS keyed by uuid, as the primary key guarantees. */
  predicate UsersKeyed(s: Store) {
    forall i, j :: 0 <= i < j < |s.users| ==> s.users[i].uuid != s.users[j].uuid
  }

  function UserView(row: UserRow, viewer: Id): (u: User) {
    User(row.uuid, row.email, row.name, row.canCreate, row.uuid == viewer)
  }

  /** `user_from_uuid`: the user with that id, `isMe` when it is the viewer. */
  function UserFromUuid(s: Store, uuid: Id, viewer: Id): (r: Option<User>)
    ensures r.Some? <==> exists k :: 0 <= k < |s.users| && s.users[k].uuid == uuid
    ensures r.Some? ==> r.value.uuid == uuid && (r.value.isMe <==> uuid == viewer)
    ensures r.Some? ==> exists k :: 0 <= k < |s.users| && s.users[k].uuid == uuid
                                 && s.users[k].email == r.value.email && s.users[k].name == r.value.name
                                 && s.users[k].canCreate == r.value.canCreate
  {
    match FirstRow(s.users, ByUuid, uuid)
    case None => None
    case Some(k) => Some(UserView(s.users[k], viewer))
  }

  /** `user_from_email`: the first user with that e-mail, never `isMe`. */
  function UserFromEmail(s: Store, email: string): (r: Option<User>)
    ensures r.Some? <==> exists k :: 0 <= k < |s.users| && s.users[k].email == email
    ensures r.Some? ==> r.value.email == email && !r.value.isMe
    ensures r.Some? ==> exists k :: 0 <= k < |s.users| && s.users[k].email == email
                                 && s.users[k].uuid == r.value.uuid && s.users[k].name == r.value.name
                                 && s.users[k].canCreate == r.value.canCreate
  {
    match FirstRow(s.users, ByEmail, email)
    case None => None
    case Some(k) => Some(UserView(s.users[k], "").(isMe := false))
  }

  /** `user_uuid_from_auth_token`: the user a login token belongs to. */
  function UserOfToken(s: Store, token: string): (r: Option<Id>)
    ensures r.Some? <==> exists k :: 0 <= k < |s.users| && s.users[k].token == token
    ensures r.Some? ==> exists k :: 0 <= k < |s.users| && s.users[k].token == token && s.users[k].uuid == r.value
  {
    match FirstRow(s.users, ByToken, token)
    case None => None
    case Some(k) => Some(s.users[k].uuid)
  }

  /** `auth_token_from_user`: the login token of a user. */
  function TokenOfUser(s: Store, uuid: Id): (r: Option<string>)
    ensures r.Some? <==> exists k :: 0 <= k < |s.users| && s.users[k].uuid == uuid
    ensures r.Some? ==> exists k :: 0 <= k < |s.users| && s.users[k].uuid == uuid && s.users[k].token == r.value
  {
    match FirstRow(s.users, ByUuid, uuid)
    case None => None
    case Some(k) => Some(s.users[k].token)
  }

  // ---------------------------------------------------------------------
  // Scoped reads

  /** A LISTS row as reads return it to `viewer`. */
  function ListView(lists: map<Id, ListRow>, id: Id, viewer: Id): (l: List)
    requires id in lists
    ensures l.uuid == id && l.name == lists[id].name && l.owner == lists[id].owner
    ensures l.imOwner <==> lists[id].owner == viewer
  {
    List(id, lists[id].name, lists[id].owner, lists[id].owner == viewer)
  }

  /** `list_from_uuid`. */
  function ListFromUuid(s: Store, id: Id, viewer: Id): (r: Option<List>)
    ensures r.Some? <==> id in s.lists
    ensures r.Some? ==> r.value == ListView(s.lists, id, viewer)
  {
    if id in s.lists then Some(ListView(s.lists, id, viewer)) else None
  }

  /** The LIST_USERS ⋈ LISTS join for one user, over the rows `ms`. */
  function ListsOfRows(lists: map<Id, ListRow>, ms: seq<Member>, user: Id): (r: seq<List>)
    ensures forall i :: 0 <= i < |r| ==> r[i].uuid in lists && r[i] == ListView(lists, r[i].uuid, user)
  {
    if |ms| == 0 then []
    else
      var m := ms[0];
      var rest := ListsOfRows(lists, ms[1..], user);
      if m.user == user && m.list in lists then [ListView(lists, m.list, user)] + rest else rest
  }

  /** The join yields one copy of an existing list per membership row (list, user). */
  lemma {:induction false} ListsOfRowsCountOne(lists: map<Id, ListRow>, ms: seq<Member>, user: Id, id: Id)
    requires id in lists
    ensures multiset(ListsOfRows(lists, ms, user))[ListView(lists, id, user)] == multiset(ms)[Member(id, user)]
  {
    if |ms| > 0 {
      var m := ms[0];
      ListsOfRowsCountOne(lists, ms[1..], user, id);
      assert ms == [m] + ms[1..];
      assert multiset(ms) == multiset{m} + multiset(ms[1..]);
      if m.user == user && m.list in lists {
        assert ListView(lists, m.list, user) == ListView(lists, id, user) <==> m.list == id;
      }
    }
  }

  /** The join yields one entry per membership row of `user` whose list exists. */
  lemma ListsOfRowsCount(lists: map<Id, ListRow>, ms: seq<Member>, user: Id)
    ensures forall id :: id in lists ==>
              multiset(ListsOfRows(lists, ms, user))[ListView(lists, id, user)] == multiset(ms)[Member(id, user)]
  {
    forall id | id in lists
      ensures multiset(ListsOfRows(lists, ms, user))[ListView(lists, id, user)] == multiset(ms)[Member(id, user)]
    {
      ListsOfRowsCountOne(lists, ms, user, id);
    }
  }

  /** `lists_of_user`: one entry per membership row of the user whose list
      exists, `imOwner` exactly on the lists the user owns. */
  function ListsOfUser(s: Store, user: Id): (r: seq<List>)
    ensures forall i :: 0 <= i < |r| ==>
              r[i].uuid in s.lists && Member(r[i].uuid, user) in s.members
              && r[i].name == s.lists[r[i].uuid].name && r[i].owner == s.lists[r[i].uuid].owner
              && (r[i].imOwner <==> r[i].owner == user)
    ensures forall id :: id in s.lists ==>
              multiset(r)[ListView(s.lists, id, user)] == multiset(s.members)[Member(id, user)]
  {
    ListsOfRowsCount(s.lists, s.members, user);
    var r := ListsOfRows(s.lists, s.members, user);
    assert forall i :: 0 <= i < |r| ==> r[i] in multiset(r);
    r
  }

  /** A USERS row, found by uuid, as reads return it to `viewer`. */
  function UserViewOf(s: Store, id: Id, viewer: Id): (u: User)
    requires IsUser(s, id)
    ensures u.uuid == id && (u.isMe <==> id == viewer)
    ensures exists k :: 0 <= k < |s.users| && s.users[k].uuid == id
                        && s.users[k].email == u.email && s.users[k].name == u.name
                        && s.users[k].canCreate == u.canCreate
  {
    UserView(s.users[FirstRow(s.users, ByUuid, id).value], viewer)
  }

  /** The LIST_USERS ⋈ USERS join for one list, over the rows `ms`. */
  function UsersOfRows(s: Store, ms: seq<Member>, list: Id, viewer: Id): (r: seq<User>)
    ensures forall i :: 0 <= i < |r| ==> IsUser(s, r[i].uuid) && r[i] == UserViewOf(s, r[i].uuid, viewer)
  {
    if |ms| == 0 then []
    else
      var m := ms[0];
      var rest := UsersOfRows(s, ms[1..], list, viewer);
      if m.list == list && IsUser(s, m.user) then [UserViewOf(s, m.user, viewer)] + rest else rest
  }

  /** One step of the join: the first row contributes its user exactly
      when it is a row of `list` whose user exists. */
  lemma UsersOfRowsHead(s: Store, ms: seq<Member>, list: Id, viewer: Id, id: Id)
    requires |ms| > 0 && IsUser(s, id)
    ensures multiset(UsersOfRows(s, ms, list, viewer))[UserViewOf(s, id, viewer)]
            == (if ms[0] == Member(list, id) then 1 else 0)
               + multiset(UsersOfRows(s, ms[1..], list, viewer))[UserViewOf(s, id, viewer)]
  {
    var m := ms[0];
    var rest := UsersOfRows(s, ms[1..], list, viewer);
    var u := UserViewOf(s, id, viewer);
    if m.list == list && IsUser(s, m.user) {
      var v := UserViewOf(s, m.user, viewer);
      assert UsersOfRows(s, ms, list, viewer) == [v] + rest;
      assert multiset([v] + rest) == multiset{v} + multiset(rest);
      assert v.uuid == m.user && u.uuid == id;
    } else {
      assert UsersOfRows(s, ms, list, viewer) == rest;
    }
  }

  lemma MembersHead(ms: seq<Member>, x: Member)
    requires |ms| > 0
    ensures multiset(ms)[x] == (if ms[0] == x then 1 else 0) + multiset(ms[1..])[x]
  {
    assert ms == [ms[0]] + ms[1..];
    assert multiset(ms) == multiset{ms[0]} + multiset(ms[1..]);
  }

  /** The join yields one copy of an existing user per membership row (list, user). */
  lemma {:induction false} UsersOfRowsCountOne(s: Store, ms: seq<Member>, list: Id, viewer: Id, id: Id)
    requires IsUser(s, id)
    ensures multiset(UsersOfRows(s, ms, list, viewer))[UserViewOf(s, id, viewer)] == multiset(ms)[Member(list, id)]
  {
    if |ms| > 0 {
      UsersOfRowsCountOne(s, ms[1..], list, viewer, id);
      MembersHead(ms, Member(list, id));
      UsersOfRowsHead(s, ms, list, viewer, id);
    }
  }

  /** The join yields one entry per membership row of `list` whose user exists. */
  lemma UsersOfRowsCount(s: Store, ms: seq<Member>, list: Id, viewer: Id)
    ensures forall id :: IsUser(s, id) ==>
              multiset(UsersOfRows(s, ms, list, viewer))[UserViewOf(s, id, viewer)] == multiset(ms)[Member(list, id)]
  {
    forall id | IsUser(s, id)
      ensures multiset(UsersOfRows(s, ms, list, viewer))[UserViewOf(s, id, viewer)] == multiset(ms)[Member(list, id)]
    {
      UsersOfRowsCountOne(s, ms, list, viewer, id);
    }
  }

  /** `users_of_list`: one entry per membership row of the list whose user
      exists, `isMe` exactly on the viewer. */
  function UsersOfList(s: Store, list: Id, viewer: Id): (r: seq<User>)
    ensures forall i :: 0 <= i < |r| ==>
              IsUser(s, r[i].uuid) && Member(list, r[i].uuid) in s.members
              && r[i] == UserViewOf(s, r[i].uuid, viewer) && (r[i].isMe <==> r[i].uuid == viewer)
    ensures forall id :: IsUser(s, id) ==>
              multiset(r)[UserViewOf(s, id, viewer)] == multiset(s.members)[Member(list, id)]
  {
    UsersOfRowsCount(s, s.members, list, viewer);
    var r := UsersOfRows(s, s.members, list, viewer);
    assert forall i :: 0 <= i < |r| ==> r[i] in multiset(r);
    r
  }

  /** The claimer of a gift, as the LEFT JOIN on USERS resolves it: the
      user's id and name, with the e-mail blank and no create permission. */
  function ClaimerView(s: Store, claimer: Id, viewer: Id): (r: Option<User>)
    ensures r.Some? <==> IsUser(s, claimer)
    ensures r.Some? ==> r.value.uuid == claimer && (r.value.isMe <==> claimer == viewer)
    ensures r.Some? ==> r.value == UserViewOf(s, claimer, viewer).(email := "", canCreate := false)
  {
    match FirstRow(s.users, ByUuid, claimer)
    case None => None
    case Some(k) => Some(User(claimer, "", s.users[k].name, false, claimer == viewer))
  }

  /** An ITEMS row as reads return it to `viewer`. */
  function GiftView(s: Store, id: Id, viewer: Id): (g: Gift)
    requires id in s.gifts
    ensures g.uuid == id && g.owner == s.gifts[id].owner && g.url == s.gifts[id].url
            && g.comment == s.gifts[id].comment && g.claimed == s.gifts[id].claimed
            && g.alternateTo == s.gifts[id].alternateTo
    ensures g.claimedBy == ClaimerView(s, s.gifts[id].claimedBy, viewer)
    ensures g.claimedBy.Some? <==> IsUser(s, s.gifts[id].claimedBy)
    ensures g.claimedBy.Some? ==>
              g.claimedBy.value.uuid == s.gifts[id].claimedBy && (g.claimedBy.value.isMe <==> s.gifts[id].claimedBy == viewer)
  {
    var row := s.gifts[id];
    Gift(id, row.owner, row.url, row.comment, row.claimed, ClaimerView(s, row.claimedBy, viewer), row.alternateTo)
  }

  /** `gift_from_uuid`. */
  function GiftFromUuid(s: Store, id: Id, viewer: Id): (r: Option<Gift>)
    ensures r.Some? <==> id in s.gifts
    ensures r.Some? ==> r.value == GiftView(s, id, viewer)
  {
    if id in s.gifts then Some(GiftView(s, id, viewer)) else None
  }

  /** The LIST_ITEMS ⋈ ITEMS join for one (list, owner) pair, over the rows `its`. */
  function GiftsOfRows(s: Store, its: seq<Item>, list: Id, user: Id, viewer: Id): (r: seq<Gift>)
    ensures forall i :: 0 <= i < |r| ==> r[i].uuid in s.gifts && r[i] == GiftView(s, r[i].uuid, viewer)
  {
    if |its| == 0 then []
    else
      var it := its[0];
      var rest := GiftsOfRows(s, its[1..], list, user, viewer);
      if it.list == list && it.user == user && it.gift in s.gifts then [GiftView(s, it.gift, viewer)] + rest
      else rest
  }

  /** The join yields one copy of a stored gift per LIST_ITEMS row (list, user, gift). */
  lemma {:induction false} GiftsOfRowsCountOne(s: Store, its: seq<Item>, list: Id, user: Id, viewer: Id, id: Id)
    requires id in s.gifts
    ensures multiset(GiftsOfRows(s, its, list, user, viewer))[GiftView(s, id, viewer)] == multiset(its)[Item(list, user, id)]
  {
    if |its| > 0 {
      var it := its[0];
      GiftsOfRowsCountOne(s, its[1..], list, user, viewer, id);
      assert its == [it] + its[1..];
      assert multiset(its) == multiset{it} + multiset(its[1..]);
      if it.list == list && it.user == user && it.gift in s.gifts {
        assert GiftView(s, it.gift, viewer) == GiftView(s, id, viewer) <==> it.gift == id;
      }
    }
  }

  /** The join yields one gift per LIST_ITEMS row (list, user) whose gift exists. */
  lemma GiftsOfRowsCount(s: Store, its: seq<Item>, list: Id, user: Id, viewer: Id)
    ensures forall id :: id in s.gifts ==>
              multiset(GiftsOfRows(s, its, list, user, viewer))[GiftView(s, id, viewer)]
              == multiset(its)[Item(list, user, id)]
  {
    forall id | id in s.gifts
      ensures multiset(GiftsOfRows(s, its, list, user, viewer))[GiftView(s, id, viewer)]
              == multiset(its)[Item(list, user, id)]
    {
      GiftsOfRowsCountOne(s, its, list, user, viewer, id);
    }
  }

  /** `gifts_of_list_user`: one gift per LIST_ITEMS row (list, user) whose gift exists. */
  function GiftsOfListUser(s: Store, list: Id, user: Id, viewer: Id): (r: seq<Gift>)
    ensures forall i :: 0 <= i < |r| ==>
              r[i].uuid in s.gifts && Item(list, user, r[i].uuid) in s.items && r[i] == GiftView(s, r[i].uuid, viewer)
    ensures forall id :: id in s.gifts ==>
              multiset(r)[GiftView(s, id, viewer)] == multiset(s.items)[Item(list, user, id)]
  {
    GiftsOfRowsCount(s, s.items, list, user, viewer);
    var r := GiftsOfRows(s, s.items, list, user, viewer);
    assert forall i :: 0 <= i < |r| ==> r[i] in multiset(r);
    r
  }

  // ---------------------------------------------------------------------
  // Writes.  An INSERT that would break a primary key yields None.

  /** Appending a USERS row never changes which row a lookup finds first,
      and finds the new row only when nothing earlier matches. */
  lemma {:induction false} FirstRowAppend(users: seq<UserRow>, row: UserRow, col: Column, v: string)
    ensures FirstRow(users + [row], col, v) ==
              if FirstRow(users, col, v).Some? then FirstRow(users, col, v)
              else if Key(row, col) == v then Some(|users|) else None
  {
    if |users| > 0 {
      assert (users + [row])[1..] == users[1..] + [row];
      FirstRowAppend(users[1..], row, col, v);
    }
  }

  /** `create_user`: a new USERS row; refused when the uuid is taken. */
  function CreateUser(s: Store, user: User, token: string): (r: Option<Store>)
    ensures r.None? <==> IsUser(s, user.uuid)
    ensures r.Some? ==>
              r.value.lists == s.lists && r.value.members == s.members && r.value.gifts == s.gifts && r.value.items == s.items
    ensures r.Some? ==> r.value.users == s.users + [UserRow(user.uuid, token, user.email, user.name, user.canCreate)]
    ensures r.Some? ==> UserOfToken(r.value, token).Some? && (UserOfToken(s, token).None? ==> UserOfToken(r.value, token) == Some(user.uuid))
    ensures UsersKeyed(s) && r.Some? ==> UsersKeyed(r.value)
  {
    if IsUser(s, user.uuid) then None
    else
      var row := UserRow(user.uuid, token, user.email, user.name, user.canCreate);
      var s' := s.(users := s.users + [row]);
      FirstRowAppend(s.users, row, ByToken, token);
      assert s'.users[..|s.users|] == s.users;
      Some(s')
  }

  /** `add_user_to_list`: one more LIST_USERS row, duplicates included. */
  function AddUserToList(s: Store, user: Id, list: Id): (r: Store)
    ensures multiset(r.members) == multiset(s.members) + multiset{Member(list, user)}
    ensures |r.members| == |s.members| + 1 && r.members[..|s.members|] == s.members
    ensures r.users == s.users && r.lists == s.lists && r.gifts == s.gifts && r.items == s.items
  {
    var r := s.(members := s.members + [Member(list, user)]);
    assert r.members[..|s.members|] == s.members;
    r
  }

  /** `create_list`: the LISTS row plus the owner's LIST_USERS row. */
  function CreateList(s: Store, list: List): (r: Option<Store>)
    ensures r.None? <==> list.uuid in s.lists
    ensures r.Some? ==>
              r.value.lists.Keys == s.lists.Keys + {list.uuid} && r.value.lists[list.uuid] == ListRow(list.name, list.owner)
              && forall id :: id in s.lists ==> r.value.lists[id] == s.lists[id]
    ensures r.Some? ==> multiset(r.value.members) == multiset(s.members) + multiset{Member(list.uuid, list.owner)}
    ensures r.Some? ==> r.value.users == s.users && r.value.gifts == s.gifts && r.value.items == s.items
  {
    if list.uuid in s.lists then None
    else Some(AddUserToList(s.(lists := s.lists[list.uuid := ListRow(list.name, list.owner)]), list.owner, list.uuid))
  }

  /** `create_gift`: an unclaimed ITEMS row (claim fields are not taken from
      `gift`) plus exactly one LIST_ITEMS row (list, owner, gift). */
  function CreateGift(s: Store, gift: Gift, list: Id): (r: Option<Store>)
    ensures r.None? <==> gift.uuid in s.gifts
    ensures r.Some? ==>
              r.value.gifts.Keys == s.gifts.Keys + {gift.uuid} && forall id :: id in s.gifts ==> r.value.gifts[id] == s.gifts[id]
    ensures r.Some? ==> var g := r.value.gifts[gift.uuid];
      g.owner == gift.owner && g.url == gift.url && g.comment == gift.comment
      && !g.claimed && g.claimedBy == NoClaimer && g.alternateTo == gift.alternateTo
    ensures r.Some? ==>
              multiset(r.value.items) == multiset(s.items) + multiset{Item(list, gift.owner, gift.uuid)}
              && |r.value.items| == |s.items| + 1 && r.value.items[..|s.items|] == s.items
    ensures r.Some? ==> r.value.users == s.users && r.value.lists == s.lists && r.value.members == s.members
  {
    if gift.uuid in s.gifts then None
    else
      var row := GiftRow(gift.owner, gift.url, gift.comment, false, NoClaimer, gift.alternateTo);
      var items := s.items + [Item(list, gift.owner, gift.uuid)];
      assert items[..|s.items|] == s.items;
      Some(s.(gifts := s.gifts[gift.uuid := row], items := items))
  }

  /** The claimer id `modify_gift` writes: the user's id, or the sentinel. */
  function ClaimerId(claimer: Option<User>): (r: Id)
    ensures claimer.Some? ==> r == claimer.value.uuid
    ensures claimer.None? ==> r == NoClaimer
  {
    match claimer
    case None => NoClaimer
    case Some(u) => u.uuid
  }

  /** `modify_list`: renames the list; nothing else. */
  function ModifyList(s: Store, list: List): (r: Store)
    ensures r.lists.Keys == s.lists.Keys
    ensures list.uuid in s.lists ==> r.lists[list.uuid] == s.lists[list.uuid].(name := list.name)
    ensures forall id :: id in s.lists && id != list.uuid ==> r.lists[id] == s.lists[id]
    ensures r.users == s.users && r.members == s.members && r.gifts == s.gifts && r.items == s.items
  {
    if list.uuid in s.lists then s.(lists := s.lists[list.uuid := s.lists[list.uuid].(name := list.name)])
    else s
  }

  /** `modify_gift`: overwrites url, comment, claimed and claimer of one ITEMS
      row; the owner and the alternate are never written. */
  function ModifyGift(s: Store, gift: Gift): (r: Store)
    ensures r.gifts.Keys == s.gifts.Keys
    ensures gift.uuid in s.gifts ==> var g := r.gifts[gift.uuid];
      g.url == gift.url && g.comment == gift.comment && g.claimed == gift.claimed
      && g.claimedBy == ClaimerId(gift.claimedBy)
      && g.owner == s.gifts[gift.uuid].owner && g.alternateTo == s.gifts[gift.uuid].alternateTo
    ensures forall id :: id in s.gifts && id != gift.uuid ==> r.gifts[id] == s.gifts[id]
    ensures r.users == s.users && r.lists == s.lists && r.members == s.members && r.items == s.items
  {
    if gift.uuid in s.gifts then
      var prev := s.gifts[gift.uuid];
      var row := prev.(url := gift.url, comment := gift.comment, claimed := gift.claimed,
                       claimedBy := ClaimerId(gift.claimedBy));
      s.(gifts := s.gifts[gift.uuid := row])
    else s
  }

  /** `delete_gift`: the ITEMS row and all of its LIST_ITEMS rows. */
  function DeleteGift(s: Store, id: Id): (r: Store)
    ensures r.gifts.Keys == s.gifts.Keys - {id}
    ensures forall x :: x in r.gifts ==> r.gifts[x] == s.gifts[x]
    ensures forall it :: multiset(r.items)[it] == if it.gift == id then 0 else multiset(s.items)[it]
    ensures r.users == s.users && r.lists == s.lists && r.members == s.members
  {
    s.(gifts := s.gifts - {id}, items := Filter(s.items, (it: Item) => it.gift != id))
  }

  /** The gifts a LIST_ITEMS row ties to `list`. */
  function GiftsLinkedTo(items: seq<Item>, list: Id): (ids: set<Id>) {
    set it | it in items && it.list == list :: it.gift
  }

  /** `delete_list`: the LISTS row, its LIST_USERS rows, every gift a
      LIST_ITEMS row ties to it, and those LIST_ITEMS rows. */
  function DeleteList(s: Store, list: Id): (r: Store)
    ensures r.lists.Keys == s.lists.Keys - {list}
    ensures forall id :: id in r.lists ==> r.lists[id] == s.lists[id]
    ensures forall m :: multiset(r.members)[m] == if m.list == list then 0 else multiset(s.members)[m]
    ensures forall x :: x in r.gifts <==> x in s.gifts && forall it :: it in s.items && it.gift == x ==> it.list != list
    ensures forall x :: x in r.gifts ==> r.gifts[x] == s.gifts[x]
    ensures forall it :: multiset(r.items)[it] == if it.list == list then 0 else multiset(s.items)[it]
    ensures r.users == s.users
  {
    s.(lists := s.lists - {list},
       members := Filter(s.members, (m: Member) => m.list != list),
       gifts := s.gifts - GiftsLinkedTo(s.items, list),
       items := Filter(s.items, (it: Item) => it.list != list))
  }
}
