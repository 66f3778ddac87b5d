/**
 The list-administration handlers: create a list and invite its members,
 rename a list and invite members it does not have yet, delete a list.  An
 invitation finds the user by e-mail or registers a new one, adds a
 membership row, and hands the user's login token to the mailer; the mail
 itself is not modelled, the invitation it would carry is returned.

 Random values come from a supplied sequence: a new list takes one id, a new
 user takes a login token and then a user id.
 */
module ListAdmin {
  import opened Data
  import Db
  import opened Replies

  /** What the invitation e-mail carries. */
  datatype Invite = Invite(listName: string, user: User, token: string)

  /** A handler's reply, with the invitations sent and how many random values
      were drawn from the supply. */
  datatype Admin = Admin(outcome: Outcome, store: Db.Store, invites: seq<Invite>, used: nat)

  function Emails(us: seq<User>): (r: seq<string>)
    ensures |r| == |us| && forall i :: 0 <= i < |us| ==> r[i] == us[i].email
  {
    seq(|us|, i requires 0 <= i < |us| => us[i].email)
  }

  /** The user a known e-mail resolves to, as `user_from_email` reads it. */
  function Invitee(s: Db.Store, email: string): (r: Option<Id>) {
    match Db.UserFromEmail(s, email)
    case None => None
    case Some(u) => Some(u.uuid)
  }

  /** `create_user_and_add_to_list`: invite one member to `list`. */
  function CreateUserAndAddToList(s: Db.Store, listName: string, list: Id, me: Id, lu: ListUser, supply: seq<Id>): (r: Admin)
    requires |supply| >= 2
    ensures r.store.lists == s.lists && r.store.gifts == s.gifts && r.store.items == s.items
    ensures |s.members| <= |r.store.members| && r.store.members[..|s.members|] == s.members
    ensures |s.users| <= |r.store.users| && r.store.users[..|s.users|] == s.users
    ensures Invitee(s, lu.email).Some? ==>
              r.outcome == Done && r.used == 0 && r.store.users == s.users
              && r.store.members == s.members + [Db.Member(list, Invitee(s, lu.email).value)]
    ensures Invitee(s, lu.email).None? ==>
              r.used == 2
              && (r.outcome == Done <==> !Db.IsUser(s, supply[1]))
              && (r.outcome.Failed? ==> r == Admin(Failed(StoreFailure), s, [], 2))
              && (r.outcome == Done ==>
                    r.store.users == s.users + [Db.UserRow(supply[1], supply[0], lu.email, lu.name, false)]
                    && r.store.members == s.members + [Db.Member(list, supply[1])])
    ensures r.outcome == Done ==>
              |r.invites| == 1 && r.invites[0].listName == listName
              && r.invites[0].user.email == lu.email && Invitee(r.store, lu.email) == Some(r.invites[0].user.uuid)
              && Db.TokenOfUser(r.store, r.invites[0].user.uuid) == Some(r.invites[0].token)
    ensures r.outcome.Failed? ==> r.invites == []
  {
    match Db.UserFromEmail(s, lu.email)
    case Some(u) =>
      var s1 := Db.AddUserToList(s, u.uuid, list);
      assert s1.members == s.members + [Db.Member(list, u.uuid)];
      (match Db.TokenOfUser(s1, u.uuid)
       case None => Admin(Failed(MissingRow), s1, [], 0)
       case Some(t) => Admin(Done, s1, [Invite(listName, u, t)], 0))
    case None =>
      var token := supply[0];
      var uuid := supply[1];
      match Db.CreateUser(s, User(uuid, lu.email, lu.name, false, false), token)
      case None => Admin(Failed(StoreFailure), s, [], 2)
      case Some(s1) =>
        var row := Db.UserRow(uuid, token, lu.email, lu.name, false);
        assert s1.users == s.users + [row];
        Db.FirstRowAppend(s.users, row, Db.ByUuid, uuid);
        Db.FirstRowAppend(s.users, row, Db.ByEmail, lu.email);
        match Db.UserFromUuid(s1, uuid, me)
        case None => Admin(Failed(MissingRow), s1, [], 2)
        case Some(u) =>
          var s2 := Db.AddUserToList(s1, u.uuid, list);
          assert s2.members == s.members + [Db.Member(list, uuid)];
          assert s2.users == s1.users;
          match Db.TokenOfUser(s2, u.uuid)
          case None => Admin(Failed(MissingRow), s2, [], 2)
          case Some(t) => Admin(Done, s2, [Invite(listName, u, t)], 2)
  }

  /** Some user with that e-mail has a membership row for the list. */
  predicate HasMemberWithEmail(s: Db.Store, list: Id, email: string) {
    exists k :: 0 <= k < |s.users| && s.users[k].email == email && Db.Member(list, s.users[k].uuid) in s.members
  }

  /** `t` extends `s`: rows are only ever appended to USERS and LIST_USERS. */
  predicate Extends(s: Db.Store, t: Db.Store) {
    |s.users| <= |t.users| && t.users[..|s.users|] == s.users
    && |s.members| <= |t.members| && t.members[..|s.members|] == s.members
  }

  /** Appending rows keeps every known e-mail resolving to the same user and
      every membership by e-mail in place. */
  lemma ExtendsKeeps(s: Db.Store, t: Db.Store, list: Id, email: string)
    requires Extends(s, t)
    ensures Invitee(s, email).Some? ==> Invitee(t, email) == Invitee(s, email)
    ensures HasMemberWithEmail(s, list, email) ==> HasMemberWithEmail(t, list, email)
    ensures forall x :: x in s.members ==> x in t.members
  {
    assert forall k :: 0 <= k < |s.users| ==> t.users[k] == s.users[k];
    assert forall x :: x in s.members ==> x in t.members by {
      forall x | x in s.members
        ensures x in t.members
      {
        var i :| 0 <= i < |s.members| && s.members[i] == x;
        assert t.members[i] == x;
      }
    }
    var a := Db.FirstRow(s.users, Db.ByEmail, email);
    var b := Db.FirstRow(t.users, Db.ByEmail, email);
    if a.Some? {
      assert b.Some?;
      assert b.value == a.value;
    }
  }

  /** Extension is transitive. */
  lemma ExtendsTrans(s: Db.Store, t: Db.Store, u: Db.Store)
    requires Extends(s, t) && Extends(t, u)
    ensures Extends(s, u)
  {
    assert u.users[..|s.users|] == u.users[..|t.users|][..|s.users|];
    assert u.members[..|s.members|] == u.members[..|t.members|][..|s.members|];
  }

  /** The submitted members whose e-mail is not skipped, in order. */
  function Invited(users: seq<ListUser>, skip: seq<string>): (r: seq<ListUser>)
    ensures |r| <= |users|
    ensures forall x :: x in r <==> x in users && x.email !in skip
  {
    if |users| == 0 then []
    else if users[0].email in skip then Invited(users[1..], skip)
    else [users[0]] + Invited(users[1..], skip)
  }

  /** The invitation loop of `create_list` and `modify_list`: every member
      whose e-mail is not in `skip` is invited, in order; the first failure
      stops the loop with the earlier invitations in place. */
  function AddMembers(s: Db.Store, listName: string, list: Id, me: Id, users: seq<ListUser>, skip: seq<string>,
                      supply: seq<Id>): (r: Admin)
    requires |supply| >= 2 * |users|
    ensures r.store.lists == s.lists && r.store.gifts == s.gifts && r.store.items == s.items
    ensures Extends(s, r.store) && r.used <= |supply|
    ensures r.outcome.Failed? ==> r.outcome == Failed(StoreFailure)
    ensures (forall k :: 0 <= k < |users| ==> users[k].email in skip) ==> r == Admin(Done, s, [], 0)
    decreases |users|
  {
    if |users| == 0 then Admin(Done, s, [], 0)
    else
      assert forall k :: 1 <= k < |users| ==> users[k] == users[1..][k - 1];
      if users[0].email in skip then AddMembers(s, listName, list, me, users[1..], skip, supply)
      else
        var one := CreateUserAndAddToList(s, listName, list, me, users[0], supply);
        if one.outcome.Failed? then one
        else
          var rest := AddMembers(one.store, listName, list, me, users[1..], skip, supply[one.used..]);
          ExtendsTrans(s, one.store, rest.store);
          Admin(rest.outcome, rest.store, one.invites + rest.invites, one.used + rest.used)
  }

  /** A successful invitation makes the e-mail resolve to a member. */
  lemma InviteJoins(s: Db.Store, listName: string, list: Id, me: Id, lu: ListUser, supply: seq<Id>)
    requires |supply| >= 2
    ensures var r := CreateUserAndAddToList(s, listName, list, me, lu, supply);
            r.outcome == Done ==>
              Invitee(r.store, lu.email).Some?
              && Db.Member(list, Invitee(r.store, lu.email).value) in r.store.members
              && HasMemberWithEmail(r.store, list, lu.email)
  {
    var r := CreateUserAndAddToList(s, listName, list, me, lu, supply);
    if r.outcome == Done {
      var uid := Invitee(r.store, lu.email).value;
      assert r.store.members[|s.members|] == Db.Member(list, uid);
      var k := Db.FirstRow(r.store.users, Db.ByEmail, lu.email).value;
      assert r.store.users[k].email == lu.email && r.store.users[k].uuid == uid;
    }
  }

  /** Memberships by e-mail survive the invitation loop. */
  lemma AddMembersKeeps(s: Db.Store, listName: string, list: Id, me: Id, users: seq<ListUser>, skip: seq<string>,
                        supply: seq<Id>, e: string)
    requires |supply| >= 2 * |users|
    requires HasMemberWithEmail(s, list, e)
    ensures HasMemberWithEmail(AddMembers(s, listName, list, me, users, skip, supply).store, list, e)
  {
    ExtendsKeeps(s, AddMembers(s, listName, list, me, users, skip, supply).store, list, e);
  }

  /** After a successful loop, a member not skipped is found by e-mail and
      has a membership row for the list. */
  lemma {:induction false} AddMembersJoinsOne(s: Db.Store, listName: string, list: Id, me: Id, users: seq<ListUser>,
                                              skip: seq<string>, supply: seq<Id>, k: nat)
    requires |supply| >= 2 * |users|
    requires k < |users| && users[k].email !in skip
    requires AddMembers(s, listName, list, me, users, skip, supply).outcome == Done
    ensures var t := AddMembers(s, listName, list, me, users, skip, supply).store;
            Invitee(t, users[k].email).Some?
            && Db.Member(list, Invitee(t, users[k].email).value) in t.members
            && HasMemberWithEmail(t, list, users[k].email)
    decreases |users|
  {
    var t := AddMembers(s, listName, list, me, users, skip, supply).store;
    assert forall j :: 1 <= j < |users| ==> users[j] == users[1..][j - 1];
    if users[0].email in skip {
      AddMembersJoinsOne(s, listName, list, me, users[1..], skip, supply, k - 1);
    } else {
      var one := CreateUserAndAddToList(s, listName, list, me, users[0], supply);
      if k > 0 {
        AddMembersJoinsOne(one.store, listName, list, me, users[1..], skip, supply[one.used..], k - 1);
      } else {
        InviteJoins(s, listName, list, me, users[0], supply);
        ExtendsKeeps(one.store, t, list, users[0].email);
      }
    }
  }

  /** After a successful loop, every member not skipped is found by e-mail
      and has a membership row for the list. */
  lemma AddMembersJoins(s: Db.Store, listName: string, list: Id, me: Id, users: seq<ListUser>,
                        skip: seq<string>, supply: seq<Id>)
    requires |supply| >= 2 * |users|
    ensures var r := AddMembers(s, listName, list, me, users, skip, supply);
            r.outcome == Done ==>
              forall k :: 0 <= k < |users| && users[k].email !in skip ==>
                Invitee(r.store, users[k].email).Some?
                && Db.Member(list, Invitee(r.store, users[k].email).value) in r.store.members
                && HasMemberWithEmail(r.store, list, users[k].email)
  {
    var r := AddMembers(s, listName, list, me, users, skip, supply);
    if r.outcome == Done {
      forall k | 0 <= k < |users| && users[k].email !in skip
        ensures Invitee(r.store, users[k].email).Some?
                && Db.Member(list, Invitee(r.store, users[k].email).value) in r.store.members
                && HasMemberWithEmail(r.store, list, users[k].email)
      {
        AddMembersJoinsOne(s, listName, list, me, users, skip, supply, k);
      }
    }
  }

  /** `invs` invites the members `us` to `listName`, one each, in order. */
  predicate InvitesFor(invs: seq<Invite>, listName: string, us: seq<ListUser>) {
    |invs| == |us| && forall i :: 0 <= i < |invs| ==> invs[i].listName == listName && invs[i].user.email == us[i].email
  }

  lemma InvitesForConcat(one: seq<Invite>, rest: seq<Invite>, listName: string, first: ListUser, tail: seq<ListUser>)
    requires |one| == 1 && one[0].listName == listName && one[0].user.email == first.email
    requires InvitesFor(rest, listName, tail)
    ensures InvitesFor(one + rest, listName, [first] + tail)
  {
    forall i | 1 <= i < |one + rest|
      ensures (one + rest)[i] == rest[i - 1] && ([first] + tail)[i] == tail[i - 1]
    {
    }
  }

  /** After a successful loop, the invitations follow the submitted order of
      the members not skipped, one each. */
  lemma {:induction false} AddMembersInvitesInOrder(s: Db.Store, listName: string, list: Id, me: Id, users: seq<ListUser>,
                                                    skip: seq<string>, supply: seq<Id>)
    requires |supply| >= 2 * |users|
    ensures var r := AddMembers(s, listName, list, me, users, skip, supply);
            r.outcome == Done ==> InvitesFor(r.invites, listName, Invited(users, skip))
    decreases |users|
  {
    var r := AddMembers(s, listName, list, me, users, skip, supply);
    if |users| > 0 && r.outcome == Done {
      if users[0].email in skip {
        AddMembersInvitesInOrder(s, listName, list, me, users[1..], skip, supply);
      } else {
        var one := CreateUserAndAddToList(s, listName, list, me, users[0], supply);
        var rest := AddMembers(one.store, listName, list, me, users[1..], skip, supply[one.used..]);
        AddMembersInvitesInOrder(one.store, listName, list, me, users[1..], skip, supply[one.used..]);
        assert r.invites == one.invites + rest.invites;
        InvitesForConcat(one.invites, rest.invites, listName, users[0], Invited(users[1..], skip));
      }
    }
  }

  /** `create_list`: only a user allowed to create lists may; the list gets
      the next fresh id, the creator as owner and first member, and then the
      submitted members are invited. */
  function CreateList(s: Db.Store, me: User, name: string, users: seq<ListUser>, supply: seq<Id>): (r: Admin)
    requires |supply| >= 1 + 2 * |users|
    ensures !me.canCreate ==> r == Admin(Failed(NoCreatePermission), s, [], 0)
    ensures me.canCreate && supply[0] in s.lists ==> r == Admin(Failed(StoreFailure), s, [], 1)
    ensures me.canCreate && r.outcome.Failed? ==> r.outcome == Failed(StoreFailure)
    ensures me.canCreate && supply[0] !in s.lists ==>
              r.store.lists == s.lists[supply[0] := Db.ListRow(name, me.uuid)]
              && Db.Member(supply[0], me.uuid) in r.store.members
              && r.store.gifts == s.gifts && r.store.items == s.items
              && Extends(s, r.store) && r.used <= |supply|
  {
    if !me.canCreate then Admin(Failed(NoCreatePermission), s, [], 0)
    else
      var id := supply[0];
      match Db.CreateList(s, List(id, name, me.uuid, true))
      case None => Admin(Failed(StoreFailure), s, [], 1)
      case Some(s1) =>
        assert s1.lists == s.lists[id := Db.ListRow(name, me.uuid)];
        assert s1 == Db.AddUserToList(s.(lists := s1.lists), me.uuid, id);
        assert Extends(s, s1);
        var r := AddMembers(s1, name, id, me.uuid, users, [], supply[1..]);
        ExtendsTrans(s, s1, r.store);
        assert Db.Member(id, me.uuid) in r.store.members by {
          assert s1.members[|s.members|] == Db.Member(id, me.uuid);
          assert r.store.members[|s.members|] == Db.Member(id, me.uuid);
        }
        r.(used := r.used + 1)
  }

  /** Once `create_list` has inserted the list, the creator sees it as a
      list they own, both by id and among their lists, whatever the
      invitations did afterwards. */
  lemma CreatedListVisibleToOwner(s: Db.Store, me: User, name: string, users: seq<ListUser>, supply: seq<Id>)
    requires |supply| >= 1 + 2 * |users|
    requires me.canCreate && supply[0] !in s.lists
    ensures var t := CreateList(s, me, name, users, supply).store;
            var l := List(supply[0], name, me.uuid, true);
            Db.ListFromUuid(t, supply[0], me.uuid) == Some(l) && l in Db.ListsOfUser(t, me.uuid)
  {
    var t := CreateList(s, me, name, users, supply).store;
    var ls := Db.ListsOfUser(t, me.uuid);
    assert multiset(ls)[Db.ListView(t.lists, supply[0], me.uuid)] > 0;
  }

  /** After a successful `create_list`, every submitted member belongs to the
      list. */
  lemma CreatedListHasMembers(s: Db.Store, me: User, name: string, users: seq<ListUser>, supply: seq<Id>)
    requires |supply| >= 1 + 2 * |users|
    ensures var r := CreateList(s, me, name, users, supply);
            r.outcome == Done ==> forall k :: 0 <= k < |users| ==> HasMemberWithEmail(r.store, supply[0], users[k].email)
  {
    var r := CreateList(s, me, name, users, supply);
    if r.outcome == Done {
      var s1 := Db.CreateList(s, List(supply[0], name, me.uuid, true)).value;
      AddMembersJoins(s1, name, supply[0], me.uuid, users, [], supply[1..]);
    }
  }

  /** `modify_list`: the list must exist and be the actor's own; it is
      renamed, and submitted members whose e-mail no current member has are
      invited.  Members missing from the submission are not removed. */
  function ModifyList(s: Db.Store, me: Id, id: Id, name: string, users: seq<ListUser>, supply: seq<Id>): (r: Admin)
    requires |supply| >= 2 * |users|
    ensures id !in s.lists ==> r == Admin(Failed(MissingRow), s, [], 0)
    ensures id in s.lists && s.lists[id].owner != me ==> r == Admin(Failed(NotOwner), s, [], 0)
    ensures id in s.lists && s.lists[id].owner == me && r.outcome.Failed? ==> r.outcome == Failed(StoreFailure)
    ensures id in s.lists && s.lists[id].owner == me ==>
              r.store.lists == s.lists[id := s.lists[id].(name := name)]
              && r.store.gifts == s.gifts && r.store.items == s.items
              && Extends(s, r.store) && multiset(s.members) <= multiset(r.store.members)
  {
    match Db.ListFromUuid(s, id, me)
    case None => Admin(Failed(MissingRow), s, [], 0)
    case Some(l) =>
      if !l.imOwner then Admin(Failed(NotOwner), s, [], 0)
      else
        var s1 := Db.ModifyList(s, l.(name := name));
        assert s1.lists == s.lists[id := s.lists[id].(name := name)];
        var existing := Emails(Db.UsersOfList(s1, id, me));
        var r := AddMembers(s1, name, id, me, users, existing, supply);
        assert s.members == r.store.members[..|s.members|];
        assert r.store.members == s.members + r.store.members[|s.members|..];
        r
  }

  /** A submitted e-mail that some current member has is not invited again,
      and membership by that e-mail survives. */
  lemma ModifyListSkipsKnownEmails(s: Db.Store, me: Id, id: Id, name: string, users: seq<ListUser>, supply: seq<Id>)
    requires |supply| >= 2 * |users|
    requires id in s.lists && s.lists[id].owner == me
    requires forall k :: 0 <= k < |users| ==> users[k].email in Emails(Db.UsersOfList(s, id, me))
    ensures ModifyList(s, me, id, name, users, supply) ==
              Admin(Done, s.(lists := s.lists[id := s.lists[id].(name := name)]), [], 0)
  {
    var s1 := Db.ModifyList(s, List(id, s.lists[id].name, s.lists[id].owner, true).(name := name));
    UsersOfListIgnoresLists(s, s1, s.members, id, me);
  }

  /** USERS ⋈ LIST_USERS does not read LISTS. */
  lemma {:induction false} UsersOfListIgnoresLists(s: Db.Store, t: Db.Store, ms: seq<Db.Member>, id: Id, viewer: Id)
    requires s.users == t.users
    ensures Db.UsersOfRows(s, ms, id, viewer) == Db.UsersOfRows(t, ms, id, viewer)
  {
    if |ms| > 0 {
      UsersOfListIgnoresLists(s, t, ms[1..], id, viewer);
    }
  }

  /** After a successful `modify_list`, every submitted member belongs to the
      list: either a current member had the e-mail or the invitation added one. */
  lemma ModifiedListHasMembers(s: Db.Store, me: Id, id: Id, name: string, users: seq<ListUser>, supply: seq<Id>)
    requires |supply| >= 2 * |users|
    ensures var r := ModifyList(s, me, id, name, users, supply);
            r.outcome == Done ==> forall k :: 0 <= k < |users| ==> HasMemberWithEmail(r.store, id, users[k].email)
  {
    var r := ModifyList(s, me, id, name, users, supply);
    if r.outcome == Done {
      var s1 := Db.ModifyList(s, Db.ListView(s.lists, id, me).(name := name));
      var us := Db.UsersOfList(s1, id, me);
      var existing := Emails(us);
      AddMembersJoins(s1, name, id, me, users, existing, supply);
      forall k | 0 <= k < |users| && users[k].email in existing
        ensures HasMemberWithEmail(r.store, id, users[k].email)
      {
        var i :| 0 <= i < |us| && existing[i] == users[k].email;
        assert Db.IsUser(s1, us[i].uuid) && Db.Member(id, us[i].uuid) in s1.members;
        assert HasMemberWithEmail(s1, id, users[k].email);
        AddMembersKeeps(s1, name, id, me, users, existing, supply, users[k].email);
      }
    }
  }

  /** A successful `modify_list` invites, in submission order, exactly the
      submitted members whose e-mail no current member of the list has, to
      the list under its new name. */
  lemma ModifyListInvitesNewEmails(s: Db.Store, me: Id, id: Id, name: string, users: seq<ListUser>, supply: seq<Id>)
    requires |supply| >= 2 * |users|
    ensures var r := ModifyList(s, me, id, name, users, supply);
            r.outcome == Done ==> InvitesFor(r.invites, name, Invited(users, Emails(Db.UsersOfList(s, id, me))))
  {
    var r := ModifyList(s, me, id, name, users, supply);
    if r.outcome == Done {
      var s1 := Db.ModifyList(s, Db.ListView(s.lists, id, me).(name := name));
      UsersOfListIgnoresLists(s, s1, s.members, id, me);
      AddMembersInvitesInOrder(s1, name, id, me, users, Emails(Db.UsersOfList(s1, id, me)), supply);
    }
  }

  /** With nothing to skip, every member is invited. */
  lemma {:induction false} InvitedAll(users: seq<ListUser>)
    ensures Invited(users, []) == users
  {
    if |users| > 0 {
      InvitedAll(users[1..]);
      assert users == [users[0]] + users[1..];
    }
  }

  /** A successful `create_list` invites every submitted member, in order,
      to the new list. */
  lemma CreatedListInvitesAll(s: Db.Store, me: User, name: string, users: seq<ListUser>, supply: seq<Id>)
    requires |supply| >= 1 + 2 * |users|
    ensures var r := CreateList(s, me, name, users, supply);
            r.outcome == Done ==> InvitesFor(r.invites, name, users)
  {
    var r := CreateList(s, me, name, users, supply);
    if r.outcome == Done {
      var s1 := Db.CreateList(s, List(supply[0], name, me.uuid, true)).value;
      AddMembersInvitesInOrder(s1, name, supply[0], me.uuid, users, [], supply[1..]);
      InvitedAll(users);
    }
  }

  /** `delete_list`: the list must exist and be the actor's own; the list,
      its memberships, its item rows and the gifts listed on it go. */
  function DeleteList(s: Db.Store, me: Id, id: Id): (r: Reply)
    ensures id !in s.lists ==> r == Reply(Failed(MissingRow), s)
    ensures id in s.lists && s.lists[id].owner != me ==> r == Reply(Failed(NotOwner), s)
    ensures r.outcome == Done <==> id in s.lists && s.lists[id].owner == me
    ensures r.outcome == Done ==> r.store == Db.DeleteList(s, id)
    ensures r.outcome == Done ==>
              id !in r.store.lists && r.store.users == s.users
              && (forall l :: l in s.lists && l != id ==> l in r.store.lists && r.store.lists[l] == s.lists[l])
              && (forall m :: m in r.store.members ==> m.list != id)
              && (forall it :: it in s.items && it.list == id ==> it.gift !in r.store.gifts)
              && (forall it :: it in r.store.items ==> it.list != id)
  {
    match Db.ListFromUuid(s, id, me)
    case None => Reply(Failed(MissingRow), s)
    case Some(l) =>
      if !l.imOwner then Reply(Failed(NotOwner), s)
      else
        var r := Db.DeleteList(s, id);
        assert forall m :: m in r.members ==> multiset(r.members)[m] > 0;
        assert forall it :: it in r.items ==> multiset(r.items)[it] > 0;
        Reply(Done, r)
  }

  /** After a successful `delete_list` nobody sees the list any more. */
  lemma DeletedListGone(s: Db.Store, me: Id, id: Id, user: Id)
    requires DeleteList(s, me, id).outcome == Done
    ensures var t := DeleteList(s, me, id).store;
            Db.ListFromUuid(t, id, user).None? && forall l :: l in Db.ListsOfUser(t, user) ==> l.uuid != id
  {
  }
}
