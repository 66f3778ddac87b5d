/**
 Reconciliation of one owner's gift list with a submitted snapshot
 (`modify_gift_list`): mint an id for every placeholder row first, delete the
 stored gifts of (list, owner) that the snapshot no longer names, then create
 or update the submitted rows in order.  Nothing is transactional: a failing
 row leaves every earlier delete and create in place.

 Random UUIDs come from a supplied sequence `supply`, consumed in the order the
 service generates them: one per placeholder row while the id map is built,
 then one per empty-id row during the upsert pass.
 */
module Reconcile {
  import opened Data
  import opened Db
  import opened Replies

  /** The prefix the client gives the ids of rows it has not saved yet. */
  const Placeholder: string := "newRow-"

  predicate IsPlaceholder(id: string) {
    |Placeholder| <= |id| && id[..|Placeholder|] == Placeholder
  }

  predicate Distinct(xs: seq<Id>) {
    forall i, j :: 0 <= i < j < |xs| ==> xs[i] != xs[j]
  }

  /** The placeholders a snapshot uses as row ids. */
  function Placeholders(gs: seq<FormGift>): (ps: set<string>) {
    set k | 0 <= k < |gs| && IsPlaceholder(gs[k].uuid) :: gs[k].uuid
  }

  function PlaceholderCount(gs: seq<FormGift>): (n: nat)
    ensures n <= |gs|
  {
    if |gs| == 0 then 0 else (if IsPlaceholder(gs[0].uuid) then 1 else 0) + PlaceholderCount(gs[1..])
  }

  function EmptyCount(gs: seq<FormGift>): (n: nat)
    ensures n <= |gs|
  {
    if |gs| == 0 then 0 else (if gs[0].uuid == "" then 1 else 0) + EmptyCount(gs[1..])
  }

  /** How many fresh ids a snapshot can consume. */
  function Needed(gs: seq<FormGift>): (n: nat) {
    PlaceholderCount(gs) + EmptyCount(gs)
  }

  /** The id map built before anything is written: each placeholder row,
      in order, inserts its placeholder with the next fresh id (a repeated
      placeholder overwrites its earlier entry, as a hash map insert does). */
  function Mint(gs: seq<FormGift>, supply: seq<Id>, m: map<string, Id>): (r: map<string, Id>)
    requires PlaceholderCount(gs) <= |supply|
    ensures r.Keys == m.Keys + Placeholders(gs)
    ensures forall p :: p in Placeholders(gs) ==> r[p] in supply[..PlaceholderCount(gs)]
    ensures forall p :: p in m && p !in Placeholders(gs) ==> r[p] == m[p]
  {
    if |gs| == 0 then m
    else
      assert Placeholders(gs) == (if IsPlaceholder(gs[0].uuid) then {gs[0].uuid} else {}) + Placeholders(gs[1..]) by {
        assert forall k :: 0 < k < |gs| ==> gs[k] == gs[1..][k - 1];
      }
      if IsPlaceholder(gs[0].uuid) then
        var r := Mint(gs[1..], supply[1..], m[gs[0].uuid := supply[0]]);
        assert forall x :: x in supply[1..][..PlaceholderCount(gs[1..])] ==> x in supply[..PlaceholderCount(gs)];
        r
      else Mint(gs[1..], supply, m)
  }

  function MintIds(gs: seq<FormGift>, supply: seq<Id>): (m: map<string, Id>)
    requires PlaceholderCount(gs) <= |supply|
    ensures m.Keys == Placeholders(gs)
    ensures forall p :: p in m ==> m[p] in supply[..PlaceholderCount(gs)]
  {
    Mint(gs, supply, map[])
  }

  /** The submitted ids with placeholders blanked: what the deletion pass keeps. */
  function SubmittedIds(gs: seq<FormGift>): (r: seq<string>)
    ensures |r| == |gs|
    ensures forall k :: 0 <= k < |gs| ==> r[k] == if IsPlaceholder(gs[k].uuid) then "" else gs[k].uuid
    ensures forall x :: x != "" ==> (x in r <==> !IsPlaceholder(x) && exists k :: 0 <= k < |gs| && gs[k].uuid == x)
  {
    seq(|gs|, k requires 0 <= k < |gs| => if IsPlaceholder(gs[k].uuid) then "" else gs[k].uuid)
  }

  /** Deletion pass: every listed existing id that is not kept is deleted. */
  function DeleteAbsent(s: Store, existing: seq<Id>, keep: seq<string>): (r: Store)
    decreases |existing|
    ensures r.gifts.Keys == s.gifts.Keys - (set x | x in existing && x !in keep)
    ensures forall x :: x in r.gifts ==> r.gifts[x] == s.gifts[x]
    ensures forall it :: multiset(r.items)[it] == if it.gift in existing && it.gift !in keep then 0 else multiset(s.items)[it]
    ensures r.users == s.users && r.lists == s.lists && r.members == s.members
    ensures (forall x :: x in existing ==> x in keep) ==> r == s
  {
    if |existing| == 0 then s
    else
      assert forall x :: x in existing <==> x == existing[0] || x in existing[1..] by {
        assert existing == [existing[0]] + existing[1..];
      }
      var s1 := if existing[0] in keep then s else DeleteGift(s, existing[0]);
      DeleteAbsent(s1, existing[1..], keep)
  }

  /** An alternate reference after placeholder resolution. */
  datatype Alternate = Resolved(alt: Option<Id>) | Unresolved

  function ResolveAlternate(alt: string, m: map<string, Id>): (r: Alternate)
    ensures IsPlaceholder(alt) ==> (r.Resolved? <==> alt in m) && (alt in m ==> r == Resolved(Some(m[alt])))
    ensures !IsPlaceholder(alt) ==> r == Resolved(if alt == "" then None else Some(alt))
  {
    if IsPlaceholder(alt) then (if alt in m then Resolved(Some(m[alt])) else Unresolved)
    else if alt == "" then Resolved(None)
    else Resolved(Some(alt))
  }

  /** The id a new row is created under. */
  function NewId(f: FormGift, m: map<string, Id>, supply: seq<Id>): (id: Id)
    requires f.uuid == "" ==> |supply| > 0
    requires IsPlaceholder(f.uuid) ==> f.uuid in m
  {
    if f.uuid == "" then supply[0] else if IsPlaceholder(f.uuid) then m[f.uuid] else f.uuid
  }

  /** The claimer id a full-row write of a read gift stores back: the claimer
      when it names a user, the sentinel otherwise. */
  function Rewritten(s: Store, claimer: Id): (r: Id) {
    if IsUser(s, claimer) then claimer else NoClaimer
  }

  /** A gift the reconciliation may have created for `me` in `list`:
      owned by `me`, unclaimed, and listed under (list, me). */
  predicate Created(s: Store, me: Id, list: Id, x: Id) {
    x in s.gifts && s.gifts[x].owner == me && !s.gifts[x].claimed
    && s.gifts[x].claimedBy == NoClaimer && Item(list, me, x) in s.items
  }

  /** One iteration of the upsert pass. */
  function Apply(s: Store, me: User, list: Id, f: FormGift, m: map<string, Id>, supply: seq<Id>): (r: Reply)
    requires f.uuid == "" ==> |supply| > 0
    requires IsPlaceholder(f.uuid) ==> f.uuid in m
    ensures r.outcome.Failed? ==> r.store == s
    ensures ResolveAlternate(f.alternateTo, m).Unresolved? ==> r == Reply(Failed(UnknownPlaceholder), s)
    ensures r.store.users == s.users && r.store.lists == s.lists && r.store.members == s.members
    ensures s.gifts.Keys <= r.store.gifts.Keys && multiset(s.items) <= multiset(r.store.items)
    ensures forall x :: x in r.store.gifts && x !in s.gifts ==> Created(r.store, me.uuid, list, x)
    ensures forall x :: Created(s, me.uuid, list, x) ==> Created(r.store, me.uuid, list, x)
  {
    match ResolveAlternate(f.alternateTo, m)
    case Unresolved => Reply(Failed(UnknownPlaceholder), s)
    case Resolved(alt) =>
      if f.uuid == "" || IsPlaceholder(f.uuid) then
        var id := NewId(f, m, supply);
        match CreateGift(s, Gift(id, me.uuid, f.url, f.comment, false, None, alt), list)
        case None => Reply(Failed(StoreFailure), s)
        case Some(s') => Reply(Done, s')
      else
        match GiftFromUuid(s, f.uuid, me.uuid)
        case None => Reply(Failed(MissingRow), s)
        case Some(g) =>
          if g.owner != me.uuid then Reply(Failed(NotOwner), s)
          else
            var r := ModifyGift(s, g.(url := f.url, comment := f.comment));
            assert r.gifts == s.gifts[f.uuid := s.gifts[f.uuid].(url := f.url, comment := f.comment,
                                                claimedBy := Rewritten(s, s.gifts[f.uuid].claimedBy))];
            Reply(Done, r)
  }

  /** A new row (empty id or placeholder) whose alternate resolves is
      created unclaimed and owned by `me` under its new id, with the resolved
      alternate and an item row for (list, me); the insert fails only when
      that id is taken. */
  lemma ApplyCreates(s: Store, me: User, list: Id, f: FormGift, m: map<string, Id>, supply: seq<Id>)
    requires f.uuid == "" || (IsPlaceholder(f.uuid) && f.uuid in m)
    requires f.uuid == "" ==> |supply| > 0
    requires ResolveAlternate(f.alternateTo, m).Resolved?
    ensures var r := Apply(s, me, list, f, m, supply);
            var id := NewId(f, m, supply);
            (r.outcome == Done <==> id !in s.gifts)
            && (id in s.gifts ==> r.outcome == Failed(StoreFailure))
            && (r.outcome == Done ==>
                  r.store.gifts == s.gifts[id := GiftRow(me.uuid, f.url, f.comment, false, NoClaimer,
                                                         ResolveAlternate(f.alternateTo, m).alt)]
                  && multiset(r.store.items) == multiset(s.items) + multiset{Item(list, me.uuid, id)})
  {
  }

  /** A row naming a stored gift replaces its url and comment when `me` owns
      it, keeping owner, claim flag and alternate; an unknown id or another
      owner's gift is refused. */
  lemma ApplyUpdates(s: Store, me: User, list: Id, f: FormGift, m: map<string, Id>, supply: seq<Id>)
    requires f.uuid != "" && !IsPlaceholder(f.uuid)
    requires ResolveAlternate(f.alternateTo, m).Resolved?
    ensures var r := Apply(s, me, list, f, m, supply);
            (f.uuid !in s.gifts ==> r.outcome == Failed(MissingRow))
            && (f.uuid in s.gifts && s.gifts[f.uuid].owner != me.uuid ==> r.outcome == Failed(NotOwner))
            && (r.outcome == Done <==> f.uuid in s.gifts && s.gifts[f.uuid].owner == me.uuid)
            && (r.outcome == Done ==>
                  r.store.items == s.items
                  && r.store.gifts == s.gifts[f.uuid := s.gifts[f.uuid].(url := f.url, comment := f.comment,
                                                claimedBy := Rewritten(s, s.gifts[f.uuid].claimedBy))])
  {
  }

  /** The fresh ids left after one row: an empty-id row takes one. */
  function Remaining(f: FormGift, supply: seq<Id>): (rest: seq<Id>)
    requires f.uuid == "" ==> |supply| > 0
    ensures forall x :: x in rest ==> x in supply
    ensures f.uuid != "" ==> rest == supply
  {
    if f.uuid == "" then supply[1..] else supply
  }

  /** The upsert pass, in submission order, stopping at the first failure.
      Whatever it creates, and whatever it leaves behind on a failure, is a
      gift of `me`, unclaimed, listed under (list, me). */
  function Upsert(s: Store, me: User, list: Id, gs: seq<FormGift>, m: map<string, Id>, supply: seq<Id>): (r: Reply)
    requires EmptyCount(gs) <= |supply|
    requires Placeholders(gs) <= m.Keys
    ensures r.store.users == s.users && r.store.lists == s.lists && r.store.members == s.members
    ensures s.gifts.Keys <= r.store.gifts.Keys && multiset(s.items) <= multiset(r.store.items)
    ensures forall x :: x in r.store.gifts && x !in s.gifts ==> Created(r.store, me.uuid, list, x)
    ensures forall x :: Created(s, me.uuid, list, x) ==> Created(r.store, me.uuid, list, x)
    decreases |gs|
  {
    if |gs| == 0 then Reply(Done, s)
    else
      assert gs[0].uuid in Placeholders(gs) || !IsPlaceholder(gs[0].uuid);
      assert Placeholders(gs[1..]) <= Placeholders(gs) by {
        assert forall k :: 0 <= k < |gs[1..]| ==> gs[1..][k] == gs[k + 1];
      }
      var step := Apply(s, me, list, gs[0], m, supply);
      if step.outcome.Failed? then step
      else Upsert(step.store, me, list, gs[1..], m, Remaining(gs[0], supply))
  }

  /** `modify_gift_list` as the service runs it.  The membership test it
      computes is never acted on, so any user can reconcile any list. */
  function ModifyGiftList(s: Store, me: User, list: Id, gs: seq<FormGift>, supply: seq<Id>): (r: Reply)
    requires Needed(gs) <= |supply|
    ensures r.store.users == s.users && r.store.lists == s.lists && r.store.members == s.members
    ensures forall x :: x in r.store.gifts && x !in s.gifts ==> Created(r.store, me.uuid, list, x)
  {
    var n := PlaceholderCount(gs);
    var m := MintIds(gs, supply);
    var existing := GiftIds(GiftsOfListUser(s, list, me.uuid, me.uuid));
    var s1 := DeleteAbsent(s, existing, SubmittedIds(gs));
    Upsert(s1, me, list, gs, m, supply[n..])
  }

  /** Membership as `lists_of_user` reports it. */
  predicate IsMember(s: Store, user: Id, list: Id) {
    exists l :: l in ListsOfUser(s, user) && l.uuid == list
  }

  /** `modify_gift_list` with the membership test it evidently intends:
      a user who is not a member of the list is refused before any write. */
  function ModifyGiftListGuarded(s: Store, me: User, list: Id, gs: seq<FormGift>, supply: seq<Id>): (r: Reply)
    requires Needed(gs) <= |supply|
    ensures !(list in s.lists && Member(list, me.uuid) in s.members) ==> r == Reply(Failed(Unauthorized), s)
    ensures list in s.lists && Member(list, me.uuid) in s.members ==> r == ModifyGiftList(s, me, list, gs, supply)
  {
    MemberIffListed(s, me.uuid, list);
    if !IsMember(s, me.uuid, list) then Reply(Failed(Unauthorized), s)
    else ModifyGiftList(s, me, list, gs, supply)
  }

  /** `lists_of_user` names a list exactly when the list exists and the user
      has a membership row for it. */
  lemma MemberIffListed(s: Store, user: Id, list: Id)
    ensures IsMember(s, user, list) <==> list in s.lists && Member(list, user) in s.members
  {
    var r := ListsOfUser(s, user);
    if list in s.lists && Member(list, user) in s.members {
      assert multiset(r)[ListView(s.lists, list, user)] > 0;
      var i :| 0 <= i < |r| && r[i] == ListView(s.lists, list, user);
      assert r[i] in r;
    }
  }
}
