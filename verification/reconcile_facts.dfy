/**
 What one reconciliation does to the store: which gifts it deletes, which it
 leaves alone, what it creates for placeholder rows (including alternates
 that point forward to another new row), what survives a failing row, and
 that resubmitting the current list changes nothing.
 */
module ReconcileFacts {
  import opened Data
  import opened Db
  import opened Replies
  import opened Reconcile

  /** The ids the deletion pass inspects are exactly the stored gifts that
      have an item row for (list, user). */
  lemma ExistingIds(s: Store, list: Id, user: Id, viewer: Id, x: Id)
    ensures x in GiftIds(GiftsOfListUser(s, list, user, viewer)) <==> x in s.gifts && Item(list, user, x) in s.items
  {
    var r := GiftsOfListUser(s, list, user, viewer);
    if x in GiftIds(r) {
      var i :| 0 <= i < |r| && GiftIds(r)[i] == x;
    }
    if x in s.gifts && Item(list, user, x) in s.items {
      assert multiset(r)[GiftView(s, x, viewer)] > 0;
      var i :| 0 <= i < |r| && r[i] == GiftView(s, x, viewer);
      assert GiftIds(r)[i] == x;
    }
  }

  predicate Injective(m: map<string, Id>) {
    forall p, q :: p in m && q in m && p != q ==> m[p] != m[q]
  }

  /** Binding a key to a value no other key holds keeps a map injective. */
  lemma ExtendInjective(m: map<string, Id>, p: string, v: Id, later: seq<Id>)
    requires Injective(m) && (forall q :: q in m ==> m[q] != v && m[q] !in later)
    requires v !in later
    ensures var m' := m[p := v]; Injective(m') && forall q :: q in m' ==> m'[q] !in later
  {
  }

  lemma DistinctTail(supply: seq<Id>, n: nat)
    requires 0 < n <= |supply| && Distinct(supply[..n])
    ensures supply[1..][..n - 1] == supply[1..n] && Distinct(supply[1..n])
    ensures supply[0] !in supply[1..n]
    ensures forall x :: x in supply[1..n] ==> x in supply[..n]
  {
    assert forall i :: 0 <= i < n - 1 ==> supply[1..n][i] == supply[..n][i + 1];
    assert supply[0] == supply[..n][0];
  }

  /** With distinct fresh ids that the accumulator does not already use,
      distinct placeholders get distinct ids. */
  lemma {:induction false} MintInjective(gs: seq<FormGift>, supply: seq<Id>, m: map<string, Id>)
    requires PlaceholderCount(gs) <= |supply|
    requires Distinct(supply[..PlaceholderCount(gs)])
    requires Injective(m) && forall p :: p in m ==> m[p] !in supply[..PlaceholderCount(gs)]
    ensures Injective(Mint(gs, supply, m))
    decreases |gs|
  {
    if |gs| > 0 {
      if IsPlaceholder(gs[0].uuid) {
        MintInjectiveStep(gs, supply, m);
        MintInjective(gs[1..], supply[1..], m[gs[0].uuid := supply[0]]);
      } else {
        MintInjective(gs[1..], supply, m);
      }
    }
  }

  /** Binding a placeholder to the next fresh id keeps what the rest of the
      batch needs: distinct remaining ids, none of them already a value. */
  lemma MintInjectiveStep(gs: seq<FormGift>, supply: seq<Id>, m: map<string, Id>)
    requires |gs| > 0 && IsPlaceholder(gs[0].uuid)
    requires PlaceholderCount(gs) <= |supply|
    requires Distinct(supply[..PlaceholderCount(gs)])
    requires Injective(m) && forall p :: p in m ==> m[p] !in supply[..PlaceholderCount(gs)]
    ensures PlaceholderCount(gs[1..]) <= |supply[1..]|
    ensures Distinct(supply[1..][..PlaceholderCount(gs[1..])])
    ensures var m' := m[gs[0].uuid := supply[0]];
            Injective(m') && forall p :: p in m' ==> m'[p] !in supply[1..][..PlaceholderCount(gs[1..])]
  {
    var n := PlaceholderCount(gs);
    assert PlaceholderCount(gs[1..]) == n - 1;
    DistinctTail(supply, n);
    assert supply[0] in supply[..n];
    ExtendInjective(m, gs[0].uuid, supply[0], supply[1..n]);
  }

  lemma MintIdsInjective(gs: seq<FormGift>, supply: seq<Id>)
    requires PlaceholderCount(gs) <= |supply|
    requires Distinct(supply[..PlaceholderCount(gs)])
    ensures Injective(MintIds(gs, supply))
  {
    MintInjective(gs, supply, map[]);
  }

  /** One upsert step leaves alone a gift it neither names nor creates. */
  lemma ApplyLeaves(s: Store, me: User, list: Id, f: FormGift, m: map<string, Id>, supply: seq<Id>, x: Id)
    requires f.uuid == "" ==> |supply| > 0
    requires IsPlaceholder(f.uuid) ==> f.uuid in m
    requires NewId(f, m, supply) != x
    ensures var r := Apply(s, me, list, f, m, supply).store;
            (x in r.gifts <==> x in s.gifts) && (x in s.gifts ==> r.gifts[x] == s.gifts[x])
  {
    if ResolveAlternate(f.alternateTo, m).Resolved? {
      if f.uuid == "" || IsPlaceholder(f.uuid) {
        ApplyCreates(s, me, list, f, m, supply);
      } else {
        ApplyUpdates(s, me, list, f, m, supply);
      }
    }
  }

  /** Unfolding a successful upsert pass by one row. */
  lemma UpsertFirst(s: Store, me: User, list: Id, gs: seq<FormGift>, m: map<string, Id>, supply: seq<Id>)
    requires |gs| > 0 && EmptyCount(gs) <= |supply| && Placeholders(gs) <= m.Keys
    ensures gs[0].uuid == "" ==> |supply| > 0
    ensures IsPlaceholder(gs[0].uuid) ==> gs[0].uuid in m
    ensures EmptyCount(gs[1..]) <= |Remaining(gs[0], supply)| && Placeholders(gs[1..]) <= m.Keys
    ensures Placeholders(gs) == (if IsPlaceholder(gs[0].uuid) then {gs[0].uuid} else {}) + Placeholders(gs[1..])
    ensures forall j :: 0 <= j < |gs[1..]| ==> gs[1..][j] == gs[j + 1]
    ensures var step := Apply(s, me, list, gs[0], m, supply);
            Upsert(s, me, list, gs, m, supply) ==
              if step.outcome.Failed? then step
              else Upsert(step.store, me, list, gs[1..], m, Remaining(gs[0], supply))
  {
    assert gs[0].uuid in Placeholders(gs) || !IsPlaceholder(gs[0].uuid);
    assert forall k :: 0 < k < |gs| ==> gs[k] == gs[1..][k - 1];
  }

  /** A gift no submitted row names, and no fresh id can become, passes
      through the upsert pass untouched. */
  lemma {:induction false} UpsertLeaves(s: Store, me: User, list: Id, gs: seq<FormGift>, m: map<string, Id>, supply: seq<Id>, x: Id)
    requires EmptyCount(gs) <= |supply| && Placeholders(gs) <= m.Keys
    requires x !in supply
    requires forall k :: 0 <= k < |gs| && !IsPlaceholder(gs[k].uuid) ==> gs[k].uuid != x
    requires forall p :: p in Placeholders(gs) ==> m[p] != x
    ensures var r := Upsert(s, me, list, gs, m, supply).store;
            (x in r.gifts <==> x in s.gifts) && (x in s.gifts ==> r.gifts[x] == s.gifts[x])
    decreases |gs|
  {
    if |gs| > 0 {
      UpsertFirst(s, me, list, gs, m, supply);
      assert gs[0].uuid == "" ==> supply[0] in supply;
      ApplyLeaves(s, me, list, gs[0], m, supply, x);
      var step := Apply(s, me, list, gs[0], m, supply);
      if step.outcome == Done {
        UpsertLeaves(step.store, me, list, gs[1..], m, Remaining(gs[0], supply), x);
      }
    }
  }

  /** A successful upsert pass never creates a placeholder row over a gift
      that was already stored. */
  lemma {:induction false} UpsertNoRecreate(s: Store, me: User, list: Id, gs: seq<FormGift>, m: map<string, Id>, supply: seq<Id>, x: Id)
    requires EmptyCount(gs) <= |supply| && Placeholders(gs) <= m.Keys
    requires Upsert(s, me, list, gs, m, supply).outcome == Done
    requires x in s.gifts
    ensures forall p :: p in Placeholders(gs) ==> m[p] != x
    decreases |gs|
  {
    if |gs| > 0 {
      UpsertFirst(s, me, list, gs, m, supply);
      var step := Apply(s, me, list, gs[0], m, supply);
      if IsPlaceholder(gs[0].uuid) && ResolveAlternate(gs[0].alternateTo, m).Resolved? {
        ApplyCreates(s, me, list, gs[0], m, supply);
      }
      UpsertNoRecreate(step.store, me, list, gs[1..], m, Remaining(gs[0], supply), x);
    }
  }

  /** An alternate naming a placeholder resolves exactly when some row of
      the same batch, earlier or later, carries that placeholder. */
  lemma AlternateResolvesInBatch(gs: seq<FormGift>, supply: seq<Id>, a: string)
    requires PlaceholderCount(gs) <= |supply|
    ensures ResolveAlternate(a, MintIds(gs, supply)).Unresolved? <==>
              IsPlaceholder(a) && forall k :: 0 <= k < |gs| ==> gs[k].uuid != a
  {
    if IsPlaceholder(a) && a !in Placeholders(gs) {
      forall k | 0 <= k < |gs|
        ensures gs[k].uuid != a
      {
      }
    }
  }

  lemma {:induction false} EmptyCountAppend(a: seq<FormGift>, b: seq<FormGift>)
    ensures EmptyCount(a + b) == EmptyCount(a) + EmptyCount(b)
    decreases |a|
  {
    if |a| > 0 {
      assert (a + b)[1..] == a[1..] + b;
      EmptyCountAppend(a[1..], b);
    } else {
      assert a + b == b;
    }
  }

  lemma PlaceholdersAppend(a: seq<FormGift>, b: seq<FormGift>)
    ensures Placeholders(a + b) == Placeholders(a) + Placeholders(b)
  {
    forall p | p in Placeholders(a + b)
      ensures p in Placeholders(a) || p in Placeholders(b)
    {
      var k :| 0 <= k < |a + b| && IsPlaceholder((a + b)[k].uuid) && (a + b)[k].uuid == p;
      if k >= |a| {
        assert b[k - |a|] == (a + b)[k];
      }
    }
    forall p | p in Placeholders(a)
      ensures p in Placeholders(a + b)
    {
      var k :| 0 <= k < |a| && IsPlaceholder(a[k].uuid) && a[k].uuid == p;
      assert (a + b)[k] == a[k];
    }
    forall p | p in Placeholders(b)
      ensures p in Placeholders(a + b)
    {
      var k :| 0 <= k < |b| && IsPlaceholder(b[k].uuid) && b[k].uuid == p;
      assert (a + b)[k + |a|] == b[k];
    }
  }

  /** The upsert pass over two batches in a row: the second batch runs, on
      the store and the ids the first leaves, only when the first succeeds;
      a failure in the first is the whole pass's result, and no later row
      is applied. */
  lemma {:induction false} UpsertAppend(s: Store, me: User, list: Id, gs1: seq<FormGift>, gs2: seq<FormGift>,
                                        m: map<string, Id>, supply: seq<Id>)
    requires EmptyCount(gs1 + gs2) <= |supply| && Placeholders(gs1 + gs2) <= m.Keys
    ensures EmptyCount(gs1) + EmptyCount(gs2) <= |supply|
    ensures Placeholders(gs1) <= m.Keys && Placeholders(gs2) <= m.Keys
    ensures var r1 := Upsert(s, me, list, gs1, m, supply);
            Upsert(s, me, list, gs1 + gs2, m, supply)
            == if r1.outcome.Failed? then r1
               else Upsert(r1.store, me, list, gs2, m, supply[EmptyCount(gs1)..])
    decreases |gs1|
  {
    AppendFacts(gs1, gs2, supply);
    if |gs1| == 0 {
      assert gs1 + gs2 == gs2;
    } else {
      UpsertFirst(s, me, list, gs1 + gs2, m, supply);
      UpsertFirst(s, me, list, gs1, m, supply);
      var step := Apply(s, me, list, gs1[0], m, supply);
      if step.outcome.Done? {
        UpsertAppend(step.store, me, list, gs1[1..], gs2, m, Remaining(gs1[0], supply));
      }
    }
  }

  /** How a concatenated batch splits: counts, placeholders, its first row
      and the ids left after its first row. */
  lemma AppendFacts(gs1: seq<FormGift>, gs2: seq<FormGift>, supply: seq<Id>)
    requires EmptyCount(gs1 + gs2) <= |supply|
    ensures EmptyCount(gs1 + gs2) == EmptyCount(gs1) + EmptyCount(gs2)
    ensures Placeholders(gs1 + gs2) == Placeholders(gs1) + Placeholders(gs2)
    ensures |gs1| == 0 ==> supply[EmptyCount(gs1)..] == supply
    ensures |gs1| > 0 ==>
              (gs1 + gs2)[0] == gs1[0] && (gs1 + gs2)[1..] == gs1[1..] + gs2
              && (gs1[0].uuid == "" ==> |supply| > 0)
              && EmptyCount(gs1[1..] + gs2) <= |Remaining(gs1[0], supply)|
              && Remaining(gs1[0], supply)[EmptyCount(gs1[1..])..] == supply[EmptyCount(gs1)..]
  {
    EmptyCountAppend(gs1, gs2);
    PlaceholdersAppend(gs1, gs2);
    if |gs1| > 0 {
      assert (gs1 + gs2)[1..] == gs1[1..] + gs2;
      EmptyCountAppend(gs1[1..], gs2);
    }
  }

  /** The stored row a placeholder produces. */
  predicate StoredAsNew(r: Store, me: Id, list: Id, f: FormGift, m: map<string, Id>, id: Id) {
    id in r.gifts
    && r.gifts[id].owner == me && r.gifts[id].url == f.url && r.gifts[id].comment == f.comment
    && !r.gifts[id].claimed && r.gifts[id].claimedBy == NoClaimer
    && ResolveAlternate(f.alternateTo, m) == Resolved(r.gifts[id].alternateTo)
    && Item(list, me, id) in r.items
  }

  /** The first row of a successful pass, a placeholder, is stored as new
      and stays so through the rest of the pass. */
  lemma UpsertStoresFirst(s: Store, me: User, list: Id, gs: seq<FormGift>, m: map<string, Id>, supply: seq<Id>)
    requires |gs| > 0 && EmptyCount(gs) <= |supply| && Placeholders(gs) <= m.Keys
    requires Upsert(s, me, list, gs, m, supply).outcome == Done
    requires IsPlaceholder(gs[0].uuid) && gs[0].uuid in m && m[gs[0].uuid] !in supply
    requires forall j :: 0 <= j < |gs| ==> gs[j].uuid != m[gs[0].uuid]
    requires forall p :: p in m && p != gs[0].uuid ==> m[p] != m[gs[0].uuid]
    ensures StoredAsNew(Upsert(s, me, list, gs, m, supply).store, me.uuid, list, gs[0], m, m[gs[0].uuid])
  {
    UpsertFirst(s, me, list, gs, m, supply);
    var id := m[gs[0].uuid];
    var step := Apply(s, me, list, gs[0], m, supply);
    assert step.outcome == Done;
    ApplyCreates(s, me, list, gs[0], m, supply);
    assert StoredAsNew(step.store, me.uuid, list, gs[0], m, id) by {
      assert multiset(step.store.items)[Item(list, me.uuid, id)] > 0;
    }
    var rest := Remaining(gs[0], supply);
    var r := Upsert(step.store, me, list, gs[1..], m, rest).store;
    UpsertNoRecreate(step.store, me, list, gs[1..], m, rest, id);
    UpsertLeaves(step.store, me, list, gs[1..], m, rest, id);
    assert Item(list, me.uuid, id) in r.items by {
      assert multiset(step.store.items)[Item(list, me.uuid, id)] <= multiset(r.items)[Item(list, me.uuid, id)];
    }
  }

  /** After a successful upsert pass, a placeholder row is stored under its
      minted id, provided no other row can reach that id. */
  lemma {:induction false} UpsertStoresPlaceholder(s: Store, me: User, list: Id, gs: seq<FormGift>, m: map<string, Id>,
                                                   supply: seq<Id>, k: nat)
    requires EmptyCount(gs) <= |supply| && Placeholders(gs) <= m.Keys
    requires Upsert(s, me, list, gs, m, supply).outcome == Done
    requires k < |gs| && IsPlaceholder(gs[k].uuid)
    requires gs[k].uuid in m && m[gs[k].uuid] !in supply
    requires forall j :: 0 <= j < |gs| ==> gs[j].uuid != m[gs[k].uuid]
    requires forall p :: p in m && p != gs[k].uuid ==> m[p] != m[gs[k].uuid]
    ensures StoredAsNew(Upsert(s, me, list, gs, m, supply).store, me.uuid, list, gs[k], m, m[gs[k].uuid])
    decreases |gs|
  {
    if k == 0 {
      UpsertStoresFirst(s, me, list, gs, m, supply);
    } else {
      UpsertFirst(s, me, list, gs, m, supply);
      var step := Apply(s, me, list, gs[0], m, supply);
      assert step.outcome == Done;
      assert gs[1..][k - 1] == gs[k];
      UpsertStoresPlaceholder(step.store, me, list, gs[1..], m, Remaining(gs[0], supply), k - 1);
    }
  }

  /** After a successful upsert pass, row k, which names an existing id,
      has rewritten that gift: it was stored and owned by `me` before the
      pass, and afterwards it carries the row's url and comment, keeps its
      owner, claim flag and alternate, and its claimer goes through the
      full-row write; provided no other row, fresh id or minted id reaches
      it. The rows before k succeed without touching it, and it is the
      first row of the rest of the pass. */
  lemma UpsertUpdatesExisting(s: Store, me: User, list: Id, gs: seq<FormGift>, m: map<string, Id>,
                                  supply: seq<Id>, k: nat)
    requires EmptyCount(gs) <= |supply| && Placeholders(gs) <= m.Keys
    requires Upsert(s, me, list, gs, m, supply).outcome == Done
    requires k < |gs| && gs[k].uuid != "" && !IsPlaceholder(gs[k].uuid) && gs[k].uuid !in supply
    requires forall j :: 0 <= j < |gs| && j != k ==> gs[j].uuid != gs[k].uuid
    requires forall p :: p in Placeholders(gs) ==> m[p] != gs[k].uuid
    ensures var x, r := gs[k].uuid, Upsert(s, me, list, gs, m, supply).store;
            x in s.gifts && s.gifts[x].owner == me.uuid && x in r.gifts
            && r.gifts[x] == s.gifts[x].(url := gs[k].url, comment := gs[k].comment,
                                         claimedBy := Rewritten(s, s.gifts[x].claimedBy))
  {
    var x, pre, post := gs[k].uuid, gs[..k], gs[k..];
    UpdateSplit(gs, m, supply, k);
    UpsertAppend(s, me, list, pre, post, m, supply);
    var r1 := Upsert(s, me, list, pre, m, supply);
    assert r1.outcome == Done;
    UpsertLeaves(s, me, list, pre, m, supply, x);
    UpsertUpdatesFirst(r1.store, me, list, post, m, supply[EmptyCount(pre)..]);
  }

  /** Splitting a batch before row k, a row that no other row, fresh id or
      minted id reaches: the prefix does not reach it either, and the
      suffix starts with it under the same conditions. */
  lemma UpdateSplit(gs: seq<FormGift>, m: map<string, Id>, supply: seq<Id>, k: nat)
    requires k < |gs| && EmptyCount(gs) <= |supply| && Placeholders(gs) <= m.Keys
    requires gs[k].uuid !in supply
    requires forall j :: 0 <= j < |gs| && j != k ==> gs[j].uuid != gs[k].uuid
    requires forall p :: p in Placeholders(gs) ==> m[p] != gs[k].uuid
    ensures gs == gs[..k] + gs[k..] && EmptyCount(gs[..k]) <= |supply|
    ensures Placeholders(gs[..k]) <= m.Keys && Placeholders(gs[k..]) <= m.Keys
    ensures forall j :: 0 <= j < k && !IsPlaceholder(gs[..k][j].uuid) ==> gs[..k][j].uuid != gs[k].uuid
    ensures forall p :: p in Placeholders(gs[..k]) ==> m[p] != gs[k].uuid
    ensures var post := gs[k..];
            |post| > 0 && post[0] == gs[k] && gs[k].uuid !in supply[EmptyCount(gs[..k])..]
            && (forall j :: 0 < j < |post| ==> post[j].uuid != post[0].uuid)
            && forall p :: p in Placeholders(post) ==> m[p] != gs[k].uuid
  {
    assert gs == gs[..k] + gs[k..];
    EmptyCountAppend(gs[..k], gs[k..]);
    PlaceholdersAppend(gs[..k], gs[k..]);
    DropNotIn(supply, EmptyCount(gs[..k]), gs[k].uuid);
    assert forall j :: 0 <= j < k ==> gs[..k][j] == gs[j];
    assert forall j :: 0 <= j < |gs[k..]| ==> gs[k..][j] == gs[k + j];
  }

  /** The first row of a successful pass names an existing id: the gift is
      rewritten by that row and left alone by the rest of the pass. */
  lemma UpsertUpdatesFirst(s: Store, me: User, list: Id, gs: seq<FormGift>, m: map<string, Id>, supply: seq<Id>)
    requires |gs| > 0 && EmptyCount(gs) <= |supply| && Placeholders(gs) <= m.Keys
    requires Upsert(s, me, list, gs, m, supply).outcome == Done
    requires gs[0].uuid != "" && !IsPlaceholder(gs[0].uuid) && gs[0].uuid !in supply
    requires forall j :: 0 < j < |gs| ==> gs[j].uuid != gs[0].uuid
    requires forall p :: p in Placeholders(gs) ==> m[p] != gs[0].uuid
    ensures var x, r := gs[0].uuid, Upsert(s, me, list, gs, m, supply).store;
            x in s.gifts && s.gifts[x].owner == me.uuid && x in r.gifts
            && r.gifts[x] == s.gifts[x].(url := gs[0].url, comment := gs[0].comment,
                                         claimedBy := Rewritten(s, s.gifts[x].claimedBy))
  {
    UpsertFirst(s, me, list, gs, m, supply);
    var step := Apply(s, me, list, gs[0], m, supply);
    assert step.outcome == Done;
    ApplyUpdates(s, me, list, gs[0], m, supply);
    UpsertLeaves(step.store, me, list, gs[1..], m, Remaining(gs[0], supply), gs[0].uuid);
  }

  /** How many fresh ids the rows before row k draw: one per empty id. */
  function DrawsBefore(gs: seq<FormGift>, k: nat): (n: nat)
    ensures n <= EmptyCount(gs)
    ensures k < |gs| && gs[k].uuid == "" ==> n < EmptyCount(gs)
    decreases k
  {
    if k == 0 || |gs| == 0 then 0
    else (if gs[0].uuid == "" then 1 else 0) + DrawsBefore(gs[1..], k - 1)
  }

  /** The id a row with an empty id is created under in `modify_gift_list`:
      the fresh ids are first minted for the placeholders, then drawn one
      per empty row in order. */
  function NewRowId(gs: seq<FormGift>, supply: seq<Id>, k: nat): (id: Id)
    requires Needed(gs) <= |supply| && k < |gs| && gs[k].uuid == ""
  {
    supply[PlaceholderCount(gs) + DrawsBefore(gs, k)]
  }

  /** The first row of a successful pass, with an empty id, is stored as new
      under the first fresh id and stays so through the rest of the pass. */
  lemma UpsertStoresEmptyFirst(s: Store, me: User, list: Id, gs: seq<FormGift>, m: map<string, Id>, supply: seq<Id>)
    requires |gs| > 0 && EmptyCount(gs) <= |supply| && Placeholders(gs) <= m.Keys
    requires Upsert(s, me, list, gs, m, supply).outcome == Done
    requires gs[0].uuid == "" && supply[0] !in supply[1..]
    requires forall j :: 0 <= j < |gs| ==> gs[j].uuid != supply[0]
    ensures StoredAsNew(Upsert(s, me, list, gs, m, supply).store, me.uuid, list, gs[0], m, supply[0])
  {
    UpsertFirst(s, me, list, gs, m, supply);
    var id := supply[0];
    var step := Apply(s, me, list, gs[0], m, supply);
    assert step.outcome == Done;
    ApplyCreates(s, me, list, gs[0], m, supply);
    assert StoredAsNew(step.store, me.uuid, list, gs[0], m, id) by {
      assert multiset(step.store.items)[Item(list, me.uuid, id)] > 0;
    }
    var rest := Remaining(gs[0], supply);
    var r := Upsert(step.store, me, list, gs[1..], m, rest).store;
    UpsertNoRecreate(step.store, me, list, gs[1..], m, rest, id);
    UpsertLeaves(step.store, me, list, gs[1..], m, rest, id);
    assert Item(list, me.uuid, id) in r.items by {
      assert multiset(step.store.items)[Item(list, me.uuid, id)] <= multiset(r.items)[Item(list, me.uuid, id)];
    }
  }

  /** After a successful upsert pass, a row with an empty id is stored under
      the fresh id it draws, `id` (the one after those drawn by the empty
      rows before it), provided that id is not drawn again and no row
      submits it: the rows before it succeed, and it is the first row of
      the rest of the pass. */
  lemma UpsertStoresEmpty(s: Store, me: User, list: Id, gs: seq<FormGift>, m: map<string, Id>,
                          supply: seq<Id>, k: nat, id: Id)
    requires EmptyCount(gs) <= |supply| && Placeholders(gs) <= m.Keys
    requires Upsert(s, me, list, gs, m, supply).outcome == Done
    requires k < |gs| && gs[k].uuid == ""
    requires DrawsBefore(gs, k) < |supply| && id == supply[DrawsBefore(gs, k)]
    requires id !in supply[DrawsBefore(gs, k) + 1..]
    requires forall j :: 0 <= j < |gs| ==> gs[j].uuid != id
    ensures StoredAsNew(Upsert(s, me, list, gs, m, supply).store, me.uuid, list, gs[k], m, id)
  {
    var pre, post := gs[..k], gs[k..];
    SplitAt(gs, supply, k, id);
    UpsertAppend(s, me, list, pre, post, m, supply);
    var r1 := Upsert(s, me, list, pre, m, supply);
    assert r1.outcome == Done;
    UpsertStoresEmptyFirst(r1.store, me, list, post, m, supply[EmptyCount(pre)..]);
  }

  /** Splitting a batch before row k, an empty row: the ids drawn before it
      are the empty rows of the prefix, and the suffix starts with row k and
      with the id it draws. */
  lemma SplitAt(gs: seq<FormGift>, supply: seq<Id>, k: nat, id: Id)
    requires k < |gs| && gs[k].uuid == ""
    requires DrawsBefore(gs, k) < |supply| && id == supply[DrawsBefore(gs, k)]
    requires id !in supply[DrawsBefore(gs, k) + 1..]
    requires forall j :: 0 <= j < |gs| ==> gs[j].uuid != id
    ensures gs == gs[..k] + gs[k..]
    ensures DrawsBefore(gs, k) == EmptyCount(gs[..k])
    ensures var post, rest := gs[k..], supply[DrawsBefore(gs, k)..];
            |post| > 0 && post[0].uuid == "" && |rest| > 0 && rest[0] == id && rest[0] !in rest[1..]
            && forall j :: 0 <= j < |post| ==> post[j].uuid != rest[0]
  {
    DrawsIsCount(gs, k);
    var d := DrawsBefore(gs, k);
    DropIndex(supply, d, 0);
    DropDrop(supply, d, 1);
    assert forall j :: 0 <= j < |gs[k..]| ==> gs[k..][j] == gs[k + j];
  }

  lemma {:induction false} DrawsIsCount(gs: seq<FormGift>, k: nat)
    requires k <= |gs|
    ensures DrawsBefore(gs, k) == EmptyCount(gs[..k])
    decreases k
  {
    if k > 0 {
      DrawsIsCount(gs[1..], k - 1);
      assert gs[..k][1..] == gs[1..][..k - 1];
    }
  }

  lemma DropDrop(xs: seq<Id>, a: nat, b: nat)
    requires a + b <= |xs|
    ensures xs[a..][b..] == xs[a + b..]
  {
  }

  /** The supply of random ids is fresh: distinct, unused by the store, and
      unequal to every id the snapshot submits. */
  predicate FreshSupply(s: Store, gs: seq<FormGift>, supply: seq<Id>) {
    Distinct(supply)
    && (forall i :: 0 <= i < |supply| ==> supply[i] !in s.gifts)
    && (forall i, k :: 0 <= i < |supply| && 0 <= k < |gs| ==> supply[i] != gs[k].uuid)
  }

  /** `modify_gift_list` is the deletion pass followed by the upsert pass,
      which draws on the ids left after minting. */
  lemma Unfold(s: Store, me: User, list: Id, gs: seq<FormGift>, supply: seq<Id>)
    requires Needed(gs) <= |supply|
    ensures PlaceholderCount(gs) <= |supply|
    ensures EmptyCount(gs) <= |supply[PlaceholderCount(gs)..]| && Placeholders(gs) <= MintIds(gs, supply).Keys
    ensures ModifyGiftList(s, me, list, gs, supply) ==
              Upsert(DeleteAbsent(s, GiftIds(GiftsOfListUser(s, list, me.uuid, me.uuid)), SubmittedIds(gs)),
                     me, list, gs, MintIds(gs, supply), supply[PlaceholderCount(gs)..])
  {
  }

  /** Of a sequence of distinct ids, one drawn from the first n is not
      among the rest. */
  lemma DrawnOnce(supply: seq<Id>, n: nat, id: Id)
    requires n <= |supply| && Distinct(supply) && id in supply[..n]
    ensures id !in supply[n..]
  {
    var i :| 0 <= i < n && supply[..n][i] == id;
    forall t | 0 <= t < |supply[n..]|
      ensures supply[n..][t] != id
    {
      assert supply[n..][t] == supply[t + n];
    }
  }

  /** Deletion and frame: with a fresh supply, a gift of (list, me) that the
      snapshot no longer names is gone afterwards (whatever the outcome), and
      a gift outside (list, me) that the snapshot does not name is unchanged. */
  lemma ReconcileDeletesExactly(s: Store, me: User, list: Id, gs: seq<FormGift>, supply: seq<Id>, x: Id)
    requires Needed(gs) <= |supply| && FreshSupply(s, gs, supply)
    requires x in s.gifts && x !in SubmittedIds(gs)
    ensures var r := ModifyGiftList(s, me, list, gs, supply).store;
            (Item(list, me.uuid, x) in s.items ==> x !in r.gifts)
            && (Item(list, me.uuid, x) !in s.items ==> x in r.gifts && r.gifts[x] == s.gifts[x])
  {
    Unfold(s, me, list, gs, supply);
    var n := PlaceholderCount(gs);
    var m := MintIds(gs, supply);
    var existing := GiftIds(GiftsOfListUser(s, list, me.uuid, me.uuid));
    var s1 := DeleteAbsent(s, existing, SubmittedIds(gs));
    ExistingIds(s, list, me.uuid, me.uuid, x);
    forall i | 0 <= i < |supply|
      ensures supply[i] != x
    {
    }
    assert x !in supply[n..] by {
      assert forall i :: 0 <= i < |supply[n..]| ==> supply[n..][i] == supply[i + n];
    }
    forall k | 0 <= k < |gs| && !IsPlaceholder(gs[k].uuid)
      ensures gs[k].uuid != x
    {
      assert SubmittedIds(gs)[k] == gs[k].uuid;
    }
    forall p | p in Placeholders(gs)
      ensures m[p] != x
    {
      assert m[p] in supply[..n];
    }
    UpsertLeaves(s1, me, list, gs, m, supply[n..], x);
  }

  /** Creation: with a fresh supply, after a successful reconciliation every
      placeholder row is stored under its minted id, owned by `me`, unclaimed,
      listed under (list, me), with its alternate resolved; an alternate that
      names another placeholder of the batch points at that row's new id,
      which exists. */
  lemma ReconcileCreatesPlaceholders(s: Store, me: User, list: Id, gs: seq<FormGift>, supply: seq<Id>, k: nat)
    requires Needed(gs) <= |supply| && FreshSupply(s, gs, supply)
    requires ModifyGiftList(s, me, list, gs, supply).outcome == Done
    requires k < |gs| && IsPlaceholder(gs[k].uuid)
    ensures var m := MintIds(gs, supply);
            var r := ModifyGiftList(s, me, list, gs, supply).store;
            gs[k].uuid in m && StoredAsNew(r, me.uuid, list, gs[k], m, m[gs[k].uuid])
            && (gs[k].alternateTo in Placeholders(gs) ==>
                  r.gifts[m[gs[k].uuid]].alternateTo == Some(m[gs[k].alternateTo]) && m[gs[k].alternateTo] in r.gifts)
  {
    PlaceholderStored(s, me, list, gs, supply, k);
    var a := gs[k].alternateTo;
    if a in Placeholders(gs) {
      var j :| 0 <= j < |gs| && IsPlaceholder(gs[j].uuid) && gs[j].uuid == a;
      PlaceholderStored(s, me, list, gs, supply, j);
    }
  }

  /** Creation of rows with an empty id: with a fresh supply, after a
      successful reconciliation such a row is stored under the fresh id it
      draws (after those minted for placeholders and those drawn by earlier
      empty rows), owned by `me`, unclaimed, listed under (list, me), with
      its alternate resolved; an alternate naming a placeholder of the
      batch, earlier or later, points at that row's new id, which exists. */
  lemma ReconcileCreatesNewRows(s: Store, me: User, list: Id, gs: seq<FormGift>, supply: seq<Id>, k: nat)
    requires Needed(gs) <= |supply| && FreshSupply(s, gs, supply)
    requires ModifyGiftList(s, me, list, gs, supply).outcome == Done
    requires k < |gs| && gs[k].uuid == ""
    ensures var m := MintIds(gs, supply);
            var r := ModifyGiftList(s, me, list, gs, supply).store;
            StoredAsNew(r, me.uuid, list, gs[k], m, NewRowId(gs, supply, k))
            && (gs[k].alternateTo in Placeholders(gs) ==>
                  r.gifts[NewRowId(gs, supply, k)].alternateTo == Some(m[gs[k].alternateTo])
                  && m[gs[k].alternateTo] in r.gifts)
  {
    EmptyStored(s, me, list, gs, supply, k);
    var a := gs[k].alternateTo;
    if a in Placeholders(gs) {
      var j :| 0 <= j < |gs| && IsPlaceholder(gs[j].uuid) && gs[j].uuid == a;
      PlaceholderStored(s, me, list, gs, supply, j);
    }
  }

  /** Update of an existing id: with a fresh supply, after a successful
      reconciliation a row naming a stored gift of `me` (and named by no
      other row) has replaced that gift's url and comment, kept its owner,
      claim flag and alternate, and written its claimer back as the
      full-row write does. */
  lemma ReconcileUpdatesExisting(s: Store, me: User, list: Id, gs: seq<FormGift>, supply: seq<Id>, k: nat)
    requires Needed(gs) <= |supply| && FreshSupply(s, gs, supply)
    requires ModifyGiftList(s, me, list, gs, supply).outcome == Done
    requires k < |gs| && gs[k].uuid != "" && !IsPlaceholder(gs[k].uuid)
    requires forall j :: 0 <= j < |gs| && j != k ==> gs[j].uuid != gs[k].uuid
    ensures var x, r := gs[k].uuid, ModifyGiftList(s, me, list, gs, supply).store;
            x in s.gifts && s.gifts[x].owner == me.uuid && x in r.gifts
            && r.gifts[x] == s.gifts[x].(url := gs[k].url, comment := gs[k].comment,
                                         claimedBy := Rewritten(s, s.gifts[x].claimedBy))
  {
    Unfold(s, me, list, gs, supply);
    var s1 := DeleteAbsent(s, GiftIds(GiftsOfListUser(s, list, me.uuid, me.uuid)), SubmittedIds(gs));
    UpdatedIdFresh(s, gs, supply, k);
    UpsertUpdatesExisting(s1, me, list, gs, MintIds(gs, supply), supply[PlaceholderCount(gs)..], k);
    SubmittedSurvives(s, GiftIds(GiftsOfListUser(s, list, me.uuid, me.uuid)), gs, k);
  }

  /** With a fresh supply, an id a row submits is neither drawn by the
      upsert pass nor minted for a placeholder. */
  lemma UpdatedIdFresh(s: Store, gs: seq<FormGift>, supply: seq<Id>, k: nat)
    requires Needed(gs) <= |supply| && FreshSupply(s, gs, supply) && k < |gs|
    ensures PlaceholderCount(gs) <= |supply| && Placeholders(gs) <= MintIds(gs, supply).Keys
    ensures gs[k].uuid !in supply[PlaceholderCount(gs)..]
    ensures forall p :: p in Placeholders(gs) ==> MintIds(gs, supply)[p] != gs[k].uuid
  {
    var x, n := gs[k].uuid, PlaceholderCount(gs);
    assert x !in supply by {
      forall i | 0 <= i < |supply|
        ensures supply[i] != x
      {
      }
    }
    DropNotIn(supply, n, x);
    var m := MintIds(gs, supply);
    forall p | p in Placeholders(gs)
      ensures m[p] != x
    {
      assert m[p] in supply[..n];
    }
  }

  /** What is not in a sequence is not in any of its suffixes. */
  lemma DropNotIn(xs: seq<Id>, n: nat, x: Id)
    requires n <= |xs| && x !in xs
    ensures x !in xs[n..]
  {
    assert forall i :: 0 <= i < |xs[n..]| ==> xs[n..][i] == xs[i + n];
  }

  /** The deletion pass keeps every submitted (non-placeholder) id as it
      was, and the users with it. */
  lemma SubmittedSurvives(s: Store, existing: seq<Id>, gs: seq<FormGift>, k: nat)
    requires k < |gs| && gs[k].uuid != "" && !IsPlaceholder(gs[k].uuid)
    ensures var s1 := DeleteAbsent(s, existing, SubmittedIds(gs));
            (gs[k].uuid in s1.gifts <==> gs[k].uuid in s.gifts)
            && (gs[k].uuid in s.gifts ==> s1.gifts[gs[k].uuid] == s.gifts[gs[k].uuid])
            && s1.users == s.users
  {
    assert SubmittedIds(gs)[k] == gs[k].uuid;
  }

  /** With a fresh supply, the id an empty row draws is drawn once and is
      not submitted. */
  lemma NewRowIdFresh(s: Store, gs: seq<FormGift>, supply: seq<Id>, k: nat)
    requires Needed(gs) <= |supply| && FreshSupply(s, gs, supply)
    requires k < |gs| && gs[k].uuid == ""
    ensures var n := PlaceholderCount(gs);
            n + DrawsBefore(gs, k) < |supply|
            && NewRowId(gs, supply, k) !in supply[n..][DrawsBefore(gs, k) + 1..]
            && forall j :: 0 <= j < |gs| ==> gs[j].uuid != NewRowId(gs, supply, k)
  {
    var n := PlaceholderCount(gs);
    var d := DrawsBefore(gs, k);
    DropDrop(supply, n, d + 1);
    var later := supply[n + d + 1..];
    assert forall i :: 0 <= i < |later| ==> later[i] == supply[i + n + d + 1];
  }

  lemma EmptyStored(s: Store, me: User, list: Id, gs: seq<FormGift>, supply: seq<Id>, k: nat)
    requires Needed(gs) <= |supply| && FreshSupply(s, gs, supply)
    requires ModifyGiftList(s, me, list, gs, supply).outcome == Done
    requires k < |gs| && gs[k].uuid == ""
    ensures StoredAsNew(ModifyGiftList(s, me, list, gs, supply).store, me.uuid, list, gs[k], MintIds(gs, supply),
                        NewRowId(gs, supply, k))
  {
    Unfold(s, me, list, gs, supply);
    var n := PlaceholderCount(gs);
    var s1 := DeleteAbsent(s, GiftIds(GiftsOfListUser(s, list, me.uuid, me.uuid)), SubmittedIds(gs));
    NewRowIdFresh(s, gs, supply, k);
    DropIndex(supply, n, DrawsBefore(gs, k));
    UpsertStoresEmpty(s1, me, list, gs, MintIds(gs, supply), supply[n..], k, NewRowId(gs, supply, k));
  }

  lemma DropIndex(xs: seq<Id>, n: nat, i: nat)
    requires n + i < |xs|
    ensures xs[n..][i] == xs[n + i]
  {
  }

  /** With a fresh supply, the id minted for a placeholder is drawn once: it
      is not among the ids left for the upsert pass, no row submits it, and
      no other placeholder is bound to it. */
  lemma MintedOnce(s: Store, gs: seq<FormGift>, supply: seq<Id>, p: string)
    requires Needed(gs) <= |supply| && FreshSupply(s, gs, supply)
    requires p in Placeholders(gs)
    ensures PlaceholderCount(gs) <= |supply| && p in MintIds(gs, supply)
    ensures var m := MintIds(gs, supply);
            m[p] !in supply[PlaceholderCount(gs)..]
            && (forall j :: 0 <= j < |gs| ==> gs[j].uuid != m[p])
            && (forall q :: q in m && q != p ==> m[q] != m[p])
  {
    var n := PlaceholderCount(gs);
    var m := MintIds(gs, supply);
    DistinctPrefix(supply, n);
    MintIdsInjective(gs, supply);
    DrawnOnce(supply, n, m[p]);
    NotSubmitted(gs, supply, n, m[p]);
  }

  /** A prefix of distinct ids is distinct. */
  lemma DistinctPrefix(xs: seq<Id>, n: nat)
    requires n <= |xs| && Distinct(xs)
    ensures Distinct(xs[..n])
  {
    assert forall i :: 0 <= i < n ==> xs[..n][i] == xs[i];
  }

  /** An id drawn from a supply that no submitted row uses is not submitted. */
  lemma NotSubmitted(gs: seq<FormGift>, supply: seq<Id>, n: nat, id: Id)
    requires n <= |supply| && id in supply[..n]
    requires forall i, k :: 0 <= i < |supply| && 0 <= k < |gs| ==> supply[i] != gs[k].uuid
    ensures forall j :: 0 <= j < |gs| ==> gs[j].uuid != id
  {
    var i :| 0 <= i < n && supply[..n][i] == id;
    assert supply[i] == id;
  }

  lemma PlaceholderStored(s: Store, me: User, list: Id, gs: seq<FormGift>, supply: seq<Id>, k: nat)
    requires Needed(gs) <= |supply| && FreshSupply(s, gs, supply)
    requires ModifyGiftList(s, me, list, gs, supply).outcome == Done
    requires k < |gs| && IsPlaceholder(gs[k].uuid)
    ensures var m := MintIds(gs, supply);
            gs[k].uuid in m && StoredAsNew(ModifyGiftList(s, me, list, gs, supply).store, me.uuid, list, gs[k], m, m[gs[k].uuid])
  {
    Unfold(s, me, list, gs, supply);
    var n := PlaceholderCount(gs);
    var m := MintIds(gs, supply);
    var s1 := DeleteAbsent(s, GiftIds(GiftsOfListUser(s, list, me.uuid, me.uuid)), SubmittedIds(gs));
    assert gs[k].uuid in Placeholders(gs);
    MintedOnce(s, gs, supply, gs[k].uuid);
    UpsertStoresPlaceholder(s1, me, list, gs, m, supply[n..], k);
  }

  /** A gift as the edit form shows it: its alternate as text, "" for none. */
  function FormOf(g: Gift): (f: FormGift)
    ensures f.uuid == g.uuid && f.url == g.url && f.comment == g.comment
    ensures g.alternateTo.Some? ==> f.alternateTo == g.alternateTo.value
    ensures g.alternateTo.None? ==> f.alternateTo == ""
  {
    FormGift(g.uuid, g.url, g.comment, match g.alternateTo case None => "" case Some(a) => a)
  }

  function FormsOf(gs: seq<Gift>): (fs: seq<FormGift>)
    ensures |fs| == |gs| && forall i :: 0 <= i < |gs| ==> fs[i] == FormOf(gs[i])
  {
    seq(|gs|, i requires 0 <= i < |gs| => FormOf(gs[i]))
  }

  /** A submitted row that writes its stored gift back unchanged. */
  predicate Echoes(s: Store, me: Id, f: FormGift) {
    f.uuid in s.gifts && f.uuid != "" && !IsPlaceholder(f.uuid) && !IsPlaceholder(f.alternateTo)
    && s.gifts[f.uuid].owner == me && s.gifts[f.uuid].url == f.url && s.gifts[f.uuid].comment == f.comment
    && Rewritten(s, s.gifts[f.uuid].claimedBy) == s.gifts[f.uuid].claimedBy
  }

  lemma ApplyEchoes(s: Store, me: User, list: Id, f: FormGift, m: map<string, Id>, supply: seq<Id>)
    requires Echoes(s, me.uuid, f)
    ensures Apply(s, me, list, f, m, supply) == Reply(Done, s)
  {
    ApplyUpdates(s, me, list, f, m, supply);
    var r := Apply(s, me, list, f, m, supply).store;
    assert r.gifts == s.gifts;
  }

  lemma {:induction false} UpsertEchoes(s: Store, me: User, list: Id, gs: seq<FormGift>, m: map<string, Id>, supply: seq<Id>)
    requires forall k :: 0 <= k < |gs| ==> Echoes(s, me.uuid, gs[k])
    ensures EmptyCount(gs) == 0 && PlaceholderCount(gs) == 0 && Placeholders(gs) == {}
    ensures Upsert(s, me, list, gs, m, supply) == Reply(Done, s)
    decreases |gs|
  {
    if |gs| > 0 {
      assert Echoes(s, me.uuid, gs[0]);
      assert forall k :: 0 <= k < |gs[1..]| ==> gs[1..][k] == gs[k + 1];
      UpsertEchoes(s, me, list, gs[1..], m, supply);
      UpsertFirst(s, me, list, gs, m, supply);
      ApplyEchoes(s, me, list, gs[0], m, supply);
    }
  }

  /** Resubmitting the list exactly as the edit page shows it is a no-op,
      provided every shown gift is the actor's own, its id and alternate are
      not placeholders, and its claimer id is a user or the sentinel. */
  lemma ResubmitIsIdentity(s: Store, me: User, list: Id, supply: seq<Id>)
    requires forall x :: x in s.gifts && Item(list, me.uuid, x) in s.items ==>
               s.gifts[x].owner == me.uuid && x != "" && !IsPlaceholder(x)
               && Rewritten(s, s.gifts[x].claimedBy) == s.gifts[x].claimedBy
               && (s.gifts[x].alternateTo.None? || !IsPlaceholder(s.gifts[x].alternateTo.value))
    ensures var gs := FormsOf(GiftsOfListUser(s, list, me.uuid, me.uuid));
            Needed(gs) == 0 && ModifyGiftList(s, me, list, gs, supply) == Reply(Done, s)
  {
    var view := GiftsOfListUser(s, list, me.uuid, me.uuid);
    var gs := FormsOf(view);
    ShownRowsEcho(s, me, list);
    UpsertEchoes(s, me, list, gs, map[], supply);
    Unfold(s, me, list, gs, supply);
    UpsertEchoes(s, me, list, gs, MintIds(gs, supply), supply[0..]);
    assert DeleteAbsent(s, GiftIds(view), SubmittedIds(gs)) == s;
  }

  /** Each row of the edit page, submitted back, echoes its gift, and the
      ids the deletion pass keeps are exactly the ids it inspects. */
  lemma ShownRowsEcho(s: Store, me: User, list: Id)
    requires forall x :: x in s.gifts && Item(list, me.uuid, x) in s.items ==>
               s.gifts[x].owner == me.uuid && x != "" && !IsPlaceholder(x)
               && Rewritten(s, s.gifts[x].claimedBy) == s.gifts[x].claimedBy
               && (s.gifts[x].alternateTo.None? || !IsPlaceholder(s.gifts[x].alternateTo.value))
    ensures var view := GiftsOfListUser(s, list, me.uuid, me.uuid);
            (forall k :: 0 <= k < |view| ==> Echoes(s, me.uuid, FormsOf(view)[k]))
            && SubmittedIds(FormsOf(view)) == GiftIds(view)
  {
    var view := GiftsOfListUser(s, list, me.uuid, me.uuid);
    var gs := FormsOf(view);
    forall k | 0 <= k < |gs|
      ensures Echoes(s, me.uuid, gs[k])
    {
      assert gs[k] == FormOf(view[k]);
      assert !IsPlaceholder("");
    }
    assert SubmittedIds(gs) == GiftIds(view);
  }

  /** The upsert pass over a new row and then a foreign gift. */
  lemma UpsertNewThenForeign(s: Store, me: User, list: Id, gs: seq<FormGift>, m: map<string, Id>, fresh0: Id)
    requires |gs| == 2 && gs[0].uuid == "" && ResolveAlternate(gs[0].alternateTo, m).Resolved?
    requires gs[1].uuid in s.gifts && s.gifts[gs[1].uuid].owner != me.uuid && gs[1].uuid != ""
    requires !IsPlaceholder(gs[1].uuid) && ResolveAlternate(gs[1].alternateTo, m).Resolved?
    requires fresh0 !in s.gifts && fresh0 != gs[1].uuid
    requires EmptyCount(gs) <= 1 && Placeholders(gs) <= m.Keys
    ensures var r := Upsert(s, me, list, gs, m, [fresh0]);
            r.outcome == Failed(NotOwner) && Created(r.store, me.uuid, list, fresh0)
            && r.store.gifts[gs[1].uuid] == s.gifts[gs[1].uuid]
  {
    UpsertFirst(s, me, list, gs, m, [fresh0]);
    ApplyCreates(s, me, list, gs[0], m, [fresh0]);
    var a := Apply(s, me, list, gs[0], m, [fresh0]);
    assert a.outcome == Done && Created(a.store, me.uuid, list, fresh0);
    assert Remaining(gs[0], [fresh0]) == [];
    UpsertFirst(a.store, me, list, gs[1..], m, []);
    ApplyUpdates(a.store, me, list, gs[1], m, []);
    assert Upsert(a.store, me, list, gs[1..], m, []) == Reply(Failed(NotOwner), a.store);
  }

  /** No rollback: a new row followed by a row naming someone else's gift
      fails with the ownership error, yet the new gift stays stored. */
  lemma PartialFailureKeepsEarlierWrites(s: Store, me: User, list: Id, fresh0: Id, y: Id, url: string, comment: string)
    requires y in s.gifts && s.gifts[y].owner != me.uuid && y != "" && !IsPlaceholder(y)
    requires fresh0 !in s.gifts && fresh0 != y
    ensures Needed([FormGift("", url, comment, ""), FormGift(y, url, comment, "")]) == 1
    ensures var r := ModifyGiftList(s, me, list, [FormGift("", url, comment, ""), FormGift(y, url, comment, "")], [fresh0]);
            r.outcome == Failed(NotOwner) && Created(r.store, me.uuid, list, fresh0)
            && y in r.store.gifts && r.store.gifts[y] == s.gifts[y]
  {
    var gs := [FormGift("", url, comment, ""), FormGift(y, url, comment, "")];
    NewThenForeignCounts(gs, y, fresh0);
    Unfold(s, me, list, gs, [fresh0]);
    var s1 := DeleteAbsent(s, GiftIds(GiftsOfListUser(s, list, me.uuid, me.uuid)), SubmittedIds(gs));
    UpsertNewThenForeign(s1, me, list, gs, MintIds(gs, [fresh0]), fresh0);
  }

  /** The two-row snapshot draws one id, mints none, and keeps `y`. */
  lemma NewThenForeignCounts(gs: seq<FormGift>, y: Id, fresh0: Id)
    requires |gs| == 2 && gs[0].uuid == "" && gs[0].alternateTo == "" && gs[1].uuid == y && gs[1].alternateTo == ""
    requires y != "" && !IsPlaceholder(y)
    ensures PlaceholderCount(gs) == 0 && EmptyCount(gs) == 1 && Placeholders(gs) == {}
    ensures y in SubmittedIds(gs) && [fresh0][PlaceholderCount(gs)..] == [fresh0]
  {
    assert !IsPlaceholder("");
    assert gs[1..] == [gs[1]] && gs[1..][1..] == [];
    assert SubmittedIds(gs)[1] == y;
  }

  /** Two new gifts A and B where A, a row with an empty id, names B's
      placeholder as its alternate although B comes later: the owner's
      reconciliation succeeds and A's stored alternate is B's new id. */
  const Owner: User := User("o", "o@example.org", "O", true, true)
  const ForwardPair: seq<FormGift> :=
    [FormGift("", "https://example.org/a", "", "newRow-B"), FormGift("newRow-B", "https://example.org/b", "", "")]

  lemma ForwardReferenceResolves()
    ensures Needed(ForwardPair) == 2
    ensures var r := ModifyGiftList(OneList, Owner, "L", ForwardPair, ["y", "x"]);
            r.outcome == Done && "x" in r.store.gifts && "y" in r.store.gifts
            && r.store.gifts["x"].alternateTo == Some("y")
  {
    ForwardPairCounts();
    Unfold(OneList, Owner, "L", ForwardPair, ["y", "x"]);
    ForwardPairUpsert();
  }

  /** The pair mints "y" for B's placeholder, leaves "x" for A, and the
      deletion pass has nothing to delete. */
  lemma ForwardPairCounts()
    ensures PlaceholderCount(ForwardPair) == 1 && EmptyCount(ForwardPair) == 1
    ensures Placeholders(ForwardPair) == {"newRow-B"}
    ensures MintIds(ForwardPair, ["y", "x"]) == map["newRow-B" := "y"]
    ensures ["y", "x"][PlaceholderCount(ForwardPair)..] == ["x"]
    ensures DeleteAbsent(OneList, GiftIds(GiftsOfListUser(OneList, "L", "o", "o")), SubmittedIds(ForwardPair)) == OneList
  {
    var gs := ForwardPair;
    assert !IsPlaceholder("") && IsPlaceholder("newRow-B");
    assert gs[1..] == [gs[1]] && gs[1..][1..] == [];
  }

  /** The upsert pass over the pair: A is created under "x" pointing at
      "y", then B is created under "y". */
  lemma ForwardPairUpsert()
    ensures var r := Upsert(OneList, Owner, "L", ForwardPair, map["newRow-B" := "y"], ["x"]);
            r.outcome == Done && "x" in r.store.gifts && "y" in r.store.gifts
            && r.store.gifts["x"].alternateTo == Some("y")
  {
    var gs := ForwardPair;
    var m := map["newRow-B" := "y"];
    ForwardPairCounts();
    UpsertFirst(OneList, Owner, "L", gs, m, ["x"]);
    var a := Apply(OneList, Owner, "L", gs[0], m, ["x"]);
    ForwardRowA();
    assert gs[1..] == [gs[1]] && gs[1..][1..] == [];
    UpsertFirst(a.store, Owner, "L", gs[1..], m, []);
    ForwardRowB(a.store);
  }

  /** Row A, with an empty id, is created under "x" with B's new id as its
      alternate. */
  lemma ForwardRowA()
    ensures var a := Apply(OneList, Owner, "L", ForwardPair[0], map["newRow-B" := "y"], ["x"]);
            a.outcome == Done && "x" in a.store.gifts && "y" !in a.store.gifts
            && a.store.gifts["x"].alternateTo == Some("y")
  {
    assert !IsPlaceholder("") && IsPlaceholder("newRow-B");
    ApplyCreates(OneList, Owner, "L", ForwardPair[0], map["newRow-B" := "y"], ["x"]);
  }

  /** Row B, a placeholder, is created under "y" and leaves "x" alone. */
  lemma ForwardRowB(s: Store)
    requires "y" !in s.gifts
    ensures var b := Apply(s, Owner, "L", ForwardPair[1], map["newRow-B" := "y"], []);
            b.outcome == Done && "y" in b.store.gifts
            && forall x :: x in s.gifts ==> x in b.store.gifts && b.store.gifts[x] == s.gifts[x]
  {
    assert IsPlaceholder("newRow-B") && !IsPlaceholder("");
    ApplyCreates(s, Owner, "L", ForwardPair[1], map["newRow-B" := "y"], []);
  }

  /** A store with one list, "L", whose only member is its owner "o", and a
      second registered user "u" who is not a member. */
  const Outsider: User := User("u", "u@example.org", "U", false, true)
  const OneList: Store := Store([UserRow("o", "t0", "o@example.org", "O", true), UserRow("u", "t1", "u@example.org", "U", false)],
                                map["L" := ListRow("Birthday", "o")], [Member("L", "o")], map[], [])
  const AddOne: seq<FormGift> := [FormGift("", "https://example.org/gift", "", "")]

  /** As written, the outsider reconciles the owner's list and a gift of
      theirs appears on it. */
  lemma OutsiderEditsList()
    ensures Needed(AddOne) == 1
    ensures var r := ModifyGiftList(OneList, Outsider, "L", AddOne, ["g"]);
            !IsMember(OneList, "u", "L") && r.outcome == Done && Created(r.store, "u", "L", "g")
  {
    assert !IsPlaceholder("");
    assert AddOne[1..] == [];
    assert Member("L", "u") !in OneList.members;
    MemberIffListed(OneList, "u", "L");
    Unfold(OneList, Outsider, "L", AddOne, ["g"]);
    var s1 := DeleteAbsent(OneList, GiftIds(GiftsOfListUser(OneList, "L", "u", "u")), SubmittedIds(AddOne));
    assert s1.gifts == map[];
    var m := MintIds(AddOne, ["g"]);
    assert ["g"][0..] == ["g"];
    UpsertFirst(s1, Outsider, "L", AddOne, m, ["g"]);
    ApplyCreates(s1, Outsider, "L", AddOne[0], m, ["g"]);
  }

  /** With the membership test in place the outsider is refused and the
      store is left as it was. */
  lemma OutsiderRefused()
    ensures Needed(AddOne) == 1
    ensures ModifyGiftListGuarded(OneList, Outsider, "L", AddOne, ["g"]) == Reply(Failed(Unauthorized), OneList)
  {
    assert !IsPlaceholder("");
    assert AddOne[1..] == [];
    assert Member("L", "u") !in OneList.members;
  }
}
