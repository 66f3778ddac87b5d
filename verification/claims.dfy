/**
 Claiming and unclaiming a single gift: read the gift, run the guards in the
 order the service runs them, then write the whole row back through
 `modify_gift`.  `me` is the acting user as the session layer resolved it.
 */
module Claims {
  import opened Data
  import opened Db
  import opened Replies

  /** `claim_gift`: owner check first, then the already-claimed check. */
  function Claim(s: Store, me: User, id: Id): (r: Reply)
    ensures id !in s.gifts ==> r == Reply(Failed(MissingRow), s)
    ensures id in s.gifts && s.gifts[id].owner == me.uuid ==> r == Reply(Failed(OwnGift), s)
    ensures id in s.gifts && s.gifts[id].owner != me.uuid && s.gifts[id].claimed ==>
              r.store == s
              && r.outcome == Failed(if IsUser(s, s.gifts[id].claimedBy)
                                     then AlreadyClaimed(UserViewOf(s, s.gifts[id].claimedBy, me.uuid).name)
                                     else MissingRow)
    ensures r.outcome == Done <==> id in s.gifts && s.gifts[id].owner != me.uuid && !s.gifts[id].claimed
    ensures r.outcome == Done ==>
              r.store == s.(gifts := s.gifts[id := s.gifts[id].(claimed := true, claimedBy := me.uuid)])
  {
    match GiftFromUuid(s, id, me.uuid)
    case None => Reply(Failed(MissingRow), s)
    case Some(gift) =>
      if gift.owner == me.uuid then Reply(Failed(OwnGift), s)
      else if gift.claimed then
        match gift.claimedBy
        case None => Reply(Failed(MissingRow), s)
        case Some(u) => Reply(Failed(AlreadyClaimed(u.name)), s)
      else
        Reply(Done, ModifyGift(s, gift.(claimed := true, claimedBy := Some(me))))
  }

  /** `unclaim_gift`: own gift, then not claimed, then claimed by someone else. */
  function Unclaim(s: Store, me: User, id: Id): (r: Reply)
    ensures id !in s.gifts ==> r == Reply(Failed(MissingRow), s)
    ensures id in s.gifts && s.gifts[id].owner == me.uuid ==> r == Reply(Failed(OwnGift), s)
    ensures id in s.gifts && s.gifts[id].owner != me.uuid && !s.gifts[id].claimed ==>
              r == Reply(Failed(NotClaimed), s)
    ensures id in s.gifts && s.gifts[id].owner != me.uuid && s.gifts[id].claimed
            && s.gifts[id].claimedBy != me.uuid ==>
              r.store == s
              && r.outcome == Failed(if IsUser(s, s.gifts[id].claimedBy)
                                     then ClaimedByOther(UserViewOf(s, s.gifts[id].claimedBy, me.uuid).name)
                                     else MissingRow)
    ensures r.outcome == Done <==>
              id in s.gifts && s.gifts[id].owner != me.uuid && s.gifts[id].claimed
              && s.gifts[id].claimedBy == me.uuid && IsUser(s, me.uuid)
    ensures r.outcome.Failed? ==> r.store == s
    ensures r.outcome == Done ==>
              r.store == s.(gifts := s.gifts[id := s.gifts[id].(claimed := false, claimedBy := NoClaimer)])
  {
    match GiftFromUuid(s, id, me.uuid)
    case None => Reply(Failed(MissingRow), s)
    case Some(gift) =>
      if gift.owner == me.uuid then Reply(Failed(OwnGift), s)
      else if !gift.claimed then Reply(Failed(NotClaimed), s)
      else
        match gift.claimedBy
        case None => Reply(Failed(MissingRow), s)
        case Some(u) =>
          if u.uuid != me.uuid then Reply(Failed(ClaimedByOther(u.name)), s)
          else Reply(Done, ModifyGift(s, gift.(claimed := false, claimedBy := None)))
  }

  /** The claim columns agree: a gift is claimed exactly when it names a
      claimer other than the sentinel, and a claimer is a stored user. */
  predicate ClaimInv(s: Store) {
    forall id :: id in s.gifts ==>
      (s.gifts[id].claimed <==> s.gifts[id].claimedBy != NoClaimer)
      && (s.gifts[id].claimed ==> IsUser(s, s.gifts[id].claimedBy))
  }

  /** Claims and unclaims by a stored user keep the claim columns in step:
      whatever either operation replies, its store satisfies the invariant. */
  lemma ClaimsKeepInv(s: Store, me: User, id: Id)
    requires ClaimInv(s) && IsUser(s, me.uuid) && me.uuid != NoClaimer
    ensures ClaimInv(Claim(s, me, id).store)
    ensures ClaimInv(Unclaim(s, me, id).store)
  {
    var c := Claim(s, me, id).store;
    var u := Unclaim(s, me, id).store;
    assert c.users == s.users && u.users == s.users;
  }

  /** Claiming a freshly created (unclaimed, sentinel claimer) gift and then
      unclaiming it as the same user gives back the store exactly. */
  lemma ClaimThenUnclaim(s: Store, me: User, id: Id)
    requires id in s.gifts && s.gifts[id].owner != me.uuid
    requires !s.gifts[id].claimed && s.gifts[id].claimedBy == NoClaimer
    requires IsUser(s, me.uuid)
    ensures Claim(s, me, id).outcome == Done
    ensures Unclaim(Claim(s, me, id).store, me, id) == Reply(Done, s)
  {
    var s1 := Claim(s, me, id).store;
    assert s1.users == s.users;
    var s2 := Unclaim(s1, me, id).store;
    assert s2.gifts == s.gifts;
  }
}
