/** Properties that relate the operations of the rental lifecycle to one another. */
module RentalProperties {
  import opened Entities
  import opened HistoryRepository
  import opened HistoryApplication

  /** Closing a record touches neither owner nor creation time, so the newest-first order
      of every member's records is the same before and after a return. */
  lemma ReturnKeepsOrder(hs: seq<History>, t: nat, shop: Shop, now: Timestamp, member: MemberId)
    requires t < |hs|
    ensures FindAllByMember(ClosedAt(hs, t, shop, now), member) == FindAllByMember(hs, member)
  {
    FindAllFrame(hs, ClosedAt(hs, t, shop, now), member, |hs|);
  }

  /** The not-CLEAR filter only looks at the process of the records it is given. */
  lemma {:induction false} RemainingFrame(hs: seq<History>, hs': seq<History>, ids: seq<nat>)
    requires forall a :: 0 <= a < |ids| ==>
               ids[a] < |hs| && ids[a] < |hs'| && hs[ids[a]].process == hs'[ids[a]].process
    ensures Remaining(hs, ids) == Remaining(hs', ids)
  {
    if ids != [] {
      RemainingFrame(hs, hs', ids[1..]);
    }
  }

  /** When the member has at most one record in use, a return clears it and leaves none:
      a second return in a row fails with NoActiveRental. */
  lemma ReturnClearsSoleActive(hs: seq<History>, member: MemberId, shop: Shop, now: Timestamp)
    requires forall j: nat, k: nat :: IsActive(hs, member, j) && IsActive(hs, member, k) ==> j == k
    requires ReturnTarget(hs, member).Some?
    ensures forall k: nat :: !IsActive(ClosedAt(hs, ReturnTarget(hs, member).value, shop, now), member, k)
    ensures ReturnTarget(ClosedAt(hs, ReturnTarget(hs, member).value, shop, now), member).None?
  {
    var t := ReturnTarget(hs, member).value;
    var hs' := ClosedAt(hs, t, shop, now);
    forall k | 0 <= k < |hs'| ensures !IsActive(hs', member, k) {
      if k != t && IsActive(hs', member, k) {
        assert IsActive(hs, member, k);
      }
    }
  }

  /** A return by one member changes no other member's records in use, nor which of them
      that member's next return would pick. */
  lemma ReturnLeavesOtherMembers(hs: seq<History>, member: MemberId, other: MemberId, shop: Shop, now: Timestamp)
    requires other != member
    requires ReturnTarget(hs, member).Some?
    ensures ActiveRecords(ClosedAt(hs, ReturnTarget(hs, member).value, shop, now), other) == ActiveRecords(hs, other)
    ensures ReturnTarget(ClosedAt(hs, ReturnTarget(hs, member).value, shop, now), other) == ReturnTarget(hs, other)
  {
    var t := ReturnTarget(hs, member).value;
    var hs' := ClosedAt(hs, t, shop, now);
    ReturnKeepsOrder(hs, t, shop, now, other);
    var ids := FindAllByMember(hs, other);
    assert forall a :: 0 <= a < |ids| ==> ids[a] != t by {
      forall a | 0 <= a < |ids| ensures ids[a] != t {
        assert ids[a] in ids;
      }
    }
    RemainingFrame(hs, hs', ids);
  }

  /** Saving a record of one member leaves every other member's list as it was. */
  lemma RentKeepsOtherMembers(hs: seq<History>, h: History, other: MemberId)
    requires other != h.member.id
    ensures FindAllByMember(hs + [h], other) == FindAllByMember(hs, other)
  {
    FindAllFrame(hs, hs + [h], other, |hs|);
  }

  /** A record saved no earlier than any other record of its member heads that member's
      list, so the current-status query reports it. */
  lemma RentedRecordIsNewest(hs: seq<History>, h: History)
    requires forall k :: 0 <= k < |hs| && hs[k].member.id == h.member.id ==> hs[k].createdAt <= h.createdAt
    ensures FindAllByMember(hs + [h], h.member.id) != []
    ensures FindAllByMember(hs + [h], h.member.id)[0] == |hs|
  {
    var hs' := hs + [h];
    assert IsNewest(hs', h.member.id, |hs|);
    NewestFirst(hs', h.member.id);
  }

  /** A member with nothing in use who rents and then returns gets back exactly the record
      the rent saved. */
  lemma RentThenReturnTargetsNewRecord(hs: seq<History>, shop: Shop, member: Member, umbrella: UmbrellaId, now: Timestamp)
    requires forall k: nat :: !IsActive(hs, member.id, k)
    ensures ReturnTarget(hs + [NewRental(shop, member, umbrella, now)], member.id) == Some(|hs|)
  {
    var hs' := hs + [NewRental(shop, member, umbrella, now)];
    forall j: nat | IsActive(hs', member.id, j) ensures j == |hs| {
      if j < |hs| {
        assert IsActive(hs, member.id, j);
      }
    }
    assert IsOldestActive(hs', member.id, |hs|);
  }

  /** An umbrella returned to the shop it was rented from stays there; one returned
      elsewhere moves to the return shop; either way it can be rented again. */
  lemma ReturnedUmbrellaAtReturnShop(u: Umbrella, origin: Shop, dest: Shop)
    requires u.shop == origin
    ensures ReturnedUmbrella(u, origin, dest).available
    ensures ReturnedUmbrella(u, origin, dest).shop.id == dest.id
    ensures origin.id == dest.id ==> ReturnedUmbrella(u, origin, dest).shop == u.shop
    ensures origin.id != dest.id ==> ReturnedUmbrella(u, origin, dest).shop == dest
  {
  }

  /** The response to a rent shows no end shop and the placeholder return time. */
  lemma NewRentalResponse(shop: Shop, member: Member, umbrella: UmbrellaId, now: Timestamp)
    ensures MakeHistoryRes(member, NewRental(shop, member, umbrella, now), None)
            == HistoryRes(member.nickname, shop.name, "", now, CLEARED_AT_PLACEHOLDER, USE)
  {
  }

  /** The response to a return agrees with the entry the history list later shows for the
      same record: CLEAR, the return shop and the return time. */
  lemma ClosedRecordResponse(member: Member, h: History, shop: Shop, now: Timestamp)
    ensures MakeHistoryRes(member, CloseRecord(h, shop, now), Some(shop))
            == MakeHistoryRes(member, CloseRecord(h, shop, now), CloseRecord(h, shop, now).endShop)
            == HistoryRes(member.nickname, h.fromShop.name, shop.name, h.createdAt, now, CLEAR)
  {
  }

  /** Passing a record's own end shop as the override, as the history list does, is the
      same as passing none. */
  lemma OwnEndShopOverride(member: Member, h: History)
    ensures MakeHistoryRes(member, h, h.endShop) == MakeHistoryRes(member, h, None)
  {
  }
}

/** A client of the service: member M1 rents the only umbrella of shop S1 and returns it
    at shop S2. */
module RentalScenario {
  import opened Entities
  import opened HistoryRepository
  import opened HistoryApplication

  method RentAtOneShopReturnAtAnother()
  {
    var s1, s2 := Shop(1, "S1"), Shop(2, "S2");
    var m1 := Member(7, "M1");
    var service := new HistoryService(map[1 := s1, 2 := s2], map[7 := m1], map[3 := Umbrella(s1, true)], []);

    assert IsFree(service.umbrellas, 3, 1);
    var rented := service.RentalUmbrella(7, 1, 100);
    assert rented.Ok?;
    assert service.histories == [NewRental(s1, m1, 3, 100)];
    assert rented.value.data.res == HistoryRes("M1", "S1", "", 100, CLEARED_AT_PLACEHOLDER, USE);

    assert IsOldestActive(service.histories, 7, 0);
    var returned := service.ReturnUmbrella(7, 2, 200);
    assert returned.Ok?;
    assert service.histories[0] == CloseRecord(NewRental(s1, m1, 3, 100), s2, 200);
    assert service.umbrellas[3] == Umbrella(s2, true);
    assert returned.value.data.res == HistoryRes("M1", "S1", "S2", 100, 200, CLEAR);

    var status := service.RentalStatus(7);
    assert IsNewest(service.histories, 7, 0);
    assert status == Ok(ApiResponse(true, Blank));

    var again := service.ReturnUmbrella(7, 2, 300);
    assert again == Err(NoActiveRental);
  }
}
