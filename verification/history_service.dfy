/** The rental lifecycle: rent, return, history list and current status over one store
    of records, umbrellas, shops and members. Each operation runs as one transaction:
    when it fails, the store is as it was before the call. */
module HistoryApplication {
  import opened Entities
  import opened HistoryRepository

  /** findShopById: the shop, or ShopNotFound. */
  function FindShopById(shops: map<ShopId, Shop>, shopId: ShopId): (r: Result<Shop>)
    ensures r.Ok? <==> shopId in shops
    ensures r.Ok? ==> r.value == shops[shopId]
    ensures r.Err? ==> r.error == ShopNotFound
  {
    if shopId in shops then Ok(shops[shopId]) else Err(ShopNotFound)
  }

  /** findMemberById: the member, or MemberNotFound. */
  function FindMemberById(members: map<MemberId, Member>, memberId: MemberId): (r: Result<Member>)
    ensures r.Ok? <==> memberId in members
    ensures r.Ok? ==> r.value == members[memberId]
    ensures r.Err? ==> r.error == MemberNotFound
  {
    if memberId in members then Ok(members[memberId]) else Err(MemberNotFound)
  }

  /** makeHistoryRes: the response for a record. The end shop is the override when one is
      given, else the record's own end shop, else empty; an unset return time shows as
      the far-future placeholder. */
  function MakeHistoryRes(member: Member, h: History, endShop: Option<Shop>): HistoryRes
  {
    HistoryRes(
      member := member.nickname,
      fromShop := h.fromShop.name,
      endShop :=
        if endShop.Some? then endShop.value.name
        else if h.endShop.Some? then h.endShop.value.name
        else "",
      createdAt := h.createdAt,
      clearedAt := if h.clearedAt.Some? then h.clearedAt.value else CLEARED_AT_PLACEHOLDER,
      process := h.process)
  }

  /** rentalUmbrella(Shop, Member): the record a rent saves, given the allocator's umbrella
      and the time the store stamps on it. */
  function NewRental(shop: Shop, member: Member, umbrella: UmbrellaId, now: Timestamp): History
  {
    History(
      cost := 0, process := USE, fromShop := shop, endShop := None,
      member := member, umbrella := umbrella, createdAt := now, clearedAt := None)
  }

  /** The rules of the response, case by case: the end shop is the override's name when
      one is given, else the record's own end shop, else empty; the return time is the
      record's own, or the placeholder while it is unset; the other fields copy the
      member's nickname and the record. */
  lemma MakeHistoryResCases(member: Member, h: History, endShop: Option<Shop>)
    ensures endShop.Some? ==> MakeHistoryRes(member, h, endShop).endShop == endShop.value.name
    ensures endShop.None? && h.endShop.Some? ==>
              MakeHistoryRes(member, h, endShop).endShop == h.endShop.value.name
    ensures endShop.None? && h.endShop.None? ==> MakeHistoryRes(member, h, endShop).endShop == ""
    ensures h.clearedAt.None? ==> MakeHistoryRes(member, h, endShop).clearedAt == CLEARED_AT_PLACEHOLDER
    ensures h.clearedAt.Some? ==> MakeHistoryRes(member, h, endShop).clearedAt == h.clearedAt.value
    ensures MakeHistoryRes(member, h, endShop).member == member.nickname
    ensures MakeHistoryRes(member, h, endShop).fromShop == h.fromShop.name
    ensures MakeHistoryRes(member, h, endShop).createdAt == h.createdAt
    ensures MakeHistoryRes(member, h, endShop).process == h.process
  {
  }

  /** The record a rent saves costs 0, is in use, starts at the requested shop with no end
      shop and no return time, belongs to the caller, holds the allocated umbrella and is
      stamped with the save time; once saved it is an active record of its member. */
  lemma NewRentalFields(hs: seq<History>, shop: Shop, member: Member, umbrella: UmbrellaId, now: Timestamp)
    ensures NewRental(shop, member, umbrella, now).cost == 0
    ensures NewRental(shop, member, umbrella, now).process == USE
    ensures NewRental(shop, member, umbrella, now).fromShop == shop
    ensures NewRental(shop, member, umbrella, now).endShop.None?
    ensures NewRental(shop, member, umbrella, now).clearedAt.None?
    ensures NewRental(shop, member, umbrella, now).member == member
    ensures NewRental(shop, member, umbrella, now).umbrella == umbrella
    ensures NewRental(shop, member, umbrella, now).createdAt == now
    ensures IsActive(hs + [NewRental(shop, member, umbrella, now)], member.id, |hs|)
  {
  }

  /** The record after a return: CLEAR, stamped and closed at the return shop. */
  function CloseRecord(h: History, shop: Shop, now: Timestamp): History
  {
    h.(process := CLEAR, clearedAt := Some(now), endShop := Some(shop))
  }

  /** The store after record t is closed. */
  function ClosedAt(hs: seq<History>, t: nat, shop: Shop, now: Timestamp): seq<History>
    requires t < |hs|
  {
    hs[t := CloseRecord(hs[t], shop, now)]
  }

  /** The umbrella after a return: available again, and moved to the return shop when that
      is not the shop it was rented from. */
  function ReturnedUmbrella(u: Umbrella, origin: Shop, dest: Shop): Umbrella
  {
    u.(available := true, shop := if origin.id != dest.id then dest else u.shop)
  }

  /** Umbrella u stands at the shop and can be rented. */
  predicate IsFree(umbrellas: map<UmbrellaId, Umbrella>, u: UmbrellaId, shopId: ShopId)
  {
    u in umbrellas && umbrellas[u].available && umbrellas[u].shop.id == shopId
  }

  /** Record k belongs to the member and has not been returned. */
  predicate IsActive(hs: seq<History>, member: MemberId, k: nat)
  {
    k < |hs| && hs[k].member.id == member && hs[k].process != CLEAR
  }

  /** The stream filter of returnUmbrella: the records not yet CLEAR, order kept. */
  function Remaining(hs: seq<History>, ids: seq<nat>): (r: seq<nat>)
    requires forall a :: 0 <= a < |ids| ==> ids[a] < |hs|
    ensures forall x {:trigger x in r} :: x in r <==> x in ids && 0 <= x < |hs| && hs[x].process != CLEAR
    ensures SortedDesc(hs, ids) ==> SortedDesc(hs, r)
  {
    if ids == [] then []
    else
      var rest := Remaining(hs, ids[1..]);
      if hs[ids[0]].process == CLEAR then rest
      else
        assert SortedDesc(hs, ids) ==> forall b :: 0 <= b < |rest| ==> Newer(hs, ids[0], rest[b]) by {
          if SortedDesc(hs, ids) {
            forall b | 0 <= b < |rest| ensures Newer(hs, ids[0], rest[b]) {
              assert rest[b] in rest;
              var a :| 0 <= a < |ids[1..]| && ids[1..][a] == rest[b];
              assert ids[a + 1] == rest[b];
            }
          }
        }
        [ids[0]] + rest
  }

  /** The member's records still in use, newest first. */
  function ActiveRecords(hs: seq<History>, member: MemberId): (r: seq<nat>)
    ensures SortedDesc(hs, r)
    ensures forall k :: k in r <==> IsActive(hs, member, k)
  {
    Remaining(hs, FindAllByMember(hs, member))
  }

  /** An independent description of the record a return picks: the member's active
      record created before every other active one. */
  ghost predicate IsOldestActive(hs: seq<History>, member: MemberId, k: nat)
  {
    && IsActive(hs, member, k)
    && forall j: nat :: IsActive(hs, member, j) && j != k ==> Newer(hs, j, k)
  }

  /** The record returnUmbrella clears: the last of the member's active records in
      newest-first order, which is the oldest active one; none when every record of the
      member is CLEAR. */
  function ReturnTarget(hs: seq<History>, member: MemberId): (r: Option<nat>)
    ensures r.None? <==> forall k: nat :: !IsActive(hs, member, k)
    ensures r.Some? ==> IsOldestActive(hs, member, r.value)
    ensures forall k: nat :: IsOldestActive(hs, member, k) ==> r == Some(k)
  {
    var remain := ActiveRecords(hs, member);
    if remain == [] then None
    else
      var t := remain[|remain| - 1];
      assert t in remain;
      assert forall j: nat :: IsActive(hs, member, j) && j != t ==> Newer(hs, j, t) by {
        forall j: nat | IsActive(hs, member, j) && j != t ensures Newer(hs, j, t) {
          assert j in remain;
          var a :| 0 <= a < |remain| && remain[a] == j;
        }
      }
      Some(t)
  }

  /** The service over one store. Shops and members are read, never written; records are
      only appended or closed; umbrellas change shop and availability. */
  class HistoryService {
    const shops: map<ShopId, Shop>
    const members: map<MemberId, Member>
    var histories: seq<History>
    var umbrellas: map<UmbrellaId, Umbrella>

    /** Shops and members are keyed by their own ids, and every record's umbrella exists. */
    ghost predicate Valid()
      reads this
    {
      && (forall id :: id in shops ==> shops[id].id == id)
      && (forall id :: id in members ==> members[id].id == id)
      && (forall k :: 0 <= k < |histories| ==> histories[k].umbrella in umbrellas)
    }

    constructor (shops: map<ShopId, Shop>, members: map<MemberId, Member>,
                 umbrellas: map<UmbrellaId, Umbrella>, histories: seq<History>)
      requires forall id :: id in shops ==> shops[id].id == id
      requires forall id :: id in members ==> members[id].id == id
      requires forall k :: 0 <= k < |histories| ==> histories[k].umbrella in umbrellas
      ensures Valid()
      ensures this.shops == shops && this.members == members
      ensures this.umbrellas == umbrellas && this.histories == histories
    {
      this.shops := shops;
      this.members := members;
      this.umbrellas := umbrellas;
      this.histories := histories;
    }

    /** The allocator (UmbrellaService.getAnyFreeUmbrella): any free umbrella at the shop,
        or NoAvailableUmbrella. It changes nothing. */
    method GetAnyFreeUmbrella(shop: Shop) returns (r: Result<UmbrellaId>)
      ensures r.Ok? ==> IsFree(umbrellas, r.value, shop.id)
      ensures r.Err? ==> r.error == NoAvailableUmbrella && forall u :: !IsFree(umbrellas, u, shop.id)
    {
      if u :| u in umbrellas && umbrellas[u].available && umbrellas[u].shop.id == shop.id {
        r := Ok(u);
      } else {
        r := Err(NoAvailableUmbrella);
      }
    }

    /** rentalUmbrella: saves one new record for the member at the shop. Lookups fail in
        the order shop, member, free umbrella, and a failure changes nothing. */
    method RentalUmbrella(memberId: MemberId, shopId: ShopId, now: Timestamp)
      returns (r: Result<ApiResponse>)
      requires Valid()
      modifies this
      ensures Valid()
      ensures umbrellas == old(umbrellas)
      ensures shopId !in shops ==> r == Err(ShopNotFound)
      ensures shopId in shops && memberId !in members ==> r == Err(MemberNotFound)
      ensures shopId in shops && memberId in members && (forall u :: !IsFree(umbrellas, u, shopId)) ==>
                r == Err(NoAvailableUmbrella)
      ensures shopId in shops && memberId in members && (exists u :: IsFree(umbrellas, u, shopId)) ==>
                r.Ok?
      ensures r.Err? ==> histories == old(histories)
      ensures r.Ok? ==>
                && shopId in shops && memberId in members
                && |histories| == |old(histories)| + 1
                && histories[..|old(histories)|] == old(histories)
                && IsFree(umbrellas, histories[|old(histories)|].umbrella, shopId)
                && histories[|old(histories)|] ==
                     NewRental(shops[shopId], members[memberId], histories[|old(histories)|].umbrella, now)
                && r.value == ApiResponse(true, Record(MakeHistoryRes(members[memberId], histories[|old(histories)|], None)))
    {
      var targetShop := FindShopById(shops, shopId);
      if targetShop.Err? {
        return Err(targetShop.error);
      }
      var member := FindMemberById(members, memberId);
      if member.Err? {
        return Err(member.error);
      }
      var umbrella := GetAnyFreeUmbrella(targetShop.value);
      if umbrella.Err? {
        return Err(umbrella.error);
      }
      var history := NewRental(targetShop.value, member.value, umbrella.value, now);
      histories := histories + [history];
      r := Ok(ApiResponse(true, Record(MakeHistoryRes(member.value, history, None))));
    }

    /** returnUmbrella: closes the member's oldest active record at the return shop and
        frees its umbrella. The record is marked CLEAR before the return shop is looked up;
        when that lookup fails the transaction is rolled back. */
    method ReturnUmbrella(memberId: MemberId, shopId: ShopId, now: Timestamp)
      returns (r: Result<ApiResponse>)
      requires Valid()
      modifies this
      ensures Valid()
      ensures memberId !in members ==> r == Err(MemberNotFound)
      ensures memberId in members && ReturnTarget(old(histories), memberId).None? ==>
                r == Err(NoActiveRental)
      ensures memberId in members && ReturnTarget(old(histories), memberId).Some? && shopId !in shops ==>
                r == Err(ShopNotFound)
      ensures r.Ok? <==>
                memberId in members && ReturnTarget(old(histories), memberId).Some? && shopId in shops
      ensures r.Err? ==> histories == old(histories) && umbrellas == old(umbrellas)
      ensures r.Ok? ==>
                && memberId in members && shopId in shops
                && ReturnTarget(old(histories), memberId).Some?
                && var t := ReturnTarget(old(histories), memberId).value;
                   var h := old(histories)[t];
                   && histories == ClosedAt(old(histories), t, shops[shopId], now)
                   && umbrellas == old(umbrellas)[h.umbrella :=
                        ReturnedUmbrella(old(umbrellas)[h.umbrella], h.fromShop, shops[shopId])]
                   && r.value == ApiResponse(true, Record(MakeHistoryRes(members[memberId], histories[t], Some(shops[shopId]))))
    {
      var savedHistories, savedUmbrellas := histories, umbrellas;
      var member := FindMemberById(members, memberId);
      if member.Err? {
        return Err(member.error);
      }
      var remain := ActiveRecords(histories, memberId);
      if remain == [] {
        return Err(NoActiveRental);
      }
      var t := remain[|remain| - 1];
      var targetUmbrella := histories[t].umbrella;
      histories := histories[t := histories[t].(process := CLEAR)];

      var originShop := histories[t].fromShop;
      var targetShop := FindShopById(shops, shopId);
      if targetShop.Err? {
        histories, umbrellas := savedHistories, savedUmbrellas;
        return Err(targetShop.error);
      }

      umbrellas := umbrellas[targetUmbrella := umbrellas[targetUmbrella].(available := true)];
      if originShop.id != targetShop.value.id {
        umbrellas := umbrellas[targetUmbrella := umbrellas[targetUmbrella].(shop := targetShop.value)];
      }
      histories := histories[t := histories[t].(clearedAt := Some(now))];
      histories := histories[t := histories[t].(endShop := Some(targetShop.value))];
      r := Ok(ApiResponse(true, Record(MakeHistoryRes(member.value, histories[t], Some(targetShop.value)))));
    }

    /** historyList: one response per record of the member, newest first, each showing
        the record's own end shop. It changes nothing. */
    method HistoryList(memberId: MemberId) returns (r: Result<ApiResponse>)
      requires Valid()
      ensures r.Err? <==> memberId !in members
      ensures r.Err? ==> r.error == MemberNotFound
      ensures r.Ok? ==>
                && r.value.success && r.value.data.Records?
                && var ids := FindAllByMember(histories, memberId);
                   var list := r.value.data.list;
                   && |list| == |ids|
                   && (forall i :: 0 <= i < |list| ==>
                         list[i] == MakeHistoryRes(members[memberId], histories[ids[i]], histories[ids[i]].endShop))
                   && (forall a, b :: 0 <= a < b < |list| ==> list[a].createdAt >= list[b].createdAt)
    {
      var member := FindMemberById(members, memberId);
      if member.Err? {
        return Err(member.error);
      }
      var ids := FindAllByMember(histories, memberId);
      var list: seq<HistoryRes> := [];
      for i := 0 to |ids|
        invariant |list| == i
        invariant forall j :: 0 <= j < i ==>
                    list[j] == MakeHistoryRes(member.value, histories[ids[j]], histories[ids[j]].endShop)
      {
        var history := histories[ids[i]];
        list := list + [MakeHistoryRes(member.value, history, history.endShop)];
      }
      r := Ok(ApiResponse(true, Records(list)));
    }

    /** rentalStatus: the member's latest record while it is still in use; the blank
        payload when the member has no record or the latest one is CLEAR. */
    function RentalStatus(memberId: MemberId): (r: Result<ApiResponse>)
      reads this
      requires Valid()
      ensures r.Err? <==> memberId !in members
      ensures r.Err? ==> r.error == MemberNotFound
      ensures r.Ok? ==> r.value.success && !r.value.data.Records?
      ensures r.Ok? ==>
                (r.value.data == Blank <==>
                   forall k: nat :: IsNewest(histories, memberId, k) ==> histories[k].process == CLEAR)
      ensures r.Ok? && r.value.data.Record? ==>
                exists k: nat :: && IsNewest(histories, memberId, k)
                            && histories[k].process == USE
                            && r.value.data.res == MakeHistoryRes(members[memberId], histories[k], None)
    {
      match FindMemberById(members, memberId)
      case Err(e) => Err(e)
      case Ok(member) =>
        var historyList := FindAllByMember(histories, memberId);
        NewestFirst(histories, memberId);
        if |historyList| == 0 then Ok(ApiResponse(true, Blank))
        else
          var recentRental := histories[historyList[0]];
          assert IsNewest(histories, memberId, historyList[0]);
          assert recentRental.process != CLEAR ==> recentRental.process == USE;
          if recentRental.process == CLEAR then Ok(ApiResponse(true, Blank))
          else Ok(ApiResponse(true, Record(MakeHistoryRes(member, recentRental, None))))
    }
  }
}
