# Parasol umbrella rental: the rental history service

A model of the rental lifecycle in `HistoryService`, the core of the Parasol backend. A
member rents an umbrella at a shop, which saves a `USE` record. The member later returns it,
possibly at another shop. The return marks the record `CLEAR`, stamps the return time and
shop, makes the umbrella available again, and moves it to the return shop if that is not
the shop it was rented from. The member can also list their records newest first, and ask
for their current rental.

The store is the class `HistoryApplication.HistoryService`. It holds:

- `histories`: the rental records in the order they were saved. A record's index is its identity.
- `umbrellas`: a map from umbrella id to its shop and availability flag.
- `shops` and `members`: read-only maps.

Rent and return are methods that modify the store. `historyList` is a read-only method with
a loop. `rentalStatus`, the response mapper and the lookups are functions. Each operation is
one transaction: when it fails, the store is as it was before the call. The return shows
this explicitly. As in the source, it marks the record `CLEAR` before it looks up the return
shop. When that lookup fails, it restores the saved state.

Files:

- `entities.dfy`: shops, members, umbrellas, records, responses and errors.
- `history_repository.dfy`: the store's query `findAllByMemberOrderByCreatedAtDesc`. It is
  an insertion sort of the member's record indices. An independent definition of "the
  member's newest record" comes with it.
- `history_service.dfy`: the lookups, `makeHistoryRes`, the record builder, the return's
  selection rule, and the service class.
- `rental_properties.dfy`: lemmas that relate the operations. A client method replays
  "rent at S1, return at S2".

Decisions:

- The model follows the code:
  - Rent never marks the umbrella unavailable (`HistoryService.java:139-148`). The rent
    method therefore promises `umbrellas == old(umbrellas)`.
  - Rent does not refuse a second rental while one is active.
  - On return, the umbrella moves when the return shop differs from the record's
    `fromShop` (`HistoryService.java:66`), not from the umbrella's current shop.
- The source compares shops by object reference (`HistoryService.java:66`). Within one
  persistence context that is the same as comparing them by id, which the model does.
- The database orders records by creation time only. The model breaks ties in favour of
  the record saved later.
- Times are integer seconds and are passed in as `now`. The store stamps `createdAt` with
  the save time. The far-future return time 9999-12-31 23:59 is the constant
  `CLEARED_AT_PLACEHOLDER`: 253402300740 seconds after 1970-01-01 00:00.

## Model

| member | source | states |
|---|---|---|
| HistoryRepository.FindAllByMemberDesc | src/main/java/umc/parasol/domain/history/application/HistoryService.java:78 | The query's result holds exactly the member's records among the first n saved, strictly ordered newest first by creation time. |
| HistoryRepository.FindAllByMember | src/main/java/umc/parasol/domain/history/application/HistoryService.java:50 | Over the whole store: exactly the member's records, newest first. |
| HistoryRepository.NewestFirst | src/main/java/umc/parasol/domain/history/application/HistoryService.java:91-98 | The list is empty iff the member has no records. When it is not empty, its head is the member's newest record, and no other record is. |
| HistoryRepository.FindAllFrame | src/main/java/umc/parasol/domain/history/application/HistoryService.java:50 | The order of a member's records depends only on each record's owner and creation time. |
| HistoryApplication.FindShopById | src/main/java/umc/parasol/domain/history/application/HistoryService.java:112-116 | Returns the shop when the id is known; otherwise fails with ShopNotFound. |
| HistoryApplication.FindMemberById | src/main/java/umc/parasol/domain/history/application/HistoryService.java:118-122 | Returns the member when the id is known; otherwise fails with MemberNotFound. |
| HistoryApplication.MakeHistoryResCases | src/main/java/umc/parasol/domain/history/application/HistoryService.java:124-137 | The response's end shop is the override's name when one is given, else the record's own end shop name, else "". Its return time is the record's, or `CLEARED_AT_PLACEHOLDER` while unset. Nickname, origin shop name, creation time and process are copied. |
| HistoryApplication.NewRentalFields | src/main/java/umc/parasol/domain/history/application/HistoryService.java:139-147 | The record a rent builds has cost 0, process USE, the requested shop as origin, no end shop, no return time, the caller as member, the allocated umbrella and createdAt = now. Once appended it is an active record of its member. |
| HistoryApplication.Remaining | src/main/java/umc/parasol/domain/history/application/HistoryService.java:50-52 | The not-CLEAR filter keeps exactly the given records that are not CLEAR, and a newest-first input stays newest first. |
| HistoryApplication.ActiveRecords | src/main/java/umc/parasol/domain/history/application/HistoryService.java:50-52 | Exactly the member's records still in use, newest first. |
| HistoryApplication.ReturnTarget | src/main/java/umc/parasol/domain/history/application/HistoryService.java:50-57 | There is no target iff every record of the member is CLEAR. Otherwise the target is the member's oldest record in use, and it is the only record that is. |
| HistoryApplication.HistoryService.GetAnyFreeUmbrella | src/main/java/umc/parasol/domain/history/application/HistoryService.java:146 | The allocator returns an available umbrella standing at the shop. It fails with NoAvailableUmbrella only when there is none. |
| HistoryApplication.HistoryService.RentalUmbrella | src/main/java/umc/parasol/domain/history/application/HistoryService.java:34-43 | Checks in order: an unknown shop gives ShopNotFound, an unknown member MemberNotFound, no free umbrella NoAvailableUmbrella. A failure changes nothing. Success appends exactly one record: cost 0, USE, the requested shop, no end shop, the caller, a free umbrella of that shop, and createdAt = now. Earlier records and all umbrellas are unchanged. The response shows the new record. |
| HistoryApplication.HistoryService.ReturnUmbrella | src/main/java/umc/parasol/domain/history/application/HistoryService.java:46-73 | Checks in order: an unknown member gives MemberNotFound, no record in use NoActiveRental, an unknown return shop ShopNotFound. Any failure leaves records and umbrellas unchanged. Success happens iff all three lookups pass. It changes only the target record and its umbrella: the record becomes CLEAR with clearedAt = now and endShop = the return shop. The umbrella becomes available and moves to the return shop iff that differs from the record's fromShop. |
| HistoryApplication.HistoryService.HistoryList | src/main/java/umc/parasol/domain/history/application/HistoryService.java:76-85 | An unknown member gives MemberNotFound. Otherwise there is one response per record of the member, in the query's order, each built with the record's own end shop. Creation times in the list never increase. |
| HistoryApplication.HistoryService.RentalStatus | src/main/java/umc/parasol/domain/history/application/HistoryService.java:89-109 | An unknown member gives MemberNotFound. The payload is blank iff the member has no records or the newest one is CLEAR. Otherwise it is the response for the newest record, which is in USE. |
| RentalProperties.ReturnKeepsOrder | src/main/java/umc/parasol/domain/history/application/HistoryService.java:58-70 | Closing a record leaves every member's newest-first list unchanged. |
| RentalProperties.ReturnClearsSoleActive | src/main/java/umc/parasol/domain/history/application/HistoryService.java:50-59 | If the member has at most one record in use, a return clears it. Afterwards the member has none, so a second return fails with NoActiveRental. |
| RentalProperties.ReturnLeavesOtherMembers | src/main/java/umc/parasol/domain/history/application/HistoryService.java:57-70 | A return by one member changes no other member's records in use, nor which record their next return picks. |
| RentalProperties.RentKeepsOtherMembers | src/main/java/umc/parasol/domain/history/application/HistoryService.java:38-39 | Saving one member's record leaves every other member's list unchanged. |
| RentalProperties.RentedRecordIsNewest | src/main/java/umc/parasol/domain/history/application/HistoryService.java:39 | A record saved no earlier than the member's other records heads the member's list, so the status query reports it. |
| RentalProperties.RentThenReturnTargetsNewRecord | src/main/java/umc/parasol/domain/history/application/HistoryService.java:139-148 | For a member with nothing in use, the return after a rent picks exactly the record that the rent saved. |
| RentalProperties.ReturnedUmbrellaAtReturnShop | src/main/java/umc/parasol/domain/history/application/HistoryService.java:61-68 | A returned umbrella is available. If it stood at its rental shop, it ends up at the return shop: unchanged when the two shops are the same, moved otherwise. |
| RentalProperties.NewRentalResponse | src/main/java/umc/parasol/domain/history/application/HistoryService.java:124-148 | The rent's response shows the nickname, the rental shop, an empty end shop, the save time, the placeholder return time and USE. |
| RentalProperties.ClosedRecordResponse | src/main/java/umc/parasol/domain/history/application/HistoryService.java:69-71 | The return's response equals the history-list entry for the same record: the return shop, the return time and CLEAR. |
| RentalProperties.OwnEndShopOverride | src/main/java/umc/parasol/domain/history/application/HistoryService.java:81 | Passing the record's own end shop as the override gives the same response as passing none. |

## Left out

- `VerifyReq.java` holds only declarative bean-validation annotations. The external
  validation library does the checking, so nothing there is modelled.
- Spring, Lombok and JPA plumbing is not modelled: the service annotations, the
  constructor injection and the repository interfaces. Repositories are the class's fields.
  A transaction is "on error, the store is unchanged".
- Caller resolution (`@CurrentUser`, `UserPrincipal`) is an explicit member-id parameter.
- `ApiResponse` is reduced to a success flag plus a payload: blank, one record or a list.
- Exception messages are not modelled. Each failing check is one `Error` variant.
- `LocalDateTime.now()` and JPA auditing of `createdAt` become the `now` parameter.
- `UmbrellaService.getAnyFreeUmbrella` is not part of this model. Its choice is an
  arbitrary available umbrella at the shop (`:|`), so the model does not fix which one.
  Whatever else that service may do, such as marking the umbrella unavailable, is not
  modelled either.
- Concurrent requests and transaction isolation are not modelled. Each operation runs alone.
- Ties between equal creation times are broken by save order. The database leaves their
  order open.
- Shops and members are immutable values inside records. Updates to them by other parts of
  the system are not modelled.
