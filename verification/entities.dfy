/** Entities of the umbrella-rental domain, as the history service sees them.
    Shops and members are owned elsewhere and never change here, so records hold
    them by value; umbrellas change (shop, availability) and are held by id. */
module Entities {

  type ShopId = int
  type MemberId = int
  type UmbrellaId = int

  /** Timestamps are whole seconds on a local clock (no time zone). */
  type Timestamp = int

  /** 9999-12-31T23:59:00 in seconds since 1970-01-01T00:00:00: the placeholder a
      response shows for a record that has not been returned yet. */
  const CLEARED_AT_PLACEHOLDER: Timestamp := 253402300740

  /** Lifecycle marker of a rental record: in use, or returned. */
  datatype Process = USE | CLEAR

  datatype Shop = Shop(id: ShopId, name: string)

  datatype Member = Member(id: MemberId, nickname: string)

  /** The umbrella's current shop and whether it can be rented. */
  datatype Umbrella = Umbrella(shop: Shop, available: bool)

  /** One rental record. `endShop` and `clearedAt` stay unset until the return. */
  datatype History = History(
    cost: int,
    process: Process,
    fromShop: Shop,
    endShop: Option<Shop>,
    member: Member,
    umbrella: UmbrellaId,
    createdAt: Timestamp,
    clearedAt: Option<Timestamp>)

  /** The caller-facing view of a record. */
  datatype HistoryRes = HistoryRes(
    member: string,
    fromShop: string,
    endShop: string,
    createdAt: Timestamp,
    clearedAt: Timestamp,
    process: Process)

  /** What a successful response carries: the empty string, one record or a list. */
  datatype Payload = Blank | Record(res: HistoryRes) | Records(list: seq<HistoryRes>)

  datatype ApiResponse = ApiResponse(success: bool, data: Payload)

  /** The exceptions the service throws, one variant per failing check. */
  datatype Error = ShopNotFound | MemberNotFound | NoAvailableUmbrella | NoActiveRental

  datatype Option<T> = None | Some(value: T)

  datatype Result<T> = Ok(value: T) | Err(error: Error)
}
