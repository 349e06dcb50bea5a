/** Data model of the availability engine: weekly time slots, busy blocks,
    the Availability record, the two request records, and the error values
    every operation reports instead of panicking. */
module Types {

  /** Fixed-width unsigned integers of the records' fields. */
  type u8 = x: int | 0 <= x < 0x100
  type u16 = x: int | 0 <= x < 0x1_0000
  type u64 = x: int | 0 <= x < 0x1_0000_0000_0000_0000

  /** An account identifier supplied by the platform; the engine only compares them. */
  type Principal(==, !new)

  datatype Option<T> = None | Some(value: T) {
    /** The value if present, otherwise the given default. */
    function GetOr(default: T): T {
      if Some? then value else default
    }
  }

  /** One recurring weekly window: a day (0 = Sunday) and the half-open
      minute-of-day interval [startTime, endTime). */
  datatype TimeSlot = TimeSlot(dayOfWeek: u8, startTime: u16, endTime: u16)

  /** An externally sourced busy interval, in absolute timestamps; never validated. */
  datatype BusyTimeBlock = BusyTimeBlock(startTime: u64, endTime: u64)

  datatype Availability = Availability(
    id: string,
    owner: Principal,
    ownerEmail: Option<string>,
    ownerName: Option<string>,
    title: string,
    description: string,
    slots: seq<TimeSlot>,
    timezone: string,
    createdAt: nat,
    updatedAt: nat,
    busyTimes: Option<seq<BusyTimeBlock>>,
    isFavorite: bool,
    displayOrder: nat)

  datatype CreateRequest = CreateRequest(
    title: string,
    description: string,
    slots: seq<TimeSlot>,
    timezone: string,
    ownerEmail: Option<string>,
    ownerName: Option<string>,
    busyTimes: Option<seq<BusyTimeBlock>>)

  /** A partial update: only the fields that are Some are applied. */
  datatype UpdateRequest = UpdateRequest(
    id: string,
    title: Option<string>,
    description: Option<string>,
    slots: Option<seq<TimeSlot>>,
    timezone: Option<string>)

  /** The reasons an operation fails; the source reports each as an Err string. */
  datatype Error =
    | TitleLength              // title must be 1-100 bytes
    | DescriptionLength        // description must be 0-500 bytes
    | NoSlots                  // at least one slot is required
    | DayOutOfRange            // day_of_week > 6
    | StartOutOfRange          // start_time >= 1440
    | EndOutOfRange            // end_time >= 1440
    | StartNotBeforeEnd        // start_time >= end_time
    | Overlapping(first: TimeSlot, second: TimeSlot)
    | NotFound                 // no availability under the id
    | NotOwner                 // the caller does not own the availability
    | NoAvailabilities         // the caller's owner index is empty

  datatype Result<T> = Ok(value: T) | Err(error: Error)
}
