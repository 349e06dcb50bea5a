# Availability engine — a Dafny model

This project models the availability core of a scheduling backend
(`src/backend/src/availabilities.rs`). An *availability* is a named set of
recurring weekly time slots owned by one principal. The engine keeps four
tables:

- the store, from availability id to record;
- the owner index, from principal to that owner's ids in creation order;
- the email index and the username index, each from an email or a username
  to the principal that last registered it.

Over these tables it offers create, get, update, delete, list and regenerate
id. It also offers searches by principal, by email and by username, with batch
forms for emails and usernames, a busy-time update, and "set favorite". Set
favorite makes one availability the favorite at rank 0 and ranks the owner's
other availabilities 1, 2, … in list order.

Module layout:

- `types.dfy` (`Types`): the records (`TimeSlot`, `BusyTimeBlock`,
  `Availability`, the two request records) and the `Error` values. The
  source's error strings become `Error` values.
- `validation.dfy` (`Validation`): `validate_time_slot`,
  `check_slot_overlaps` and `validate_availability`. Title and description
  limits are counted in UTF-8 bytes, as Rust's `str::len` does. The overlap
  relation is proved independent of slot order and split by day.
- `idgen.dfy` (`IdGen`): `generate_availability_id`, with the clock given as
  a parameter.
- `idseq.dfy` (`IdSeq`): the owner-list operations. These are `retain` on
  delete, `position` plus a write on regenerate, and `filter_map` on list.
- `favorites.dfy` (`Favorites`): the three passes of
  `set_favorite_availability` as functions over the prefix processed. It also
  proves the closed form of their effect and the rank facts: the favorite is
  unique, ranks follow list order, and ranks are dense.
- `store.dfy` (`Store`): the class `AvailabilityStore`. Its four fields are
  the four tables and its methods are the operations. `Consistent()` is the
  agreement between the store and the owner index. Every mutating method
  states its whole new state and preserves `Consistent()`. For create and
  regenerate this holds when the generated id is fresh.

The code of `availabilities.rs` is followed throughout. In three places the
model keeps the code's behaviour where the documentation says otherwise:

- The collision suffix is `now % 100` printed with Rust's `{}`. That is one or
  two digits, not a fixed two.
- A colliding suffixed id is not re-checked, so create and regenerate can
  overwrite an existing record (`IdGen.SuffixedIdMayCollide`).
- `list_user_availabilities` does not fill in missing email or name fields,
  although its doc comment says it does.

## Model

| member | source | states |
|---|---|---|
| Validation.Utf8Len | src/backend/src/availabilities.rs:205-210 | the byte length `len()` tests lies between the character count and four times it |
| Validation.Utf8LenAscii | src/backend/src/availabilities.rs:205-210 | on ASCII text the byte limits are character limits |
| Validation.ValidateTimeSlot | src/backend/src/availabilities.rs:156-174 | Ok iff day <= 6, start < 1440, end < 1440 and start < end; each error iff the earlier checks pass and its own fails, in the source's order |
| Validation.ValidateSlots | src/backend/src/availabilities.rs:220-222 | Ok iff every slot is well formed; an error is the error of some slot all of whose predecessors are well formed |
| Validation.Conflict | src/backend/src/availabilities.rs:184-186 | two slots on the same day that share a minute conflict; for non-empty intervals, conflicting slots are on the same day and share a minute |
| Validation.OverlapsWith | src/backend/src/availabilities.rs:179-197 | the inner loop fails iff slot i conflicts with a later slot from j on, and names such a pair |
| Validation.OverlapsFrom | src/backend/src/availabilities.rs:178-198 | the outer loop fails iff some pair a < b from i on conflicts, and names such a pair |
| Validation.CheckSlotOverlaps | src/backend/src/availabilities.rs:177-200 | Ok iff no two distinct positions hold same-day intersecting slots; the error carries a conflicting pair in position order |
| Validation.OverlapOrderedPair | src/backend/src/availabilities.rs:178-186 | an overlap between any two positions is also one between an ordered pair, since the conflict test is symmetric |
| Validation.ValidateSlotSet | src/backend/src/availabilities.rs:215-225 | Ok iff the slots are non-empty, all well formed and non-overlapping; an empty set gives NoSlots, a malformed slot gives its own error before any overlap is checked, and a well-formed set gives the overlap check's verdict |
| Validation.ValidateAvailability | src/backend/src/availabilities.rs:203-228 | Ok iff title is 1-100 bytes, description at most 500 bytes and the slot set is valid; title error first, then description, then the slot-set verdict |
| Validation.OverlapIsMultisetProperty | src/backend/src/availabilities.rs:177-200 | the overlap verdict depends only on the multiset of slots |
| Validation.OverlapVerdictIgnoresOrder | src/backend/src/availabilities.rs:177-200 | two permutations of a slot list are both accepted or both rejected by the overlap check |
| Validation.SlotSetVerdictIgnoresOrder | src/backend/src/availabilities.rs:214-225 | two permutations of a slot list are both accepted or both rejected by the full slot validation |
| Validation.OverlapSplitsByDay | src/backend/src/availabilities.rs:183-186 | slots on different days never conflict: a union of day-disjoint lists overlaps iff one part does |
| Validation.RejectionIsMonotone | src/backend/src/availabilities.rs:214-225 | adding slots to a rejected non-empty slot set keeps it rejected |
| Validation.MondayTuesdayScenario | src/backend/src/availabilities.rs:176-200 | Monday 09:00-10:00 is accepted; adding Monday 09:10-10:50 fails with that pair; moving it to Tuesday is accepted |
| IdGen.BaseId | src/backend/src/availabilities.rs:135-141 | the sampled id has six characters, all from the 36-character set |
| IdGen.Decimal | src/backend/src/availabilities.rs:148 | `{}` prints a number below 100 as one digit below 10 and two digits otherwise, all decimal |
| IdGen.DecimalRoundTrip | src/backend/src/availabilities.rs:148 | reading the printed suffix back gives the number |
| IdGen.GenerateAvailabilityId | src/backend/src/availabilities.rs:134-153 | the id starts with the six sampled characters; it is exactly them and fresh when they are unused, and otherwise they followed by `now % 100` |
| IdGen.SuffixedIdMayCollide | src/backend/src/availabilities.rs:144-152 | with "aaaaaa" and "aaaaaa36" taken, time 936 yields a taken id: the suffix is not checked for uniqueness |
| IdGen.GeneratedIdPeriodic | src/backend/src/availabilities.rs:139-148 | the generated id repeats with period 900 in the clock value, the least common multiple of 36 and 100 |
| IdSeq.RemoveAll | src/backend/src/availabilities.rs:379 | `retain` keeps exactly the ids other than the removed one and never lengthens the list |
| IdSeq.RemoveAllAppend | src/backend/src/availabilities.rs:379 | `retain` distributes over concatenation, so relative order is kept |
| IdSeq.RemoveAllAbsent | src/backend/src/availabilities.rs:379 | removing an unlisted id leaves the list unchanged |
| IdSeq.RemoveAllAt | src/backend/src/availabilities.rs:379 | removing an id that occurs once closes its gap: the result is the list without that position |
| IdSeq.RemoveAllNoDup | src/backend/src/availabilities.rs:379 | `retain` keeps a repetition-free list repetition-free |
| IdSeq.FirstIndexOf | src/backend/src/availabilities.rs:444 | `position` is None iff the id is absent, else the first index holding it |
| IdSeq.ReplaceFirst | src/backend/src/availabilities.rs:444-446 | the length is kept, an absent id changes nothing, the first occurrence becomes the new id and no other position changes |
| IdSeq.ReplaceFirstNoDup | src/backend/src/availabilities.rs:444-446 | writing an unlisted id keeps the list repetition-free and swaps exactly the old id for the new one |
| IdSeq.Listing | src/backend/src/availabilities.rs:397-399 | `filter_map` yields at most one record per id, only records of listed stored ids, and every such record |
| IdSeq.ListingAppend | src/backend/src/availabilities.rs:397-399 | the listing follows list order: it distributes over concatenation |
| IdSeq.ListingAllStored | src/backend/src/availabilities.rs:397-399 | when every id is stored, position k of the listing is the record of id k |
| Favorites.RankedCount | src/backend/src/availabilities.rs:600-610 | the counter advances at most once per listed id |
| Favorites.ClearPass | src/backend/src/availabilities.rs:582-589 | the first pass keeps the keys and clears exactly the stored listed records, whether or not ids repeat |
| Favorites.RankPass | src/backend/src/availabilities.rs:599-610 | the third pass keeps the keys and leaves the counter at 1 plus the number of ranked positions |
| Favorites.RankPassUntouched | src/backend/src/availabilities.rs:601-603 | the third pass leaves unlisted ids and the target as they were |
| Favorites.RankPassAt | src/backend/src/availabilities.rs:600-608 | an id not repeated later gets rank 1 plus the number of ranked positions before it |
| Favorites.RankPassFrame | src/backend/src/availabilities.rs:604-605 | the third pass writes only the rank and the timestamp |
| Favorites.SetFavoriteEffect | src/backend/src/availabilities.rs:579-611 | the three passes' effect on the store keeps its keys and leaves the target promoted: favorite, rank 0, timestamp now |
| Favorites.SetFavoriteOutcome | src/backend/src/availabilities.rs:579-611 | on a repetition-free list: the target is favorite at rank 0, every other stored listed id is not favorite and ranked by position, everything else is unchanged |
| Favorites.SetFavoriteRankAt | src/backend/src/availabilities.rs:582-610 | an id not repeated later ends up cleared with the rank of its position |
| Favorites.SetFavoriteTouchesOnlyRanking | src/backend/src/availabilities.rs:579-611 | set-favorite changes only flag, rank and timestamp, promotes the target and clears every other listed id, even on a list with repetitions |
| Favorites.RankedCountMonotone | src/backend/src/availabilities.rs:600-607 | the counter never goes back |
| Favorites.RankedCountStep | src/backend/src/availabilities.rs:602-607 | a stored non-target id advances the counter by one, any other id leaves it |
| Favorites.RanksCovered | src/backend/src/availabilities.rs:600-607 | every value 1..m of the counter is given to some ranked position |
| Favorites.FavoriteIsUnique | src/backend/src/availabilities.rs:552-611 | afterwards exactly the target is favorite among the owner's stored ids, at rank 0 |
| Favorites.RanksFollowListOrder | src/backend/src/availabilities.rs:599-610 | a later ranked id gets a strictly larger rank, so no two share one |
| Favorites.RankAt | src/backend/src/availabilities.rs:599-610 | the rank of a ranked position is its count plus one and at most the number of ranked ids |
| Favorites.PositionRanksAreDense | src/backend/src/availabilities.rs:600-607 | ranking by position uses exactly the ranks 1..m |
| Favorites.RanksAreDense | src/backend/src/availabilities.rs:599-610 | afterwards the other stored ids hold exactly the ranks 1..m, m being how many they are |
| Store.ApplyUpdate | src/backend/src/availabilities.rs:313-345 | Ok iff every supplied field is valid; title, description, then slot errors in that order; on Ok the supplied fields replace the old ones, updatedAt is now and id, owner, createdAt, favorite, rank, email, name and busy times are kept |
| Store.InsertKeepsAgreement | src/backend/src/availabilities.rs:267-278 | storing a record under a fresh id and appending the id to its owner's list keeps store and owner index in agreement |
| Store.DeleteKeepsAgreement | src/backend/src/availabilities.rs:370-382 | removing a record and its id from its owner's list keeps the agreement |
| Store.MoveKeepsAgreement | src/backend/src/availabilities.rs:433-449 | moving a record to a fresh id and writing that id over the old one in the list keeps the agreement |
| Store.EditKeepsAgreement | src/backend/src/availabilities.rs:345-348 | rewriting records in place with the same id and owner keeps the agreement |
| Store.ClearFavorites | src/backend/src/availabilities.rs:582-589 | the first loop computes the first pass |
| Store.RankOthers | src/backend/src/availabilities.rs:599-610 | the third loop computes the third pass and its final counter |
| Store.FavoritePasses | src/backend/src/availabilities.rs:579-611 | the three loops together compute set-favorite's effect on the store |
| Store.AvailabilityStore.constructor | src/backend/src/availabilities.rs:110-127 | all four tables start empty, and in agreement |
| Store.AvailabilityStore.IdsOf | src/backend/src/availabilities.rs:567-572 | a missing owner entry reads as the empty list |
| Store.AvailabilityStore.GetAvailability | src/backend/src/availabilities.rs:292-298 | Ok with the stored record iff the id is stored, NotFound otherwise |
| Store.AvailabilityStore.ListUserAvailabilities | src/backend/src/availabilities.rs:390-405 | empty for an unknown caller; otherwise at most one record per listed id, exactly the records of the caller's stored ids |
| Store.AvailabilityStore.ListIsOwnersRecords | src/backend/src/availabilities.rs:390-405 | in a consistent store the listing has one record per id and holds exactly the records the caller owns |
| Store.AvailabilityStore.SearchByPrincipal | src/backend/src/availabilities.rs:484-486 | empty for an unknown principal; in a consistent store, exactly that principal's records |
| Store.AvailabilityStore.SearchByEmail | src/backend/src/availabilities.rs:460-469 | empty for an unmapped email, else the listing of the mapped owner, which in a consistent store is exactly that owner's records |
| Store.AvailabilityStore.SearchByUsername | src/backend/src/availabilities.rs:472-481 | the same as by email, through the username index |
| Store.AvailabilityStore.SearchByEmails | src/backend/src/availabilities.rs:518-532 | one result per email, in input order, each the single-email search |
| Store.AvailabilityStore.SearchByUsernames | src/backend/src/availabilities.rs:536-550 | one result per username, in input order, each the single-username search |
| Store.AvailabilityStore.CreateAvailability | src/backend/src/availabilities.rs:237-289 | fails iff validation fails, with its error and no change; otherwise it stores the record under the generated id with rank equal to the caller's previous count, favorite iff that count is 0, appends the id to the caller's list, records email and name when given, and keeps consistency when the id is fresh |
| Store.AvailabilityStore.UpdateAvailability | src/backend/src/availabilities.rs:301-353 | NotFound, then NotOwner, then the field-update verdict; on Ok only that record changes; consistency is kept |
| Store.AvailabilityStore.UpdateBusyTimes | src/backend/src/availabilities.rs:489-510 | NotFound, then NotOwner; on Ok only that record's busy times and timestamp change; consistency is kept |
| Store.AvailabilityStore.DeleteAvailability | src/backend/src/availabilities.rs:356-386 | NotFound, then NotOwner; on Ok the record is gone, every occurrence of the id leaves the caller's list, nothing else changes, and consistency is kept |
| Store.AvailabilityStore.RegenerateAvailabilityId | src/backend/src/availabilities.rs:412-453 | NotFound, then NotOwner; on Ok the record moves to the generated id with a new timestamp, the new id takes the old one's place in the list, the list length is kept, the old id is no longer found, and consistency is kept when the id is fresh |
| Store.AvailabilityStore.SetFavoriteAvailability | src/backend/src/availabilities.rs:554-615 | NotFound, NotOwner, then NoAvailabilities for an empty list; on Ok the store is the three passes' effect, the target is favorite at rank 0, no other listed id is favorite, and consistency is kept |

## Left out

- Serialization: the `Storable` and candid encodings are not modelled. The
  maps hold values directly.
- Storage plumbing: `StableBTreeMap`, the memory manager, `thread_local!` and
  `RefCell` borrowing become the four fields of one object.
- Upgrades are not modelled. The email and username indexes are plain heap
  maps, so after an upgrade they start empty while the store and owner index
  persist. Only later creates refill them; nothing rebuilds them.
- `ic_cdk::println!` logging is not modelled; it does not affect any result.
- The availability status type and the canister entry points in `lib.rs` are
  not part of this model.
- Error messages: each error string becomes an `Error` value.
  `Overlapping` carries the conflicting pair instead of the formatted
  `HH:MM` text.
- Clock: `time()` is the parameter `now`, one value per call, as the clock
  reads within one message.
- Randomness: the id generator's only entropy is the clock, which is modelled
  exactly. Nothing random is left.
- Store.AvailabilityStore.CreateAvailability: `display_order` is a `nat`, not
  a `u32`, and timestamps are `nat`, not `u64`. A list long enough to wrap a
  `u32` is not modelled.
- Store.AvailabilityStore.SetFavoriteAvailability: the `u32` rank counter is
  unbounded here. It cannot wrap, because it never exceeds the list length.
- Validation.Utf8Len: strings are sequences of Unicode scalar values. The
  UTF-8 byte count is computed from them; encoding and decoding are not
  modelled.
- Store.AvailabilityStore.CreateAvailability: consistency is promised only
  when the generated id is fresh. A suffixed id that collides overwrites an
  existing record, as in the source.
- Store.AvailabilityStore.RegenerateAvailabilityId: consistency is promised
  only when the generated id is fresh, for the same reason.
- Favorites.SetFavoriteOutcome: the ordering facts assume a repetition-free
  owner list, which `Consistent()` guarantees. `SetFavoriteTouchesOnlyRanking`
  holds without that assumption.
- Ranks are renumbered only by set-favorite. Delete leaves gaps and create
  appends at the old count, as in the source, so no density property is
  claimed for those operations.
