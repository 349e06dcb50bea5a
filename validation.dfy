/** The time-window validator: the structural check of one weekly slot, the
    same-day overlap check over a slot set, and the title/description/slots
    validation of a whole availability. Every check reports the first failure
    it meets, in the order the source tests them. */
module Validation {
  import opened Types

  const MinutesPerDay: nat := 1440
  const LastDayOfWeek: nat := 6
  const MaxTitleBytes: nat := 100
  const MaxDescriptionBytes: nat := 500

  // ---------------------------------------------------------------------------
  // Byte lengths: Rust's str::len counts the bytes of the UTF-8 encoding.
  // ---------------------------------------------------------------------------

  /** Number of bytes UTF-8 uses for one Unicode scalar value. */
  function Utf8Width(c: char): (n: nat)
    ensures 1 <= n <= 4
    ensures n == 1 <==> c as int < 0x80
  {
    if c as int < 0x80 then 1
    else if c as int < 0x800 then 2
    else if c as int < 0x1_0000 then 3
    else 4
  }

  /** Length in bytes of the UTF-8 encoding of s. */
  function Utf8Len(s: string): (n: nat)
    ensures |s| <= n <= 4 * |s|
  {
    if s == [] then 0 else Utf8Width(s[0]) + Utf8Len(s[1..])
  }

  /** On ASCII text the byte length is the character count. */
  lemma {:induction false} Utf8LenAscii(s: string)
    requires forall k :: 0 <= k < |s| ==> s[k] as int < 0x80
    ensures Utf8Len(s) == |s|
  {
    if s != [] {
      Utf8LenAscii(s[1..]);
    }
  }

  // ---------------------------------------------------------------------------
  // Title and description (availabilities.rs lines 205 and 210)
  // ---------------------------------------------------------------------------

  predicate ValidTitle(title: string) {
    title != [] && Utf8Len(title) <= MaxTitleBytes
  }

  predicate ValidDescription(description: string) {
    Utf8Len(description) <= MaxDescriptionBytes
  }

  // ---------------------------------------------------------------------------
  // One slot
  // ---------------------------------------------------------------------------

  /** The invariant of a stored slot: a real day, both bounds inside the day,
      and a non-empty half-open interval. */
  predicate WellFormedSlot(slot: TimeSlot) {
    && slot.dayOfWeek as nat <= LastDayOfWeek
    && slot.startTime as nat < MinutesPerDay
    && slot.endTime as nat < MinutesPerDay
    && slot.startTime < slot.endTime
  }

  /** validate_time_slot: checks the day, then the start, then the end, then
      their order, and reports the first violation. */
  function ValidateTimeSlot(slot: TimeSlot): (r: Result<()>)
    ensures r.Ok? <==> WellFormedSlot(slot)
    ensures r == Err(DayOutOfRange) <==> slot.dayOfWeek as nat > LastDayOfWeek
    ensures r == Err(StartOutOfRange) <==>
      slot.dayOfWeek as nat <= LastDayOfWeek && slot.startTime as nat >= MinutesPerDay
    ensures r == Err(EndOutOfRange) <==>
      slot.dayOfWeek as nat <= LastDayOfWeek && slot.startTime as nat < MinutesPerDay
      && slot.endTime as nat >= MinutesPerDay
    ensures r == Err(StartNotBeforeEnd) <==>
      slot.dayOfWeek as nat <= LastDayOfWeek && slot.startTime as nat < MinutesPerDay
      && slot.endTime as nat < MinutesPerDay && slot.startTime >= slot.endTime
  {
    if slot.dayOfWeek as nat > LastDayOfWeek then Err(DayOutOfRange)
    else if slot.startTime as nat >= MinutesPerDay then Err(StartOutOfRange)
    else if slot.endTime as nat >= MinutesPerDay then Err(EndOutOfRange)
    else if slot.startTime >= slot.endTime then Err(StartNotBeforeEnd)
    else Ok(())
  }

  /** `for slot in slots { validate_time_slot(slot)?; }`: the error of the
      first malformed slot, if any. */
  function ValidateSlots(slots: seq<TimeSlot>): (r: Result<()>)
    ensures r.Ok? <==> forall k :: 0 <= k < |slots| ==> WellFormedSlot(slots[k])
    ensures r.Err? ==> exists k :: 0 <= k < |slots| && ValidateTimeSlot(slots[k]) == r
                                   && forall m :: 0 <= m < k ==> WellFormedSlot(slots[m])
  {
    if slots == [] then Ok(())
    else match ValidateTimeSlot(slots[0])
      case Err(e) => Err(e)
      case Ok(_) =>
        var r := ValidateSlots(slots[1..]);
        assert r.Err? ==> exists k :: 0 < k < |slots| && ValidateTimeSlot(slots[k]) == r
                                      && forall m :: 0 <= m < k ==> WellFormedSlot(slots[m]) by {
          if r.Err? {
            var k :| 0 <= k < |slots[1..]| && ValidateTimeSlot(slots[1..][k]) == r
                     && forall m :: 0 <= m < k ==> WellFormedSlot(slots[1..][m]);
            assert ValidateTimeSlot(slots[k + 1]) == r;
            forall m | 0 <= m < k + 1 ensures WellFormedSlot(slots[m]) {
              if m > 0 { assert slots[m] == slots[1..][m - 1]; }
            }
          }
        }
        r
  }

  // ---------------------------------------------------------------------------
  // Same-day overlap (check_slot_overlaps)
  // ---------------------------------------------------------------------------

  /** Minute m of the day lies in the half-open interval of the slot. */
  predicate Covers(slot: TimeSlot, m: int) {
    slot.startTime <= m < slot.endTime
  }

  /** The overlap test: two slots on the same day sharing a minute conflict,
      and for non-empty intervals (as validated slots are) that is the only
      way to conflict. */
  function Conflict(a: TimeSlot, b: TimeSlot): (r: bool)
    ensures a.dayOfWeek == b.dayOfWeek && (exists m :: Covers(a, m) && Covers(b, m)) ==> r
    ensures r && a.startTime < a.endTime && b.startTime < b.endTime ==>
      a.dayOfWeek == b.dayOfWeek && exists m :: Covers(a, m) && Covers(b, m)
  {
    var later := if a.startTime < b.startTime then b.startTime else a.startTime;
    assert (a.startTime < b.endTime && b.startTime < a.endTime && a.startTime < a.endTime && b.startTime < b.endTime)
           ==> Covers(a, later) && Covers(b, later);
    a.dayOfWeek == b.dayOfWeek && a.startTime < b.endTime && b.startTime < a.endTime
  }

  /** Some two distinct positions of the sequence hold conflicting slots. */
  ghost predicate HasOverlap(slots: seq<TimeSlot>) {
    exists i, j :: 0 <= i < |slots| && 0 <= j < |slots| && i != j && Conflict(slots[i], slots[j])
  }

  /** The inner loop: compares slot i with every slot from position j on. */
  function OverlapsWith(slots: seq<TimeSlot>, i: nat, j: nat): (r: Result<()>)
    requires i < j <= |slots|
    ensures r.Ok? <==> forall b :: j <= b < |slots| ==> !Conflict(slots[i], slots[b])
    ensures r.Err? ==> exists b :: j <= b < |slots| && Conflict(slots[i], slots[b])
                                   && r.error == Overlapping(slots[i], slots[b])
    decreases |slots| - j
  {
    if j == |slots| then Ok(())
    else if Conflict(slots[i], slots[j]) then Err(Overlapping(slots[i], slots[j]))
    else OverlapsWith(slots, i, j + 1)
  }

  /** The outer loop: every pair (a, b) with i <= a < b. */
  function OverlapsFrom(slots: seq<TimeSlot>, i: nat): (r: Result<()>)
    requires i <= |slots|
    ensures r.Ok? <==> forall a, b :: i <= a < b < |slots| ==> !Conflict(slots[a], slots[b])
    ensures r.Err? ==> exists a, b :: i <= a < b < |slots| && Conflict(slots[a], slots[b])
                                      && r.error == Overlapping(slots[a], slots[b])
    decreases |slots| - i
  {
    if i == |slots| then Ok(())
    else if i + 1 == |slots| then Ok(())
    else match OverlapsWith(slots, i, i + 1)
      case Err(e) => Err(e)
      case Ok(_) => OverlapsFrom(slots, i + 1)
  }

  /** check_slot_overlaps: Err exactly when two distinct positions hold
      conflicting slots; the error names a conflicting pair. */
  function CheckSlotOverlaps(slots: seq<TimeSlot>): (r: Result<()>)
    ensures r.Ok? <==> !HasOverlap(slots)
    ensures r.Err? ==> exists a, b :: 0 <= a < b < |slots| && Conflict(slots[a], slots[b])
                                      && r.error == Overlapping(slots[a], slots[b])
  {
    OverlapOrderedPair(slots);
    OverlapsFrom(slots, 0)
  }

  /** Conflict is symmetric, so an overlap can always be named by a pair in
      position order. */
  lemma OverlapOrderedPair(slots: seq<TimeSlot>)
    ensures HasOverlap(slots) <==>
      exists a, b :: 0 <= a < b < |slots| && Conflict(slots[a], slots[b])
  {
    if HasOverlap(slots) {
      var i, j :| 0 <= i < |slots| && 0 <= j < |slots| && i != j && Conflict(slots[i], slots[j]);
      if j < i {
        assert Conflict(slots[j], slots[i]);
      }
    }
  }

  // ---------------------------------------------------------------------------
  // Whole slot sets and whole availabilities
  // ---------------------------------------------------------------------------

  /** What a stored slot set satisfies: non-empty, every slot well formed, no
      same-day overlap. */
  ghost predicate ValidSlotSet(slots: seq<TimeSlot>) {
    && slots != []
    && (forall k :: 0 <= k < |slots| ==> WellFormedSlot(slots[k]))
    && !HasOverlap(slots)
  }

  /** The slot checks shared by create and update: emptiness, then each slot
      in order, then overlaps. */
  function ValidateSlotSet(slots: seq<TimeSlot>): (r: Result<()>)
    ensures r.Ok? <==> ValidSlotSet(slots)
    ensures slots == [] ==> r == Err(NoSlots)
    ensures slots != [] && ValidateSlots(slots).Err? ==> r == ValidateSlots(slots)
    ensures slots != [] && ValidateSlots(slots).Ok? ==> r == CheckSlotOverlaps(slots)
    ensures r.Err? && r.error.Overlapping? ==>
      forall k :: 0 <= k < |slots| ==> WellFormedSlot(slots[k])
  {
    if slots == [] then Err(NoSlots)
    else match ValidateSlots(slots)
      case Err(e) => Err(e)
      case Ok(_) => CheckSlotOverlaps(slots)
  }

  /** validate_availability: the title, then the description, then the slots. */
  function ValidateAvailability(title: string, description: string, slots: seq<TimeSlot>)
    : (r: Result<()>)
    ensures r.Ok? <==> ValidTitle(title) && ValidDescription(description) && ValidSlotSet(slots)
    ensures !ValidTitle(title) ==> r == Err(TitleLength)
    ensures ValidTitle(title) && !ValidDescription(description) ==> r == Err(DescriptionLength)
    ensures ValidTitle(title) && ValidDescription(description) ==> r == ValidateSlotSet(slots)
  {
    if title == [] || Utf8Len(title) > MaxTitleBytes then Err(TitleLength)
    else if Utf8Len(description) > MaxDescriptionBytes then Err(DescriptionLength)
    else ValidateSlotSet(slots)
  }

  // ---------------------------------------------------------------------------
  // Properties of the verdict
  // ---------------------------------------------------------------------------

  /** The overlap relation read off a multiset of slots: two different slots
      that conflict, or one slot present twice that conflicts with itself. */
  ghost predicate MultisetOverlap(m: multiset<TimeSlot>) {
    exists a, b :: a in m && b in m && Conflict(a, b) && (a != b || m[a] >= 2)
  }

  lemma {:induction false} RepeatedCount(s: seq<TimeSlot>, i: nat, j: nat)
    requires i < j < |s| && s[i] == s[j]
    ensures multiset(s)[s[i]] >= 2
  {
    assert s == s[..j] + [s[j]] + s[j + 1..];
    assert s[..j][i] == s[i];
    assert s[i] in multiset(s[..j]);
  }

  lemma {:induction false} CountedTwice(s: seq<TimeSlot>, x: TimeSlot)
    requires multiset(s)[x] >= 2
    ensures exists i, j :: 0 <= i < j < |s| && s[i] == x && s[j] == x
  {
    assert s == [s[0]] + s[1..];
    if s[0] == x {
      assert multiset(s[1..])[x] >= 1;
      assert x in s[1..];
      var k :| 0 <= k < |s[1..]| && s[1..][k] == x;
      assert s[k + 1] == x;
    } else {
      assert multiset(s[1..])[x] == multiset(s)[x];
      CountedTwice(s[1..], x);
      var i, j :| 0 <= i < j < |s[1..]| && s[1..][i] == x && s[1..][j] == x;
      assert s[i + 1] == x && s[j + 1] == x;
    }
  }

  /** The overlap verdict depends only on the multiset of slots. */
  lemma OverlapIsMultisetProperty(s: seq<TimeSlot>)
    ensures HasOverlap(s) <==> MultisetOverlap(multiset(s))
  {
    if HasOverlap(s) {
      var i, j :| 0 <= i < |s| && 0 <= j < |s| && i != j && Conflict(s[i], s[j]);
      if s[i] == s[j] {
        if i < j { RepeatedCount(s, i, j); } else { RepeatedCount(s, j, i); }
      }
      assert s[i] in multiset(s) && s[j] in multiset(s);
    }
    if MultisetOverlap(multiset(s)) {
      var a, b :| a in multiset(s) && b in multiset(s) && Conflict(a, b)
                  && (a != b || multiset(s)[a] >= 2);
      if a == b {
        CountedTwice(s, a);
        var i, j :| 0 <= i < j < |s| && s[i] == a && s[j] == a;
        assert Conflict(s[i], s[j]);
      } else {
        assert a in s && b in s;
        var i :| 0 <= i < |s| && s[i] == a;
        var j :| 0 <= j < |s| && s[j] == b;
        assert Conflict(s[i], s[j]);
      }
    }
  }

  /** Reordering the slots never changes whether the overlap check fails. */
  lemma OverlapVerdictIgnoresOrder(s: seq<TimeSlot>, t: seq<TimeSlot>)
    requires multiset(s) == multiset(t)
    ensures CheckSlotOverlaps(s).Ok? <==> CheckSlotOverlaps(t).Ok?
  {
    OverlapIsMultisetProperty(s);
    OverlapIsMultisetProperty(t);
  }

  /** Reordering the slots never changes whether a slot set is accepted. */
  lemma SlotSetVerdictIgnoresOrder(s: seq<TimeSlot>, t: seq<TimeSlot>)
    requires multiset(s) == multiset(t)
    ensures ValidateSlotSet(s).Ok? <==> ValidateSlotSet(t).Ok?
  {
    OverlapVerdictIgnoresOrder(s, t);
    if forall k :: 0 <= k < |s| ==> WellFormedSlot(s[k]) {
      forall k | 0 <= k < |t| ensures WellFormedSlot(t[k]) {
        assert t[k] in multiset(s);
      }
    }
    if forall k :: 0 <= k < |t| ==> WellFormedSlot(t[k]) {
      forall k | 0 <= k < |s| ensures WellFormedSlot(s[k]) {
        assert s[k] in multiset(t);
      }
    }
    assert |s| == |multiset(s)| == |t|;
  }

  /** Slots on different days never conflict: a slot set whose parts share no
      day overlaps exactly when one of the parts does. */
  lemma OverlapSplitsByDay(s: seq<TimeSlot>, t: seq<TimeSlot>)
    requires forall a, b :: a in s && b in t ==> a.dayOfWeek != b.dayOfWeek
    ensures HasOverlap(s + t) <==> HasOverlap(s) || HasOverlap(t)
  {
    var u := s + t;
    forall i, j | 0 <= i < |s| && |s| <= j < |u| ensures !Conflict(u[i], u[j]) && !Conflict(u[j], u[i]) {
      assert u[i] == s[i] && u[j] == t[j - |s|];
    }
    if HasOverlap(u) {
      var i, j :| 0 <= i < |u| && 0 <= j < |u| && i != j && Conflict(u[i], u[j]);
      assert (i < |s|) == (j < |s|);
      if i < |s| {
        assert Conflict(s[i], s[j]);
      } else {
        assert Conflict(t[i - |s|], t[j - |s|]);
      }
    }
    if HasOverlap(s) {
      var i, j :| 0 <= i < |s| && 0 <= j < |s| && i != j && Conflict(s[i], s[j]);
      assert Conflict(u[i], u[j]);
    }
    if HasOverlap(t) {
      var i, j :| 0 <= i < |t| && 0 <= j < |t| && i != j && Conflict(t[i], t[j]);
      assert Conflict(u[|s| + i], u[|s| + j]);
    }
  }

  /** Appending slots to a rejected non-empty slot set never makes it
      acceptable: a malformed slot or an overlapping pair stays in it. */
  lemma RejectionIsMonotone(s: seq<TimeSlot>, t: seq<TimeSlot>)
    requires ValidateSlotSet(s).Err? && s != []
    ensures ValidateSlotSet(s + t).Err?
  {
    var u := s + t;
    if !(forall k :: 0 <= k < |s| ==> WellFormedSlot(s[k])) {
      var k :| 0 <= k < |s| && !WellFormedSlot(s[k]);
      assert u[k] == s[k];
    } else {
      var i, j :| 0 <= i < |s| && 0 <= j < |s| && i != j && Conflict(s[i], s[j]);
      assert Conflict(u[i], u[j]);
    }
  }

  /** The worked example: Monday 09:00-10:00 is accepted; adding Monday
      09:10-10:50 is rejected for overlap; moving that window to Tuesday is
      accepted. */
  lemma MondayTuesdayScenario()
    ensures ValidateSlotSet([TimeSlot(1, 540, 600)]).Ok?
    ensures ValidateSlotSet([TimeSlot(1, 540, 600), TimeSlot(1, 550, 650)])
            == Err(Overlapping(TimeSlot(1, 540, 600), TimeSlot(1, 550, 650)))
    ensures ValidateSlotSet([TimeSlot(1, 540, 600), TimeSlot(2, 550, 650)]).Ok?
  {
    var one := [TimeSlot(1, 540, 600)];
    var two := [TimeSlot(1, 540, 600), TimeSlot(1, 550, 650)];
    var moved := [TimeSlot(1, 540, 600), TimeSlot(2, 550, 650)];
    assert !HasOverlap(one);
    assert Conflict(two[0], two[1]);
    assert !Conflict(moved[0], moved[1]) && !Conflict(moved[1], moved[0]);
  }
}
