/**
 * The weekly schedule editor of the extension popup (frontend/popup.js,
 * the block form's submit handler and the delete button): "HH:MM" times
 * read as minutes, the rejection of inverted intervals and of overlaps
 * with the day's other blocks, and the add, edit, move and delete of
 * blocks with the day re-sorted by start time.
 *
 * JavaScript's NaN is `None`: every comparison with it is false, so an
 * unreadable time never makes an interval inverted and takes part in no
 * comparison of the clash test.
 */
module BlockEditor {
  import opened Wrappers
  import opened Text
  import opened Seqs

  // ---------------------------------------------------------------------
  // Times
  // ---------------------------------------------------------------------

  predicate AllDigits(s: string)
  {
    forall i :: 0 <= i < |s| ==> IsDigit(s[i])
  }

  /** The decimal value of a string of digits. */
  function DigitsValue(s: string): nat
    requires AllDigits(s)
  {
    if |s| == 0 then 0
    else DigitsValue(s[..|s| - 1]) * 10 + (s[|s| - 1] as int - '0' as int)
  }

  /**
   * JavaScript `Number(s)` on decimal text: white space around the digits is
   * ignored, a blank string is 0, and anything else that is not all digits
   * is NaN.
   */
  function JsNumber(s: string): (r: Option<int>)
    ensures r.Some? ==> r.value >= 0
    ensures IsBlank(Js, s) ==> r == Some(0)
  {
    var t := Trim(Js, s);
    TrimBlank(Js, s);
    if t == [] then Some(0)
    else if AllDigits(t) then Some(DigitsValue(t))
    else None
  }

  /** A string of digits reads as its decimal value. */
  lemma JsNumberOfDigits(s: string)
    requires s != [] && AllDigits(s)
    ensures JsNumber(s) == Some(DigitsValue(s))
  {
    assert !IsJsSpace(s[0]) && !IsJsSpace(s[|s| - 1]) by {
      assert IsDigit(s[0]) && IsDigit(s[|s| - 1]);
    }
    TrimOfTrimmed(Js, s);
  }

  /** `toMinutes`: `const [h, m] = t.split(':').map(Number); return h * 60 + m`. */
  function ToMinutes(t: string): Option<int>
  {
    var p := Split(t, ':');
    if |p| < 2 then None // `m` is undefined, and `h * 60 + undefined` is NaN
    else
      match (JsNumber(p[0]), JsNumber(p[1]))
      case (Some(h), Some(m)) => Some(h * 60 + m)
      case _ => None
  }

  /** The minutes of a time whose first two `:` pieces are `h` and `m`. */
  lemma ToMinutesOfPieces(t: string, h: string, m: string)
    requires |Split(t, ':')| >= 2 && Split(t, ':')[0] == h && Split(t, ':')[1] == m
    ensures ToMinutes(t) == if JsNumber(h).Some? && JsNumber(m).Some? then Some(JsNumber(h).value * 60 + JsNumber(m).value) else None
  {
  }

  /** The first two `:` pieces of `h:m` followed by nothing or by another `:` piece. */
  lemma {:induction false} ColonPieces(h: string, m: string, rest: string)
    requires ':' !in h && ':' !in m
    requires rest == [] || rest[0] == ':'
    ensures |Split(h + ":" + m + rest, ':')| >= 2
    ensures Split(h + ":" + m + rest, ':')[0] == h && Split(h + ":" + m + rest, ':')[1] == m
  {
    var t := h + ":" + m + rest;
    assert t == h + [':'] + (m + rest);
    SplitCons(h, ':', m + rest);
    if rest == [] {
      assert m + rest == m;
      SplitNoSep(m, ':');
    } else {
      assert m + rest == m + [':'] + rest[1..];
      SplitCons(m, ':', rest[1..]);
    }
  }

  /**
   * "H:M", alone or followed by another `:` piece, whose hour and minute
   * pieces read as `x` and `y` is `x * 60 + y` minutes.
   */
  lemma ToMinutesOfValues(h: string, m: string, rest: string, x: int, y: int)
    requires ':' !in h && ':' !in m
    requires rest == [] || rest[0] == ':'
    requires JsNumber(h) == Some(x) && JsNumber(m) == Some(y)
    ensures ToMinutes(h + ":" + m + rest) == Some(x * 60 + y)
  {
    ColonPieces(h, m, rest);
    ToMinutesOfPieces(h + ":" + m + rest, h, m);
  }

  lemma ToMinutesExample()
    ensures ToMinutes("09:30") == Some(570)
  {
    assert "09:30" == "09" + ":" + "30" + "";
    assert DigitsValue("09") == 9 by { assert "09"[..1] == "0"; }
    assert DigitsValue("30") == 30 by { assert "30"[..1] == "3"; }
    JsNumberOfDigits("09");
    JsNumberOfDigits("30");
    ToMinutesOfValues("09", "30", "", 9, 30);
  }

  /** `a < b` on numbers that may be NaN. */
  predicate Lt(a: Option<int>, b: Option<int>)
  {
    a.Some? && b.Some? && a.value < b.value
  }

  /** `a <= b` on numbers that may be NaN. */
  predicate Le(a: Option<int>, b: Option<int>)
  {
    a.Some? && b.Some? && a.value <= b.value
  }

  /**
   * The source's clash test of a new block [ns, ne) against a block [bs, be):
   * the new start falls inside, the new end falls inside, or the new block
   * covers the old one.
   */
  predicate Clash(ns: Option<int>, ne: Option<int>, bs: Option<int>, be: Option<int>)
  {
    (Le(bs, ns) && Lt(ns, be)) || (Lt(bs, ne) && Le(ne, be)) || (Lt(ns, bs) && Lt(be, ne))
  }

  /** For proper intervals the three-case test is ordinary interval intersection. */
  lemma ClashIsOverlap(ns: int, ne: int, bs: int, be: int)
    requires ns < ne && bs < be
    ensures Clash(Some(ns), Some(ne), Some(bs), Some(be)) <==> ns < be && bs < ne
  {
  }

  /** A new block with an unreadable start or end clashes only through its other end. */
  lemma ClashOfNaN(ns: Option<int>, ne: Option<int>, bs: Option<int>, be: Option<int>)
    ensures ns.None? ==> (Clash(ns, ne, bs, be) <==> Lt(bs, ne) && Le(ne, be))
    ensures ne.None? ==> (Clash(ns, ne, bs, be) <==> Le(bs, ns) && Lt(ns, be))
  {
  }

  // ---------------------------------------------------------------------
  // Blocks and days
  // ---------------------------------------------------------------------

  /** A campus location (`{code, name, ...}`). */
  datatype Location = Location(code: string, name: string)

  /** A schedule block: start and end as typed ("HH:MM") and the chosen location. */
  datatype Block = Block(startTime: string, endTime: string, location: Location)

  /** The block being edited: its day key and index, or none for an add. */
  datatype EditState = EditState(dayKey: string, idx: nat)

  /** How a submission ends. */
  datatype Outcome = LocationNotFound | EndNotAfterStart | TimeConflict | Added | Updated

  /** `dayMap[day]`; a name not in the map is `undefined`, used as the key "undefined". */
  function DayKey(day: string): string
  {
    match day
    case "Monday" => "mon"
    case "Tuesday" => "tue"
    case "Wednesday" => "wed"
    case "Thursday" => "thu"
    case "Friday" => "fri"
    case "Saturday" => "sat"
    case "Sunday" => "sun"
    case _ => "undefined"
  }

  /** `locations.find(loc => loc.code === code)`. */
  function FindLocation(locations: seq<Location>, code: string): (r: Option<Location>)
    ensures r.None? <==> forall l :: l in locations ==> l.code != code
    ensures r.Some? ==> r.value.code == code
    ensures r.Some? ==>
      exists i :: 0 <= i < |locations| && locations[i] == r.value && forall j :: 0 <= j < i ==> locations[j].code != code
  {
    if |locations| == 0 then None
    else if locations[0].code == code then Some(locations[0])
    else
      var r := FindLocation(locations[1..], code);
      assert forall l :: l in locations ==> l == locations[0] || l in locations[1..];
      if r.Some? then
        var i :| 0 <= i < |locations[1..]| && locations[1..][i] == r.value &&
          forall j :: 0 <= j < i ==> locations[1..][j].code != code;
        assert locations[i + 1] == r.value;
        r
      else r
  }

  /** A day's blocks; a day with no entry yet reads as `[]`. */
  function DayBlocks(schedule: map<string, seq<Block>>, key: string): seq<Block>
  {
    if key in schedule then schedule[key] else []
  }

  /** The sort key: the start in minutes, with an unreadable start taken as 0. */
  function StartKey(b: Block): int
  {
    match ToMinutes(b.startTime)
    case Some(v) => v
    case None => 0
  }

  predicate StartLe(a: Block, b: Block)
  {
    StartKey(a) <= StartKey(b)
  }

  /** `sort((a, b) => toMinutes(a.start_time) - toMinutes(b.start_time))`, a stable sort. */
  function SortByStart(blocks: seq<Block>): seq<Block>
  {
    InsertionSort(blocks, StartLe)
  }

  /** A re-sorted day is ordered by start and holds the same blocks. */
  lemma SortByStartSorted(blocks: seq<Block>)
    ensures SortedBy(SortByStart(blocks), StartLe)
    ensures multiset(SortByStart(blocks)) == multiset(blocks)
  {
    InsertionSortSorted(blocks, StartLe);
  }

  /** The new block, from `ns` to `ne`, overlaps block `b` once its times are read. */
  predicate BlockClash(ns: Option<int>, ne: Option<int>, b: Block)
  {
    Clash(ns, ne, ToMinutes(b.startTime), ToMinutes(b.endTime))
  }

  /** The new block overlaps one of `blocks`. */
  predicate ConflictsWith(blocks: seq<Block>, ns: Option<int>, ne: Option<int>)
  {
    exists b :: b in blocks && BlockClash(ns, ne, b)
  }

  /** The conflict loop: stop at the first block that clashes. */
  method HasConflict(blocks: seq<Block>, ns: Option<int>, ne: Option<int>) returns (conflict: bool)
    ensures conflict <==> ConflictsWith(blocks, ns, ne)
  {
    conflict := false;
    var i := 0;
    while i < |blocks|
      invariant 0 <= i <= |blocks|
      invariant !conflict
      invariant NoClashBefore(blocks, i, ns, ne)
    {
      var bs := ToMinutes(blocks[i].startTime);
      var be := ToMinutes(blocks[i].endTime);
      if Clash(ns, ne, bs, be) {
        ClashAt(blocks, i, ns, ne);
        conflict := true;
        break;
      }
      NoClashStep(blocks, i, ns, ne);
      i := i + 1;
    }
    if !conflict {
      NoClashAt(blocks, ns, ne);
    }
  }

  /** None of the first `i` blocks clashes with the new one. */
  predicate NoClashBefore(blocks: seq<Block>, i: nat, ns: Option<int>, ne: Option<int>)
    requires i <= |blocks|
  {
    forall k :: 0 <= k < i ==> !BlockClash(ns, ne, blocks[k])
  }

  /** The scan passes one more block that does not clash. */
  lemma NoClashStep(blocks: seq<Block>, i: nat, ns: Option<int>, ne: Option<int>)
    requires i < |blocks| && NoClashBefore(blocks, i, ns, ne)
    requires !Clash(ns, ne, ToMinutes(blocks[i].startTime), ToMinutes(blocks[i].endTime))
    ensures NoClashBefore(blocks, i + 1, ns, ne)
  {
    assert !BlockClash(ns, ne, blocks[i]);
  }

  /** A block at some index that clashes is a conflict. */
  lemma ClashAt(blocks: seq<Block>, i: nat, ns: Option<int>, ne: Option<int>)
    requires i < |blocks|
    requires Clash(ns, ne, ToMinutes(blocks[i].startTime), ToMinutes(blocks[i].endTime))
    ensures ConflictsWith(blocks, ns, ne)
  {
    assert BlockClash(ns, ne, blocks[i]);
  }

  /** No conflict when no index holds a clashing block. */
  lemma NoClashAt(blocks: seq<Block>, ns: Option<int>, ne: Option<int>)
    requires NoClashBefore(blocks, |blocks|, ns, ne)
    ensures !ConflictsWith(blocks, ns, ne)
  {
    forall b | b in blocks
      ensures !BlockClash(ns, ne, b)
    {
      var k :| 0 <= k < |blocks| && blocks[k] == b;
    }
  }

  // ---------------------------------------------------------------------
  // The submit handler as a function of the saved schedule
  // ---------------------------------------------------------------------

  /** The edit state names an existing block. */
  predicate EditValid(schedule: map<string, seq<Block>>, edit: Option<EditState>)
  {
    edit.Some? ==> edit.value.dayKey in schedule && edit.value.idx < |schedule[edit.value.dayKey]|
  }

  /** The blocks the new one is checked against: the day's, less the edited one when it stays on its day. */
  function ToCheck(schedule: map<string, seq<Block>>, key: string, edit: Option<EditState>): seq<Block>
    requires EditValid(schedule, edit)
  {
    if edit.Some? && key == edit.value.dayKey then RemoveAt(schedule[key], edit.value.idx)
    else DayBlocks(schedule, key)
  }

  /** The target day with the new block in place, before it is re-sorted. */
  function NewDay(schedule: map<string, seq<Block>>, key: string, nb: Block, edit: Option<EditState>): seq<Block>
    requires EditValid(schedule, edit)
  {
    if edit.Some? && key == edit.value.dayKey then schedule[key][edit.value.idx := nb]
    else DayBlocks(schedule, key) + [nb]
  }

  /** The new day holds the blocks the new one was checked against, and the new block. */
  lemma NewDayContents(schedule: map<string, seq<Block>>, key: string, nb: Block, edit: Option<EditState>)
    requires EditValid(schedule, edit)
    ensures multiset(NewDay(schedule, key, nb, edit)) == multiset(ToCheck(schedule, key, edit)) + multiset{nb}
  {
    if edit.Some? && key == edit.value.dayKey {
      var blocks := schedule[key];
      var i := edit.value.idx;
      var rest := RemoveAt(blocks, i);
      assert blocks == rest[..i] + [blocks[i]] + rest[i..];
      assert blocks[i := nb] == rest[..i] + [nb] + rest[i..];
      assert rest == rest[..i] + rest[i..];
    }
  }

  /**
   * The outcome of a submission and the schedule saved after it, once the
   * location `loc` is looked up and the new times read as `ns` and `ne`.
   */
  function Decide(schedule: map<string, seq<Block>>, key: string, start: string, end: string,
                  ns: Option<int>, ne: Option<int>, loc: Option<Location>, edit: Option<EditState>)
    : (Outcome, map<string, seq<Block>>)
    requires EditValid(schedule, edit)
  {
    if loc.None? then (LocationNotFound, schedule)
    else if Le(ne, ns) then (EndNotAfterStart, schedule)
    else if ConflictsWith(ToCheck(schedule, key, edit), ns, ne) then (TimeConflict, schedule)
    else (if edit.None? then Added else Updated, Placed(schedule, key, Block(start, end, loc.value), edit))
  }

  /**
   * The schedule after an accepted submission: the target day re-sorted with
   * the new block in place and, for a move, the block taken out of its old day.
   */
  function Placed(schedule: map<string, seq<Block>>, key: string, nb: Block, edit: Option<EditState>)
    : map<string, seq<Block>>
    requires EditValid(schedule, edit)
  {
    var day := SortByStart(NewDay(schedule, key, nb, edit));
    if edit.Some? && key != edit.value.dayKey then
      var from := edit.value.dayKey;
      schedule[from := RemoveAt(schedule[from], edit.value.idx)][key := day]
    else schedule[key := day]
  }

  /** The placed schedule holds the re-sorted target day. */
  lemma PlacedTarget(schedule: map<string, seq<Block>>, key: string, nb: Block, edit: Option<EditState>)
    requires EditValid(schedule, edit)
    ensures key in Placed(schedule, key, nb, edit)
    ensures Placed(schedule, key, nb, edit)[key] == SortByStart(NewDay(schedule, key, nb, edit))
  {
  }

  /** A moved block is taken out of its old day. */
  lemma PlacedSource(schedule: map<string, seq<Block>>, key: string, nb: Block, edit: Option<EditState>)
    requires EditValid(schedule, edit) && edit.Some? && edit.value.dayKey != key
    ensures edit.value.dayKey in Placed(schedule, key, nb, edit)
    ensures Placed(schedule, key, nb, edit)[edit.value.dayKey] == RemoveAt(schedule[edit.value.dayKey], edit.value.idx)
  {
  }

  /** Every day other than the target and the source of a move is unchanged. */
  lemma PlacedOthers(schedule: map<string, seq<Block>>, key: string, nb: Block, edit: Option<EditState>, d: string)
    requires EditValid(schedule, edit)
    requires d != key && (edit.None? || d != edit.value.dayKey)
    ensures d in Placed(schedule, key, nb, edit) <==> d in schedule
    ensures d in schedule ==> Placed(schedule, key, nb, edit)[d] == schedule[d]
  {
  }

  /** An accepted submission passed all three checks and saves the placed schedule. */
  lemma DecideAccepted(schedule: map<string, seq<Block>>, key: string, start: string, end: string,
                       ns: Option<int>, ne: Option<int>, loc: Option<Location>, edit: Option<EditState>)
    requires EditValid(schedule, edit)
    requires Decide(schedule, key, start, end, ns, ne, loc, edit).0 in {Added, Updated}
    ensures loc.Some? && !Le(ne, ns) && !ConflictsWith(ToCheck(schedule, key, edit), ns, ne)
    ensures Decide(schedule, key, start, end, ns, ne, loc, edit).1 == Placed(schedule, key, Block(start, end, loc.value), edit)
  {
  }

  /** The outcome of a submission from the form's fields, and the schedule saved after it. */
  function Submitted(schedule: map<string, seq<Block>>, day: string, start: string, end: string,
                     locationCode: string, locations: seq<Location>, edit: Option<EditState>)
    : (Outcome, map<string, seq<Block>>)
    requires EditValid(schedule, edit)
  {
    Decide(schedule, DayKey(day), start, end, ToMinutes(start), ToMinutes(end), FindLocation(locations, locationCode), edit)
  }

  /**
   * A submission is rejected, leaving the schedule as it was, exactly in the
   * three error cases, checked in this order: no location with the code, an
   * end not after the start, a clash.
   */
  lemma {:induction false} DecideRejects(schedule: map<string, seq<Block>>, key: string, start: string, end: string,
                                         ns: Option<int>, ne: Option<int>, loc: Option<Location>, edit: Option<EditState>)
    requires EditValid(schedule, edit)
    ensures var (outcome, after) := Decide(schedule, key, start, end, ns, ne, loc, edit);
      (outcome == LocationNotFound <==> loc.None?) &&
      (outcome == EndNotAfterStart <==> loc.Some? && Le(ne, ns)) &&
      (outcome == TimeConflict <==> loc.Some? && !Le(ne, ns) && ConflictsWith(ToCheck(schedule, key, edit), ns, ne)) &&
      (outcome == Added <==> loc.Some? && !Le(ne, ns) && !ConflictsWith(ToCheck(schedule, key, edit), ns, ne) && edit.None?) &&
      (outcome in {LocationNotFound, EndNotAfterStart, TimeConflict} ==> after == schedule)
  {
  }

  /**
   * An accepted submission leaves the target day sorted by start, holding
   * the blocks it was checked against plus the new block, none of which
   * clashes with the new block.
   */
  lemma {:induction false} DecideDay(schedule: map<string, seq<Block>>, key: string, start: string, end: string,
                                     ns: Option<int>, ne: Option<int>, loc: Option<Location>, edit: Option<EditState>)
    requires EditValid(schedule, edit)
    requires Decide(schedule, key, start, end, ns, ne, loc, edit).0 in {Added, Updated}
    ensures var after := Decide(schedule, key, start, end, ns, ne, loc, edit).1;
      var toCheck := ToCheck(schedule, key, edit);
      loc.Some? && key in after &&
      SortedBy(after[key], StartLe) &&
      multiset(after[key]) == multiset(toCheck) + multiset{Block(start, end, loc.value)} &&
      !ConflictsWith(toCheck, ns, ne)
  {
    DecideAccepted(schedule, key, start, end, ns, ne, loc, edit);
    var nb := Block(start, end, loc.value);
    PlacedTarget(schedule, key, nb, edit);
    NewDayContents(schedule, key, nb, edit);
    SortByStartSorted(NewDay(schedule, key, nb, edit));
  }

  /** An add or a same-day edit changes only the target day; a move changes only the two days. */
  lemma {:induction false} DecideOtherDays(schedule: map<string, seq<Block>>, key: string, start: string, end: string,
                                           ns: Option<int>, ne: Option<int>, loc: Option<Location>, edit: Option<EditState>,
                                           other: string)
    requires EditValid(schedule, edit)
    requires other != key && (edit.None? || other != edit.value.dayKey)
    ensures var after := Decide(schedule, key, start, end, ns, ne, loc, edit).1;
      (other in after <==> other in schedule) && (other in schedule ==> after[other] == schedule[other])
  {
    if loc.Some? && !Le(ne, ns) && !ConflictsWith(ToCheck(schedule, key, edit), ns, ne) {
      PlacedOthers(schedule, key, Block(start, end, loc.value), edit, other);
    }
  }

  /** A move takes the block out of its old day, keeping the order of the rest of that day. */
  lemma {:induction false} DecideMoveSource(schedule: map<string, seq<Block>>, key: string, start: string, end: string,
                                            ns: Option<int>, ne: Option<int>, loc: Option<Location>, edit: Option<EditState>)
    requires EditValid(schedule, edit)
    requires edit.Some? && edit.value.dayKey != key
    requires Decide(schedule, key, start, end, ns, ne, loc, edit).0 == Updated
    ensures var after := Decide(schedule, key, start, end, ns, ne, loc, edit).1;
      var from := edit.value.dayKey;
      var i := edit.value.idx;
      from in after && |after[from]| == |schedule[from]| - 1 &&
      after[from][..i] == schedule[from][..i] && after[from][i..] == schedule[from][i + 1..]
  {
    DecideAccepted(schedule, key, start, end, ns, ne, loc, edit);
    PlacedSource(schedule, key, Block(start, end, loc.value), edit);
  }

  /** An inverted interval of readable times is refused whatever the day holds. */
  lemma SubmittedInverted(schedule: map<string, seq<Block>>, day: string, start: string, end: string,
                          locationCode: string, locations: seq<Location>, edit: Option<EditState>)
    requires EditValid(schedule, edit)
    requires exists l :: l in locations && l.code == locationCode
    requires ToMinutes(start).Some? && ToMinutes(end).Some? && ToMinutes(end).value <= ToMinutes(start).value
    ensures Submitted(schedule, day, start, end, locationCode, locations, edit) == (EndNotAfterStart, schedule)
  {
  }

  // ---------------------------------------------------------------------
  // The saved schedule
  // ---------------------------------------------------------------------

  /** The user's weekly schedule: blocks per day key. */
  class WeeklySchedule {
    var schedule: map<string, seq<Block>>

    constructor(initial: map<string, seq<Block>>)
      ensures schedule == initial
    {
      schedule := initial;
    }

    /**
     * The submit handler: look up the location and read the times, then
     * check and apply the submission.
     */
    method Submit(day: string, start: string, end: string, locationCode: string,
                  locations: seq<Location>, edit: Option<EditState>) returns (outcome: Outcome)
      requires EditValid(schedule, edit)
      modifies this
      ensures (outcome, schedule) == Submitted(old(schedule), day, start, end, locationCode, locations, edit)
    {
      var loc := FindLocation(locations, locationCode);
      var key := DayKey(day);
      var newStart := ToMinutes(start);
      var newEnd := ToMinutes(end);
      outcome := Apply(key, start, end, newStart, newEnd, loc, edit);
    }

    /**
     * The checks and the update of a submission: reject a missing location,
     * an inverted interval or a clash, then add, overwrite or move the block
     * and re-sort its day. The schedule is saved only on success.
     */
    method Apply(key: string, start: string, end: string, newStart: Option<int>, newEnd: Option<int>,
                 loc: Option<Location>, edit: Option<EditState>) returns (outcome: Outcome)
      requires EditValid(schedule, edit)
      modifies this
      ensures (outcome, schedule) == Decide(old(schedule), key, start, end, newStart, newEnd, loc, edit)
    {
      if loc.None? {
        return LocationNotFound;
      }
      var blocks := if key in schedule then schedule[key] else [];
      if Le(newEnd, newStart) {
        return EndNotAfterStart;
      }
      var blocksToCheck := if edit.Some? && key == edit.value.dayKey then RemoveAt(blocks, edit.value.idx) else blocks;
      assert blocksToCheck == ToCheck(schedule, key, edit);
      var conflict := HasConflict(blocksToCheck, newStart, newEnd);
      if conflict {
        return TimeConflict;
      }
      var newBlock := Block(start, end, loc.value);
      Place(key, newBlock, edit);
      outcome := if edit.None? then Added else Updated;
    }

    /** Put the accepted block in place and re-sort its day. */
    method Place(key: string, newBlock: Block, edit: Option<EditState>)
      requires EditValid(schedule, edit)
      modifies this
      ensures schedule == Placed(old(schedule), key, newBlock, edit)
    {
      var blocks := if key in schedule then schedule[key] else [];
      var day: seq<Block>;
      if edit.Some? && key == edit.value.dayKey {
        day := blocks[edit.value.idx := newBlock];
      } else {
        day := blocks + [newBlock];
      }
      assert day == NewDay(schedule, key, newBlock, edit);
      if edit.Some? && key != edit.value.dayKey {
        var from := edit.value.dayKey;
        schedule := schedule[from := RemoveAt(schedule[from], edit.value.idx)][key := SortByStart(day)];
      } else {
        schedule := schedule[key := SortByStart(day)];
      }
    }

    /** The delete button: `splice(idx, 1)` on the block's day. */
    method Delete(dayKey: string, idx: nat)
      requires dayKey in schedule && idx < |schedule[dayKey]|
      modifies this
      ensures schedule == old(schedule)[dayKey := RemoveAt(old(schedule)[dayKey], idx)]
    {
      schedule := schedule[dayKey := RemoveAt(schedule[dayKey], idx)];
    }
  }

  /** Deleting a block keeps a sorted day sorted and drops exactly that block. */
  lemma DeleteKeepsSorted(blocks: seq<Block>, idx: nat)
    requires idx < |blocks|
    requires SortedBy(blocks, StartLe)
    ensures SortedBy(RemoveAt(blocks, idx), StartLe)
    ensures multiset(RemoveAt(blocks, idx)) + multiset{blocks[idx]} == multiset(blocks)
  {
    var r := RemoveAt(blocks, idx);
    forall i, j | 0 <= i < j < |r| ensures StartLe(r[i], r[j]) {
      var i' := if i < idx then i else i + 1;
      var j' := if j < idx then j else j + 1;
      assert r[i] == blocks[i'] && r[j] == blocks[j'];
    }
  }
}
