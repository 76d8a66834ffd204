/**
 * The enrolment-page scraper (frontend/scraper.js): collecting the rows of
 * the portal's class table, and formatting each row's text into code, name,
 * day, times, building and room. The page is a sequence of optional rows:
 * `None` at an index (or an index past the end) is a row without a class
 * element, and a row's other elements are optional text. A null JavaScript
 * value whose property is read raises a TypeError, modelled as `Err`.
 */
module Scraper {
  import opened Wrappers
  import opened Text

  /** The error every null dereference raises. */
  const TypeError := "TypeError"

  /** A page row whose class element exists, with the text of its other elements, if present. */
  datatype PortalRow = PortalRow(enrollment: Option<string>, cls: string,
                                 days: Option<string>, time: Option<string>, room: Option<string>)

  /** One scraped row: the trimmed texts, `None` for a missing element. */
  datatype RowInfo = RowInfo(cls: string, days: Option<string>, time: Option<string>, room: Option<string>)

  /** `a + r`, when `r` is a list. */
  function Prepend<T>(a: seq<T>, r: Result<seq<T>, string>): Result<seq<T>, string>
  {
    match r
    case Ok(v) => Ok(a + v)
    case Err(e) => Err(e)
  }

  /** Prepending nothing changes nothing. */
  lemma PrependEmpty<T>(r: Result<seq<T>, string>)
    ensures Prepend([], r) == r
  {
    match r
    case Ok(v) => assert [] + v == v;
    case Err(_) =>
  }

  // ---------------------------------------------------------------------
  // scrapeSubjectRows
  // ---------------------------------------------------------------------

  function TrimOpt(t: Option<string>): Option<string>
  {
    match t
    case Some(s) => Some(Trim(Js, s))
    case None => None
  }

  /** The record built for a row. */
  function Info(row: PortalRow): RowInfo
  {
    RowInfo(Trim(Js, row.cls), TrimOpt(row.days), TrimOpt(row.time), TrimOpt(row.room))
  }

  /** Whether the row's enrolment text exists and mentions "Enrolled". */
  predicate Enrolled(row: PortalRow)
  {
    row.enrollment.Some? && Contains(row.enrollment.value, "Enrolled")
  }

  /** Whether index `i` has a class element. */
  predicate HasRow(page: seq<Option<PortalRow>>, i: nat)
  {
    i < |page| && page[i].Some?
  }

  /** The records of the enrolled rows from index `i` up to the first index without a class element. */
  function ScrapeFrom(page: seq<Option<PortalRow>>, i: nat): Result<seq<RowInfo>, string>
    decreases |page| - i
  {
    if !HasRow(page, i) then Ok([])
    else
      var row := page[i].value;
      if row.enrollment.None? then Err(TypeError)
      else if !Enrolled(row) then ScrapeFrom(page, i + 1)
      else Prepend([Info(row)], ScrapeFrom(page, i + 1))
  }

  /** `scrapeSubjectRows`: the `while (true)` walk over row indices. */
  method ScrapeSubjectRows(page: seq<Option<PortalRow>>) returns (r: Result<seq<RowInfo>, string>)
    ensures r == ScrapeFrom(page, 0)
  {
    var infoArray: seq<RowInfo> := [];
    var index := 0;
    PrependEmpty(ScrapeFrom(page, 0));
    while true
      invariant Prepend(infoArray, ScrapeFrom(page, index)) == ScrapeFrom(page, 0)
      decreases |page| - index
    {
      if !HasRow(page, index) {
        break;
      }
      var row := page[index].value;
      if row.enrollment.None? {
        return Err(TypeError);
      }
      if !Contains(row.enrollment.value, "Enrolled") {
        index := index + 1;
        continue;
      }
      match ScrapeFrom(page, index + 1) {
        case Ok(v) => assert infoArray + [Info(row)] + v == infoArray + ([Info(row)] + v);
        case Err(_) =>
      }
      infoArray := infoArray + [Info(row)];
      index := index + 1;
    }
    assert infoArray + [] == infoArray;
    return Ok(infoArray);
  }

  /** Rows after the first index without a class element are never looked at. */
  lemma {:induction false} ScrapeStops(page: seq<Option<PortalRow>>, k: nat, i: nat)
    requires k < |page| && page[k].None? && i <= k
    ensures ScrapeFrom(page, i) == ScrapeFrom(page[..k], i)
    decreases k - i
  {
    if i < k {
      ScrapeStops(page, k, i + 1);
      assert page[..k][i] == page[i];
    }
  }

  /** Every scraped record comes from an enrolled row at or after `i`, trimmed. */
  lemma {:induction false} ScrapeMembers(page: seq<Option<PortalRow>>, i: nat)
    requires i <= |page| && ScrapeFrom(page, i).Ok?
    ensures |ScrapeFrom(page, i).value| <= |page| - i
    ensures forall info :: info in ScrapeFrom(page, i).value ==>
      exists j :: i <= j < |page| && page[j].Some? && Enrolled(page[j].value) && info == Info(page[j].value)
    decreases |page| - i
  {
    if HasRow(page, i) {
      ScrapeMembers(page, i + 1);
      var row := page[i].value;
      if Enrolled(row) {
        var rest := ScrapeFrom(page, i + 1).value;
        assert ScrapeFrom(page, i).value == [Info(row)] + rest;
      }
    }
  }

  /**
   * When every index from `i` has a row with an enrolment element, each
   * enrolled row's record is scraped, and the first one comes first.
   */
  lemma {:induction false} ScrapeComplete(page: seq<Option<PortalRow>>, i: nat)
    requires forall j :: i <= j < |page| ==> page[j].Some? && page[j].value.enrollment.Some?
    ensures ScrapeFrom(page, i).Ok?
    ensures forall j :: i <= j < |page| && Enrolled(page[j].value) ==> Info(page[j].value) in ScrapeFrom(page, i).value
    ensures i < |page| && Enrolled(page[i].value) ==> ScrapeFrom(page, i).value[0] == Info(page[i].value)
    decreases |page| - i
  {
    if i < |page| {
      ScrapeComplete(page, i + 1);
    }
  }

  /** A row without an enrolment element, before any missing class element, makes the scrape fail. */
  lemma {:induction false} ScrapeFailsOnMissingEnrolment(page: seq<Option<PortalRow>>, i: nat, k: nat)
    requires i <= k < |page|
    requires forall j :: i <= j <= k ==> page[j].Some?
    requires page[k].value.enrollment.None?
    ensures ScrapeFrom(page, i) == Err(TypeError)
    decreases k - i
  {
    if i < k {
      ScrapeFailsOnMissingEnrolment(page, i + 1, k);
    }
  }

  // ---------------------------------------------------------------------
  // formatScrapedRows
  // ---------------------------------------------------------------------

  /** A field of a formatted record: text, `null`, or `undefined` (an index past the tokens). */
  datatype JsVal = Str(s: string) | Null | Undefined

  /** A formatted record. */
  datatype Formatted = Formatted(classDay: JsVal, classStartTime: JsVal, classEndTime: JsVal,
                                 classBuilding: JsVal, classRoom: JsVal,
                                 classCode: string, className: string)

  /** The words of `s`: `split(' ')`. */
  function Tokens(s: string): seq<string>
  {
    Split(s, ' ')
  }

  /** Token `i` of a split, or `undefined` past the end. */
  function Token(parts: seq<string>, i: nat): (v: JsVal)
    ensures i < |parts| <==> v.Str?
  {
    if i < |parts| then Str(parts[i]) else Undefined
  }

  /** A value in string concatenation. */
  function Show(v: JsVal): string
  {
    match v
    case Str(s) => s
    case Null => "null"
    case Undefined => "undefined"
  }

  /** `getTextPastNthSpace(str, n)`: `''` when there are at most `n` words, else the words from the third on. */
  function TextPastNthSpace(str: string, n: nat): string
  {
    var parts := Tokens(str);
    if |parts| <= n then "" else Join(if |parts| <= 2 then [] else parts[2..], ' ')
  }

  /** `classCode`: the first two words run together. */
  function ClassCode(classText: string): string
  {
    var parts := Tokens(classText);
    Show(Token(parts, 0)) + Show(Token(parts, 1))
  }

  /** The building and room fields of a (present) room text. */
  function Place(room: string): (JsVal, JsVal)
  {
    if Contains(room, "Online Course") then (Null, Null)
    else
      var parts := Tokens(room);
      if |parts| < 2 then (Str(room), Null)
      else (Str(Join(parts[..|parts| - 1], ' ')), Str(parts[|parts| - 1]))
  }

  /** The record `formatScrapedRows` builds for one row, or the TypeError a missing text raises. */
  function FormatRow(info: RowInfo): Result<Formatted, string>
  {
    if info.days.None? then Err(TypeError)
    else
      var tba := Contains(info.days.value, "To Be Announced");
      if !tba && info.time.None? then Err(TypeError)
      else if info.room.None? then Err(TypeError)
      else
        var day := if tba then Null else Str(TextPastNthSpace(info.days.value, 1));
        var start := if tba then Null else Token(Tokens(info.time.value), 1);
        var end := if tba then Null else Token(Tokens(info.time.value), 3);
        var (building, room) := Place(info.room.value);
        Ok(Formatted(day, start, end, building, room, ClassCode(info.cls), TextPastNthSpace(info.cls, 2)))
  }

  /** The records of all rows, in order, or the first row's error. */
  function FormatAll(infos: seq<RowInfo>): Result<seq<Formatted>, string>
  {
    if |infos| == 0 then Ok([])
    else match FormatRow(infos[0])
      case Err(e) => Err(e)
      case Ok(f) => Prepend([f], FormatAll(infos[1..]))
  }

  /** `formatScrapedRows`: the loop pushing one record per row. */
  method FormatScrapedRows(infoArray: seq<RowInfo>) returns (r: Result<seq<Formatted>, string>)
    ensures r == FormatAll(infoArray)
  {
    var formatArray: seq<Formatted> := [];
    var i := 0;
    assert infoArray[0..] == infoArray;
    PrependEmpty(FormatAll(infoArray));
    while i < |infoArray|
      invariant 0 <= i <= |infoArray|
      invariant Prepend(formatArray, FormatAll(infoArray[i..])) == FormatAll(infoArray)
    {
      var row := FormatRow(infoArray[i]);
      assert infoArray[i..][1..] == infoArray[i + 1..];
      if row.Err? {
        return Err(row.error);
      }
      match FormatAll(infoArray[i + 1..]) {
        case Ok(v) => assert formatArray + [row.value] + v == formatArray + ([row.value] + v);
        case Err(_) =>
      }
      formatArray := formatArray + [row.value];
      i := i + 1;
    }
    assert infoArray[i..] == [];
    assert formatArray + [] == formatArray;
    return Ok(formatArray);
  }

  /** Formatting succeeds exactly when every row does, and then gives one record per row, in row order. */
  lemma {:induction false} FormatOnePerRow(infos: seq<RowInfo>)
    ensures FormatAll(infos).Ok? <==> forall i :: 0 <= i < |infos| ==> FormatRow(infos[i]).Ok?
    ensures FormatAll(infos).Ok? ==>
      |FormatAll(infos).value| == |infos| &&
      forall i :: 0 <= i < |infos| ==> FormatAll(infos).value[i] == FormatRow(infos[i]).value
  {
    if |infos| > 0 {
      FormatOnePerRow(infos[1..]);
      assert forall i :: 1 <= i < |infos| ==> infos[1..][i - 1] == infos[i];
    }
  }

  /** The helper only looks at `n` to decide when to return `''`: asked for one word, it skips two. */
  lemma PastNthIgnoresN(str: string)
    ensures TextPastNthSpace(str, 1) == TextPastNthSpace(str, 2)
  {
  }

  /** A days text of exactly two words gives an empty day. */
  lemma TwoWordDays(a: string, b: string)
    requires ' ' !in a && ' ' !in b
    ensures TextPastNthSpace(a + " " + b, 1) == ""
  {
    SplitJoin([a, b], ' ');
    assert Join([a, b], ' ') == a + " " + b;
  }

  /**
   * For a class text of words `a`, `b`, then `rest`, the code is `a` and `b`
   * run together and the name is the rest joined by single spaces (`''` when
   * there is no rest); the three put back together give the text.
   */
  lemma {:induction false} ClassCodeAndName(a: string, b: string, rest: seq<string>)
    requires ' ' !in a && ' ' !in b && forall i :: 0 <= i < |rest| ==> ' ' !in rest[i]
    ensures var text := Join([a, b] + rest, ' ');
      ClassCode(text) == a + b &&
      TextPastNthSpace(text, 2) == Join(rest, ' ') &&
      (rest != [] ==> text == a + " " + b + " " + Join(rest, ' '))
  {
    var parts := [a, b] + rest;
    assert forall i :: 0 <= i < |parts| ==> ' ' !in parts[i];
    SplitJoin(parts, ' ');
    assert parts[2..] == rest;
    if rest != [] {
      assert parts[1..] == [b] + rest;
      assert Join(parts[1..], ' ') == b + " " + Join(rest, ' ');
    }
  }

  /** A one-word class text gives that word followed by "undefined" as its code, and an empty name. */
  lemma OneWordClass(a: string)
    requires ' ' !in a
    ensures ClassCode(a) == a + "undefined"
    ensures TextPastNthSpace(a, 2) == ""
  {
    SplitNoSep(a, ' ');
  }

  /** A days text announcing "To Be Announced" gives a null day and null times, whatever the time text. */
  lemma ToBeAnnounced(info: RowInfo)
    requires info.days.Some? && Contains(info.days.value, "To Be Announced") && info.room.Some?
    ensures FormatRow(info).Ok?
    ensures var f := FormatRow(info).value;
      f.classDay == Null && f.classStartTime == Null && f.classEndTime == Null
  {
  }

  /** A time text "d s - e" gives `s` as the start and `e` as the end. */
  lemma {:induction false} TimeFields(d: string, s: string, e: string, rest: seq<string>)
    requires ' ' !in d && ' ' !in s && ' ' !in e && forall i :: 0 <= i < |rest| ==> ' ' !in rest[i]
    ensures var parts := Tokens(Join([d, s, "-", e] + rest, ' '));
      Token(parts, 1) == Str(s) && Token(parts, 3) == Str(e)
  {
    var parts := [d, s, "-", e] + rest;
    assert forall i :: 0 <= i < |parts| ==> ' ' !in parts[i];
    SplitJoin(parts, ' ');
  }

  /** A time text of fewer than four words leaves the end `undefined`. */
  lemma ShortTime(time: string)
    requires |Tokens(time)| < 4
    ensures Token(Tokens(time), 3) == Undefined
  {
  }

  /**
   * Room parsing: an online course has neither building nor room; a single
   * word is the building; otherwise the last word is the room and the words
   * before it the building, and building, space and room give the text back.
   */
  lemma PlaceFields(room: string)
    ensures Contains(room, "Online Course") ==> Place(room) == (Null, Null)
    ensures !Contains(room, "Online Course") && ' ' !in room ==> Place(room) == (Str(room), Null)
    ensures !Contains(room, "Online Course") && ' ' in room ==>
      Place(room).0.Str? && Place(room).1.Str? && ' ' !in Place(room).1.s &&
      Place(room).0.s + " " + Place(room).1.s == room
  {
    if !Contains(room, "Online Course") {
      var parts := Tokens(room);
      if ' ' !in room {
        SplitNoSep(room, ' ');
      } else {
        JoinSplit(room, ' ');
        assert |parts| >= 2;
        var init := parts[..|parts| - 1];
        JoinSnoc(init, parts[|parts| - 1], ' ');
        assert init + [parts[|parts| - 1]] == parts;
        JoinSplit(room, ' ');
      }
    }
  }
}
