/**
 * The extension's background worker (frontend/background.js): merging
 * synced courses into the completed list, replacing it from a transcript,
 * the progress badge, adding a selected course code to the plan, and
 * reading the course name back from a reminder alarm. The synced storage
 * is a class whose fields are the stored lists; a missing list reads as
 * empty.
 */
module Background {
  import opened Wrappers
  import opened Text
  import opened Seqs

  // ---------------------------------------------------------------------
  // handleCourseDataSync / handleTranscriptDataSync
  // ---------------------------------------------------------------------

  /** A course row from the portal: its code, status and grade (`None` when absent). */
  datatype Course = Course(code: string, status: string, grade: Option<string>)

  /** Whether `course.grade` is truthy: present and not the empty string. */
  predicate HasGrade(c: Course)
  {
    c.grade.Some? && c.grade.value != ""
  }

  /** Whether a synced course counts as completed: enrolled, or graded. */
  predicate CountsCompleted(c: Course)
  {
    c.status == "Enrolled" || HasGrade(c)
  }

  function CountsCompletedFn(): Course -> bool
  {
    (c: Course) => CountsCompleted(c)
  }

  function IsEnrolledFn(): Course -> bool
  {
    (c: Course) => c.status == "Enrolled"
  }

  /** The codes of a list of courses, in order (`map(course => course.code)`). */
  function Codes(courses: seq<Course>): (r: seq<string>)
    ensures |r| == |courses|
    ensures forall i :: 0 <= i < |r| ==> r[i] == courses[i].code
  {
    if |courses| == 0 then [] else [courses[0].code] + Codes(courses[1..])
  }

  /** The codes a course sync reports as completed. */
  function CompletedCodes(courses: seq<Course>): seq<string>
  {
    Codes(Filter(courses, CountsCompletedFn()))
  }

  /** `[...new Set([...existing, ...completed])]`. */
  function Merge(existing: seq<string>, completed: seq<string>): seq<string>
  {
    Dedup(existing + completed)
  }

  /** The courses currently being taken: those with status 'Enrolled'. */
  function CurrentCourses(courses: seq<Course>): seq<Course>
  {
    Filter(courses, IsEnrolledFn())
  }

  /** The codes of concatenated lists are the concatenated codes. */
  lemma {:induction false} CodesAppend(a: seq<Course>, b: seq<Course>)
    ensures Codes(a + b) == Codes(a) + Codes(b)
  {
    assert forall i :: 0 <= i < |a| ==> (a + b)[i] == a[i];
    assert forall i :: 0 <= i < |b| ==> (a + b)[|a| + i] == b[i];
  }

  /**
   * A code is reported completed exactly when some synced course with that
   * code is enrolled or graded, and the report keeps the input order.
   */
  lemma CompletedCodesMembers(courses: seq<Course>, a: seq<Course>, b: seq<Course>)
    ensures forall code :: code in CompletedCodes(courses) <==>
      exists c :: c in courses && CountsCompleted(c) && c.code == code
    ensures CompletedCodes(a + b) == CompletedCodes(a) + CompletedCodes(b)
  {
    forall code ensures code in CompletedCodes(courses) <==> exists c :: c in courses && CountsCompleted(c) && c.code == code {
      CompletedCodeIn(courses, code);
    }
    CompletedCodesAppend(a, b);
  }

  /** One code is reported completed exactly when some completed course carries it. */
  lemma CompletedCodeIn(courses: seq<Course>, code: string)
    ensures code in CompletedCodes(courses) <==> exists c :: c in courses && CountsCompleted(c) && c.code == code
  {
    var kept := Filter(courses, CountsCompletedFn());
    if code in CompletedCodes(courses) {
      var i :| 0 <= i < |kept| && Codes(kept)[i] == code;
      assert kept[i] in kept;
    }
    if exists c :: c in courses && CountsCompleted(c) && c.code == code {
      var c :| c in courses && CountsCompleted(c) && c.code == code;
      assert c in kept;
      var i :| 0 <= i < |kept| && kept[i] == c;
      assert Codes(kept)[i] == code;
    }
  }

  /** The report of two lists synced one after the other is the two reports in turn. */
  lemma CompletedCodesAppend(a: seq<Course>, b: seq<Course>)
    ensures CompletedCodes(a + b) == CompletedCodes(a) + CompletedCodes(b)
  {
    FilterAppend(a, b, CountsCompletedFn());
    CodesAppend(Filter(a, CountsCompletedFn()), Filter(b, CountsCompletedFn()));
  }

  /**
   * The merge holds every existing and every new code, each once; it starts
   * with the existing list without its duplicates, followed by the first
   * occurrences of the new codes that were not there yet.
   */
  lemma MergeProperties(existing: seq<string>, completed: seq<string>)
    ensures forall c :: c in Merge(existing, completed) <==> c in existing || c in completed
    ensures NoDup(Merge(existing, completed))
    ensures Merge(existing, completed) == Dedup(existing) + Filter(Dedup(completed), NotInFn(existing))
    ensures NoDup(existing) ==>
      |existing| <= |Merge(existing, completed)| && Merge(existing, completed)[..|existing|] == existing
  {
    DedupAppend(existing, completed);
    if NoDup(existing) {
      DedupOfNoDup(existing);
    }
  }

  /** Syncing codes that are all already there leaves a duplicate-free list unchanged. */
  lemma MergeKnown(existing: seq<string>, completed: seq<string>)
    requires NoDup(existing)
    requires forall c :: c in completed ==> c in existing
    ensures Merge(existing, completed) == existing
  {
    MergeProperties(existing, completed);
    FilterNone(Dedup(completed), NotInFn(existing));
    assert Dedup(existing) + [] == existing by { DedupOfNoDup(existing); }
  }

  /** The current courses are exactly the enrolled synced courses, in input order. */
  lemma CurrentCoursesEnrolled(courses: seq<Course>, a: seq<Course>, b: seq<Course>)
    ensures forall c :: c in CurrentCourses(courses) <==> c in courses && c.status == "Enrolled"
    ensures CurrentCourses(a + b) == CurrentCourses(a) + CurrentCourses(b)
  {
    FilterAppend(a, b, IsEnrolledFn());
  }

  // ---------------------------------------------------------------------
  // updateBadge
  // ---------------------------------------------------------------------

  /** The number of courses the degree requires. */
  const TotalRequired: nat := 40

  /** The badge percentage of `n` completed courses, on integers. */
  function Percentage(n: nat): nat
  {
    (n * 100) / TotalRequired
  }

  const Green := "#27ae60"
  const Orange := "#f39c12"
  const Red := "#e74c3c"

  /** The badge colour of a percentage. */
  function BadgeColor(pct: int): string
  {
    if pct >= 75 then Green else if pct >= 50 then Orange else Red
  }

  /**
   * In terms of completed courses: green from 30 courses, orange from 20 to
   * 29, red below 20; 40 courses are 100 percent.
   */
  lemma BadgeThresholds(n: nat)
    ensures BadgeColor(Percentage(n)) == Green <==> n >= 30
    ensures BadgeColor(Percentage(n)) == Orange <==> 20 <= n < 30
    ensures BadgeColor(Percentage(n)) == Red <==> n < 20
    ensures Percentage(TotalRequired) == 100
  {
  }

  /** More completed courses never lower the percentage. */
  lemma PercentageMonotone(m: nat, n: nat)
    requires m <= n
    ensures Percentage(m) <= Percentage(n)
  {
  }

  // ---------------------------------------------------------------------
  // addToPlan: the first match of /[A-Z]{3}\s?\d{4}/
  // ---------------------------------------------------------------------

  /** A course code as the pattern matches it: three capitals, an optional white-space character, four digits. */
  predicate CodeShape(m: string)
  {
    (|m| == 7 && IsAsciiUpper(m[0]) && IsAsciiUpper(m[1]) && IsAsciiUpper(m[2]) &&
      IsDigit(m[3]) && IsDigit(m[4]) && IsDigit(m[5]) && IsDigit(m[6])) ||
    (|m| == 8 && IsAsciiUpper(m[0]) && IsAsciiUpper(m[1]) && IsAsciiUpper(m[2]) && IsJsSpace(m[3]) &&
      IsDigit(m[4]) && IsDigit(m[5]) && IsDigit(m[6]) && IsDigit(m[7]))
  }

  /** The match starting at index `i`, if any; the optional white space is tried first. */
  function MatchAt(s: string, i: nat): (r: Option<string>)
    ensures r.Some? ==> i + |r.value| <= |s| && r.value == s[i..i + |r.value|] && CodeShape(r.value)
    ensures i + 8 <= |s| && CodeShape(s[i..i + 8]) ==> r == Some(s[i..i + 8])
    ensures i + 7 <= |s| && CodeShape(s[i..i + 7]) ==> r == Some(s[i..i + 7])
    ensures r.None? ==> forall k :: i <= k <= |s| ==> !CodeShape(s[i..k])
  {
    if i + 8 <= |s| && CodeShape(s[i..i + 8]) then Some(s[i..i + 8])
    else if i + 7 <= |s| && CodeShape(s[i..i + 7]) then Some(s[i..i + 7])
    else None
  }

  /** The leftmost match at index `i` or later. */
  function FirstMatch(s: string, i: nat): Option<string>
    decreases |s| - i
  {
    if i >= |s| then None
    else match MatchAt(s, i)
      case Some(m) => Some(m)
      case None => FirstMatch(s, i + 1)
  }

  /** A match is a code-shaped piece of the text, and no earlier position starts one. */
  lemma {:induction false} FirstMatchLeftmost(s: string, i: nat)
    ensures FirstMatch(s, i).Some? ==>
      (exists k :: i <= k < |s| && MatchAt(s, k) == FirstMatch(s, i) &&
        forall j :: i <= j < k ==> MatchAt(s, j).None?)
    ensures FirstMatch(s, i).None? ==> forall j :: i <= j < |s| ==> MatchAt(s, j).None?
    decreases |s| - i
  {
    if i < |s| {
      if MatchAt(s, i).None? {
        FirstMatchLeftmost(s, i + 1);
        if FirstMatch(s, i + 1).Some? {
          var k :| i + 1 <= k < |s| && MatchAt(s, k) == FirstMatch(s, i + 1) &&
            forall j :: i + 1 <= j < k ==> MatchAt(s, j).None?;
          assert forall j :: i <= j < k ==> MatchAt(s, j).None?;
        }
      } else {
        assert MatchAt(s, i) == FirstMatch(s, i);
      }
    }
  }

  /** A selection that starts with a code followed by a non-digit yields that code. */
  lemma CodeAtStart(code: string, rest: string)
    requires |code| == 7 && CodeShape(code)
    requires rest == [] || !IsDigit(rest[0])
    ensures FirstMatch(code + rest, 0) == Some(code)
  {
    var s := code + rest;
    assert s[0..7] == code;
    if 8 <= |s| {
      assert s[0..8][7] == rest[0];
    }
  }

  // ---------------------------------------------------------------------
  // Alarm names
  // ---------------------------------------------------------------------

  const AlarmPrefix := "class-"

  /** The alarm name `scheduleClassReminder` gives a course. */
  function ReminderName(courseName: string): string
  {
    AlarmPrefix + courseName
  }

  /** The course of a reminder alarm: the name with its leading "class-" removed; other alarms have none. */
  function AlarmCourse(name: string): (r: Option<string>)
    ensures r.Some? <==> StartsWith(name, AlarmPrefix)
  {
    if StartsWith(name, AlarmPrefix) then Some(ReplaceFirst(name, AlarmPrefix, "")) else None
  }

  /** A reminder's alarm names its course back. */
  lemma AlarmRoundTrip(courseName: string)
    ensures AlarmCourse(ReminderName(courseName)) == Some(courseName)
  {
    var name := ReminderName(courseName);
    assert name[..|AlarmPrefix|] == AlarmPrefix;
    ReplacePrefix(name, AlarmPrefix);
    assert name[|AlarmPrefix|..] == courseName;
  }

  /** A reminder alarm's name is the reminder name of its course. */
  lemma AlarmCourseInverse(name: string)
    requires AlarmCourse(name).Some?
    ensures ReminderName(AlarmCourse(name).value) == name
  {
    ReplacePrefix(name, AlarmPrefix);
    assert name == name[..|AlarmPrefix|] + name[|AlarmPrefix|..];
  }

  // ---------------------------------------------------------------------
  // The synced storage
  // ---------------------------------------------------------------------

  class SyncStorage {
    var completedCourses: seq<string>
    var currentCourses: seq<Course>
    var plannedCourses: seq<string>
    var transcriptData: seq<Course>
    /** The ISO time text of the last sync; `None` before the first one. */
    var lastSync: Option<string>

    constructor()
      ensures completedCourses == [] && currentCourses == [] && plannedCourses == []
      ensures transcriptData == [] && lastSync == None
    {
      completedCourses := [];
      currentCourses := [];
      plannedCourses := [];
      transcriptData := [];
      lastSync := None;
    }

    /**
     * `handleCourseDataSync`: merge the completed codes in, store the current
     * courses and stamp the sync with `now`, the ISO time text of the clock.
     */
    method HandleCourseDataSync(courses: seq<Course>, now: string)
      modifies this
      ensures completedCourses == Merge(old(completedCourses), CompletedCodes(courses))
      ensures currentCourses == CurrentCourses(courses)
      ensures lastSync == Some(now)
      ensures plannedCourses == old(plannedCourses) && transcriptData == old(transcriptData)
    {
      var completed := CompletedCodes(courses);
      completedCourses := Merge(completedCourses, completed);
      currentCourses := CurrentCourses(courses);
      lastSync := Some(now);
    }

    /**
     * `handleTranscriptDataSync`: the transcript's codes replace the completed
     * list, the transcript itself is stored, and the sync is stamped with `now`.
     */
    method HandleTranscriptDataSync(transcript: seq<Course>, now: string)
      modifies this
      ensures completedCourses == Codes(transcript)
      ensures transcriptData == transcript
      ensures lastSync == Some(now)
      ensures currentCourses == old(currentCourses) && plannedCourses == old(plannedCourses)
    {
      completedCourses := Codes(transcript);
      transcriptData := transcript;
      lastSync := Some(now);
    }

    /** `addToPlan`: append the first code in the selection, if there is one, even when already planned. */
    method AddToPlan(selectionText: string)
      modifies this
      ensures plannedCourses == match FirstMatch(selectionText, 0)
        case Some(code) => old(plannedCourses) + [code]
        case None => old(plannedCourses)
      ensures completedCourses == old(completedCourses) && currentCourses == old(currentCourses)
      ensures transcriptData == old(transcriptData) && lastSync == old(lastSync)
    {
      var courseCode := FirstMatch(selectionText, 0);
      if courseCode.Some? {
        plannedCourses := plannedCourses + [courseCode.value];
      }
    }
  }

  /** The transcript sync drops every earlier code that is not on the transcript. */
  lemma TranscriptReplaces(transcript: seq<Course>, code: string)
    ensures code in Codes(transcript) <==> exists c :: c in transcript && c.code == code
  {
    if code in Codes(transcript) {
      var i :| 0 <= i < |transcript| && Codes(transcript)[i] == code;
      assert transcript[i] in transcript;
    }
    if exists c :: c in transcript && c.code == code {
      var c :| c in transcript && c.code == code;
      var i :| 0 <= i < |transcript| && transcript[i] == c;
      assert Codes(transcript)[i] == code;
    }
  }
}
