/**
 * String kernels shared by the Python back end and the JavaScript front end:
 * splitting on a single separator, joining, trimming (with the two languages'
 * whitespace sets), substring tests, ASCII upper-casing and Python's
 * code-point lexicographic string order.
 */
module Text {

  // ---------------------------------------------------------------------
  // Split and Join (Python `str.split(sep)`, JavaScript `String.split(sep)`)
  // ---------------------------------------------------------------------

  /** The pieces of `s` between occurrences of `sep`; empty pieces are kept. */
  function Split(s: string, sep: char): (r: seq<string>)
    ensures |r| >= 1
    ensures forall i :: 0 <= i < |r| ==> sep !in r[i]
    decreases |s|
  {
    if |s| == 0 then [""]
    else
      var rest := Split(s[1..], sep);
      if s[0] == sep then [""] + rest
      else [[s[0]] + rest[0]] + rest[1..]
  }

  /** The pieces of `parts` with `sep` between neighbours. */
  function Join(parts: seq<string>, sep: char): string
  {
    if |parts| == 0 then ""
    else if |parts| == 1 then parts[0]
    else parts[0] + [sep] + Join(parts[1..], sep)
  }

  /** Joining the pieces of a split gives back the original string. */
  lemma {:induction false} JoinSplit(s: string, sep: char)
    ensures Join(Split(s, sep), sep) == s
    decreases |s|
  {
    if |s| > 0 {
      JoinSplit(s[1..], sep);
      var rest := Split(s[1..], sep);
      if s[0] == sep {
        assert s == [sep] + s[1..];
      } else {
        if |rest| == 1 {
          assert Split(s, sep) == [[s[0]] + rest[0]];
        } else {
          assert Split(s, sep) == [[s[0]] + rest[0]] + rest[1..];
          assert rest == [rest[0]] + rest[1..];
          assert Join(rest, sep) == rest[0] + [sep] + Join(rest[1..], sep);
        }
        assert s == [s[0]] + s[1..];
      }
    }
  }

  /** Splitting `a sep b`, where `a` holds no separator, gives `a` followed by the pieces of `b`. */
  lemma {:induction false} SplitCons(a: string, sep: char, b: string)
    requires sep !in a
    ensures Split(a + [sep] + b, sep) == [a] + Split(b, sep)
    decreases |a|
  {
    if |a| == 0 {
      assert a + [sep] + b == [sep] + b;
      assert ([sep] + b)[1..] == b;
    } else {
      SplitCons(a[1..], sep, b);
      assert (a + [sep] + b)[1..] == a[1..] + [sep] + b;
      assert [a[0]] + a[1..] == a;
    }
  }

  /** Splitting a string that holds no separator gives that one piece. */
  lemma {:induction false} SplitNoSep(a: string, sep: char)
    requires sep !in a
    ensures Split(a, sep) == [a]
    decreases |a|
  {
    if |a| > 0 {
      SplitNoSep(a[1..], sep);
      assert [a[0]] + a[1..] == a;
    }
  }

  /** Splitting a join of separator-free pieces gives the pieces back. */
  lemma {:induction false} SplitJoin(parts: seq<string>, sep: char)
    requires |parts| >= 1
    requires forall i :: 0 <= i < |parts| ==> sep !in parts[i]
    ensures Split(Join(parts, sep), sep) == parts
    decreases |parts|
  {
    if |parts| == 1 {
      SplitNoSep(parts[0], sep);
    } else {
      SplitJoin(parts[1..], sep);
      SplitCons(parts[0], sep, Join(parts[1..], sep));
      assert parts == [parts[0]] + parts[1..];
    }
  }

  /** Joining with one more piece at the end adds the separator and that piece. */
  lemma {:induction false} JoinSnoc(parts: seq<string>, x: string, sep: char)
    requires |parts| >= 1
    ensures Join(parts + [x], sep) == Join(parts, sep) + [sep] + x
    decreases |parts|
  {
    if |parts| > 1 {
      JoinSnoc(parts[1..], x, sep);
      assert (parts + [x])[1..] == parts[1..] + [x];
    }
  }

  /** A join of non-empty pieces starts with the first piece's first character and ends with the last piece's last. */
  lemma {:induction false} JoinEnds(parts: seq<string>, sep: char)
    requires |parts| >= 1
    requires forall i :: 0 <= i < |parts| ==> parts[i] != []
    ensures Join(parts, sep) != []
    ensures Join(parts, sep)[0] == parts[0][0]
    ensures Join(parts, sep)[|Join(parts, sep)| - 1] == parts[|parts| - 1][|parts[|parts| - 1]| - 1]
    decreases |parts|
  {
    if |parts| > 1 {
      JoinEnds(parts[1..], sep);
    }
  }

  /** A character other than the separator that no piece holds is not in the join. */
  lemma {:induction false} JoinFree(parts: seq<string>, sep: char, c: char)
    requires c != sep
    requires forall i :: 0 <= i < |parts| ==> c !in parts[i]
    ensures c !in Join(parts, sep)
    decreases |parts|
  {
    if |parts| > 1 {
      JoinFree(parts[1..], sep, c);
      assert Join(parts, sep) == parts[0] + [sep] + Join(parts[1..], sep);
    }
  }

  // ---------------------------------------------------------------------
  // Whitespace and trimming
  // ---------------------------------------------------------------------

  /** White space as JavaScript's `trim` and regular-expression `\s` see it (WhiteSpace and LineTerminator). */
  predicate IsJsSpace(c: char)
  {
    c == ' ' || ('\t' <= c <= '\r') || c == '\U{00A0}' || c == '\U{1680}'
    || ('\U{2000}' <= c <= '\U{200A}') || c == '\U{2028}' || c == '\U{2029}'
    || c == '\U{202F}' || c == '\U{205F}' || c == '\U{3000}' || c == '\U{FEFF}'
  }

  /** White space as Python's `str.strip()` sees it (`str.isspace`). */
  predicate IsPySpace(c: char)
  {
    c == ' ' || ('\t' <= c <= '\r') || ('\U{001C}' <= c <= '\U{001F}')
    || c == '\U{0085}' || c == '\U{00A0}' || c == '\U{1680}'
    || ('\U{2000}' <= c <= '\U{200A}') || c == '\U{2028}' || c == '\U{2029}'
    || c == '\U{202F}' || c == '\U{205F}' || c == '\U{3000}'
  }

  /** Which of the two languages' white-space sets a trim uses. */
  datatype Flavour = Js | Py

  predicate IsSpace(f: Flavour, c: char)
  {
    match f
    case Js => IsJsSpace(c)
    case Py => IsPySpace(c)
  }

  /** Every character of `s` is white space (`not s.strip()`, `!s.trim()`). */
  predicate IsBlank(f: Flavour, s: string)
  {
    forall i :: 0 <= i < |s| ==> IsSpace(f, s[i])
  }

  /** `s` without its leading white space. */
  function TrimStart(f: Flavour, s: string): (r: string)
    ensures |r| <= |s|
    ensures r == [] || !IsSpace(f, r[0])
  {
    if |s| > 0 && IsSpace(f, s[0]) then TrimStart(f, s[1..]) else s
  }

  /** `s` without its trailing white space. */
  function TrimEnd(f: Flavour, s: string): (r: string)
    ensures |r| <= |s|
    ensures r == [] || !IsSpace(f, r[|r| - 1])
  {
    if |s| > 0 && IsSpace(f, s[|s| - 1]) then TrimEnd(f, s[..|s| - 1]) else s
  }

  /** `s` without leading and trailing white space (`strip()` / `trim()`). */
  function Trim(f: Flavour, s: string): (r: string)
    ensures |r| <= |s|
    ensures r == [] || (!IsSpace(f, r[0]) && !IsSpace(f, r[|r| - 1]))
  {
    var a := TrimStart(f, s);
    var r := TrimEnd(f, a);
    assert r != [] ==> r[0] == a[0] by {
      if r != [] { TrimEndPrefix(f, a); }
    }
    r
  }

  /** TrimStart drops a run of white space and keeps the rest. */
  lemma {:induction false} TrimStartSuffix(f: Flavour, s: string)
    ensures TrimStart(f, s) == s[|s| - |TrimStart(f, s)|..]
    ensures forall i :: 0 <= i < |s| - |TrimStart(f, s)| ==> IsSpace(f, s[i])
  {
    if |s| > 0 && IsSpace(f, s[0]) {
      TrimStartSuffix(f, s[1..]);
    }
  }

  /** TrimEnd drops a run of white space and keeps the rest. */
  lemma {:induction false} TrimEndPrefix(f: Flavour, s: string)
    ensures TrimEnd(f, s) == s[..|TrimEnd(f, s)|]
    ensures forall i :: |TrimEnd(f, s)| <= i < |s| ==> IsSpace(f, s[i])
  {
    if |s| > 0 && IsSpace(f, s[|s| - 1]) {
      TrimEndPrefix(f, s[..|s| - 1]);
    }
  }

  /** `sub` occurs in `s` starting at index `k`. */
  predicate OccursAt(s: string, sub: string, k: int)
  {
    0 <= k && k + |sub| <= |s| && s[k..k + |sub|] == sub
  }

  /** The trim of `s` is a contiguous slice of `s`. */
  lemma TrimSlice(f: Flavour, s: string)
    ensures exists k :: OccursAt(s, Trim(f, s), k)
  {
    var a := TrimStart(f, s);
    TrimStartSuffix(f, s);
    TrimEndPrefix(f, a);
    assert OccursAt(s, Trim(f, s), |s| - |a|);
  }

  /** The trim is empty exactly when every character is white space. */
  lemma TrimBlank(f: Flavour, s: string)
    ensures Trim(f, s) == [] <==> IsBlank(f, s)
  {
    TrimStartSuffix(f, s);
    TrimEndPrefix(f, TrimStart(f, s));
  }

  /** Trimming keeps only characters of the original. */
  lemma TrimChars(f: Flavour, s: string)
    ensures forall c :: c in Trim(f, s) ==> c in s
  {
    var t := Trim(f, s);
    TrimSlice(f, s);
    var k :| OccursAt(s, t, k);
    forall c | c in t ensures c in s {
      var j :| 0 <= j < |t| && t[j] == c;
      assert s[k + j] == c;
    }
  }

  /** A string with no white space at either end is its own trim. */
  lemma TrimOfTrimmed(f: Flavour, s: string)
    requires s != [] && !IsSpace(f, s[0]) && !IsSpace(f, s[|s| - 1])
    ensures Trim(f, s) == s
  {
    assert TrimStart(f, s) == s;
  }

  /** Trimming twice is trimming once. */
  lemma TrimIdempotent(f: Flavour, s: string)
    ensures Trim(f, Trim(f, s)) == Trim(f, s)
  {
    var t := Trim(f, s);
    if t != [] {
      assert TrimStart(f, t) == t;
      assert TrimEnd(f, t) == t;
    }
  }

  // ---------------------------------------------------------------------
  // Prefixes, substrings, replacement, upper case
  // ---------------------------------------------------------------------

  predicate StartsWith(s: string, prefix: string)
  {
    |prefix| <= |s| && s[..|prefix|] == prefix
  }

  /** Whether `sub` occurs in `s` (Python `in`, JavaScript `includes`). */
  predicate Contains(s: string, sub: string)
    decreases |s|
  {
    StartsWith(s, sub) || (|s| > 0 && Contains(s[1..], sub))
  }

  /** `Contains` holds exactly when `sub` occurs at some index of `s`. */
  lemma {:induction false} ContainsAt(s: string, sub: string)
    ensures Contains(s, sub) <==> exists k :: OccursAt(s, sub, k)
    decreases |s|
  {
    if StartsWith(s, sub) {
      assert OccursAt(s, sub, 0);
    }
    if |s| > 0 {
      ContainsAt(s[1..], sub);
      if Contains(s[1..], sub) {
        var k :| OccursAt(s[1..], sub, k);
        assert s[1..][k..k + |sub|] == s[k + 1..k + 1 + |sub|];
        assert OccursAt(s, sub, k + 1);
      }
      if exists k :: OccursAt(s, sub, k) {
        var k :| OccursAt(s, sub, k);
        if k > 0 {
          assert s[1..][k - 1..k - 1 + |sub|] == s[k..k + |sub|];
          assert OccursAt(s[1..], sub, k - 1);
        }
      }
    } else {
      if exists k :: OccursAt(s, sub, k) {
        assert |sub| == 0;
      }
    }
  }

  /** The index of the first occurrence of `x`, if any (JavaScript `indexOf`, with -1 as None). */
  function IndexOf<T(==)>(s: seq<T>, x: T): (r: int)
    ensures -1 <= r < |s|
    ensures r == -1 <==> x !in s
    ensures r >= 0 ==> s[r] == x && x !in s[..r]
  {
    if |s| == 0 then -1
    else if s[0] == x then 0
    else var k := IndexOf(s[1..], x);
    assert s[1..][..if k < 0 then 0 else k] == s[1..1 + if k < 0 then 0 else k];
    if k < 0 then -1 else k + 1
  }

  /** `s` with its first occurrence of `pat` replaced by `rep` (`String.replace` with a string pattern). */
  function ReplaceFirst(s: string, pat: string, rep: string): (r: string)
    decreases |s|
  {
    if StartsWith(s, pat) then rep + s[|pat|..]
    else if |s| == 0 then s
    else [s[0]] + ReplaceFirst(s[1..], pat, rep)
  }

  /** Replacing the first occurrence of a prefix removes exactly that prefix. */
  lemma ReplacePrefix(s: string, pat: string)
    requires StartsWith(s, pat)
    ensures ReplaceFirst(s, pat, "") == s[|pat|..]
  {
  }

  /** `s` without its space characters (Python `s.replace(" ", "")`). */
  function RemoveSpaces(s: string): (r: string)
    ensures ' ' !in r
    ensures forall c :: c in r <==> c in s && c != ' '
  {
    if |s| == 0 then ""
    else (if s[0] == ' ' then "" else [s[0]]) + RemoveSpaces(s[1..])
  }

  predicate IsAsciiLower(c: char)
  {
    'a' <= c <= 'z'
  }

  predicate IsAsciiUpper(c: char)
  {
    'A' <= c <= 'Z'
  }

  /** A decimal digit (regular-expression `\d`). */
  predicate IsDigit(c: char)
  {
    '0' <= c <= '9'
  }

  function UpperChar(c: char): (r: char)
  {
    if IsAsciiLower(c) then (c as int - 32) as char else c
  }

  /** Upper case on the ASCII letters (Python `upper()` restricted to ASCII). */
  function Upper(s: string): (r: string)
    ensures |r| == |s|
    ensures forall i :: 0 <= i < |s| ==> r[i] == UpperChar(s[i])
  {
    if |s| == 0 then "" else [UpperChar(s[0])] + Upper(s[1..])
  }

  // ---------------------------------------------------------------------
  // Lexicographic order (Python string comparison)
  // ---------------------------------------------------------------------

  /** `a <= b` for Python strings: code point by code point, a proper prefix first. */
  predicate StrLe(a: string, b: string)
    decreases |a|
  {
    if |a| == 0 then true
    else if |b| == 0 then false
    else if a[0] != b[0] then a[0] < b[0]
    else StrLe(a[1..], b[1..])
  }

  /** `a < b` for Python strings. */
  predicate StrLt(a: string, b: string)
  {
    StrLe(a, b) && a != b
  }

  lemma {:induction false} StrLeRefl(a: string)
    ensures StrLe(a, a)
    decreases |a|
  {
    if |a| > 0 {
      StrLeRefl(a[1..]);
    }
  }

  lemma {:induction false} StrLeTotal(a: string, b: string)
    ensures StrLe(a, b) || StrLe(b, a)
    decreases |a|
  {
    if |a| > 0 && |b| > 0 && a[0] == b[0] {
      StrLeTotal(a[1..], b[1..]);
    }
  }

  lemma {:induction false} StrLeTrans(a: string, b: string, c: string)
    requires StrLe(a, b) && StrLe(b, c)
    ensures StrLe(a, c)
    decreases |a|
  {
    if |a| > 0 && |b| > 0 && |c| > 0 && a[0] == b[0] && b[0] == c[0] {
      StrLeTrans(a[1..], b[1..], c[1..]);
    }
  }

  lemma {:induction false} StrLeAntisym(a: string, b: string)
    requires StrLe(a, b) && StrLe(b, a)
    ensures a == b
    decreases |a|
  {
    if |a| > 0 {
      StrLeAntisym(a[1..], b[1..]);
      assert a == [a[0]] + a[1..] && b == [b[0]] + b[1..];
    }
  }
}
