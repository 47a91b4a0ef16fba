/** Java and JavaScript string primitives the servlets rely on, stated over
    `seq<char>`: prefix tests, `indexOf`/`lastIndexOf`, `trim`, `split`,
    decimal rendering and `Long.parseLong`, plus 64-bit wrap-around.
 */
module Text {
  import opened Wrappers

  // ---------------------------------------------------------------------
  // Prefixes, suffixes, substrings

  predicate StartsWith(s: string, p: string)
  {
    |p| <= |s| && s[..|p|] == p
  }

  predicate EndsWith(s: string, p: string)
  {
    |p| <= |s| && s[|s| - |p|..] == p
  }

  /** Java `String.contains` / JavaScript `String.includes`. */
  predicate Contains(s: string, sub: string)
    decreases |s|
  {
    StartsWith(s, sub) || (|s| > 0 && Contains(s[1..], sub))
  }

  lemma StartsWithAppend(p: string, q: string)
    ensures StartsWith(p + q, p)
  {
    assert (p + q)[..|p|] == p;
  }

  lemma StartsWithTrans(s: string, p: string, q: string)
    requires StartsWith(s, p) && StartsWith(p, q)
    ensures StartsWith(s, q)
  {
    assert s[..|q|] == s[..|p|][..|q|];
  }

  /** A prefix occurrence is an occurrence. */
  lemma StartsWithContains(s: string, sub: string)
    requires StartsWith(s, sub)
    ensures Contains(s, sub)
  {
  }

  /** Every character of an occurring text occurs itself. */
  lemma {:induction false} ContainsChar(s: string, sub: string, k: int)
    requires 0 <= k < |sub| && Contains(s, sub)
    ensures sub[k] in s
    decreases |s|
  {
    if StartsWith(s, sub) {
      assert s[k] == sub[k];
    } else {
      ContainsChar(s[1..], sub, k);
      assert sub[k] in s[1..];
    }
  }

  /** The text after the last `c` of `a + [c] + b`, when `b` has no `c`. */
  lemma AfterLastOf(a: string, c: char, b: string)
    requires c !in b
    ensures AfterLast(a + [c] + b, c) == b
  {
    var s := a + [c] + b;
    var k := LastIndexOf(s, c);
    assert s[|a|] == c;
    assert forall j :: |a| < j < |s| ==> s[j] == b[j - |a| - 1];
    assert k == |a|;
    assert s[k + 1..] == b;
  }

  /** An occurrence inside `b` is an occurrence inside `a + b`. */
  lemma {:induction false} ContainsAppendLeft(a: string, b: string, sub: string)
    requires Contains(b, sub)
    ensures Contains(a + b, sub)
    decreases |a|
  {
    if |a| > 0 {
      ContainsAppendLeft(a[1..], b, sub);
      assert (a + b)[1..] == a[1..] + b;
    } else {
      assert a + b == b;
    }
  }

  // ---------------------------------------------------------------------
  // indexOf / lastIndexOf

  /** Java `indexOf(char)`: the first index of `c`, or -1. */
  function IndexOf(s: string, c: char): (r: int)
    ensures -1 <= r < |s|
    ensures r == -1 <==> c !in s
    ensures r >= 0 ==> s[r] == c && c !in s[..r]
  {
    if |s| == 0 then -1
    else if s[0] == c then 0
    else
      var k := IndexOf(s[1..], c);
      assert s == [s[0]] + s[1..];
      if k == -1 then -1
      else
        assert s[..k + 1] == [s[0]] + s[1..][..k];
        k + 1
  }

  /** Java `lastIndexOf(char)`: the last index of `c`, or -1. */
  function LastIndexOf(s: string, c: char): (r: int)
    ensures -1 <= r < |s|
    ensures r == -1 <==> c !in s
    ensures r >= 0 ==> s[r] == c
    ensures forall j :: r < j < |s| ==> s[j] != c
  {
    if |s| == 0 then -1
    else
      var k := LastIndexOf(s[1..], c);
      if k >= 0 then k + 1
      else if s[0] == c then 0
      else
        assert forall j :: 0 <= j < |s| ==> s[j] != c by {
          forall j | 0 <= j < |s| ensures s[j] != c {
            if j > 0 { assert s[j] == s[1..][j - 1]; }
          }
        }
        -1
  }

  /** `s.substring(s.lastIndexOf(c) + 1)`: the text after the last `c`, or all of `s`. */
  function AfterLast(s: string, c: char): (r: string)
    ensures c !in r
    ensures c !in s ==> r == s
    ensures c in s ==> |r| < |s| && s == s[..|s| - |r| - 1] + [c] + r
  {
    var k := LastIndexOf(s, c);
    if k >= 0 then
      assert s == s[..k] + [c] + s[k + 1..];
      s[k + 1..]
    else s
  }

  // ---------------------------------------------------------------------
  // trim and blank tests (Java: every char <= U+0020 counts as space)

  predicate IsSpace(c: char)
  {
    c <= ' '
  }

  /** Java `s.trim().isEmpty()`. */
  predicate IsBlank(s: string)
  {
    forall i :: 0 <= i < |s| ==> IsSpace(s[i])
  }

  /** JavaScript `trim` strips WhiteSpace and LineTerminator code points
      (section 12.2 and 12.3 of ECMA-262), a different set from Java's. */
  predicate IsJsSpace(c: char)
  {
    '\U{0009}' <= c <= '\U{000D}' || c == ' ' || c == '\U{00A0}' || c == '\U{1680}'
    || '\U{2000}' <= c <= '\U{200A}' || c == '\U{2028}' || c == '\U{2029}'
    || c == '\U{202F}' || c == '\U{205F}' || c == '\U{3000}' || c == '\U{FEFF}'
  }

  /** JavaScript `s.trim() === ''`. */
  predicate IsJsBlank(s: string)
  {
    forall i :: 0 <= i < |s| ==> IsJsSpace(s[i])
  }

  /** The two blank tests disagree both ways: a no-break space is blank only
      to JavaScript, a control character below U+0009 only to Java. */
  lemma BlankTestsDiffer()
    ensures IsJsBlank("\U{00A0}") && !IsBlank("\U{00A0}")
    ensures IsBlank("\U{0001}") && !IsJsBlank("\U{0001}")
  {
    assert "\U{00A0}"[0] == '\U{00A0}';
    assert "\U{0001}"[0] == '\U{0001}';
  }

  function TrimStart(s: string): (r: string)
    ensures |r| <= |s|
    ensures |r| > 0 ==> !IsSpace(r[0])
  {
    if |s| > 0 && IsSpace(s[0]) then TrimStart(s[1..]) else s
  }

  /** `TrimStart` keeps a suffix. */
  lemma {:induction false} TrimStartSuffix(s: string)
    ensures TrimStart(s) == s[|s| - |TrimStart(s)|..]
    decreases |s|
  {
    if |s| > 0 && IsSpace(s[0]) {
      TrimStartSuffix(s[1..]);
    }
  }

  /** What `TrimStart` drops is blank. */
  lemma {:induction false} TrimStartBlank(s: string)
    ensures IsBlank(s[..|s| - |TrimStart(s)|])
    decreases |s|
  {
    if |s| > 0 && IsSpace(s[0]) {
      var t := TrimStart(s[1..]);
      TrimStartBlank(s[1..]);
      assert s[..|s| - |t|] == [s[0]] + s[1..][..|s[1..]| - |t|];
    }
  }

  function TrimEnd(s: string): (r: string)
    ensures |r| <= |s|
    ensures |r| > 0 ==> !IsSpace(r[|r| - 1])
  {
    if |s| > 0 && IsSpace(s[|s| - 1]) then TrimEnd(s[..|s| - 1]) else s
  }

  /** `TrimEnd` keeps a prefix. */
  lemma {:induction false} TrimEndPrefix(s: string)
    ensures TrimEnd(s) == s[..|TrimEnd(s)|]
    decreases |s|
  {
    if |s| > 0 && IsSpace(s[|s| - 1]) {
      TrimEndPrefix(s[..|s| - 1]);
    }
  }

  /** What `TrimEnd` drops is blank. */
  lemma {:induction false} TrimEndBlank(s: string)
    ensures IsBlank(s[|TrimEnd(s)|..])
    decreases |s|
  {
    if |s| > 0 && IsSpace(s[|s| - 1]) {
      var t := TrimEnd(s[..|s| - 1]);
      TrimEndBlank(s[..|s| - 1]);
      assert s[|t|..] == s[..|s| - 1][|t|..] + [s[|s| - 1]];
    }
  }

  /** Java `String.trim`: drop leading and trailing chars <= U+0020. */
  function Trim(s: string): (r: string)
    ensures |r| <= |s|
    ensures |r| > 0 ==> !IsSpace(r[0]) && !IsSpace(r[|r| - 1])
    ensures r == [] <==> IsBlank(s)
  {
    var a := TrimStart(s);
    var r := TrimEnd(a);
    TrimFacts(s, a, r);
    r
  }

  /** Trimming only drops characters: what is left occurs in `s`. */
  lemma TrimChars(s: string)
    ensures forall i :: 0 <= i < |Trim(s)| ==> Trim(s)[i] in s
  {
    var a := TrimStart(s);
    var r := TrimEnd(a);
    TrimStartSuffix(s);
    TrimEndPrefix(a);
    assert forall i :: 0 <= i < |r| ==> r[i] == a[i] == s[|s| - |a| + i];
  }

  lemma TrimFacts(s: string, a: string, r: string)
    requires a == TrimStart(s) && r == TrimEnd(a)
    ensures r == [] <==> IsBlank(s)
    ensures |r| > 0 ==> !IsSpace(r[0])
  {
    if r == [] {
      TrimmedToNothing(s, a);
    } else {
      TrimEndPrefix(a);
      assert r[0] == a[0];
      TrimmedToSomething(s, a);
    }
  }

  lemma TrimmedToNothing(s: string, a: string)
    requires a == TrimStart(s) && TrimEnd(a) == []
    ensures IsBlank(s)
  {
    var pre := s[..|s| - |a|];
    TrimStartBlank(s);
    TrimEndBlank(a);
    TrimStartSuffix(s);
    assert s == pre + a;
    assert a[0..] == a;
    BlankConcat(pre, a);
  }

  lemma TrimmedToSomething(s: string, a: string)
    requires a == TrimStart(s) && a != []
    ensures !IsBlank(s)
  {
    TrimStartSuffix(s);
    assert s[|s| - |a|] == a[0];
  }

  lemma BlankConcat(p: string, q: string)
    requires IsBlank(p) && IsBlank(q)
    ensures IsBlank(p + q)
  {
    forall i | 0 <= i < |p + q| ensures IsSpace((p + q)[i]) {
      if i < |p| { assert (p + q)[i] == p[i]; } else { assert (p + q)[i] == q[i - |p|]; }
    }
  }

  /** Trimming text that neither starts nor ends with a space changes nothing. */
  lemma TrimNoSpace(s: string)
    requires |s| > 0 ==> !IsSpace(s[0]) && !IsSpace(s[|s| - 1])
    ensures Trim(s) == s
  {
  }

  /** Blank padding on both sides is exactly what `trim` removes. */
  lemma TrimPadded(p: string, s: string, q: string)
    requires IsBlank(p) && IsBlank(q)
    requires |s| > 0 ==> !IsSpace(s[0]) && !IsSpace(s[|s| - 1])
    ensures Trim(p + s + q) == s
  {
    if s == [] {
      assert p + s + q == p + q;
      BlankConcat(p, q);
    } else {
      TrimStartPadded(p, s + q);
      assert p + s + q == p + (s + q);
      TrimEndPadded(s, q);
    }
  }

  lemma {:induction false} TrimStartPadded(p: string, s: string)
    requires IsBlank(p) && |s| > 0 && !IsSpace(s[0])
    ensures TrimStart(p + s) == s
    decreases |p|
  {
    if p == [] {
      assert p + s == s;
    } else {
      assert (p + s)[0] == p[0];
      assert (p + s)[1..] == p[1..] + s;
      TrimStartPadded(p[1..], s);
    }
  }

  lemma {:induction false} TrimEndPadded(s: string, q: string)
    requires IsBlank(q) && |s| > 0 && !IsSpace(s[|s| - 1])
    ensures TrimEnd(s + q) == s
    decreases |q|
  {
    if q == [] {
      assert s + q == s;
    } else {
      var n := |s + q|;
      assert (s + q)[n - 1] == q[|q| - 1];
      assert (s + q)[..n - 1] == s + q[..|q| - 1];
      TrimEndPadded(s, q[..|q| - 1]);
    }
  }

  // ---------------------------------------------------------------------
  // UTF-16 length

  /** Java `String.length()` and JavaScript `.length`: the number of UTF-16
      code units, two for every character above U+FFFF. */
  function Utf16Length(s: string): (n: nat)
    ensures |s| <= n <= 2 * |s|
    ensures n == |s| <==> forall i :: 0 <= i < |s| ==> s[i] <= '\U{FFFF}'
  {
    if s == [] then 0
    else (if s[0] > '\U{FFFF}' then 2 else 1) + Utf16Length(s[1..])
  }

  // ---------------------------------------------------------------------
  // Case mapping (ASCII letters only)

  function LowerChar(c: char): (r: char)
    ensures 'A' <= c <= 'Z' ==> 'a' <= r <= 'z'
    ensures !('A' <= c <= 'Z') ==> r == c
  {
    if 'A' <= c <= 'Z' then (c as int + 32) as char else c
  }

  function ToLower(s: string): (r: string)
    ensures |r| == |s|
    ensures forall i :: 0 <= i < |s| ==> r[i] == LowerChar(s[i])
  {
    if |s| == 0 then [] else [LowerChar(s[0])] + ToLower(s[1..])
  }

  lemma ToLowerAppend(a: string, b: string)
    ensures ToLower(a + b) == ToLower(a) + ToLower(b)
  {
    assert ToLower(a + b) == ToLower(a) + ToLower(b);
  }

  /** Lower-casing text without upper-case ASCII letters changes nothing. */
  lemma ToLowerFixed(s: string)
    requires forall i :: 0 <= i < |s| ==> !('A' <= s[i] <= 'Z')
    ensures ToLower(s) == s
  {
  }

  lemma ToLowerIdempotent(s: string)
    ensures ToLower(ToLower(s)) == ToLower(s)
  {
    ToLowerFixed(ToLower(s));
  }

  /** Lower-casing and cutting after the last '.' commute ('.' is not a
      letter). */
  lemma AfterLastToLower(s: string)
    ensures AfterLast(ToLower(s), '.') == ToLower(AfterLast(s, '.'))
  {
    var t := ToLower(s);
    assert forall i :: 0 <= i < |s| ==> (t[i] == '.' <==> s[i] == '.');
    var k := LastIndexOf(s, '.');
    var m := LastIndexOf(t, '.');
    if k >= 0 {
      assert m >= k;
      assert m <= k;
      assert t[k + 1..] == ToLower(s[k + 1..]);
    } else {
      assert '.' !in t;
    }
  }

  /** Java `Boolean.parseBoolean`: true exactly for "true" in any letter case. */
  function ParseBoolean(s: Option<string>): (b: bool)
    ensures b ==> s.Some? && |s.value| == 4
    ensures s == Some("true") || s == Some("TRUE") ==> b
  {
    s.Some? && ToLower(s.value) == "true"
  }

  /** `s.replace(c, "")`: every occurrence of `c` removed. */
  function RemoveAll(s: string, c: char): (r: string)
    ensures c !in r
    ensures |r| <= |s|
    ensures c !in s ==> r == s
  {
    if s == [] then []
    else if s[0] == c then RemoveAll(s[1..], c)
    else [s[0]] + RemoveAll(s[1..], c)
  }

  // ---------------------------------------------------------------------
  // Splitting

  /** Concatenate `parts` with `sep` between neighbours. */
  function Join(parts: seq<string>, sep: string): string
  {
    if |parts| == 0 then []
    else if |parts| == 1 then parts[0]
    else parts[0] + sep + Join(parts[1..], sep)
  }

  /** Every field between single delimiter characters, empty fields included. */
  function SplitAll(s: string, c: char): (r: seq<string>)
    ensures |r| >= 1
    ensures forall i :: 0 <= i < |r| ==> c !in r[i]
    ensures Join(r, [c]) == s
    ensures c !in s ==> r == [s]
  {
    var k := IndexOf(s, c);
    if k == -1 then [s]
    else
      var rest := SplitAll(s[k + 1..], c);
      SplitStep(s, c, k, rest);
      [s[..k]] + rest
  }

  /** One more field in front of the fields after the first delimiter. */
  lemma SplitStep(s: string, c: char, k: int, rest: seq<string>)
    requires 0 <= k < |s| && s[k] == c && c !in s[..k]
    requires |rest| >= 1 && Join(rest, [c]) == s[k + 1..]
    requires forall i :: 0 <= i < |rest| ==> c !in rest[i]
    ensures forall i :: 0 <= i < |rest| + 1 ==> c !in ([s[..k]] + rest)[i]
    ensures Join([s[..k]] + rest, [c]) == s
  {
    FieldsFree(s[..k], rest, c);
    JoinFront(s[..k], rest, [c]);
    Around(s, k);
  }

  /** A sequence is its part before `k`, its element at `k` and the rest. */
  lemma Around<T>(s: seq<T>, k: int)
    requires 0 <= k < |s|
    ensures s[..k] + [s[k]] + s[k + 1..] == s
  {
  }

  lemma FieldsFree(a: string, rest: seq<string>, c: char)
    requires c !in a
    requires forall i :: 0 <= i < |rest| ==> c !in rest[i]
    ensures forall i :: 0 <= i < |rest| + 1 ==> c !in ([a] + rest)[i]
  {
    forall i | 0 <= i < |rest| + 1
      ensures c !in ([a] + rest)[i]
    {
      if i > 0 {
        assert ([a] + rest)[i] == rest[i - 1];
      }
    }
  }

  lemma JoinFront(a: string, rest: seq<string>, sep: string)
    requires |rest| >= 1
    ensures Join([a] + rest, sep) == a + sep + Join(rest, sep)
  {
    assert ([a] + rest)[1..] == rest;
  }

  /** Splitting at the first delimiter of a delimiter-free head. */
  lemma SplitAllCons(a: string, c: char, rest: string)
    requires c !in a
    ensures SplitAll(a + [c] + rest, c) == [a] + SplitAll(rest, c)
  {
    var s := a + [c] + rest;
    IndexOfAfterFree(a, c, rest);
    assert s[..|a|] == a;
    assert s[|a| + 1..] == rest;
  }

  /** Drop empty strings from the end of `r`. */
  function DropTrailingEmpty(r: seq<string>): (q: seq<string>)
    ensures |q| <= |r| && q == r[..|q|]
    ensures |q| > 0 ==> q[|q| - 1] != []
    ensures forall i :: |q| <= i < |r| ==> r[i] == []
  {
    if |r| > 0 && r[|r| - 1] == [] then DropTrailingEmpty(r[..|r| - 1]) else r
  }

  /** Java `s.split(c)` for a one-character, non-special delimiter: the
      fields between delimiters, trailing empty fields removed, and `[s]`
      when `c` does not occur at all (so `"".split(c)` is `[""]`). */
  function JavaSplit(s: string, c: char): (r: seq<string>)
    ensures forall i :: 0 <= i < |r| ==> c !in r[i]
    ensures c !in s ==> r == [s]
  {
    if c !in s then [s] else DropTrailingEmpty(SplitAll(s, c))
  }

  /** Splitting text made of delimiter-free fields, the last one non-empty,
      gives those fields back. */
  lemma {:induction false} SplitAllJoin(parts: seq<string>, c: char)
    requires |parts| >= 1
    requires forall i :: 0 <= i < |parts| ==> c !in parts[i]
    ensures SplitAll(Join(parts, [c]), c) == parts
    decreases |parts|
  {
    if |parts| > 1 {
      var s := Join(parts, [c]);
      var tail := Join(parts[1..], [c]);
      assert s == parts[0] + [c] + tail;
      IndexOfAfterFree(parts[0], c, tail);
      var k := |parts[0]|;
      assert s[..k] == parts[0];
      assert s[k + 1..] == tail;
      SplitAllJoin(parts[1..], c);
      assert SplitAll(s, c) == [s[..k]] + SplitAll(s[k + 1..], c);
      assert parts == [parts[0]] + parts[1..];
    } else {
      assert Join(parts, [c]) == parts[0];
    }
  }

  lemma IndexOfAfterFree(a: string, c: char, b: string)
    requires c !in a
    ensures IndexOf(a + [c] + b, c) == |a|
  {
    var s := a + [c] + b;
    assert s[..|a|] == a;
    assert s[|a|] == c;
  }

  lemma JavaSplitJoin(parts: seq<string>, c: char)
    requires |parts| >= 2
    requires forall i :: 0 <= i < |parts| ==> c !in parts[i]
    requires parts[|parts| - 1] != []
    ensures JavaSplit(Join(parts, [c]), c) == parts
  {
    SplitAllJoin(parts, c);
    var s := Join(parts, [c]);
    assert s == parts[0] + [c] + Join(parts[1..], [c]);
    assert c in s by { assert s[|parts[0]|] == c; }
  }

  function IsSlash(c: char): bool
  {
    c == '/'
  }

  /** The non-empty segments of a path (JavaScript
      `p.split('/').filter(Boolean)`). */
  function Segments(p: string): (r: seq<string>)
    ensures forall i :: 0 <= i < |r| ==> r[i] != [] && '/' !in r[i]
  {
    var r := Tokens(p, IsSlash);
    assert forall i :: 0 <= i < |r| ==> '/' !in r[i] by {
      forall i | 0 <= i < |r| ensures '/' !in r[i] {
        assert forall j :: 0 <= j < |r[i]| ==> !IsSlash(r[i][j]);
      }
    }
    r
  }

  /** The maximal runs of characters not satisfying `delim`, in order
      (JavaScript `s.split(d).filter(Boolean)`, Java `split("[d]+")` without
      the empty leading field). */
  function Tokens(s: string, delim: char -> bool): (r: seq<string>)
    ensures forall i :: 0 <= i < |r| ==> r[i] != []
    ensures forall i, j :: 0 <= i < |r| && 0 <= j < |r[i]| ==> !delim(r[i][j])
    decreases |s|
  {
    if |s| == 0 then []
    else if delim(s[0]) then Tokens(s[1..], delim)
    else
      var n := RunLength(s, delim);
      [s[..n]] + Tokens(s[n..], delim)
  }

  /** Length of the leading run of non-delimiters. */
  function RunLength(s: string, delim: char -> bool): (n: nat)
    ensures n <= |s|
    ensures forall j :: 0 <= j < n ==> !delim(s[j])
    ensures n < |s| ==> delim(s[n])
  {
    if |s| == 0 || delim(s[0]) then 0 else 1 + RunLength(s[1..], delim)
  }

  /** Java `s.split("[d]+")`: a leading empty field when `s` starts with a
      delimiter, then the runs; `[s]` when no delimiter occurs; trailing
      empty fields removed. */
  function SplitRuns(s: string, delim: char -> bool): seq<string>
  {
    if forall i :: 0 <= i < |s| ==> !delim(s[i]) then [s]
    else DropTrailingEmpty((if delim(s[0]) then [[]] else []) + Tokens(s, delim))
  }

  /** A leading delimiter is skipped. */
  lemma TokensSkip(c: char, s: string, delim: char -> bool)
    requires delim(c)
    ensures Tokens([c] + s, delim) == Tokens(s, delim)
  {
    assert ([c] + s)[1..] == s;
  }

  /** A text starting with a delimiter splits into an empty leading field
      and its runs. */
  lemma SplitRunsLeadingDelim(s: string, delim: char -> bool)
    requires s != [] && delim(s[0])
    ensures SplitRuns(s, delim) == DropTrailingEmpty([[]] + Tokens(s, delim))
  {
  }

  lemma DropTrailingEmptyKeeps(r: seq<string>)
    requires r != [] && r[|r| - 1] != []
    ensures DropTrailingEmpty(r) == r
  {
  }

  /** The leading run of `w + rest` is exactly `w` when `w` has no
      delimiter and `rest` is empty or starts with one. */
  lemma RunLengthOf(w: string, rest: string, delim: char -> bool)
    requires forall i :: 0 <= i < |w| ==> !delim(w[i])
    requires rest == [] || delim(rest[0])
    ensures RunLength(w + rest, delim) == |w|
  {
    var s := w + rest;
    assert forall j :: 0 <= j < |w| ==> s[j] == w[j];
    if rest != [] {
      assert s[|w|] == rest[0];
    }
  }

  /** A delimiter-free word followed by a delimiter (or the end) is read
      as one token. */
  lemma TokensRun(w: string, rest: string, delim: char -> bool)
    requires w != [] && forall i :: 0 <= i < |w| ==> !delim(w[i])
    requires rest == [] || delim(rest[0])
    ensures Tokens(w + rest, delim) == [w] + Tokens(rest, delim)
  {
    var s := w + rest;
    RunLengthOf(w, rest, delim);
    assert s[0] == w[0];
    assert s[..|w|] == w && s[|w|..] == rest;
  }

  /** Non-empty delimiter-free words joined by one delimiter character are
      read back as those words. */
  lemma {:induction false} TokensJoin(parts: seq<string>, sep: char, delim: char -> bool)
    requires delim(sep)
    requires forall i :: 0 <= i < |parts| ==> parts[i] != []
    requires forall i, j :: 0 <= i < |parts| && 0 <= j < |parts[i]| ==> !delim(parts[i][j])
    ensures Tokens(Join(parts, [sep]), delim) == parts
    decreases |parts|
  {
    if |parts| == 1 {
      TokensRun(parts[0], [], delim);
      assert parts[0] + [] == parts[0];
    } else if |parts| > 1 {
      var tail := Join(parts[1..], [sep]);
      TokensRun(parts[0], [sep] + tail, delim);
      assert Join(parts, [sep]) == parts[0] + ([sep] + tail);
      assert ([sep] + tail)[1..] == tail;
      TokensJoin(parts[1..], sep, delim);
      assert parts == [parts[0]] + parts[1..];
    }
  }

  // ---------------------------------------------------------------------
  // Decimal numbers

  const LONG_MIN: int := -0x8000_0000_0000_0000
  const LONG_MAX: int := 0x7FFF_FFFF_FFFF_FFFF

  predicate InLong(x: int)
  {
    LONG_MIN <= x <= LONG_MAX
  }

  /** Two's-complement 64-bit wrap-around of Java `long` arithmetic. */
  function Wrap64(x: int): (r: int)
    ensures InLong(r)
    ensures InLong(x) ==> r == x
    ensures (x - r) % 0x1_0000_0000_0000_0000 == 0
  {
    (x - LONG_MIN) % 0x1_0000_0000_0000_0000 + LONG_MIN
  }

  predicate IsDigit(c: char)
  {
    '0' <= c <= '9'
  }

  predicate AllDigits(s: string)
  {
    forall i :: 0 <= i < |s| ==> IsDigit(s[i])
  }

  function DigitChar(d: nat): (c: char)
    requires d < 10
    ensures IsDigit(c) && c as int - '0' as int == d
  {
    ('0' as int + d) as char
  }

  /** Decimal rendering of a natural number, no leading zeros. */
  function NatToString(n: nat): (s: string)
    ensures |s| >= 1 && AllDigits(s)
    ensures |s| > 1 ==> s[0] != '0'
    decreases n
  {
    if n < 10 then [DigitChar(n)] else NatToString(n / 10) + [DigitChar(n % 10)]
  }

  /** Java `String.valueOf(long)`. */
  function IntToString(x: int): (s: string)
    ensures |s| >= 1
    ensures x >= 0 ==> AllDigits(s)
    ensures x < 0 ==> s[0] == '-' && AllDigits(s[1..])
  {
    if x >= 0 then NatToString(x) else "-" + NatToString(-x)
  }

  /** The value of a string of decimal digits. */
  function DigitsValue(s: string): (v: nat)
    requires AllDigits(s)
  {
    if |s| == 0 then 0 else DigitsValue(s[..|s| - 1]) * 10 + (s[|s| - 1] as int - '0' as int)
  }

  lemma {:induction false} DigitsValueOfNat(n: nat)
    ensures DigitsValue(NatToString(n)) == n
    decreases n
  {
    if n >= 10 {
      var s := NatToString(n);
      assert s[..|s| - 1] == NatToString(n / 10);
      DigitsValueOfNat(n / 10);
    }
  }

  /** Java `Long.parseLong(s)` over ASCII digits: an optional sign, at least
      one digit, and a value inside the `long` range; `None` stands for
      NumberFormatException. */
  function ParseLong(s: string): (r: Option<int>)
    ensures r.Some? ==> InLong(r.value)
    ensures r.Some? ==> |s| > 0 && AllDigits(s[1..]) && (IsDigit(s[0]) || s[0] == '-' || s[0] == '+')
    ensures r.Some? && r.value < 0 ==> s[0] == '-'
    ensures |s| > 0 && AllDigits(s) && DigitsValue(s) <= LONG_MAX ==> r == Some(DigitsValue(s))
  {
    if |s| == 0 then None
    else
      var neg := s[0] == '-';
      var body := if s[0] == '-' || s[0] == '+' then s[1..] else s;
      if |body| == 0 || !AllDigits(body) then None
      else
        var v: int := if neg then -(DigitsValue(body) as int) else DigitsValue(body);
        if InLong(v) then Some(v) else None
  }

  /** Rendering a `long` and parsing it back gives the same value. */
  lemma ParseLongRoundTrip(x: int)
    requires InLong(x)
    ensures ParseLong(IntToString(x)) == Some(x)
  {
    if x >= 0 {
      DigitsValueOfNat(x);
      assert IntToString(x)[0] != '-' && IntToString(x)[0] != '+';
    } else {
      var s := IntToString(x);
      assert s[1..] == NatToString(-x);
      DigitsValueOfNat(-x);
    }
  }
}
