/** The file classes of the type view (DirectoryServlet): the built-in
    extension lists and the optional formats file that overrides them, one
    "label: ext, ext, ..." line per class.
 */
module TypeClasses {
  import opened Wrappers
  import opened Text

  /** Class key ("images", ...) to its lower-case extensions without dot. */
  type TypeMap = map<string, seq<string>>

  const IMAGES: string := "images"
  const VIDEOS: string := "videos"
  const ARCHIVES: string := "archives"
  const DOCUMENTS: string := "documents"

  const CLASS_KEYS: set<string> := {IMAGES, VIDEOS, ARCHIVES, DOCUMENTS}

  /** `initDefaultTypeExts`. */
  const BUILTIN_TYPES: TypeMap := map[
    IMAGES := ["bmp", "jpg", "jpeg", "png", "tif", "tiff", "gif", "pcx", "tga", "exif", "fpx", "svg",
               "psd", "pcd", "dxf", "ufo", "eps", "ai", "raw", "wmf", "webp", "avif", "apng"],
    VIDEOS := ["mp4", "mov", "wmv", "flv", "avi", "avchd", "webm", "mkv"],
    ARCHIVES := ["7z", "rar", "zip", "tgz", "tar", "gz"],
    DOCUMENTS := ["pdf", "doc", "docx", "xls", "xlsx", "log", "txt", "ppt", "pptx"]
  ]

  /** An ASCII letter or digit: the characters `[A-Za-z0-9]`. */
  predicate IsAlnum(c: char)
  {
    'A' <= c <= 'Z' || 'a' <= c <= 'z' || '0' <= c <= '9'
  }

  predicate NotAlnum(c: char)
  {
    !IsAlnum(c)
  }

  /** A lower-case letter or a digit. */
  predicate IsLowerAlnum(c: char)
  {
    'a' <= c <= 'z' || '0' <= c <= '9'
  }

  /** A usable extension: non-empty, lower-case letters and digits only. */
  predicate IsExtension(e: string)
  {
    e != [] && forall j :: 0 <= j < |e| ==> IsLowerAlnum(e[j])
  }

  /** Every class in `m` is one of the four keys and lists some extension. */
  predicate WellFormed(m: TypeMap)
  {
    m.Keys <= CLASS_KEYS && forall k :: k in m ==> m[k] != []
  }

  /** The built-in table has exactly the four classes, each a non-empty list. */
  lemma BuiltinTypes()
    ensures BUILTIN_TYPES.Keys == CLASS_KEYS
    ensures WellFormed(BUILTIN_TYPES)
  {
  }

  // ---------------------------------------------------------------------
  // The formats file

  /** The separators of `split("[:：]", 2)`: ASCII and full-width colon. */
  predicate IsFormatSeparator(c: char)
  {
    c == ':' || c == '\U{FF1A}'
  }

  /** The index of the first separator, or -1. */
  function SeparatorIndex(s: string): (r: int)
    ensures -1 <= r < |s|
    ensures r >= 0 ==> IsFormatSeparator(s[r])
    ensures forall j :: 0 <= j < |s| && (r == -1 || j < r) ==> !IsFormatSeparator(s[j])
  {
    if |s| == 0 then -1
    else if IsFormatSeparator(s[0]) then 0
    else
      var k := SeparatorIndex(s[1..]);
      if k == -1 then -1 else k + 1
  }

  const LABEL_IMAGES: string := "\U{56FE}\U{7247}"     // 图片
  const LABEL_VIDEOS: string := "\U{89C6}\U{9891}"     // 视频
  const LABEL_ARCHIVES: string := "\U{538B}\U{7F29}"   // 压缩
  const LABEL_DOCUMENTS: string := "\U{6587}\U{6863}"  // 文档

  /** The class a heading names: the first of 图片 (images), 视频 (videos),
      压缩 (archives), 文档 (documents) it contains. */
  function ClassOfLabel(heading: string): (r: Option<string>)
    ensures r.Some? ==> r.value in CLASS_KEYS
    ensures Contains(heading, LABEL_IMAGES) ==> r == Some(IMAGES)
    ensures r.None? <==> !Contains(heading, LABEL_IMAGES) && !Contains(heading, LABEL_VIDEOS)
                         && !Contains(heading, LABEL_ARCHIVES) && !Contains(heading, LABEL_DOCUMENTS)
  {
    if Contains(heading, LABEL_IMAGES) then Some(IMAGES)
    else if Contains(heading, LABEL_VIDEOS) then Some(VIDEOS)
    else if Contains(heading, LABEL_ARCHIVES) then Some(ARCHIVES)
    else if Contains(heading, LABEL_DOCUMENTS) then Some(DOCUMENTS)
    else None
  }

  /** The strings of `parts` that are not empty, in order. */
  function NonEmpty(parts: seq<string>): (r: seq<string>)
    ensures |r| <= |parts|
    ensures forall i :: 0 <= i < |r| ==> r[i] != []
  {
    if parts == [] then []
    else (if parts[0] == [] then [] else [parts[0]]) + NonEmpty(parts[1..])
  }

  function LowerAll(parts: seq<string>): (r: seq<string>)
    ensures |r| == |parts|
    ensures forall i :: 0 <= i < |r| ==> r[i] == ToLower(parts[i])
  {
    if parts == [] then [] else [ToLower(parts[0])] + LowerAll(parts[1..])
  }

  /** `vals.split("[^A-Za-z0-9]+")`, empty tokens skipped, lower-cased. */
  function FormatTokens(vals: string): (r: seq<string>)
  {
    LowerAll(NonEmpty(SplitRuns(vals, NotAlnum)))
  }

  /** The tokens are the maximal letter-and-digit runs, lower-cased: the
      empty fields `split` may produce never reach the list. */
  lemma FormatTokensAreRuns(vals: string)
    ensures FormatTokens(vals) == LowerAll(Tokens(vals, NotAlnum))
  {
    assert NonEmpty(SplitRuns(vals, NotAlnum)) == Tokens(vals, NotAlnum) by {
      if forall i :: 0 <= i < |vals| ==> !NotAlnum(vals[i]) {
        RunsWithoutDelimiter(vals);
      } else {
        RunsWithDelimiter(vals);
      }
    }
  }

  lemma RunsWithoutDelimiter(vals: string)
    requires forall i :: 0 <= i < |vals| ==> !NotAlnum(vals[i])
    ensures NonEmpty(SplitRuns(vals, NotAlnum)) == Tokens(vals, NotAlnum)
  {
    assert SplitRuns(vals, NotAlnum) == [vals];
    assert [vals][1..] == [];
    if vals != [] {
      TokensRun(vals, [], NotAlnum);
      assert vals + [] == vals;
    }
  }

  lemma RunsWithDelimiter(vals: string)
    requires exists i :: 0 <= i < |vals| && NotAlnum(vals[i])
    ensures NonEmpty(SplitRuns(vals, NotAlnum)) == Tokens(vals, NotAlnum)
  {
    var runs := Tokens(vals, NotAlnum);
    var lead: seq<string> := if NotAlnum(vals[0]) then [[]] else [];
    assert SplitRuns(vals, NotAlnum) == DropTrailingEmpty(lead + runs);
    NonEmptyDropTrailing(lead + runs);
    NonEmptyAppend(lead, runs);
    assert NonEmpty(lead) == [] by {
      if lead != [] { assert lead[1..] == []; }
    }
    NonEmptyOfNonEmpty(runs);
  }

  /** Every token is a usable extension. */
  lemma FormatTokensAreExtensions(vals: string)
    ensures forall i :: 0 <= i < |FormatTokens(vals)| ==> IsExtension(FormatTokens(vals)[i])
  {
    FormatTokensAreRuns(vals);
    var runs := Tokens(vals, NotAlnum);
    forall i | 0 <= i < |runs| ensures IsExtension(ToLower(runs[i])) {
      LowerRunIsExtension(runs[i]);
    }
  }

  lemma LowerRunIsExtension(t: string)
    requires t != [] && forall j :: 0 <= j < |t| ==> IsAlnum(t[j])
    ensures IsExtension(ToLower(t))
  {
  }

  lemma {:induction false} NonEmptyOfNonEmpty(parts: seq<string>)
    requires forall i :: 0 <= i < |parts| ==> parts[i] != []
    ensures NonEmpty(parts) == parts
  {
    if parts != [] {
      NonEmptyOfNonEmpty(parts[1..]);
    }
  }

  lemma {:induction false} NonEmptyAppend(a: seq<string>, b: seq<string>)
    ensures NonEmpty(a + b) == NonEmpty(a) + NonEmpty(b)
  {
    if a == [] {
      assert a + b == b;
    } else {
      assert (a + b)[0] == a[0];
      assert (a + b)[1..] == a[1..] + b;
      NonEmptyAppend(a[1..], b);
    }
  }

  lemma {:induction false} NonEmptyDropTrailing(parts: seq<string>)
    ensures NonEmpty(DropTrailingEmpty(parts)) == NonEmpty(parts)
    decreases |parts|
  {
    if |parts| > 0 && parts[|parts| - 1] == [] {
      var init := parts[..|parts| - 1];
      NonEmptyDropTrailing(init);
      assert parts == init + [[]];
      var blank: seq<string> := [[]];
      NonEmptyAppend(init, blank);
      assert NonEmpty(blank) == [] by { assert blank[1..] == []; }
    }
  }

  /** What one line of the formats file does: the class it names and its
      new extension list, or nothing. */
  function LineUpdate(line: string): (r: Option<(string, seq<string>)>)
    ensures r.Some? ==> r.value.0 in CLASS_KEYS && r.value.1 != []
    ensures r.Some? ==> forall i :: 0 <= i < |r.value.1| ==> IsExtension(r.value.1[i])
  {
    TrimmedLineUpdate(Trim(line))
  }

  /** `LineUpdate` after the line has been trimmed: split at the first
      separator (limit 2), trim both halves, name the class, read the tokens. */
  function TrimmedLineUpdate(t: string): (r: Option<(string, seq<string>)>)
    ensures r.Some? ==> r.value.0 in CLASS_KEYS && r.value.1 != []
    ensures r.Some? ==> forall i :: 0 <= i < |r.value.1| ==> IsExtension(r.value.1[i])
  {
    if t == [] then None
    else
      var k := SeparatorIndex(t);
      if k < 0 then None
      else
        FormatTokensAreExtensions(Trim(t[k + 1..]));
        UpdateOf(ClassOfLabel(Trim(t[..k])), FormatTokens(Trim(t[k + 1..])))
  }

  /** A class and its tokens make an update only when both are present. */
  function UpdateOf(cls: Option<string>, exts: seq<string>): (r: Option<(string, seq<string>)>)
    ensures r.Some? <==> cls.Some? && exts != []
    ensures r.Some? ==> r.value == (cls.value, exts)
  {
    if cls.None? || exts == [] then None else Some((cls.value, exts))
  }

  /** A line with neither ':' nor '：' is skipped. */
  lemma NoSeparatorSkipped(line: string)
    requires forall j :: 0 <= j < |line| ==> !IsFormatSeparator(line[j])
    ensures LineUpdate(line).None?
  {
    var t := Trim(line);
    TrimChars(line);
    assert forall j :: 0 <= j < |t| ==> !IsFormatSeparator(t[j]);
  }

  /** One line applied to the table: the named class's list is replaced;
      every other class keeps its list. */
  function ApplyFormatLine(m: TypeMap, line: string): (r: TypeMap)
    ensures WellFormed(m) ==> WellFormed(r)
  {
    var u := LineUpdate(line);
    ApplyUpdate(m, u)
  }

  function ApplyUpdate(m: TypeMap, u: Option<(string, seq<string>)>): (r: TypeMap)
    requires u.Some? ==> u.value.0 in CLASS_KEYS && u.value.1 != []
    ensures u.None? ==> r == m
    ensures u.Some? ==> r.Keys == m.Keys + {u.value.0} && r[u.value.0] == u.value.1
    ensures forall k :: k in m && (u.None? || k != u.value.0) ==> k in r && r[k] == m[k]
    ensures WellFormed(m) ==> WellFormed(r)
  {
    if u.None? then m else m[u.value.0 := u.value.1]
  }

  /** `parseFormatsFile`: the lines applied in file order. */
  function ParseFormats(m: TypeMap, lines: seq<string>): (r: TypeMap)
    ensures WellFormed(m) ==> WellFormed(r)
    ensures m.Keys <= r.Keys
    decreases |lines|
  {
    if lines == [] then m else ParseFormats(ApplyFormatLine(m, lines[0]), lines[1..])
  }

  /** The table the servlet starts with: the built-in lists, overridden by
      the formats file when there is one. */
  function InitialTypes(formats: Option<seq<string>>): (r: TypeMap)
    ensures r.Keys == CLASS_KEYS
    ensures WellFormed(r)
    ensures formats.None? ==> r == BUILTIN_TYPES
  {
    BuiltinTypes();
    if formats.None? then BUILTIN_TYPES else ParseFormats(BUILTIN_TYPES, formats.value)
  }

  // ---------------------------------------------------------------------
  // Round trip

  /** The first and last characters of words joined by a separator. */
  lemma {:induction false} JoinEnds(parts: seq<string>, sep: string)
    requires |parts| >= 1 && forall i :: 0 <= i < |parts| ==> parts[i] != []
    ensures Join(parts, sep) != []
    ensures Join(parts, sep)[0] == parts[0][0]
    ensures var j := Join(parts, sep); j[|j| - 1] == parts[|parts| - 1][|parts[|parts| - 1]| - 1]
    decreases |parts|
  {
    if |parts| > 1 {
      JoinEnds(parts[1..], sep);
      var tail := Join(parts[1..], sep);
      assert Join(parts, sep) == parts[0] + sep + tail;
    }
  }

  /** A lower-case word is its own lower-case form. */
  lemma LowerOfLower(e: string)
    requires IsExtension(e)
    ensures ToLower(e) == e
  {
  }

  /** A heading a class line can be written with: no surrounding blanks,
      no separator, and naming one of the classes. */
  predicate ClassHeading(heading: string)
  {
    && heading != [] && !IsSpace(heading[0]) && !IsSpace(heading[|heading| - 1])
    && (forall j :: 0 <= j < |heading| ==> !IsFormatSeparator(heading[j]))
    && ClassOfLabel(heading).Some?
  }

  /** A non-empty list of extensions. */
  predicate ExtensionList(exts: seq<string>)
  {
    exts != [] && forall i :: 0 <= i < |exts| ==> IsExtension(exts[i])
  }

  /** Writing a class line as a heading, a colon (either kind) and the
      extensions joined by any other non-alphanumeric character, then
      parsing it, gives back that class and exactly those extensions. */
  lemma FormatLineRoundTrip(heading: string, colon: char, comma: char, exts: seq<string>)
    requires ClassHeading(heading) && IsFormatSeparator(colon) && NotAlnum(comma) && ExtensionList(exts)
    ensures LineUpdate(heading + [colon] + Join(exts, [comma])) == Some((ClassOfLabel(heading).value, exts))
  {
    CleanValues(exts, comma);
    LineOfCleanParts(heading, colon, Join(exts, [comma]), exts);
  }

  /** A clean heading, a separator and values that tokenize to `exts`. */
  lemma LineOfCleanParts(heading: string, colon: char, vals: string, exts: seq<string>)
    requires ClassHeading(heading) && IsFormatSeparator(colon)
    requires vals != [] && !IsSpace(vals[|vals| - 1])
    requires exts != [] && FormatTokens(Trim(vals)) == exts
    ensures LineUpdate(heading + [colon] + vals) == Some((ClassOfLabel(heading).value, exts))
  {
    CleanHeading(heading);
    LineOfParts(heading, colon, vals);
  }

  /** A heading, a separator and a value list, read as one line. */
  lemma LineOfParts(heading: string, colon: char, vals: string)
    requires heading != [] && !IsSpace(heading[0])
    requires forall j :: 0 <= j < |heading| ==> !IsFormatSeparator(heading[j])
    requires IsFormatSeparator(colon)
    requires vals != [] && !IsSpace(vals[|vals| - 1])
    ensures LineUpdate(heading + [colon] + vals) == UpdateOf(ClassOfLabel(Trim(heading)), FormatTokens(Trim(vals)))
  {
    var line := heading + [colon] + vals;
    assert line != [] && !IsSpace(line[0]) && !IsSpace(line[|line| - 1]) by {
      assert line[0] == heading[0];
      assert line[|line| - 1] == vals[|vals| - 1];
    }
    LineUpdateUntrimmed(line);
    TrimmedOfParts(heading, colon, vals);
  }

  lemma TrimmedOfParts(heading: string, colon: char, vals: string)
    requires forall j :: 0 <= j < |heading| ==> !IsFormatSeparator(heading[j])
    requires IsFormatSeparator(colon)
    ensures TrimmedLineUpdate(heading + [colon] + vals) == UpdateOf(ClassOfLabel(Trim(heading)), FormatTokens(Trim(vals)))
  {
    var line := heading + [colon] + vals;
    SeparatorAfter(heading, colon, vals);
    assert line[..|heading|] == heading && line[|heading| + 1..] == vals;
  }

  lemma CleanHeading(heading: string)
    requires heading != [] && !IsSpace(heading[0]) && !IsSpace(heading[|heading| - 1])
    ensures ClassOfLabel(Trim(heading)) == ClassOfLabel(heading)
  {
    TrimNoSpace(heading);
  }

  /** Joined extensions start and end with a letter or digit, so trimming
      keeps them whole, and they tokenize back to themselves. */
  lemma CleanValues(exts: seq<string>, comma: char)
    requires NotAlnum(comma) && ExtensionList(exts)
    ensures var vals := Join(exts, [comma]);
      vals != [] && !IsSpace(vals[|vals| - 1]) && FormatTokens(Trim(vals)) == exts
  {
    var vals := Join(exts, [comma]);
    JoinEnds(exts, [comma]);
    var first := exts[0];
    var last := exts[|exts| - 1];
    assert IsLowerAlnum(first[0]);
    assert IsLowerAlnum(last[|last| - 1]);
    TrimNoSpace(vals);
    FormatTokensOfJoin(exts, comma);
  }

  /** Extensions joined by a non-alphanumeric character tokenize back to
      themselves. */
  lemma FormatTokensOfJoin(exts: seq<string>, comma: char)
    requires NotAlnum(comma)
    requires forall i :: 0 <= i < |exts| ==> IsExtension(exts[i])
    ensures FormatTokens(Join(exts, [comma])) == exts
  {
    TokensJoin(exts, comma, NotAlnum);
    FormatTokensAreRuns(Join(exts, [comma]));
    forall i | 0 <= i < |exts| ensures ToLower(exts[i]) == exts[i] {
      LowerOfLower(exts[i]);
    }
  }

  /** A line that neither starts nor ends with a space is parsed as is. */
  lemma LineUpdateUntrimmed(line: string)
    requires line != [] && !IsSpace(line[0]) && !IsSpace(line[|line| - 1])
    ensures LineUpdate(line) == TrimmedLineUpdate(line)
  {
    TrimNoSpace(line);
  }

  lemma SeparatorAfter(heading: string, colon: char, rest: string)
    requires forall j :: 0 <= j < |heading| ==> !IsFormatSeparator(heading[j])
    requires IsFormatSeparator(colon)
    ensures SeparatorIndex(heading + [colon] + rest) == |heading|
  {
    var line := heading + [colon] + rest;
    assert line[|heading|] == colon;
    assert forall j :: 0 <= j < |heading| ==> line[j] == heading[j];
  }
}
