/** The pure parts of `HdfsService`: the recursive-listing filters
    (`search`, `searchByExtensions`), the shaping of a directory listing
    (`listDir`, `listDirWithMeta`) and the octal permission parser of
    `setPermissionOctal`. The Hadoop listing itself is an input sequence of
    `Status` records, in the order the file system yields them.
 */
module HdfsListing {
  import opened Wrappers
  import opened Text

  /** One `FileStatus`: the scheme-less path (`getPath().toUri().getPath()`),
      the last path component (`getPath().getName()`), the directory flag,
      the length and the modification time. */
  datatype Status = Status(path: string, name: string, isDirectory: bool, len: int, mtime: int)

  /** `HdfsService.FileEntry`. */
  datatype FileEntry = FileEntry(path: string, isDirectory: bool, size: int, modificationTime: int)

  function EntryOf(s: Status): FileEntry
  {
    FileEntry(s.path, s.isDirectory, s.len, s.mtime)
  }

  /** The entries of the statuses that satisfy `keep`, in listing order. */
  function Select(listing: seq<Status>, keep: Status -> bool): (r: seq<FileEntry>)
    ensures |r| <= |listing|
    ensures forall i :: 0 <= i < |listing| && keep(listing[i]) ==> EntryOf(listing[i]) in r
  {
    if listing == [] then []
    else (if keep(listing[0]) then [EntryOf(listing[0])] else []) + Select(listing[1..], keep)
  }

  /** Selecting from a concatenation selects from each part in turn, so
      matches keep their listing order. */
  lemma {:induction false} SelectAppend(a: seq<Status>, b: seq<Status>, keep: Status -> bool)
    ensures Select(a + b, keep) == Select(a, keep) + Select(b, keep)
  {
    if a == [] {
      assert a + b == b;
    } else {
      assert (a + b)[0] == a[0];
      assert (a + b)[1..] == a[1..] + b;
      SelectAppend(a[1..], b, keep);
    }
  }

  /** Every selected entry comes from a status that satisfies `keep`. */
  lemma {:induction false} SelectSound(listing: seq<Status>, keep: Status -> bool, e: FileEntry)
    requires e in Select(listing, keep)
    ensures exists i :: 0 <= i < |listing| && keep(listing[i]) && EntryOf(listing[i]) == e
  {
    if e == EntryOf(listing[0]) && keep(listing[0]) {
    } else {
      SelectSound(listing[1..], keep, e);
      var i :| 0 <= i < |listing[1..]| && keep(listing[1..][i]) && EntryOf(listing[1..][i]) == e;
      assert listing[i + 1] == listing[1..][i];
    }
  }

  // ---------------------------------------------------------------------
  // search

  /** `search`: entries whose name contains `nameContains`, case-sensitively. */
  function Search(listing: seq<Status>, nameContains: string): (r: seq<FileEntry>)
    ensures |r| <= |listing|
    ensures forall i :: 0 <= i < |listing| && Contains(listing[i].name, nameContains) ==> EntryOf(listing[i]) in r
  {
    Select(listing, (s: Status) => Contains(s.name, nameContains))
  }

  /** Only names containing the text are returned. */
  lemma SearchSound(listing: seq<Status>, nameContains: string, e: FileEntry)
    requires e in Search(listing, nameContains)
    ensures exists i :: 0 <= i < |listing| && Contains(listing[i].name, nameContains) && EntryOf(listing[i]) == e
  {
    SelectSound(listing, (s: Status) => Contains(s.name, nameContains), e);
  }

  // ---------------------------------------------------------------------
  // searchByExtensions

  /** The extension list as compared: null entries skipped, the rest
      trimmed and lower-cased, order kept. */
  function NormalizeExts(exts: seq<Option<string>>): (r: seq<string>)
    ensures |r| <= |exts|
    ensures forall i :: 0 <= i < |exts| && exts[i].Some? ==> ToLower(Trim(exts[i].value)) in r
    ensures forall e :: e in r ==> exists i :: 0 <= i < |exts| && exts[i].Some? && e == ToLower(Trim(exts[i].value))
  {
    if exts == [] then []
    else
      var rest := NormalizeExts(exts[1..]);
      assert forall i :: 1 <= i < |exts| ==> exts[i] == exts[1..][i - 1];
      if exts[0].None? then rest else [ToLower(Trim(exts[0].value))] + rest
  }

  /** The lower-cased text after the last '.', when the name has a '.' that
      is not its last character; `None` otherwise. */
  function ExtensionOf(name: string): (r: Option<string>)
    ensures r.Some? <==> '.' in name && name[|name| - 1] != '.'
    ensures r.Some? ==> r.value != [] && '.' !in r.value
  {
    var idx := LastIndexOf(name, '.');
    if 0 <= idx < |name| - 1 then
      assert name[|name| - 1] != '.';
      Some(ToLower(name[idx + 1..]))
    else
      None
  }

  /** A stem, a dot and a dot-free non-empty extension: the extension is
      read back lower-cased, whatever the stem holds ("photo.JPG" gives
      "jpg", ".png" gives "png"). */
  lemma ExtensionOfDotted(stem: string, ext: string)
    requires ext != [] && '.' !in ext
    ensures ExtensionOf(stem + "." + ext) == Some(ToLower(ext))
  {
    var name := stem + "." + ext;
    var idx := LastIndexOf(name, '.');
    assert name[|stem|] == '.';
    assert forall j :: |stem| < j < |name| ==> name[j] == ext[j - |stem| - 1];
    assert idx == |stem|;
    assert name[idx + 1..] == ext;
  }

  /** A name without a dot, or ending in a dot ("a.", "noext"), has no
      extension. */
  lemma NoExtension(name: string)
    requires '.' !in name || (name != [] && name[|name| - 1] == '.')
    ensures ExtensionOf(name) == None
  {
  }

  predicate HasExtensionIn(s: Status, lower: seq<string>)
  {
    ExtensionOf(s.name).Some? && ExtensionOf(s.name).value in lower
  }

  /** `searchByExtensions`: nothing for a null or empty extension list;
      otherwise the statuses whose extension is in the normalised list. */
  function SearchByExtensions(listing: seq<Status>, exts: Option<seq<Option<string>>>): (r: seq<FileEntry>)
    ensures exts.None? || exts.value == [] ==> r == []
    ensures |r| <= |listing|
    ensures exts.Some? ==>
      forall i :: 0 <= i < |listing| && HasExtensionIn(listing[i], NormalizeExts(exts.value)) ==> EntryOf(listing[i]) in r
  {
    if exts.None? || exts.value == [] then []
    else
      var lower := NormalizeExts(exts.value);
      Select(listing, (s: Status) => HasExtensionIn(s, lower))
  }

  /** Every match has an extension in the list, and the matches of a
      concatenated listing are the matches of each part, in order. */
  lemma SearchByExtensionsSoundAndOrdered(a: seq<Status>, b: seq<Status>, exts: Option<seq<Option<string>>>, e: FileEntry)
    ensures e in SearchByExtensions(a, exts) ==>
      exists i :: 0 <= i < |a| && HasExtensionIn(a[i], NormalizeExts(exts.value)) && EntryOf(a[i]) == e
    ensures SearchByExtensions(a + b, exts) == SearchByExtensions(a, exts) + SearchByExtensions(b, exts)
  {
    if exts.Some? && exts.value != [] {
      var lower := NormalizeExts(exts.value);
      var keep := (s: Status) => HasExtensionIn(s, lower);
      SelectAppend(a, b, keep);
      if e in SearchByExtensions(a, exts) {
        SelectSound(a, keep, e);
      }
    }
  }

  // ---------------------------------------------------------------------
  // Directory listings

  function KindPrefix(isDirectory: bool): (p: string)
    ensures |p| == 6
  {
    if isDirectory then "DIR : " else "FILE: "
  }

  /** `listDir`: one line per child, a six-character kind tag then the path;
      an empty directory gives an empty list, never null. */
  function ListDir(statuses: seq<Status>): (r: seq<string>)
    ensures |r| == |statuses|
    ensures forall i :: 0 <= i < |r| ==> |r[i]| == 6 + |statuses[i].path|
  {
    seq(|statuses|, i requires 0 <= i < |statuses| => KindPrefix(statuses[i].isDirectory) + statuses[i].path)
  }

  /** A `listDir` line gives back the child's kind and path. */
  lemma ListDirLineRoundTrip(statuses: seq<Status>, i: int)
    requires 0 <= i < |statuses|
    ensures ListDir(statuses)[i][6..] == statuses[i].path
    ensures ListDir(statuses)[i][..6] == "DIR : " <==> statuses[i].isDirectory
  {
    var line := ListDir(statuses)[i];
    assert line == KindPrefix(statuses[i].isDirectory) + statuses[i].path;
    assert line[..6] == KindPrefix(statuses[i].isDirectory);
    if !statuses[i].isDirectory {
      assert line[0] == 'F';
    }
  }

  /** `listDirWithMeta`: one entry per child in order; a directory reports
      size 0, a file its length. */
  function ListDirWithMeta(statuses: seq<Status>): (r: seq<FileEntry>)
    ensures |r| == |statuses|
    ensures forall i :: 0 <= i < |r| ==>
      r[i].path == statuses[i].path && r[i].isDirectory == statuses[i].isDirectory
      && r[i].modificationTime == statuses[i].mtime
      && r[i].size == (if statuses[i].isDirectory then 0 else statuses[i].len)
  {
    if statuses == [] then []
    else
      var s := statuses[0];
      [FileEntry(s.path, s.isDirectory, if s.isDirectory then 0 else s.len, s.mtime)] + ListDirWithMeta(statuses[1..])
  }

  // ---------------------------------------------------------------------
  // setPermissionOctal

  const INT_MIN: int := -0x8000_0000
  const INT_MAX: int := 0x7FFF_FFFF

  predicate IsOctalDigit(c: char)
  {
    '0' <= c <= '7'
  }

  predicate AllOctal(s: string)
  {
    forall i :: 0 <= i < |s| ==> IsOctalDigit(s[i])
  }

  function OctalValue(s: string): (v: nat)
    requires AllOctal(s)
  {
    if |s| == 0 then 0 else OctalValue(s[..|s| - 1]) * 8 + (s[|s| - 1] as int - '0' as int)
  }

  /** Java `(short)` of an `int`: two's-complement 16-bit truncation. */
  function ToShort(x: int): (r: int)
    ensures -0x8000 <= r < 0x8000
    ensures -0x8000 <= x < 0x8000 ==> r == x
    ensures (x - r) % 0x1_0000 == 0
  {
    (x + 0x8000) % 0x1_0000 - 0x8000
  }

  /** What `setPermissionOctal` does to the file system. */
  datatype PermissionChange =
    | NoChange                  // null or empty string: returns at once
    | SetMode(mode: int)        // `setPermission(new FsPermission(mode))`
    | BadOctal                  // `Integer.parseInt` threw NumberFormatException

  /** `setPermissionOctal`: `Integer.parseInt(octal, 8)` (an optional sign,
      at least one octal digit, a value inside the `int` range) cast to
      `short`. */
  function PermissionOf(octal: Option<string>): (r: PermissionChange)
    ensures r.NoChange? <==> octal.None? || octal.value == []
    ensures r.SetMode? ==> -0x8000 <= r.mode < 0x8000
    ensures r.SetMode? ==> var s := octal.value; (s[0] == '-' || s[0] == '+' || IsOctalDigit(s[0]))
  {
    if octal.None? || octal.value == [] then NoChange
    else
      var s := octal.value;
      var neg := s[0] == '-';
      var body := if s[0] == '-' || s[0] == '+' then s[1..] else s;
      if |body| == 0 || !AllOctal(body) then BadOctal
      else
        var v: int := if neg then -(OctalValue(body) as int) else OctalValue(body);
        if INT_MIN <= v <= INT_MAX then SetMode(ToShort(v)) else BadOctal
  }

  /** Octal rendering of a natural number, no leading zeros. */
  function OctalString(n: nat): (s: string)
    ensures |s| >= 1 && AllOctal(s)
    decreases n
  {
    if n < 8 then [('0' as int + n) as char] else OctalString(n / 8) + [('0' as int + n % 8) as char]
  }

  lemma {:induction false} OctalValueOfString(n: nat)
    ensures OctalValue(OctalString(n)) == n
    decreases n
  {
    if n >= 8 {
      var s := OctalString(n);
      assert s[..|s| - 1] == OctalString(n / 8);
      OctalValueOfString(n / 8);
    }
  }

  /** Every permission mode written in octal ("700", "600", "7777") is
      applied as that mode. */
  lemma PermissionRoundTrip(mode: nat)
    requires mode < 0x8000
    ensures PermissionOf(Some(OctalString(mode))) == SetMode(mode)
  {
    var s := OctalString(mode);
    OctalValueOfString(mode);
    assert s[0] != '-' && s[0] != '+' by {
      assert IsOctalDigit(s[0]);
    }
  }
}
