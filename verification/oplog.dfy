/** The operation log: the line writers (`LogUtil.log` and the servlets'
    `appendAdminLog`) and the reader of the admin log page
    (`AdminLogsServlet.doGet`), which splits each line into tab-separated
    `key=value` fields. The timestamp text, the date parser and the file
    are inputs.
 */
module OpLog {
  import opened Wrappers
  import opened Text
  import StableSort

  const TAB: char := '\t'

  // ---------------------------------------------------------------------
  // Writers

  /** One `key=value` field. */
  function Field(key: string, value: string): string
  {
    key + "=" + value
  }

  /** A log line's fields joined by tabs. */
  function TabJoin(fields: seq<string>): string
  {
    Join(fields, [TAB])
  }

  /** The `key=value` fields of some pairs, in order. */
  function FieldsOf(pairs: seq<(string, string)>): (fs: seq<string>)
    ensures |fs| == |pairs|
    ensures forall i :: 0 <= i < |pairs| ==> fs[i] == Field(pairs[i].0, pairs[i].1)
  {
    if pairs == [] then [] else [Field(pairs[0].0, pairs[0].1)] + FieldsOf(pairs[1..])
  }

  /** What a `LogUtil` line records after the timestamp: the user
      ("unknown" when absent), the action (empty when absent), then the path
      and the info, each only when given. */
  function LogUtilPairs(username: Option<string>, action: Option<string>,
                        path: Option<string>, info: Option<string>): (ps: seq<(string, string)>)
    ensures 2 <= |ps| <= 4
  {
    [("user", if username.None? then "unknown" else username.value),
     ("action", if action.None? then "" else action.value)]
    + (if path.Some? then [("path", path.value)] else [])
    + (if info.Some? then [("info", info.value)] else [])
  }

  function LogUtilFields(ts: string, username: Option<string>, action: Option<string>,
                         path: Option<string>, info: Option<string>): (f: seq<string>)
  {
    [ts] + FieldsOf(LogUtilPairs(username, action, path, info))
  }

  /** `LogUtil.log` (five arguments): the text appended to the log file, or
      `None` when there is no servlet context or its log directory does not
      resolve. `println` ends the line with a newline. */
  function LogUtilLine(hasContext: bool, logsDirResolves: bool, ts: string, username: Option<string>,
                       action: Option<string>, path: Option<string>, info: Option<string>): (r: Option<string>)
    ensures r.Some? <==> hasContext && logsDirResolves
    ensures r.Some? ==> |r.value| > 0 && r.value[|r.value| - 1] == '\n'
  {
    if !hasContext || !logsDirResolves then None
    else Some(TabJoin(LogUtilFields(ts, username, action, path, info)) + "\n")
  }

  /** The four-argument `LogUtil.log`: the detail is the path, and no info. */
  function LogUtilDetail(hasContext: bool, logsDirResolves: bool, ts: string, username: Option<string>,
                         action: Option<string>, detail: Option<string>): (r: Option<string>)
    ensures r == LogUtilLine(hasContext, logsDirResolves, ts, username, action, detail, None)
  {
    LogUtilLine(hasContext, logsDirResolves, ts, username, action, detail, None)
  }

  /** `s.replace(from, to)` for single characters. */
  function ReplaceChar(s: string, from: char, to: char): (r: string)
    ensures |r| == |s|
    ensures forall i :: 0 <= i < |s| ==> r[i] == (if s[i] == from then to else s[i])
  {
    if s == [] then [] else [if s[0] == from then to else s[0]] + ReplaceChar(s[1..], from, to)
  }

  /** What an `appendAdminLog` line records after the timestamp: always
      all four keys, an absent user shown as "(anon)", an absent path as
      "(none)", an absent result as empty, and line breaks in the result
      turned into spaces. */
  function AdminLogPairs(user: Option<string>, action: string, path: Option<string>, result: Option<string>): (ps: seq<(string, string)>)
    ensures |ps| == 4
  {
    [("user", if user.None? then "(anon)" else user.value), ("action", action),
     ("path", if path.None? then "(none)" else path.value),
     ("info", if result.None? then "" else ReplaceChar(result.value, '\n', ' '))]
  }

  /** `appendAdminLog` (the same in the base servlet, the directory servlet
      and the legacy file servlet): the five fields and a newline. */
  function AdminLogLine(ts: string, user: Option<string>, action: string, path: Option<string>, result: Option<string>): (r: string)
    ensures |r| > 0 && r[|r| - 1] == '\n'
  {
    TabJoin([ts] + FieldsOf(AdminLogPairs(user, action, path, result))) + "\n"
  }

  // ---------------------------------------------------------------------
  // Reader

  /** A record value: the parsed time is a `Long`, everything else text. */
  datatype Value = Str(text: string) | Long(n: int)

  type Record = map<string, Value>

  /** A key's value in a record, if it has one. */
  function Get(m: Record, k: string): (v: Option<Value>)
    ensures v.Some? <==> k in m
    ensures v.Some? ==> v.value == m[k]
  {
    if k in m then Some(m[k]) else None
  }

  /** A field names a key when it has an '=' after at least one character. */
  predicate IsKeyed(p: string)
  {
    IndexOf(p, '=') > 0
  }

  function KeyOf(p: string): (k: string)
    requires IsKeyed(p)
    ensures k != [] && '=' !in k
  {
    p[..IndexOf(p, '=')]
  }

  function ValueOf(p: string): string
    requires IsKeyed(p)
  {
    p[IndexOf(p, '=') + 1..]
  }

  /** The fields after the first, entered into `m` one after the other. */
  function PutFields(m: Record, fields: seq<string>): (r: Record)
    ensures m.Keys <= r.Keys
    ensures forall f :: f in fields && IsKeyed(f) ==> KeyOf(f) in r
    decreases |fields|
  {
    if fields == [] then m
    else PutFields(if IsKeyed(fields[0]) then m[KeyOf(fields[0]) := Str(ValueOf(fields[0]))] else m, fields[1..])
  }

  /** The value the last field with key `k` carries, if any. */
  function LastValue(fields: seq<string>, k: string): (v: Option<string>)
    decreases |fields|
  {
    if fields == [] then None
    else
      var last := fields[|fields| - 1];
      if IsKeyed(last) && KeyOf(last) == k then Some(ValueOf(last)) else LastValue(fields[..|fields| - 1], k)
  }

  /** Later fields overwrite earlier ones: a key ends up with the value of
      its last field, and a key no field names keeps what it had. */
  lemma {:induction false} PutFieldsLookup(m: Record, fields: seq<string>, k: string)
    ensures k in PutFields(m, fields) <==> k in m || LastValue(fields, k).Some?
    ensures LastValue(fields, k).Some? ==> PutFields(m, fields)[k] == Str(LastValue(fields, k).value)
    ensures LastValue(fields, k).None? && k in m ==> PutFields(m, fields)[k] == m[k]
    decreases |fields|
  {
    if fields != [] {
      var init := fields[..|fields| - 1];
      var last := fields[|fields| - 1];
      PutFieldsLookup(m, init, k);
      PutFieldsSnoc(m, init, last);
      assert init + [last] == fields;
    }
  }

  lemma {:induction false} PutFieldsSnoc(m: Record, fields: seq<string>, p: string)
    ensures var r := PutFields(m, fields);
            PutFields(m, fields + [p]) == if IsKeyed(p) then r[KeyOf(p) := Str(ValueOf(p))] else r
    decreases |fields|
  {
    if fields == [] {
      assert [] + [p] == [p];
    } else {
      assert (fields + [p])[1..] == fields[1..] + [p];
      var m' := if IsKeyed(fields[0]) then m[KeyOf(fields[0]) := Str(ValueOf(fields[0]))] else m;
      PutFieldsSnoc(m', fields[1..], p);
    }
  }

  /** `doGet`'s treatment of one line: blank lines are skipped; otherwise
      the line is kept raw, its first tab field is the time text (and the
      time, when the date parser accepts it), every later keyed field is
      entered, and a record without an "action" key is dropped. */
  function ParseLine(line: string, parseTime: string -> Option<int>): (r: Option<Record>)
    ensures r.Some? ==> !IsBlank(line) && "action" in r.value
    ensures IsBlank(line) ==> r.None?
  {
    if IsBlank(line) then None
    else
      var parts := JavaSplit(line, TAB);
      var m := if |parts| > 0 then PutFields(FirstFields(line, parts[0], parseTime), parts[1..])
               else map["raw" := Str(line)];
      if "action" in m then Some(m) else None
  }

  /** The record before the keyed fields: the raw line, the time text, and
      the time when the date parser accepts the text. */
  function FirstFields(line: string, timeText: string, parseTime: string -> Option<int>): (m: Record)
    ensures forall k :: k in m ==> Reserved(k)
    ensures Get(m, "raw") == Some(Str(line)) && Get(m, "timeText") == Some(Str(timeText))
    ensures Get(m, "time") == if parseTime(timeText).Some? then Some(Long(parseTime(timeText).value)) else None
  {
    WithTime(map["raw" := Str(line), "timeText" := Str(timeText)], parseTime(timeText))
  }

  function WithTime(m: Record, t: Option<int>): (r: Record)
    ensures t.None? ==> r == m
    ensures t.Some? ==> r == m["time" := Long(t.value)]
  {
    if t.Some? then m["time" := Long(t.value)] else m
  }

  /** The records of the lines, in file order. */
  function Records(lines: seq<string>, parseTime: string -> Option<int>): (r: seq<Record>)
    ensures |r| <= |lines|
    ensures forall i :: 0 <= i < |r| ==> "action" in r[i]
    decreases |lines|
  {
    if lines == [] then []
    else
      var rest := Records(lines[1..], parseTime);
      var one := ParseLine(lines[0], parseTime);
      if one.Some? then [one.value] + rest else rest
  }

  lemma {:induction false} RecordsAppend(a: seq<string>, b: seq<string>, parseTime: string -> Option<int>)
    ensures Records(a + b, parseTime) == Records(a, parseTime) + Records(b, parseTime)
    decreases |a|
  {
    if a == [] {
      assert a + b == b;
    } else {
      assert (a + b)[1..] == a[1..] + b;
      RecordsAppend(a[1..], b, parseTime);
    }
  }

  /** The read loop of `doGet`, line by line. */
  method ReadRecords(lines: seq<string>, parseTime: string -> Option<int>) returns (out: seq<Record>)
    ensures out == Records(lines, parseTime)
  {
    out := [];
    var i := 0;
    while i < |lines|
      invariant 0 <= i <= |lines|
      invariant out == Records(lines[..i], parseTime)
    {
      var line := lines[i];
      assert lines[..i + 1] == lines[..i] + [line];
      RecordsAppend(lines[..i], [line], parseTime);
      var m := ParseLine(line, parseTime);
      if m.Some? {
        out := out + [m.value];
      }
      i := i + 1;
    }
    assert lines[..i] == lines;
  }

  /** The log file as the page finds it: absent or unreadable, read to the
      end, or failing after some lines were read. */
  datatype LogFile = Unavailable | Complete(lines: seq<string>) | BrokenAfter(read: seq<string>)

  /** The two built-in entries shown when the file could not be read in
      full; their times are fixed when the servlet class is loaded. */
  function SeedEntries(loadedAt: int): (r: seq<Record>)
    ensures |r| == 2 && TimeOf(r[0]) == loadedAt - 60000 && TimeOf(r[1]) == loadedAt - 3600000
  {
    [map["time" := Long(loadedAt - 60000), "user" := Str("user1"), "action" := Str("上传"), "detail" := Str("/user1/docs/readme.txt")],
     map["time" := Long(loadedAt - 3600000), "user" := Str("user2"), "action" := Str("删除"), "detail" := Str("/user2/old.zip")]]
  }

  /** The sort key: the time when it is a `Long`, else 0. */
  function TimeOf(m: Record): int
  {
    if "time" in m && m["time"].Long? then m["time"].n else 0
  }

  /** Ordering by `NewestFirst` ascending is ordering by time descending. */
  function NewestFirst(m: Record): int
  {
    -TimeOf(m)
  }

  /** The records before sorting: those of the file, and the seed entries
      unless the file was read to the end. */
  function Collected(file: LogFile, parseTime: string -> Option<int>, loadedAt: int): (out: seq<Record>)
    ensures file.Complete? ==> out == Records(file.lines, parseTime)
    ensures file.Unavailable? ==> out == SeedEntries(loadedAt)
    ensures file.BrokenAfter? ==> out == Records(file.read, parseTime) + SeedEntries(loadedAt)
  {
    match file
    case Unavailable => SeedEntries(loadedAt)
    case Complete(lines) => Records(lines, parseTime)
    case BrokenAfter(read) => Records(read, parseTime) + SeedEntries(loadedAt)
  }

  /** `doGet`'s answer: the collected records, newest first. */
  function Page(file: LogFile, parseTime: string -> Option<int>, loadedAt: int): (r: seq<Record>)
    ensures forall i, j :: 0 <= i < j < |r| ==> TimeOf(r[i]) >= TimeOf(r[j])
    ensures multiset(r) == multiset(Collected(file, parseTime, loadedAt))
  {
    NewestFirstSorted(Collected(file, parseTime, loadedAt))
  }

  /** The comparator `Long.compare(timeB, timeA)` as a stable sort. */
  function NewestFirstSorted(out: seq<Record>): (r: seq<Record>)
    ensures forall i, j :: 0 <= i < j < |r| ==> TimeOf(r[i]) >= TimeOf(r[j])
    ensures multiset(r) == multiset(out)
  {
    var r := StableSort.Sort(out, NewestFirst);
    assert forall i, j :: 0 <= i < j < |r| ==> NewestFirst(r[i]) <= NewestFirst(r[j]);
    r
  }

  /** Records of equal time keep the order in which they were collected. */
  lemma NewestFirstStable(out: seq<Record>, t: int)
    ensures StableSort.WithKey(NewestFirstSorted(out), NewestFirst, -t) == StableSort.WithKey(out, NewestFirst, -t)
  {
    StableSort.SortStable(out, NewestFirst, -t);
  }

  /** Every record on the page has an action. */
  lemma PageHasActions(file: LogFile, parseTime: string -> Option<int>, loadedAt: int, m: Record)
    requires m in Page(file, parseTime, loadedAt)
    ensures "action" in m
  {
    var out := Collected(file, parseTime, loadedAt);
    assert m in multiset(out);
    if file.BrokenAfter? {
      assert m in Records(file.read, parseTime) || m in SeedEntries(loadedAt);
    }
  }

  // ---------------------------------------------------------------------
  // Writer to reader

  /** Keys the reader sets itself before reading the keyed fields. */
  predicate Reserved(k: string)
  {
    k == "raw" || k == "timeText" || k == "time"
  }

  /** Fields that each carry a key of their own choosing. */
  predicate KeyedFields(fs: seq<string>)
  {
    forall i :: 0 <= i < |fs| ==> IsKeyed(fs[i]) && !Reserved(KeyOf(fs[i]))
  }

  /** Keyed fields whose keys differ pairwise. */
  predicate DistinctKeys(fs: seq<string>)
  {
    KeyedFields(fs) && forall i, j :: 0 <= i < j < |fs| ==> KeyOf(fs[i]) != KeyOf(fs[j])
  }

  /** A `key=value` field splits back at its first '='. */
  lemma FieldParts(k: string, v: string)
    requires k != [] && '=' !in k
    ensures IsKeyed(Field(k, v)) && KeyOf(Field(k, v)) == k && ValueOf(Field(k, v)) == v
  {
    IndexOfAfterFree(k, '=', v);
    assert Field(k, v) == k + ['='] + v;
    assert Field(k, v)[..|k|] == k;
  }

  /** A character of a field is a character of the joined line. */
  lemma {:induction false} JoinContains(fields: seq<string>, sep: string, i: int, c: char)
    requires 0 <= i < |fields| && c in fields[i]
    ensures c in Join(fields, sep)
    decreases |fields|
  {
    if |fields| > 1 {
      if i > 0 {
        JoinContains(fields[1..], sep, i - 1, c);
      }
      assert Join(fields, sep) == fields[0] + sep + Join(fields[1..], sep);
    }
  }

  /** Tab-free fields, keyed after the first, one of them the action. */
  predicate ReadableFields(fields: seq<string>)
  {
    && |fields| >= 2 && (forall i :: 0 <= i < |fields| ==> TAB !in fields[i])
    && KeyedFields(fields[1..])
    && exists i :: 1 <= i < |fields| && KeyOf(fields[i]) == "action"
  }

  /** A line of tab-free fields, keyed after the first, one of them the
      action, is kept, and it is read into exactly its fields. */
  lemma ReadLine(fields: seq<string>, parseTime: string -> Option<int>)
    requires ReadableFields(fields)
    ensures var line := TabJoin(fields);
            ParseLine(line, parseTime) == Some(PutFields(FirstFields(line, fields[0], parseTime), fields[1..]))
  {
    var line := TabJoin(fields);
    var i :| 1 <= i < |fields| && KeyOf(fields[i]) == "action";
    LastFieldNonEmpty(fields);
    JavaSplitJoin(fields, TAB);
    LineNotBlank(fields, i);
    ActionRead(fields, i, FirstFields(line, fields[0], parseTime));
  }

  lemma LastFieldNonEmpty(fields: seq<string>)
    requires |fields| >= 2 && KeyedFields(fields[1..])
    ensures fields[|fields| - 1] != []
  {
    assert IsKeyed(fields[1..][|fields| - 2]);
  }

  /** A line with a keyed field holds an '=', so it is not blank. */
  lemma LineNotBlank(fields: seq<string>, i: int)
    requires 1 <= i < |fields| && KeyedFields(fields[1..])
    ensures !IsBlank(TabJoin(fields))
  {
    assert IsKeyed(fields[1..][i - 1]);
    var e := IndexOf(fields[i], '=');
    assert fields[i][e] == '=';
    JoinContains(fields, [TAB], i, '=');
  }

  lemma ActionRead(fields: seq<string>, i: int, m0: Record)
    requires 1 <= i < |fields| && KeyedFields(fields[1..]) && KeyOf(fields[i]) == "action"
    ensures "action" in PutFields(m0, fields[1..])
  {
    assert fields[1..][i - 1] == fields[i];
    LastValueFound(fields[1..], i - 1);
    PutFieldsLookup(m0, fields[1..], "action");
  }

  /** A keyed field is found by its key. */
  lemma {:induction false} LastValueFound(fields: seq<string>, i: int)
    requires 0 <= i < |fields| && IsKeyed(fields[i])
    ensures LastValue(fields, KeyOf(fields[i])).Some?
    decreases |fields|
  {
    if i < |fields| - 1 {
      var last := fields[|fields| - 1];
      if !(IsKeyed(last) && KeyOf(last) == KeyOf(fields[i])) {
        LastValueFound(fields[..|fields| - 1], i);
      }
    }
  }

  /** With distinct keys, each key's value is that of its one field. */
  lemma {:induction false} LastValueUnique(fields: seq<string>, i: int)
    requires 0 <= i < |fields| && DistinctKeys(fields)
    ensures LastValue(fields, KeyOf(fields[i])) == Some(ValueOf(fields[i]))
    decreases |fields|
  {
    if i < |fields| - 1 {
      var init := fields[..|fields| - 1];
      assert init[i] == fields[i];
      assert DistinctKeys(init) by {
        forall a, b | 0 <= a < b < |init| ensures KeyOf(init[a]) != KeyOf(init[b]) {
          assert init[a] == fields[a] && init[b] == fields[b];
        }
      }
      LastValueUnique(init, i);
    }
  }

  /** A key no field carries has no value. */
  lemma {:induction false} LastValueAbsent(fields: seq<string>, k: string)
    requires KeyedFields(fields) && forall i :: 0 <= i < |fields| ==> KeyOf(fields[i]) != k
    ensures LastValue(fields, k).None?
    decreases |fields|
  {
    if fields != [] {
      LastValueAbsent(fields[..|fields| - 1], k);
    }
  }

  /** Entering distinct keyed fields gives each key its field's value. */
  lemma ReadBackPresent(m: Record, fs: seq<string>, i: int)
    requires DistinctKeys(fs) && 0 <= i < |fs|
    ensures KeyOf(fs[i]) in PutFields(m, fs) && PutFields(m, fs)[KeyOf(fs[i])] == Str(ValueOf(fs[i]))
  {
    PutFieldsLookup(m, fs, KeyOf(fs[i]));
    LastValueUnique(fs, i);
  }

  /** A key no field carries is left as it was. */
  lemma ReadBackAbsent(m: Record, fs: seq<string>, k: string)
    requires KeyedFields(fs) && forall i :: 0 <= i < |fs| ==> KeyOf(fs[i]) != k
    ensures Get(PutFields(m, fs), k) == Get(m, k)
  {
    PutFieldsLookup(m, fs, k);
    LastValueAbsent(fs, k);
  }

  /** Keys a writer may use: non-empty, without '=', not reserved, and
      pairwise different. */
  predicate GoodKeys(pairs: seq<(string, string)>)
  {
    && (forall i :: 0 <= i < |pairs| ==> pairs[i].0 != [] && '=' !in pairs[i].0 && !Reserved(pairs[i].0))
    && (forall i, j :: 0 <= i < j < |pairs| ==> pairs[i].0 != pairs[j].0)
  }

  predicate HasKey(pairs: seq<(string, string)>, k: string)
  {
    exists i :: 0 <= i < |pairs| && pairs[i].0 == k
  }

  lemma FieldsOfKeys(pairs: seq<(string, string)>)
    requires GoodKeys(pairs)
    ensures DistinctKeys(FieldsOf(pairs))
    ensures forall i :: 0 <= i < |pairs| ==> KeyOf(FieldsOf(pairs)[i]) == pairs[i].0 && ValueOf(FieldsOf(pairs)[i]) == pairs[i].1
  {
    var fs := FieldsOf(pairs);
    forall i | 0 <= i < |pairs|
      ensures IsKeyed(fs[i]) && KeyOf(fs[i]) == pairs[i].0 && ValueOf(fs[i]) == pairs[i].1
    {
      FieldParts(pairs[i].0, pairs[i].1);
    }
    assert KeyedFields(fs);
  }

  lemma LogUtilKeysGood(username: Option<string>, action: Option<string>, path: Option<string>, info: Option<string>)
    ensures GoodKeys(LogUtilPairs(username, action, path, info))
  {
  }

  lemma AdminLogKeysGood(user: Option<string>, action: string, path: Option<string>, result: Option<string>)
    ensures GoodKeys(AdminLogPairs(user, action, path, result))
  {
  }

  /** A line written from well-keyed pairs without tabs is kept by the
      reader, which recovers the timestamp text, every pair, and no key
      beyond them. */
  lemma WrittenLineReadBack(ts: string, pairs: seq<(string, string)>, parseTime: string -> Option<int>)
    requires GoodKeys(pairs) && HasKey(pairs, "action")
    requires TAB !in ts && forall i :: 0 <= i < |pairs| ==> TAB !in pairs[i].0 && TAB !in pairs[i].1
    ensures var r := ParseLine(TabJoin([ts] + FieldsOf(pairs)), parseTime);
            && r.Some? && Get(r.value, "timeText") == Some(Str(ts))
            && (forall i :: 0 <= i < |pairs| ==> Get(r.value, pairs[i].0) == Some(Str(pairs[i].1)))
            && (forall k :: !Reserved(k) ==> (k in r.value <==> HasKey(pairs, k)))
  {
    var line := TabJoin([ts] + FieldsOf(pairs));
    WrittenLineParses(ts, pairs, parseTime);
    PairsReadBack(FirstFields(line, ts, parseTime), pairs);
  }

  /** The reader takes such a line apart into its time text and fields. */
  lemma WrittenLineParses(ts: string, pairs: seq<(string, string)>, parseTime: string -> Option<int>)
    requires GoodKeys(pairs) && HasKey(pairs, "action")
    requires TAB !in ts && forall i :: 0 <= i < |pairs| ==> TAB !in pairs[i].0 && TAB !in pairs[i].1
    ensures var line := TabJoin([ts] + FieldsOf(pairs));
            ParseLine(line, parseTime) == Some(PutFields(FirstFields(line, ts, parseTime), FieldsOf(pairs)))
  {
    PairsReadable(ts, pairs);
    ReadLine([ts] + FieldsOf(pairs), parseTime);
    assert ([ts] + FieldsOf(pairs))[1..] == FieldsOf(pairs);
  }

  lemma PairsReadable(ts: string, pairs: seq<(string, string)>)
    requires GoodKeys(pairs) && HasKey(pairs, "action")
    requires TAB !in ts && forall i :: 0 <= i < |pairs| ==> TAB !in pairs[i].0 && TAB !in pairs[i].1
    ensures ReadableFields([ts] + FieldsOf(pairs))
  {
    var fs := FieldsOf(pairs);
    var fields := [ts] + fs;
    FieldsTabFree(ts, pairs);
    assert KeyedFields(fields[1..]) by {
      FieldsOfKeys(pairs);
      assert fields[1..] == fs;
    }
    var a :| 0 <= a < |pairs| && pairs[a].0 == "action";
    assert KeyOf(fields[a + 1]) == "action" by {
      FieldParts(pairs[a].0, pairs[a].1);
    }
  }

  /** Joining a tab-free key and value with '=' brings in no tab. */
  lemma FieldTabFree(k: string, v: string)
    requires TAB !in k && TAB !in v
    ensures TAB !in Field(k, v)
  {
  }

  lemma FieldsTabFree(ts: string, pairs: seq<(string, string)>)
    requires TAB !in ts && forall i :: 0 <= i < |pairs| ==> TAB !in pairs[i].0 && TAB !in pairs[i].1
    ensures forall i :: 0 <= i < |pairs| + 1 ==> TAB !in ([ts] + FieldsOf(pairs))[i]
  {
    var fields := [ts] + FieldsOf(pairs);
    forall i | 0 <= i < |fields|
      ensures TAB !in fields[i]
    {
      if i > 0 {
        FieldTabFree(pairs[i - 1].0, pairs[i - 1].1);
      }
    }
  }

  /** Entering the fields of well-keyed pairs into a record holding only
      reserved keys gives every pair and no other key. */
  lemma PairsReadBack(m0: Record, pairs: seq<(string, string)>)
    requires GoodKeys(pairs) && forall k :: k in m0 ==> Reserved(k)
    ensures var m := PutFields(m0, FieldsOf(pairs));
            && (forall k :: Reserved(k) ==> Get(m, k) == Get(m0, k))
            && (forall i :: 0 <= i < |pairs| ==> Get(m, pairs[i].0) == Some(Str(pairs[i].1)))
            && (forall k :: !Reserved(k) ==> (k in m <==> HasKey(pairs, k)))
  {
    var fs := FieldsOf(pairs);
    var m := PutFields(m0, fs);
    FieldsOfKeys(pairs);
    forall i | 0 <= i < |pairs|
      ensures Get(m, pairs[i].0) == Some(Str(pairs[i].1))
    {
      ReadBackPresent(m0, fs, i);
    }
    forall k | !Reserved(k)
      ensures k in m <==> HasKey(pairs, k)
    {
      if HasKey(pairs, k) {
        var j :| 0 <= j < |pairs| && pairs[j].0 == k;
        ReadBackPresent(m0, fs, j);
      } else {
        ReadBackAbsent(m0, fs, k);
      }
    }
    forall k | Reserved(k)
      ensures Get(m, k) == Get(m0, k)
    {
      ReadBackAbsent(m0, fs, k);
    }
  }

  predicate OptTabFree(s: Option<string>)
  {
    s.Some? ==> TAB !in s.value
  }

  /** No line break the reader's `readLine` would split at. */
  predicate NoBreak(s: string)
  {
    '\n' !in s && '\r' !in s
  }

  predicate OptNoBreak(s: Option<string>)
  {
    s.Some? ==> NoBreak(s.value)
  }

  /** The pairs of a `LogUtil` line, position by position. */
  lemma LogUtilPairsAre(username: Option<string>, action: Option<string>, path: Option<string>, info: Option<string>)
    ensures var ps := LogUtilPairs(username, action, path, info);
            && ps[0] == ("user", if username.None? then "unknown" else username.value)
            && ps[1] == ("action", if action.None? then "" else action.value)
            && (path.Some? ==> ps[2] == ("path", path.value))
            && (info.Some? ==> ps[|ps| - 1] == ("info", info.value))
            && (HasKey(ps, "path") <==> path.Some?)
            && (HasKey(ps, "info") <==> info.Some?)
  {
    var ps := LogUtilPairs(username, action, path, info);
    assert forall i :: 0 <= i < |ps| ==> ps[i].0 in ["user", "action", "path", "info"];
    if path.Some? { assert ps[2].0 == "path"; }
    if info.Some? { assert ps[|ps| - 1].0 == "info"; }
    assert !HasKey(ps, "path") ==> path.None?;
    assert HasKey(ps, "path") ==> path.Some?;
  }

  /** Writer to reader for `LogUtil`: when no part holds a tab or a line
      break (`LogUtil` writes them unescaped), the admin log page reads the
      line back (it is never dropped, for the action key
      is always written) with the timestamp text, the user ("unknown" when
      absent), the action, and exactly the path and info that were given. */
  lemma LogUtilRoundTrip(ts: string, username: Option<string>, action: Option<string>,
                         path: Option<string>, info: Option<string>, parseTime: string -> Option<int>)
    requires TAB !in ts && OptTabFree(username) && OptTabFree(action) && OptTabFree(path) && OptTabFree(info)
    requires NoBreak(ts) && OptNoBreak(username) && OptNoBreak(action) && OptNoBreak(path) && OptNoBreak(info)
    ensures var text := LogUtilLine(true, true, ts, username, action, path, info).value;
            var r := ParseLine(text[..|text| - 1], parseTime);
            && r.Some? && Get(r.value, "timeText") == Some(Str(ts))
            && Get(r.value, "user") == Some(Str(if username.None? then "unknown" else username.value))
            && Get(r.value, "action") == Some(Str(if action.None? then "" else action.value))
            && Get(r.value, "path") == (if path.Some? then Some(Str(path.value)) else None)
            && Get(r.value, "info") == (if info.Some? then Some(Str(info.value)) else None)
  {
    LogUtilText(ts, username, action, path, info);
    LogUtilReadBack(ts, username, action, path, info, parseTime);
  }

  /** The reader's record for the line of `LogUtil` pairs. */
  lemma LogUtilReadBack(ts: string, username: Option<string>, action: Option<string>,
                        path: Option<string>, info: Option<string>, parseTime: string -> Option<int>)
    requires TAB !in ts && OptTabFree(username) && OptTabFree(action) && OptTabFree(path) && OptTabFree(info)
    ensures var r := ParseLine(TabJoin([ts] + FieldsOf(LogUtilPairs(username, action, path, info))), parseTime);
            && r.Some? && Get(r.value, "timeText") == Some(Str(ts))
            && Get(r.value, "user") == Some(Str(if username.None? then "unknown" else username.value))
            && Get(r.value, "action") == Some(Str(if action.None? then "" else action.value))
            && Get(r.value, "path") == (if path.Some? then Some(Str(path.value)) else None)
            && Get(r.value, "info") == (if info.Some? then Some(Str(info.value)) else None)
  {
    var pairs := LogUtilPairs(username, action, path, info);
    LogUtilKeysGood(username, action, path, info);
    LogUtilPairsAre(username, action, path, info);
    LogUtilPairsTabFree(username, action, path, info);
    WrittenLineReadBack(ts, pairs, parseTime);
    var r := ParseLine(TabJoin([ts] + FieldsOf(pairs)), parseTime).value;
    assert Get(r, pairs[0].0) == Some(Str(pairs[0].1));
    assert Get(r, pairs[1].0) == Some(Str(pairs[1].1));
    assert !Reserved("path") && !Reserved("info");
    if path.Some? {
      assert Get(r, pairs[2].0) == Some(Str(pairs[2].1));
    } else {
      assert "path" !in r;
    }
    if info.Some? {
      assert Get(r, pairs[|pairs| - 1].0) == Some(Str(pairs[|pairs| - 1].1));
    } else {
      assert "info" !in r;
    }
  }

  predicate PairsTabFree(ps: seq<(string, string)>)
  {
    forall i :: 0 <= i < |ps| ==> TAB !in ps[i].0 && TAB !in ps[i].1
  }

  lemma PairsTabFreeAppend(a: seq<(string, string)>, b: seq<(string, string)>)
    requires PairsTabFree(a) && PairsTabFree(b)
    ensures PairsTabFree(a + b)
  {
    forall i | 0 <= i < |a + b|
      ensures TAB !in (a + b)[i].0 && TAB !in (a + b)[i].1
    {
      if i >= |a| { assert (a + b)[i] == b[i - |a|]; }
    }
  }

  /** With tab-free values, a `LogUtil` line's pairs hold no tab. */
  lemma LogUtilPairsTabFree(username: Option<string>, action: Option<string>, path: Option<string>, info: Option<string>)
    requires OptTabFree(username) && OptTabFree(action) && OptTabFree(path) && OptTabFree(info)
    ensures PairsTabFree(LogUtilPairs(username, action, path, info))
  {
    var base := [("user", if username.None? then "unknown" else username.value),
                 ("action", if action.None? then "" else action.value)];
    var p := if path.Some? then [("path", path.value)] else [];
    var q := if info.Some? then [("info", info.value)] else [];
    assert PairsTabFree(base) by {
      assert TAB !in "user" && TAB !in "action" && TAB !in "unknown";
    }
    assert PairsTabFree(p) by {
      assert TAB !in "path";
    }
    assert PairsTabFree(q) by {
      assert TAB !in "info";
    }
    PairsTabFreeAppend(base, p);
    PairsTabFreeAppend(base + p, q);
  }

  /** Reading a line back drops its newline. */
  lemma LineWithoutNewline(line: string)
    ensures var text := line + "\n"; text[..|text| - 1] == line
  {
  }

  /** The text `LogUtil` writes is its line and a newline. */
  lemma LogUtilText(ts: string, username: Option<string>, action: Option<string>, path: Option<string>, info: Option<string>)
    ensures var text := LogUtilLine(true, true, ts, username, action, path, info).value;
            text[..|text| - 1] == TabJoin([ts] + FieldsOf(LogUtilPairs(username, action, path, info)))
  {
    LineWithoutNewline(TabJoin([ts] + FieldsOf(LogUtilPairs(username, action, path, info))));
  }

  /** Replacing line breaks by spaces brings in no tab. */
  lemma ReplaceKeepsTabFree(s: string)
    requires TAB !in s
    ensures TAB !in ReplaceChar(s, '\n', ' ')
  {
    var r := ReplaceChar(s, '\n', ' ');
    forall i | 0 <= i < |r|
      ensures r[i] != TAB
    {
      assert s[i] in s;
    }
  }

  /** With tab-free parts, an admin log line's pairs hold no tab. */
  lemma AdminLogPairsTabFree(user: Option<string>, action: string, path: Option<string>, result: Option<string>)
    requires OptTabFree(user) && TAB !in action && OptTabFree(path) && OptTabFree(result)
    ensures PairsTabFree(AdminLogPairs(user, action, path, result))
  {
    if result.Some? {
      ReplaceKeepsTabFree(result.value);
    }
    assert TAB !in "user" && TAB !in "action" && TAB !in "path" && TAB !in "info";
    assert TAB !in "(anon)" && TAB !in "(none)";
  }

  /** The text `appendAdminLog` writes is its line and a newline. */
  lemma AdminLogText(ts: string, user: Option<string>, action: string, path: Option<string>, result: Option<string>)
    ensures var text := AdminLogLine(ts, user, action, path, result);
            text[..|text| - 1] == TabJoin([ts] + FieldsOf(AdminLogPairs(user, action, path, result)))
  {
    LineWithoutNewline(TabJoin([ts] + FieldsOf(AdminLogPairs(user, action, path, result))));
  }

  /** Writer to reader for `appendAdminLog`: when no part holds a tab, and
      none but the result a line break (the result's '\n' is replaced, its
      '\r' is not), the admin log page reads the line back with the timestamp text and all
      four keys, the placeholders standing in for an absent user or path,
      and the result with its line breaks turned into spaces. */
  lemma AdminLogRoundTrip(ts: string, user: Option<string>, action: string, path: Option<string>,
                          result: Option<string>, parseTime: string -> Option<int>)
    requires TAB !in ts && OptTabFree(user) && TAB !in action && OptTabFree(path) && OptTabFree(result)
    requires NoBreak(ts) && OptNoBreak(user) && NoBreak(action) && OptNoBreak(path)
    requires result.Some? ==> '\r' !in result.value
    ensures var text := AdminLogLine(ts, user, action, path, result);
            var r := ParseLine(text[..|text| - 1], parseTime);
            && r.Some? && Get(r.value, "timeText") == Some(Str(ts))
            && Get(r.value, "user") == Some(Str(if user.None? then "(anon)" else user.value))
            && Get(r.value, "action") == Some(Str(action))
            && Get(r.value, "path") == Some(Str(if path.None? then "(none)" else path.value))
            && Get(r.value, "info") == Some(Str(if result.None? then "" else ReplaceChar(result.value, '\n', ' ')))
  {
    var pairs := AdminLogPairs(user, action, path, result);
    AdminLogKeysGood(user, action, path, result);
    AdminLogPairsTabFree(user, action, path, result);
    assert HasKey(pairs, "action") by {
      assert pairs[1].0 == "action";
    }
    WrittenLineReadBack(ts, pairs, parseTime);
    AdminLogText(ts, user, action, path, result);
    var r := ParseLine(TabJoin([ts] + FieldsOf(pairs)), parseTime).value;
    assert Get(r, pairs[0].0) == Some(Str(pairs[0].1));
    assert Get(r, pairs[1].0) == Some(Str(pairs[1].1));
    assert Get(r, pairs[2].0) == Some(Str(pairs[2].1));
    assert Get(r, pairs[3].0) == Some(Str(pairs[3].1));
  }
}
