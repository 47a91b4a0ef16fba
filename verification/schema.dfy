/** The schema bootstrap (`DatabaseInitializer.initializeSchema`): the
    script's lines are trimmed, blank lines and "--" comment lines dropped,
    the rest run together with a space after each, the text cut at every
    ';' (quoted or not), and every non-empty trimmed piece executed in
    order, a failing one not stopping the rest. The database is an input:
    which statements fail, and with what message.
 */
module Schema {
  import opened Wrappers
  import opened Text

  /** Text without a space at either end, as `trim` leaves it. */
  predicate Trimmed(s: string)
  {
    |s| > 0 ==> !IsSpace(s[0]) && !IsSpace(s[|s| - 1])
  }

  /** A line that survives the reader loop: non-blank and not a comment. */
  predicate Kept(line: string)
  {
    var t := Trim(line);
    t != [] && !StartsWith(t, "--")
  }

  /** The script text: each kept line, trimmed, and a space. */
  function Script(lines: seq<string>): (s: string)
    decreases |lines|
  {
    if lines == [] then []
    else (if Kept(lines[0]) then Trim(lines[0]) + " " else []) + Script(lines[1..])
  }

  /** The non-empty trimmed pieces, in order. */
  function NonBlank(pieces: seq<string>): (r: seq<string>)
    decreases |pieces|
  {
    if pieces == [] then []
    else
      var t := Trim(pieces[0]);
      (if t != [] then [t] else []) + NonBlank(pieces[1..])
  }

  /** The statements `initializeSchema` runs, in order. */
  function Statements(lines: seq<string>): (r: seq<string>)
    ensures forall i :: 0 <= i < |r| ==> r[i] != [] && Trimmed(r[i]) && ';' !in r[i]
  {
    var pieces := JavaSplit(Script(lines), ';');
    NonBlankClean(pieces, ';');
    NonBlank(pieces)
  }

  /** Each statement is non-empty and trimmed, and as trimming adds no
      character, the pieces stay free of the cut. */
  lemma {:induction false} NonBlankClean(pieces: seq<string>, c: char)
    requires forall i :: 0 <= i < |pieces| ==> c !in pieces[i]
    ensures forall i :: 0 <= i < |NonBlank(pieces)| ==>
              NonBlank(pieces)[i] != [] && Trimmed(NonBlank(pieces)[i]) && c !in NonBlank(pieces)[i]
    decreases |pieces|
  {
    if pieces != [] {
      TrimChars(pieces[0]);
      NonBlankClean(pieces[1..], c);
      var t := Trim(pieces[0]);
      forall j | 0 <= j < |t|
        ensures t[j] != c
      {
        assert t[j] in pieces[0];
      }
    }
  }

  /** Empty fields that Java's `split` drops at the end are blank anyway. */
  lemma {:induction false} NonBlankDropsEmpty(r: seq<string>)
    ensures NonBlank(DropTrailingEmpty(r)) == NonBlank(r)
    decreases |r|
  {
    var q := DropTrailingEmpty(r);
    if |q| < |r| {
      NonBlankDropsEmpty(r[..|r| - 1]);
      NonBlankAppend(r[..|r| - 1], [[]]);
      assert r == r[..|r| - 1] + [[]];
      assert Trim([]) == [];
    }
  }

  lemma {:induction false} NonBlankAppend(a: seq<string>, b: seq<string>)
    ensures NonBlank(a + b) == NonBlank(a) + NonBlank(b)
    decreases |a|
  {
    if a == [] {
      assert a + b == b;
      assert NonBlank(a) == [];
    } else {
      assert (a + b)[0] == a[0];
      assert (a + b)[1..] == a[1..] + b;
      NonBlankAppend(a[1..], b);
      var head := if Trim(a[0]) != [] then [Trim(a[0])] else [];
      var x, y := NonBlank(a[1..]), NonBlank(b);
      assert NonBlank(a + b) == head + (x + y);
      assert NonBlank(a) == head + x;
      AppendAssoc(head, x, y);
    }
  }

  lemma NonBlankSnoc(ps: seq<string>, p: string)
    ensures NonBlank(ps + [p]) == NonBlank(ps) + (if Trim(p) != [] then [Trim(p)] else [])
  {
    NonBlankAppend(ps, [p]);
    assert [p][1..] == [];
  }

  lemma TakeOneMore<T>(s: seq<T>, i: int)
    requires 0 <= i < |s|
    ensures s[..i + 1] == s[..i] + [s[i]]
  {
  }

  lemma HeadTail<T>(s: seq<T>)
    requires s != []
    ensures s == [s[0]] + s[1..]
  {
  }

  lemma TakeAll<T>(s: seq<T>)
    ensures s[..|s|] == s
  {
  }

  lemma Regroup<T>(p: seq<T>, s: seq<T>, c: T, d: seq<T>, tail: seq<T>)
    ensures p + (s + [c] + d + tail) == (p + s) + [c] + (d + tail)
  {
  }

  lemma AppendAssoc<T>(a: seq<T>, b: seq<T>, c: seq<T>)
    ensures a + (b + c) == (a + b) + c
  {
  }

  /** `split(";")` and splitting at every ';' give the same statements. */
  lemma StatementsOfAllPieces(lines: seq<string>)
    ensures Statements(lines) == NonBlank(SplitAll(Script(lines), ';'))
  {
    var s := Script(lines);
    if ';' in s {
      NonBlankDropsEmpty(SplitAll(s, ';'));
    }
  }

  // ---------------------------------------------------------------------
  // Dropped lines

  /** A blank or comment line adds nothing to the script. */
  lemma {:induction false} DroppedLine(a: seq<string>, line: string, b: seq<string>)
    requires !Kept(line)
    ensures Script(a + [line] + b) == Script(a + b)
    decreases |a|
  {
    if a == [] {
      assert [line] + b == [line] + b;
      assert (a + [line] + b)[1..] == b;
      assert a + b == b;
    } else {
      assert (a + [line] + b)[1..] == a[1..] + [line] + b;
      assert (a + b)[1..] == a[1..] + b;
      DroppedLine(a[1..], line, b);
    }
  }

  /** So the statements do not see it either. */
  lemma DroppedLineStatements(a: seq<string>, line: string, b: seq<string>)
    requires !Kept(line)
    ensures Statements(a + [line] + b) == Statements(a + b)
  {
    DroppedLine(a, line, b);
  }

  // ---------------------------------------------------------------------
  // One statement per line

  /** A statement as a script should hold it: non-empty, trimmed, without
      ';', and not starting like a comment. */
  predicate Clean(s: string)
  {
    s != [] && Trimmed(s) && ';' !in s && !StartsWith(s, "--")
  }

  predicate AllClean(stmts: seq<string>)
  {
    forall i :: 0 <= i < |stmts| ==> Clean(stmts[i])
  }

  lemma AllCleanTail(stmts: seq<string>)
    requires stmts != [] && AllClean(stmts)
    ensures Clean(stmts[0]) && AllClean(stmts[1..])
  {
    assert Clean(stmts[0]);
    forall i | 0 <= i < |stmts| - 1
      ensures Clean(stmts[1..][i])
    {
      assert stmts[1..][i] == stmts[i + 1];
    }
  }

  function Terminated(stmts: seq<string>): (lines: seq<string>)
    ensures |lines| == |stmts|
    ensures forall i :: 0 <= i < |stmts| ==> lines[i] == stmts[i] + ";"
  {
    if stmts == [] then [] else [stmts[0] + ";"] + Terminated(stmts[1..])
  }

  /** A clean statement with its ';' is kept as it is. */
  lemma TerminatedKept(s: string)
    requires Clean(s)
    ensures Kept(s + ";") && Trim(s + ";") == s + ";"
  {
    var l := s + ";";
    assert l[0] == s[0];
    assert l[|l| - 1] == ';';
    TrimNoSpace(l);
    if |s| >= 2 {
      assert l[..2] == s[..2];
    } else {
      assert l[1] == ';';
    }
  }

  /** A blank prefix before a trimmed statement is trimmed away. */
  lemma {:induction false} TrimBlankPrefix(p: string, s: string)
    requires IsBlank(p) && s != [] && Trimmed(s)
    ensures Trim(p + s) == s
  {
    StartPastBlank(p, s);
    assert TrimEnd(s) == s;
  }

  lemma {:induction false} StartPastBlank(p: string, s: string)
    requires IsBlank(p) && s != [] && !IsSpace(s[0])
    ensures TrimStart(p + s) == s
    decreases |p|
  {
    if p == [] {
      assert p + s == s;
    } else {
      assert (p + s)[0] == p[0];
      assert (p + s)[1..] == p[1..] + s;
      StartPastBlank(p[1..], s);
    }
  }

  /** The script of terminated clean statements, cut at ';', after a blank
      head. */
  lemma {:induction false} PiecesOfTerminated(p: string, stmts: seq<string>)
    requires IsBlank(p) && ';' !in p
    requires AllClean(stmts)
    ensures NonBlank(SplitAll(p + Script(Terminated(stmts)), ';')) == stmts
    decreases |stmts|
  {
    if stmts == [] {
      PiecesOfNone(p);
    } else {
      PiecesStep(p, stmts);
      AllCleanTail(stmts);
      assert IsBlank(" ");
      PiecesOfTerminated(" ", stmts[1..]);
      HeadTail(stmts);
    }
  }

  lemma PiecesOfNone(p: string)
    requires IsBlank(p) && ';' !in p
    ensures NonBlank(SplitAll(p + Script(Terminated([])), ';')) == []
  {
    assert p + Script(Terminated([])) == p;
    assert NonBlank([p]) == [] by {
      assert Trim(p) == [];
    }
  }

  lemma PiecesStep(p: string, stmts: seq<string>)
    requires IsBlank(p) && ';' !in p && stmts != [] && Clean(stmts[0])
    ensures NonBlank(SplitAll(p + Script(Terminated(stmts)), ';'))
            == [stmts[0]] + NonBlank(SplitAll(" " + Script(Terminated(stmts[1..])), ';'))
  {
    SplitTerminated(p, stmts);
    NonBlankHead(p, stmts[0], SplitAll(" " + Script(Terminated(stmts[1..])), ';'));
  }

  /** The first cut falls right after the first statement. */
  lemma SplitTerminated(p: string, stmts: seq<string>)
    requires ';' !in p && stmts != [] && Clean(stmts[0])
    ensures SplitAll(p + Script(Terminated(stmts)), ';')
            == [p + stmts[0]] + SplitAll(" " + Script(Terminated(stmts[1..])), ';')
  {
    var s := stmts[0];
    var tail := Script(Terminated(stmts[1..]));
    ScriptOfTerminated(stmts);
    Regroup(p, s, ';', " ", tail);
    assert ';' !in p + s;
    SplitAllCons(p + s, ';', " " + tail);
  }

  lemma ScriptOfTerminated(stmts: seq<string>)
    requires stmts != [] && Clean(stmts[0])
    ensures Script(Terminated(stmts)) == stmts[0] + ";" + " " + Script(Terminated(stmts[1..]))
  {
    assert Terminated(stmts) == [stmts[0] + ";"] + Terminated(stmts[1..]);
    TerminatedKept(stmts[0]);
    ScriptCons(stmts[0] + ";", Terminated(stmts[1..]));
  }

  lemma ScriptCons(line: string, rest: seq<string>)
    requires Kept(line)
    ensures Script([line] + rest) == Trim(line) + " " + Script(rest)
  {
    assert ([line] + rest)[0] == line;
    assert ([line] + rest)[1..] == rest;
  }

  /** A piece made of a blank head and a trimmed statement yields the statement. */
  lemma NonBlankHead(p: string, s: string, rest: seq<string>)
    requires IsBlank(p) && s != [] && Trimmed(s)
    ensures NonBlank([p + s] + rest) == [s] + NonBlank(rest)
  {
    NonBlankCons(p + s, rest);
    TrimBlankPrefix(p, s);
  }

  lemma NonBlankCons(x: string, rest: seq<string>)
    ensures NonBlank([x] + rest) == (if Trim(x) != [] then [Trim(x)] else []) + NonBlank(rest)
  {
    assert ([x] + rest)[0] == x;
    assert ([x] + rest)[1..] == rest;
  }

  /** Round trip: clean statements, each on its own line with a ';', are
      exactly the statements run. */
  lemma TerminatedRoundTrip(stmts: seq<string>)
    requires AllClean(stmts)
    ensures Statements(Terminated(stmts)) == stmts
  {
    StatementsOfAllPieces(Terminated(stmts));
    PiecesOfTerminated([], stmts);
    assert [] + Script(Terminated(stmts)) == Script(Terminated(stmts));
  }

  /** A ';' inside a line cuts it like one at a line end: one line holding
      two clean statements runs as two. The cut does not look at quotes, so
      `INSERT INTO t VALUES ('a;b');` runs as `INSERT INTO t VALUES ('a`
      and `b')`. */
  lemma SemicolonInsideLineSplits(a: string, b: string)
    requires Clean(a) && Clean(b)
    ensures Statements([a + ";" + b + ";"]) == [a, b]
  {
    var line := a + ";" + b + ";";
    LineOfTwo(a, b);
    ScriptOne(line);
    assert line + " " == a + [';'] + (b + [';'] + " ");
    SplitAllCons(a, ';', b + [';'] + " ");
    SplitAllCons(b, ';', " ");
    assert SplitAll(" ", ';') == [" "];
    TwoPieces(a, b);
    StatementsOfAllPieces([line]);
  }

  /** Two clean statements on one line make a kept, trimmed line. */
  lemma LineOfTwo(a: string, b: string)
    requires Clean(a) && Clean(b)
    ensures var l := a + ";" + b + ";"; l != [] && Trimmed(l) && !StartsWith(l, "--")
  {
    var l := a + ";" + b + ";";
    assert l[0] == a[0];
    assert l[|l| - 1] == ';';
    assert !StartsWith(l, "--") by {
      if |a| >= 2 {
        assert l[..2] == a[..2];
      } else {
        assert l[1] == ';';
      }
    }
  }

  /** A line that is already trimmed and not a comment adds itself and a space. */
  lemma ScriptOne(line: string)
    requires line != [] && Trimmed(line) && !StartsWith(line, "--")
    ensures Script([line]) == line + " "
  {
    TrimNoSpace(line);
    ScriptCons(line, []);
    assert [line] + [] == [line];
  }

  lemma TwoPieces(a: string, b: string)
    requires Clean(a) && Clean(b)
    ensures NonBlank([a, b, " "]) == [a, b]
  {
    TrimNoSpace(a);
    TrimNoSpace(b);
    assert Trim(" ") == [];
    NonBlankCons(a, [b, " "]);
    NonBlankCons(b, [" "]);
    NonBlankCons(" ", []);
    assert [a, b, " "] == [a] + [b, " "];
    assert [b, " "] == [b] + [" "];
    assert [" "] == [" "] + [];
  }

  /** The quoted example, an instance of the rule above. */
  lemma QuotedSemicolonSplits()
    ensures Statements(["INSERT INTO t VALUES ('a;b');"]) == ["INSERT INTO t VALUES ('a", "b')"]
  {
    var a, b := "INSERT INTO t VALUES ('a", "b')";
    QuotedLine();
    assert Clean(a) && Clean(b);
    SemicolonInsideLineSplits(a, b);
  }

  lemma QuotedLine()
    ensures "INSERT INTO t VALUES ('a" + ";" + "b')" + ";" == "INSERT INTO t VALUES ('a;b');"
  {
  }

  // ---------------------------------------------------------------------
  // Running the script

  /** What `initializeSchema` does: nothing without a script; otherwise
      each statement in order, collecting two log lines for each one the
      database rejects (its first 100 characters, then the error). */
  method Initialize(script: Option<seq<string>>, reject: string -> Option<string>)
    returns (executed: seq<string>, log: seq<string>)
    ensures script.None? ==> executed == [] && log == []
    ensures script.Some? ==> executed == Statements(script.value)
    ensures log == FailureLog(executed, reject)
  {
    executed, log := [], [];
    if script.None? {
      return;
    }
    var pieces := JavaSplit(Script(script.value), ';');
    var i := 0;
    while i < |pieces|
      invariant 0 <= i <= |pieces|
      invariant executed == NonBlank(pieces[..i])
      invariant log == FailureLog(executed, reject)
    {
      TakeOneMore(pieces, i);
      NonBlankSnoc(pieces[..i], pieces[i]);
      var trimmed := Trim(pieces[i]);
      if trimmed != [] {
        FailureLogAppend(executed, trimmed, reject);
        executed := executed + [trimmed];
        var failure := reject(trimmed);
        if failure.Some? {
          log := log + FailureLines(trimmed, failure.value);
        }
      }
      i := i + 1;
    }
    TakeAll(pieces);
  }

  /** The two lines `println` writes for a rejected statement: its first
      100 characters, then the error. */
  function FailureLines(stmt: string, error: string): (lines: seq<string>)
    ensures |lines| == 2 && lines[1] == "Error: " + error
    ensures StartsWith(lines[0], "Failed to execute statement: ")
    ensures |stmt| <= 100 ==> lines[0] == "Failed to execute statement: " + stmt
  {
    var head := "Failed to execute statement: ";
    var cut := stmt[..if |stmt| < 100 then |stmt| else 100];
    StartsWithAppend(head, cut);
    [head + cut, "Error: " + error]
  }

  /** The log lines of the rejected statements, in order: one rejection
      stops nothing. */
  function FailureLog(executed: seq<string>, reject: string -> Option<string>): (log: seq<string>)
    ensures |log| <= 2 * |executed|
    decreases |executed|
  {
    if executed == [] then []
    else
      var init := executed[..|executed| - 1];
      var last := executed[|executed| - 1];
      FailureLog(init, reject) + (if reject(last).Some? then FailureLines(last, reject(last).value) else [])
  }

  lemma FailureLogAppend(executed: seq<string>, s: string, reject: string -> Option<string>)
    ensures FailureLog(executed + [s], reject)
            == FailureLog(executed, reject) + (if reject(s).Some? then FailureLines(s, reject(s).value) else [])
  {
    assert (executed + [s])[..|executed|] == executed;
  }

  /** When the database accepts everything, nothing is logged. */
  lemma {:induction false} NoRejectionNoLog(executed: seq<string>, reject: string -> Option<string>)
    requires forall i :: 0 <= i < |executed| ==> reject(executed[i]).None?
    ensures FailureLog(executed, reject) == []
    decreases |executed|
  {
    if executed != [] {
      NoRejectionNoLog(executed[..|executed| - 1], reject);
    }
  }
}
