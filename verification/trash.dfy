/** The trash ledger (TrashService): a persisted list of soft-deleted paths.

    The ledger is a sequence of immutable entries; every operation returns
    the new ledger together with whether the store file would be rewritten.
    `now` is a parameter. Timestamps are Java `long`s, so the lazily computed
    expiration `deletedAt + retention` wraps around on overflow.
 */
module TrashLedger {
  import opened Text

  /** 30 days in milliseconds: the default retention. */
  const DEFAULT_RETENTION: int := 30 * 24 * 60 * 60 * 1000

  datatype Entry = Entry(path: string, isDirectory: bool, name: string, deletedAt: int, expireAt: int)

  type Ledger = seq<Entry>

  /** What one ledger operation leaves behind. */
  datatype Update = Update(ledger: Ledger, written: bool)

  /** `contains`: some entry records exactly this path. */
  predicate Contains(l: Ledger, path: string)
  {
    exists i :: 0 <= i < |l| && l[i].path == path
  }

  /** `contains(path)`: the scan for an entry with exactly this path. */
  function ContainsScan(l: Ledger, path: string): (found: bool)
    ensures found <==> Contains(l, path)
  {
    if l == [] then false
    else
      ContainsCons(l, path);
      l[0].path == path || ContainsScan(l[1..], path)
  }

  /** No path is recorded twice. */
  predicate UniquePaths(l: Ledger)
  {
    forall i, j :: 0 <= i < j < |l| ==> l[i].path != l[j].path
  }

  /** The display name of a trashed path: the text after its last '/', or
      "/" when that text is empty. */
  function EntryName(path: string): (name: string)
    ensures name != []
    ensures name == "/" || '/' !in name
    ensures '/' !in path && path != [] ==> name == path
    ensures name != "/" ==> EndsWith(path, name)
    // the whole last segment: the character before it is the last '/'
    ensures name != "/" && '/' in path ==> path[|path| - |name| - 1] == '/'
    ensures name == "/" <==> path == [] || path[|path| - 1] == '/'
  {
    var tail := AfterLast(path, '/');
    if tail == [] then
      assert path != [] ==> path[|path| - 1] == '/';
      "/"
    else
      assert '/' in path ==> path[|path| - |tail| - 1] == '/' by {
        if '/' in path {
          var pre := path[..|path| - |tail| - 1];
          assert path == pre + ['/'] + tail;
          assert path[|pre|] == '/';
        }
      }
      assert path[|path| - 1] == tail[|tail| - 1] by {
        if '/' in path {
          assert path == path[..|path| - |tail| - 1] + ['/'] + tail;
        }
      }
      assert EndsWith(path, tail) by {
        if '/' in path {
          assert path == path[..|path| - |tail| - 1] + ['/'] + tail;
          assert path[|path| - |tail|..] == tail;
        }
      }
      tail
  }

  /** `add(path, isDirectory, expireAt)`: a no-op when the path is already
      recorded, otherwise one new entry stamped `now` at the end. */
  function Add(l: Ledger, path: string, isDirectory: bool, expireAt: int, now: int): (r: Update)
    ensures Contains(r.ledger, path)
    ensures r.written <==> !Contains(l, path)
    ensures r.written ==> |r.ledger| == |l| + 1 && r.ledger[..|l|] == l
    ensures r.written ==> r.ledger[|l|] == Entry(path, isDirectory, EntryName(path), now, expireAt)
    ensures !r.written ==> r.ledger == l
  {
    if Contains(l, path) then Update(l, false)
    else
      var l' := l + [Entry(path, isDirectory, EntryName(path), now, expireAt)];
      assert l'[|l|].path == path;
      Update(l', true)
  }

  /** `add(path, isDirectory)`: the same with no explicit expiration. */
  function AddWithoutExpiry(l: Ledger, path: string, isDirectory: bool, now: int): (r: Update)
    ensures r.written <==> !Contains(l, path)
    ensures r.written ==> |r.ledger| == |l| + 1 && r.ledger[..|l|] == l && r.ledger[|l|].expireAt == 0
    ensures !r.written ==> r.ledger == l
  {
    Add(l, path, isDirectory, 0, now)
  }

  /** The ledger without the entries recording `path`, in order. */
  function Without(l: Ledger, path: string): Ledger
  {
    if l == [] then []
    else if l[0].path == path then Without(l[1..], path)
    else [l[0]] + Without(l[1..], path)
  }

  lemma WithoutFacts(l: Ledger, path: string)
    ensures forall i :: 0 <= i < |Without(l, path)| ==> Without(l, path)[i].path != path
    ensures forall e :: e in Without(l, path) <==> e in l && e.path != path
    ensures !Contains(l, path) ==> Without(l, path) == l
  {
    forall e ensures e in Without(l, path) <==> e in l && e.path != path {
      WithoutMember(l, path, e);
    }
    forall i | 0 <= i < |Without(l, path)| ensures Without(l, path)[i].path != path {
      WithoutMember(l, path, Without(l, path)[i]);
    }
    if !Contains(l, path) {
      WithoutAbsent(l, path);
    }
  }

  lemma {:induction false} WithoutMember(l: Ledger, path: string, e: Entry)
    ensures e in Without(l, path) <==> e in l && e.path != path
  {
    if l != [] {
      WithoutMember(l[1..], path, e);
      assert e in l <==> e == l[0] || e in l[1..] by { assert l == [l[0]] + l[1..]; }
      if l[0].path != path {
        assert e in [l[0]] + Without(l[1..], path) <==> e == l[0] || e in Without(l[1..], path);
      }
    }
  }

  lemma {:induction false} WithoutAbsent(l: Ledger, path: string)
    requires !Contains(l, path)
    ensures Without(l, path) == l
  {
    if l != [] {
      ContainsCons(l, path);
      WithoutAbsent(l[1..], path);
      assert l == [l[0]] + l[1..];
    }
  }

  /** `remove`: drop every entry recording `path`, keep the rest in order;
      report (and rewrite the store) only when one existed. */
  function Remove(l: Ledger, path: string): (r: Update)
    ensures r.written <==> Contains(l, path)
    ensures forall i :: 0 <= i < |r.ledger| ==> r.ledger[i].path != path
    ensures forall e :: e in r.ledger <==> e in l && e.path != path
    ensures !Contains(l, path) ==> r.ledger == l
  {
    WithoutFacts(l, path);
    Update(Without(l, path), Contains(l, path))
  }

  lemma ContainsCons(l: Ledger, path: string)
    requires l != []
    ensures Contains(l, path) <==> l[0].path == path || Contains(l[1..], path)
  {
    if Contains(l, path) && l[0].path != path {
      var i :| 0 <= i < |l| && l[i].path == path;
      assert l[1..][i - 1].path == path;
    }
    if Contains(l[1..], path) {
      var i :| 0 <= i < |l[1..]| && l[1..][i].path == path;
      assert l[i + 1].path == path;
    }
  }

  // ---------------------------------------------------------------------
  // Expiration

  /** The instant an entry falls due: its explicit `expireAt` when positive,
      otherwise `deletedAt + retention` in 64-bit arithmetic. */
  function Expiration(e: Entry, retention: int): (t: int)
    ensures e.expireAt > 0 ==> t == e.expireAt
    ensures e.expireAt <= 0 && InLong(e.deletedAt + retention) ==> t == e.deletedAt + retention
    ensures e.expireAt <= 0 ==> InLong(t) && (t - (e.deletedAt + retention)) % 0x1_0000_0000_0000_0000 == 0
  {
    if e.expireAt > 0 then e.expireAt else Wrap64(e.deletedAt + retention)
  }

  predicate Expired(e: Entry, retention: int, now: int)
  {
    Expiration(e, retention) <= now
  }

  /** The entries a purge keeps, in ledger order. */
  function Kept(l: Ledger, retention: int, now: int): (r: Ledger)
    ensures |r| <= |l|
  {
    if l == [] then []
    else if Expired(l[0], retention, now) then Kept(l[1..], retention, now)
    else [l[0]] + Kept(l[1..], retention, now)
  }

  /** The paths a purge removes, in ledger order. */
  function PurgedPaths(l: Ledger, retention: int, now: int): (r: seq<string>)
    ensures |r| + |Kept(l, retention, now)| == |l|
  {
    if l == [] then []
    else if Expired(l[0], retention, now) then [l[0].path] + PurgedPaths(l[1..], retention, now)
    else PurgedPaths(l[1..], retention, now)
  }

  /** A purge keeps exactly the entries not yet due. */
  lemma {:induction false} KeptMembers(l: Ledger, retention: int, now: int)
    ensures forall e :: e in Kept(l, retention, now) <==> e in l && !Expired(e, retention, now)
  {
    if l != [] {
      KeptMembers(l[1..], retention, now);
      assert forall e :: e in l <==> e == l[0] || e in l[1..];
    }
  }

  /** A purge removes the path of every due entry, and only those. */
  lemma {:induction false} PurgedMembers(l: Ledger, retention: int, now: int)
    ensures forall e :: e in l && Expired(e, retention, now) ==> e.path in PurgedPaths(l, retention, now)
    ensures forall p :: p in PurgedPaths(l, retention, now) ==>
              exists e :: e in l && e.path == p && Expired(e, retention, now)
  {
    if l != [] {
      PurgedMembers(l[1..], retention, now);
      assert forall e :: e in l <==> e == l[0] || e in l[1..];
    }
  }

  lemma KeptAppend(a: Ledger, b: Ledger, retention: int, now: int)
    ensures Kept(a + b, retention, now) == Kept(a, retention, now) + Kept(b, retention, now)
  {
    var due := e => Expired(e, retention, now);
    KeptIsFilter(a + b, retention, now);
    KeptIsFilter(a, retention, now);
    KeptIsFilter(b, retention, now);
    DropAppend(a, b, due);
  }

  lemma PurgedAppend(a: Ledger, b: Ledger, retention: int, now: int)
    ensures PurgedPaths(a + b, retention, now) == PurgedPaths(a, retention, now) + PurgedPaths(b, retention, now)
  {
    var due := e => Expired(e, retention, now);
    PurgedIsPick(a + b, retention, now);
    PurgedIsPick(a, retention, now);
    PurgedIsPick(b, retention, now);
    PickAppend(a, b, due);
  }

  // The two append laws are proved on filters over an arbitrary predicate,
  // so that the 64-bit arithmetic of `Expired` stays out of the induction.

  /** The entries of `l` that `due` rejects. */
  function Drop(l: Ledger, due: Entry -> bool): Ledger
  {
    if l == [] then [] else (if due(l[0]) then [] else [l[0]]) + Drop(l[1..], due)
  }

  /** The paths of the entries of `l` that `due` accepts. */
  function Pick(l: Ledger, due: Entry -> bool): seq<string>
  {
    if l == [] then [] else (if due(l[0]) then [l[0].path] else []) + Pick(l[1..], due)
  }

  lemma {:induction false} KeptIsFilter(l: Ledger, retention: int, now: int)
    ensures Kept(l, retention, now) == Drop(l, e => Expired(e, retention, now))
  {
    if l != [] {
      KeptIsFilter(l[1..], retention, now);
    }
  }

  lemma {:induction false} PurgedIsPick(l: Ledger, retention: int, now: int)
    ensures PurgedPaths(l, retention, now) == Pick(l, e => Expired(e, retention, now))
  {
    if l != [] {
      PurgedIsPick(l[1..], retention, now);
    }
  }

  lemma {:induction false} DropAppend(a: Ledger, b: Ledger, due: Entry -> bool)
    ensures Drop(a + b, due) == Drop(a, due) + Drop(b, due)
  {
    if a == [] {
      assert a + b == b;
    } else {
      assert (a + b)[0] == a[0];
      assert (a + b)[1..] == a[1..] + b;
      DropAppend(a[1..], b, due);
    }
  }

  lemma {:induction false} PickAppend(a: Ledger, b: Ledger, due: Entry -> bool)
    ensures Pick(a + b, due) == Pick(a, due) + Pick(b, due)
  {
    if a == [] {
      assert a + b == b;
    } else {
      assert (a + b)[0] == a[0];
      assert (a + b)[1..] == a[1..] + b;
      PickAppend(a[1..], b, due);
    }
  }

  /** One more entry extends the kept list or the purged paths. */
  lemma PurgeStep(l: Ledger, i: nat, retention: int, now: int)
    requires i < |l|
    ensures Kept(l[..i + 1], retention, now)
            == Kept(l[..i], retention, now) + (if Expired(l[i], retention, now) then [] else [l[i]])
    ensures PurgedPaths(l[..i + 1], retention, now)
            == PurgedPaths(l[..i], retention, now) + (if Expired(l[i], retention, now) then [l[i].path] else [])
  {
    assert l[..i + 1] == l[..i] + [l[i]];
    KeptAppend(l[..i], [l[i]], retention, now);
    PurgedAppend(l[..i], [l[i]], retention, now);
    assert [l[i]][1..] == [];
  }

  /** A storage delete issued by a purge. */
  datatype DeleteCall = DeleteCall(path: string, recursive: bool)

  /** `purgeExpired(hdfs, retention)` with the clock reading `now`. Every
      due entry is dropped and gets one recursive delete, whatever that
      delete does; the store is rewritten only when something was dropped. */
  method PurgeExpired(l: Ledger, retention: int, now: int)
    returns (kept: Ledger, purged: seq<string>, deletes: seq<DeleteCall>, written: bool)
    ensures kept == Kept(l, retention, now)
    ensures purged == PurgedPaths(l, retention, now)
    ensures |deletes| == |purged|
    ensures forall k :: 0 <= k < |deletes| ==> deletes[k] == DeleteCall(purged[k], true)
    ensures written <==> purged != []
  {
    kept, purged, deletes, written := [], [], [], false;
    var i := 0;
    while i < |l|
      invariant 0 <= i <= |l|
      invariant kept == Kept(l[..i], retention, now)
      invariant purged == PurgedPaths(l[..i], retention, now)
      invariant |deletes| == |purged|
      invariant forall k :: 0 <= k < |deletes| ==> deletes[k] == DeleteCall(purged[k], true)
      invariant written <==> purged != []
    {
      var e := l[i];
      PurgeStep(l, i, retention, now);
      if Expiration(e, retention) <= now {
        deletes := deletes + [DeleteCall(e.path, true)];
        purged := purged + [e.path];
        written := true;
      } else {
        kept := kept + [e];
      }
      i := i + 1;
    }
    assert l[..|l|] == l;
  }

  /** `purgeExpired(hdfs)`: the 30-day default. */
  method PurgeExpiredDefault(l: Ledger, now: int)
    returns (kept: Ledger, purged: seq<string>, deletes: seq<DeleteCall>, written: bool)
    ensures kept == Kept(l, DEFAULT_RETENTION, now)
    ensures purged == PurgedPaths(l, DEFAULT_RETENTION, now)
    ensures |deletes| == |purged|
    ensures forall k :: 0 <= k < |deletes| ==> deletes[k] == DeleteCall(purged[k], true)
    ensures forall e :: e in kept <==> e in l && Expiration(e, DEFAULT_RETENTION) > now
    ensures forall e :: (e in l && e.expireAt <= 0 && e.deletedAt + DEFAULT_RETENTION <= now
                         && InLong(e.deletedAt + DEFAULT_RETENTION)) ==> e.path in purged
    ensures forall p :: p in purged ==> exists e :: e in l && e.path == p && Expired(e, DEFAULT_RETENTION, now)
    ensures written <==> purged != []
  {
    kept, purged, deletes, written := PurgeExpired(l, DEFAULT_RETENTION, now);
    KeptMembers(l, DEFAULT_RETENTION, now);
    PurgedMembers(l, DEFAULT_RETENTION, now);
  }

  // ---------------------------------------------------------------------
  // Properties

  /** Adding a path twice leaves the ledger as adding it once. */
  lemma AddIdempotent(l: Ledger, path: string, d1: bool, d2: bool, x1: int, x2: int, t1: int, t2: int)
    ensures Add(Add(l, path, d1, x1, t1).ledger, path, d2, x2, t2).ledger == Add(l, path, d1, x1, t1).ledger
  {
  }

  /** Every operation keeps each path recorded at most once. */
  lemma AddKeepsUnique(l: Ledger, path: string, d: bool, x: int, now: int)
    requires UniquePaths(l)
    ensures UniquePaths(Add(l, path, d, x, now).ledger)
  {
    var r := Add(l, path, d, x, now);
    if r.written {
      forall i, j | 0 <= i < j < |r.ledger|
        ensures r.ledger[i].path != r.ledger[j].path
      {
        if j == |l| {
          assert r.ledger[i] == l[i];
        } else {
          assert r.ledger[i] == l[i] && r.ledger[j] == l[j];
        }
      }
    }
  }

  /** `remove` works entry by entry: removing from a concatenation is
      removing from each part, so the survivors keep their order. */
  lemma {:induction false} RemoveAppend(a: Ledger, b: Ledger, path: string)
    ensures Remove(a + b, path).ledger == Remove(a, path).ledger + Remove(b, path).ledger
  {
    WithoutAppend(a, b, path);
  }

  lemma {:induction false} WithoutAppend(a: Ledger, b: Ledger, path: string)
    ensures Without(a + b, path) == Without(a, path) + Without(b, path)
  {
    if a == [] {
      assert a + b == b;
    } else {
      assert (a + b)[1..] == a[1..] + b;
      assert (a + b)[0] == a[0];
      WithoutAppend(a[1..], b, path);
    }
  }

  /** Removing a path undoes adding it. */
  lemma RemoveUndoesAdd(l: Ledger, path: string, d: bool, x: int, now: int)
    requires !Contains(l, path)
    ensures Remove(Add(l, path, d, x, now).ledger, path) == Update(l, true)
  {
    var e := Entry(path, d, EntryName(path), now, x);
    RemoveAppend(l, [e], path);
    assert Without([e], path) == [] by { assert [e][1..] == []; }
    assert l + [] == l;
  }

  /** The survivors of a purge are exactly the entries not yet due, and
      purging again removes nothing. */
  lemma {:induction false} PurgeIdempotent(l: Ledger, retention: int, now: int)
    ensures Kept(Kept(l, retention, now), retention, now) == Kept(l, retention, now)
    ensures PurgedPaths(Kept(l, retention, now), retention, now) == []
  {
    if l != [] {
      PurgeIdempotent(l[1..], retention, now);
      if !Expired(l[0], retention, now) {
        var k := Kept(l[1..], retention, now);
        assert ([l[0]] + k)[1..] == k;
      }
    }
  }

  /** A purge keeps a unique-path ledger unique. */
  lemma {:induction false} KeptKeepsUnique(l: Ledger, retention: int, now: int)
    requires UniquePaths(l)
    ensures UniquePaths(Kept(l, retention, now))
  {
    if l != [] {
      assert UniquePaths(l[1..]) by {
        forall i, j | 0 <= i < j < |l[1..]| ensures l[1..][i].path != l[1..][j].path {
          assert l[1..][i] == l[i + 1] && l[1..][j] == l[j + 1];
        }
      }
      KeptKeepsUnique(l[1..], retention, now);
      var k := Kept(l[1..], retention, now);
      if !Expired(l[0], retention, now) {
        KeptMembers(l[1..], retention, now);
        forall j | 0 <= j < |k| ensures k[j].path != l[0].path {
          assert k[j] in k;
          var m :| 0 <= m < |l[1..]| && l[1..][m] == k[j];
          assert l[m + 1] == k[j];
        }
        var r := [l[0]] + k;
        forall i, j | 0 <= i < j < |r| ensures r[i].path != r[j].path {
          if i == 0 {
            assert r[j] == k[j - 1];
          } else {
            assert r[i] == k[i - 1] && r[j] == k[j - 1];
          }
        }
      }
    }
  }

  /** The due instant is inclusive: an entry without explicit expiration,
      deleted at `t`, survives a purge at `t + DEFAULT_RETENTION - 1` and is
      removed by one at `t + DEFAULT_RETENTION`. */
  lemma RetentionBoundary(e: Entry, l: Ledger)
    requires e.expireAt == 0 && 0 <= e.deletedAt <= LONG_MAX - DEFAULT_RETENTION
    ensures Kept([e], DEFAULT_RETENTION, e.deletedAt + DEFAULT_RETENTION - 1) == [e]
    ensures Kept([e], DEFAULT_RETENTION, e.deletedAt + DEFAULT_RETENTION) == []
    ensures PurgedPaths([e], DEFAULT_RETENTION, e.deletedAt + DEFAULT_RETENTION) == [e.path]
  {
    assert Expiration(e, DEFAULT_RETENTION) == e.deletedAt + DEFAULT_RETENTION;
    assert [e][1..] == [];
  }

  /** A deletion date close enough to the end of time makes the default
      expiration wrap to a negative instant, so the entry is purged at once. */
  lemma RetentionOverflowPurgesAtOnce(e: Entry, now: int)
    requires e.expireAt == 0 && e.deletedAt == LONG_MAX && now >= 0
    ensures Expired(e, DEFAULT_RETENTION, now)
  {
    assert e.deletedAt + DEFAULT_RETENTION - 0x1_0000_0000_0000_0000 < 0;
    assert LONG_MIN <= e.deletedAt + DEFAULT_RETENTION - 0x1_0000_0000_0000_0000;
    Wrap64Shift(e.deletedAt + DEFAULT_RETENTION);
  }

  /** `Wrap64` subtracts 2^64 from a value just above the long range. */
  lemma Wrap64Shift(x: int)
    requires LONG_MAX < x <= LONG_MAX + 0x1_0000_0000_0000_0000
    ensures Wrap64(x) == x - 0x1_0000_0000_0000_0000
  {
    var y := x - 0x1_0000_0000_0000_0000;
    assert InLong(y);
    assert (Wrap64(x) - y) % 0x1_0000_0000_0000_0000 == 0;
  }
}
