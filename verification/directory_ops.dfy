/** The write side of DirectoryServlet: `handleCreate`, `handleDelete`,
    `handleRestore` and `handleRestoreBatch`.

    Unlike the file handlers, DirectoryServlet escalates a failed `mkdirs`
    for every caller that is not the admin, including a caller without a
    session; its deletes never escalate; and restoring only edits the trash
    ledger.
 */
module DirectoryOps {
  import opened Wrappers
  import opened Text
  import opened PathResolver
  import opened Storage
  import opened TrashLedger
  import FileOps

  // ---------------------------------------------------------------------
  // Create

  /** `handleCreate`: the reply carries the raw path and whether
      `CreateAt` made the directory. */
  function CreateDir(user: SessionUser, path: Option<string>, tenant: Outcome<bool>, admin: Outcome<bool>): (h: Handled)
    ensures FileOps.Missing(path) ==> h == Handled(Error("Path parameter is required"), [])
    ensures !FileOps.Missing(path) && Resolve(user, path).Denied? ==> h == Handled(Error("Access denied"), [])
    ensures h.reply.Reported? <==> !FileOps.Missing(path) && Resolve(user, path).Resolved?
    ensures h.reply.Reported? ==>
              var made := CreateAt(user, Resolve(user, path).path, tenant, admin);
              h.calls == made.1 && h.reply == Reported(made.0, CreateMessage(made.0), path)
  {
    if FileOps.Missing(path) then Handled(Error("Path parameter is required"), [])
    else match Resolve(user, path)
      case Denied(_) => Handled(Error("Access denied"), [])
      case Resolved(p) =>
        var (created, calls) := CreateAt(user, p, tenant, admin);
        Handled(Reported(created, CreateMessage(created), path), calls)
  }

  /** The storage side of `handleCreate` for the resolved path `p`: a
      session `mkdirs`, and only if that threw and the caller is not the
      admin, the admin retry. */
  function CreateAt(user: SessionUser, p: string, tenant: Outcome<bool>, admin: Outcome<bool>): (r: (bool, seq<Call>))
    ensures r.0 <==> tenant == Ok(true) || (tenant.Exn? && !IsAdmin(user) && admin == Ok(true))
    ensures r.1 != [] && r.1[0] == Call(SessionClient, Mkdirs(p))
    // the admin client is used only after the session attempt threw, and never for the admin
    ensures !AllSession(r.1) ==> tenant.Exn? && !IsAdmin(user)
    ensures ChownsToSessionUser(user, r.1)
    // a directory the admin made is handed to a logged-in caller and closed to others
    ensures OwnershipChanges(r.1) == (if tenant.Exn? && !IsAdmin(user) && admin == Ok(true) && user.Some?
                                      then [SetOwner(p, user.value), Chmod(p, "700")] else [])
  {
    var first := [Call(SessionClient, Mkdirs(p))];
    assert OwnershipChanges(first) == [] by { assert first[1..] == []; }
    if tenant.Ok? || IsAdmin(user) then (tenant == Ok(true), first)
    else
      var retry := AdminMkdirs(user, p, admin);
      OwnershipChangesAppend(first, retry);
      AllSessionAppend(first, retry);
      ChownsAppend(user, first, retry);
      (admin == Ok(true), first + retry)
  }

  function CreateMessage(created: bool): string
  {
    if created then "Directory created successfully" else "Directory already exists or creation failed"
  }

  /** The admin half of `handleCreate`: `mkdirs` as admin, and when that
      created the directory for a logged-in caller, give it to the caller
      with mode 700. */
  function AdminMkdirs(user: SessionUser, p: string, admin: Outcome<bool>): (calls: seq<Call>)
    ensures calls != [] && calls[0] == Call(AdminClient, Mkdirs(p))
    ensures forall i :: 0 <= i < |calls| ==> calls[i].client == AdminClient
    ensures ChownsToSessionUser(user, calls)
    ensures OwnershipChanges(calls) == (if admin == Ok(true) && user.Some? then [SetOwner(p, user.value), Chmod(p, "700")] else [])
  {
    var make := [Call(AdminClient, Mkdirs(p))];
    assert make[1..] == [];
    if admin == Ok(true) && user.Some? then
      var give := [Call(AdminClient, SetOwner(p, user.value)), Call(AdminClient, Chmod(p, "700"))];
      assert OwnershipChanges(give) == [SetOwner(p, user.value), Chmod(p, "700")] by {
        assert give[1..][1..] == [];
      }
      OwnershipChangesAppend(make, give);
      make + give
    else make
  }

  /** For logged-in callers `handleCreate` keeps the escalation discipline
      of the file handlers. */
  lemma CreateDirDisciplined(user: SessionUser, path: Option<string>, tenant: Outcome<bool>, admin: Outcome<bool>)
    requires user.Some?
    ensures Disciplined(user, tenant.Exn?, CreateDir(user, path, tenant, admin).calls)
  {
  }

  /** A caller without a session reaches the admin client: the reserved
      namespaces resolve for everyone, and a thrown `mkdirs` is retried as
      admin for every caller that is not the admin. */
  lemma AnonymousCreateEscalates(path: string, msg: string, admin: Outcome<bool>)
    requires IsReserved(path)
    ensures Call(AdminClient, Mkdirs(path)) in CreateDir(None, Some(path), Exn(msg), admin).calls
    ensures !Disciplined(None, true, CreateDir(None, Some(path), Exn(msg), admin).calls)
  {
    var h := CreateDir(None, Some(path), Exn(msg), admin);
    assert Normalize(Some(path)) == path;
    assert h.calls == CreateAt(None, path, Exn(msg), admin).1;
    assert h.calls[1] == Call(AdminClient, Mkdirs(path));
  }

  // ---------------------------------------------------------------------
  // Delete

  const DAY_MILLIS: int := 24 * 60 * 60 * 1000

  /** The explicit expiration of a soft delete: `now + days * 86400000` in
      `long` arithmetic when `days` parses as a `long`, otherwise 0 (use the
      default retention). Each `long` multiplication wraps, which agrees
      with wrapping the exact product once. */
  function TrashExpiry(days: Option<string>, now: int): (t: int)
    ensures days.None? || ParseLong(days.value).None? ==> t == 0
    ensures days.Some? && ParseLong(days.value).Some? && InLong(now)
            && InLong(ParseLong(days.value).value * DAY_MILLIS)
            && InLong(now + ParseLong(days.value).value * DAY_MILLIS)
            ==> t == now + ParseLong(days.value).value * DAY_MILLIS
    ensures InLong(t)
  {
    if days.None? || days.value == [] then 0
    else match ParseLong(days.value)
      case None => 0
      case Some(d) => Wrap64(now + Wrap64(d * DAY_MILLIS))
  }

  /** `handleDelete`. A permanent delete goes through the session client
      only and forgets the path in the ledger; a soft delete only records
      the path (as a directory when `isDirectory` said so). */
  function DeleteDir(user: SessionUser, path: Option<string>, recursive: Option<string>, permanent: Option<string>,
                     days: Option<string>, ledger: Ledger, now: int,
                     tenant: Outcome<bool>, isDir: Outcome<bool>): (r: FileOps.Deleted)
    ensures FileOps.Missing(path) ==> r == FileOps.Deleted(Error("Path parameter is required"), [], ledger)
    ensures !FileOps.Missing(path) && Resolve(user, path).Denied? ==> r == FileOps.Deleted(Error("Access denied"), [], ledger)
    // never escalates, never changes ownership
    ensures AllSession(r.calls) && OwnershipChanges(r.calls) == []
    ensures !FileOps.Missing(path) && Resolve(user, path).Resolved? && ParseBoolean(permanent) ==>
              var p := Resolve(user, path).path;
              r.calls == [Call(SessionClient, Delete(p, ParseBoolean(recursive)))]
              && (tenant.Exn? ==> r.reply == Error("Failed to delete: " + tenant.msg) && r.ledger == ledger)
              && (tenant.Ok? ==> r.reply == Reported(tenant.v, if tenant.v then "Directory permanently deleted" else "Directory not found", None)
                                 && (forall e :: e in r.ledger <==> e in ledger && e.path != p))
    ensures !FileOps.Missing(path) && Resolve(user, path).Resolved? && !ParseBoolean(permanent) ==>
              var p := Resolve(user, path).path;
              r.calls == [Call(SessionClient, IsDirectory(p))]
              && r.reply == Reported(true, "Moved to trash (UI)", None)
              && r.ledger == Add(ledger, p, isDir == Ok(true), TrashExpiry(days, now), now).ledger
  {
    if FileOps.Missing(path) then FileOps.Deleted(Error("Path parameter is required"), [], ledger)
    else match Resolve(user, path)
      case Denied(_) => FileOps.Deleted(Error("Access denied"), [], ledger)
      case Resolved(p) =>
        if ParseBoolean(permanent) then
          var calls := [Call(SessionClient, Delete(p, ParseBoolean(recursive)))];
          assert calls[1..] == [];
          match tenant
          case Exn(m) => FileOps.Deleted(Error("Failed to delete: " + m), calls, ledger)
          case Ok(deleted) =>
            FileOps.Deleted(Reported(deleted, if deleted then "Directory permanently deleted" else "Directory not found", None),
                            calls, Remove(ledger, p).ledger)
        else
          var calls := [Call(SessionClient, IsDirectory(p))];
          assert calls[1..] == [];
          var u := Add(ledger, p, isDir == Ok(true), TrashExpiry(days, now), now);
          FileOps.Deleted(Reported(true, "Moved to trash (UI)", None), calls, u.ledger)
  }

  /** A soft delete with "days" set to 0 is due at once: the next purge
      drops it. */
  lemma ZeroDaysDueAtOnce(user: SessionUser, path: Option<string>, ledger: Ledger, now: int, isDir: Outcome<bool>)
    requires !FileOps.Missing(path) && Resolve(user, path).Resolved?
    requires !TrashLedger.Contains(ledger, Resolve(user, path).path)
    requires 0 < now <= LONG_MAX
    ensures var l := DeleteDir(user, path, None, None, Some("0"), ledger, now, Ok(false), isDir).ledger;
            l[|l| - 1].path == Resolve(user, path).path && Expired(l[|l| - 1], DEFAULT_RETENTION, now)
  {
    assert ParseLong("0") == Some(0) by {
      assert "0"[0] != '-' && "0"[0] != '+';
      assert AllDigits("0");
      assert DigitsValue("0") == DigitsValue("0"[..0]) * 10 + 0;
    }
  }

  // ---------------------------------------------------------------------
  // Restore

  /** The stored path a restore of `v` may clear: the resolved path, if the
      caller is the admin or the path lies at or below the caller's root
      ("/users/null" without a session). */
  function RestoreTarget(user: SessionUser, v: Option<string>): (r: Option<string>)
    ensures r.Some? ==> Resolve(user, v).Resolved? && r.value == Resolve(user, v).path
    ensures r.Some? <==> Resolve(user, v).Resolved? && (IsAdmin(user) || Under(RootOf(user.GetOr("null")), Resolve(user, v).path))
  {
    match Resolve(user, v)
    case Denied(_) => None
    case Resolved(p) => if IsAdmin(user) || Under(RootOf(user.GetOr("null")), p) then Some(p) else None
  }

  /** A tenant may restore exactly the paths it resolves outside the
      reserved namespaces; a caller without a session may restore nothing. */
  lemma RestoreTargetOf(user: SessionUser, v: Option<string>)
    ensures IsTenant(user) && !IsReserved(Normalize(v)) ==> (RestoreTarget(user, v).Some? <==> Resolve(user, v).Resolved?)
    ensures IsAdmin(user) ==> RestoreTarget(user, v) == Some(Normalize(v))
    ensures user.None? ==> RestoreTarget(user, v).None?
  {
    if user.None? && Resolve(user, v).Resolved? {
      var p := Normalize(v);
      assert IsReserved(p);
      assert p[1] == '.';
      assert RootOf("null")[1] == 'u';
      assert !Under(RootOf("null"), p);
    }
  }

  datatype Restored = Restored(reply: Reply, ledger: Ledger)

  /** `handleRestore`: drop the path from the ledger; the stored data was
      never touched. */
  function Restore(user: SessionUser, path: Option<string>, ledger: Ledger): (r: Restored)
    ensures FileOps.Missing(path) ==> r == Restored(Error("Path parameter is required"), ledger)
    ensures !FileOps.Missing(path) && RestoreTarget(user, path).None? ==> r == Restored(Error("Access denied"), ledger)
    ensures !FileOps.Missing(path) && RestoreTarget(user, path).Some? ==>
              var p := RestoreTarget(user, path).value;
              (r.reply.Reported? && (r.reply.success <==> TrashLedger.Contains(ledger, p)))
              && r.reply.message == (if TrashLedger.Contains(ledger, p) then "Restored successfully (UI)" else "Item not found in trash metadata")
              && (forall e :: e in r.ledger <==> e in ledger && e.path != p)
  {
    if FileOps.Missing(path) then Restored(Error("Path parameter is required"), ledger)
    else match RestoreTarget(user, path)
      case None => Restored(Error("Access denied"), ledger)
      case Some(p) =>
        var u := Remove(ledger, p);
        Restored(Reported(u.written, if u.written then "Restored successfully (UI)" else "Item not found in trash metadata", None),
                 u.ledger)
  }

  /** Restoring what was just moved to the trash gives back the ledger as it
      was, for the admin and for a tenant's own paths. */
  lemma RestoreUndoesSoftDelete(user: SessionUser, path: Option<string>, days: Option<string>, ledger: Ledger,
                                now: int, isDir: Outcome<bool>)
    requires !FileOps.Missing(path)
    requires IsAdmin(user) || (IsTenant(user) && !IsReserved(Normalize(path)))
    requires Resolve(user, path).Resolved? && !TrashLedger.Contains(ledger, Resolve(user, path).path)
    ensures Restore(user, path, DeleteDir(user, path, None, None, days, ledger, now, Ok(false), isDir).ledger).ledger == ledger
    ensures Restore(user, path, DeleteDir(user, path, None, None, days, ledger, now, Ok(false), isDir).ledger).reply.success
  {
    var p := Resolve(user, path).path;
    RestoreTargetOf(user, path);
    assert RestoreTarget(user, path) == Some(p);
    RemoveUndoesAdd(ledger, p, isDir == Ok(true), TrashExpiry(days, now), now);
  }

  // ---------------------------------------------------------------------
  // Restore batch

  datatype BatchReply = BatchFailed(message: string) | BatchResults(results: map<string, bool>)

  // The batch is stated over `target`, the stored path each listed path
  // may clear (`RestoreTarget` of the session), so that its bookkeeping is
  // independent of the path mapping.

  /** Some listed path among the first `n` clears the stored path `p`. */
  predicate Cleared(target: string -> Option<string>, paths: seq<Option<string>>, n: int, p: string)
    requires 0 <= n <= |paths|
  {
    exists j :: 0 <= j < n && paths[j].Some? && target(paths[j].value) == Some(p)
  }

  /** Some listed path among the first `n` is `v`. */
  predicate Listed(paths: seq<Option<string>>, n: int, v: string)
    requires 0 <= n <= |paths|
  {
    exists j :: 0 <= j < n && paths[j] == Some(v)
  }

  /** Position `j` is the last of the first `n` at which `v` is listed. */
  predicate AnsweredAt(paths: seq<Option<string>>, n: int, v: string, j: int)
    requires 0 <= n <= |paths|
  {
    0 <= j < n && paths[j] == Some(v) && forall k :: j < k < n ==> paths[k] != Some(v)
  }

  /** The restore of `v` at position `j` finds its entry: `v` is permitted,
      and its stored path was in the ledger before the batch and was not
      cleared by an earlier listed path. */
  predicate RestoredAt(target: string -> Option<string>, paths: seq<Option<string>>, ledger: Ledger, v: string, j: int)
    requires 0 <= j <= |paths|
  {
    target(v).Some? && TrashLedger.Contains(ledger, target(v).value) && !Cleared(target, paths, j, target(v).value)
  }

  /** What the batch has established after its first `n` paths: one
      result per listed path, a refused path reports false, true means the
      ledger held the stored path, the result of a path is that of its last
      listing, true exactly when that restore found its entry, and the
      ledger lost exactly the entries those paths clear. */
  ghost predicate BatchInvariant(target: string -> Option<string>, paths: seq<Option<string>>, n: int, ledger: Ledger,
                                 results: map<string, bool>, l: Ledger)
    requires 0 <= n <= |paths|
  {
    (forall v :: v in results <==> Listed(paths, n, v))
    && (forall v :: v in results && target(v).None? ==> !results[v])
    && (forall v :: v in results && results[v] ==> target(v).Some? && TrashLedger.Contains(ledger, target(v).value))
    && (forall v, j :: v in results && AnsweredAt(paths, n, v, j) ==> (results[v] <==> RestoredAt(target, paths, ledger, v, j)))
    && (forall e :: e in l <==> e in ledger && !Cleared(target, paths, n, e.path))
  }

  /** One path of the batch: refused paths report false, the others report
      whether the ledger dropped their stored path. */
  function RestoreOne(target: string -> Option<string>, v: string, results: map<string, bool>, l: Ledger)
    : (r: (map<string, bool>, Ledger))
    ensures r.0.Keys == results.Keys + {v}
    ensures forall w :: w in results && w != v ==> r.0[w] == results[w]
    ensures r.0[v] <==> target(v).Some? && TrashLedger.Contains(l, target(v).value)
    ensures forall e :: e in r.1 <==> e in l && (target(v).None? || e.path != target(v).value)
  {
    match target(v)
    case None => (results[v := false], l)
    case Some(p) =>
      var u := Remove(l, p);
      (results[v := u.written], u.ledger)
  }

  /** A path listed twice reports false the second time, although its
      entry was restored the first time: the later result overwrites. */
  lemma RepeatedPathReportsFalse(target: string -> Option<string>, v: string, results: map<string, bool>, l: Ledger)
    requires target(v).Some?
    ensures var first := RestoreOne(target, v, results, l);
            !RestoreOne(target, v, first.0, first.1).0[v]
  {
  }

  lemma RestoreOneStep(target: string -> Option<string>, paths: seq<Option<string>>, n: int, ledger: Ledger,
                       results: map<string, bool>, l: Ledger)
    requires 0 <= n < |paths| && paths[n].Some?
    requires BatchInvariant(target, paths, n, ledger, results, l)
    ensures BatchInvariant(target, paths, n + 1, ledger, RestoreOne(target, paths[n].value, results, l).0,
                           RestoreOne(target, paths[n].value, results, l).1)
  {
    var v := paths[n].value;
    var (r2, l2) := RestoreOne(target, v, results, l);
    ListedStep(paths, n, results, r2);
    if r2[v] {
      var k :| 0 <= k < |l| && l[k].path == target(v).value;
      assert l[k] in ledger;
    }
    ClearedStep(target, paths, n, ledger, l, l2);
    forall w, j | w in r2 && AnsweredAt(paths, n + 1, w, j)
      ensures r2[w] <==> RestoredAt(target, paths, ledger, w, j)
    {
      if w == v {
        assert j == n;
        HeldIff(target, paths, n, ledger, l, target(v));
      } else {
        assert AnsweredAt(paths, n, w, j);
      }
    }
  }

  /** The ledger after the first `n` paths holds a stored path exactly when
      the original ledger did and no earlier path cleared it. */
  lemma HeldIff(target: string -> Option<string>, paths: seq<Option<string>>, n: int, ledger: Ledger, l: Ledger,
                t: Option<string>)
    requires 0 <= n <= |paths|
    requires forall e :: e in l <==> e in ledger && !Cleared(target, paths, n, e.path)
    ensures t.Some? ==> (TrashLedger.Contains(l, t.value) <==> TrashLedger.Contains(ledger, t.value) && !Cleared(target, paths, n, t.value))
  {
    if t.Some? {
      var p := t.value;
      if TrashLedger.Contains(l, p) {
        var k :| 0 <= k < |l| && l[k].path == p;
        assert l[k] in ledger;
        var i :| 0 <= i < |ledger| && ledger[i] == l[k];
      }
      if TrashLedger.Contains(ledger, p) && !Cleared(target, paths, n, p) {
        var i :| 0 <= i < |ledger| && ledger[i].path == p;
        assert ledger[i] in l;
        var k :| 0 <= k < |l| && l[k] == ledger[i];
      }
    }
  }

  lemma ListedStep(paths: seq<Option<string>>, n: int, results: map<string, bool>, r2: map<string, bool>)
    requires 0 <= n < |paths| && paths[n].Some?
    requires forall w :: w in results <==> Listed(paths, n, w)
    requires r2.Keys == results.Keys + {paths[n].value}
    ensures forall w :: w in r2 <==> Listed(paths, n + 1, w)
  {
    forall w ensures w in r2 <==> Listed(paths, n + 1, w) {
      if w == paths[n].value {
        assert paths[n] == Some(w);
      } else if Listed(paths, n + 1, w) {
        var j :| 0 <= j < n + 1 && paths[j] == Some(w);
      }
    }
  }

  lemma ClearedStep(target: string -> Option<string>, paths: seq<Option<string>>, n: int, ledger: Ledger,
                    l: Ledger, l2: Ledger)
    requires 0 <= n < |paths| && paths[n].Some?
    requires forall e :: e in l <==> e in ledger && !Cleared(target, paths, n, e.path)
    requires forall e :: e in l2 <==> e in l && (target(paths[n].value).None? || e.path != target(paths[n].value).value)
    ensures forall e :: e in l2 <==> e in ledger && !Cleared(target, paths, n + 1, e.path)
  {
    var v := paths[n].value;
    forall e: Entry ensures e in l2 <==> e in ledger && !Cleared(target, paths, n + 1, e.path) {
      if Cleared(target, paths, n + 1, e.path) && !Cleared(target, paths, n, e.path) {
        var j :| 0 <= j < n + 1 && paths[j].Some? && target(paths[j].value) == Some(e.path);
        assert j == n;
      }
      if Cleared(target, paths, n, e.path) {
        var j :| 0 <= j < n && paths[j].Some? && target(paths[j].value) == Some(e.path);
        assert Cleared(target, paths, n + 1, e.path);
      }
      if target(v) == Some(e.path) {
        assert Cleared(target, paths, n + 1, e.path);
      }
    }
  }

  lemma SkipNull(target: string -> Option<string>, paths: seq<Option<string>>, n: int, ledger: Ledger,
                 results: map<string, bool>, l: Ledger)
    requires 0 <= n < |paths| && paths[n].None?
    requires BatchInvariant(target, paths, n, ledger, results, l)
    ensures BatchInvariant(target, paths, n + 1, ledger, results, l)
  {
    forall w | Listed(paths, n + 1, w) ensures Listed(paths, n, w) {
      var j :| 0 <= j < n + 1 && paths[j] == Some(w);
    }
    forall e: Entry | Cleared(target, paths, n + 1, e.path) ensures Cleared(target, paths, n, e.path) {
      var j :| 0 <= j < n + 1 && paths[j].Some? && target(paths[j].value) == Some(e.path);
    }
    forall w, j | w in results && AnsweredAt(paths, n + 1, w, j)
      ensures results[w] <==> RestoredAt(target, paths, ledger, w, j)
    {
      assert AnsweredAt(paths, n, w, j);
    }
  }

  /** `handleRestoreBatch`. `body` is the parsed request body: an exception
      when it is not JSON, `None` when "paths" is missing or not a list, and
      otherwise the list, with JSON nulls as `None`. Paths are handled in
      order; a later duplicate overwrites an earlier result. */
  method RestoreBatch(user: SessionUser, body: Outcome<Option<seq<Option<string>>>>, ledger: Ledger)
    returns (reply: BatchReply, l: Ledger)
    ensures body.Exn? ==> reply == BatchFailed("Restore batch failed: " + body.msg) && l == ledger
    ensures body.Ok? ==> reply.BatchResults?
    ensures body.Ok? && body.v.None? ==> reply == BatchResults(map[]) && l == ledger
    ensures body.Ok? && body.v.Some? ==>
              BatchInvariant((v: string) => RestoreTarget(user, Some(v)), body.v.value, |body.v.value|, ledger, reply.results, l)
  {
    if body.Exn? {
      return BatchFailed("Restore batch failed: " + body.msg), ledger;
    }
    if body.v.None? {
      return BatchResults(map[]), ledger;
    }
    var results;
    results, l := RestoreAll((v: string) => RestoreTarget(user, Some(v)), body.v.value, ledger);
    reply := BatchResults(results);
  }

  /** The loop over the paths, null entries skipped. */
  method RestoreAll(target: string -> Option<string>, paths: seq<Option<string>>, ledger: Ledger)
    returns (results: map<string, bool>, l: Ledger)
    ensures BatchInvariant(target, paths, |paths|, ledger, results, l)
  {
    results := map[];
    l := ledger;
    var i := 0;
    while i < |paths|
      invariant 0 <= i <= |paths|
      invariant BatchInvariant(target, paths, i, ledger, results, l)
    {
      var next := Advance(target, paths[i], results, l);
      AdvanceStep(target, paths, i, ledger, results, l);
      results, l := next.0, next.1;
      i := i + 1;
    }
  }

  /** One entry of the list: a null is skipped, a path is restored. */
  function Advance(target: string -> Option<string>, p: Option<string>, results: map<string, bool>, l: Ledger)
    : (r: (map<string, bool>, Ledger))
    ensures p.None? ==> r == (results, l)
  {
    if p.Some? then RestoreOne(target, p.value, results, l) else (results, l)
  }

  lemma AdvanceStep(target: string -> Option<string>, paths: seq<Option<string>>, n: int, ledger: Ledger,
                    results: map<string, bool>, l: Ledger)
    requires 0 <= n < |paths|
    requires BatchInvariant(target, paths, n, ledger, results, l)
    ensures var r := Advance(target, paths[n], results, l);
            BatchInvariant(target, paths, n + 1, ledger, r.0, r.1)
  {
    if paths[n].Some? {
      RestoreOneStep(target, paths, n, ledger, results, l);
    } else {
      SkipNull(target, paths, n, ledger, results, l);
    }
  }
}
