/** The read side of DirectoryServlet: `handleList` with its three views
    (a file-type view under "/.type/<class>", the trash view under
    "/.trash", and an ordinary directory listing), `handleSearch` and
    `handlePurge`.

    What the Hadoop client returns or throws is an input (`Env`); the
    storage calls the handler makes are recorded in order. The trash ledger
    is an input too, and the trash view returns the ledger a purge leaves.
 */
module DirectoryListing {
  import opened Wrappers
  import opened Text
  import opened PathResolver
  import opened Storage
  import opened HdfsListing
  import opened TrashLedger
  import opened StableSort
  import FileOps
  import TypeClasses

  /** What the Hadoop side does during one request: whether the session and
      admin clients could be created, what `exists` answered before and
      after the best-effort `mkdirs`, the children `listDirWithMeta` saw,
      and the statuses a recursive `listFiles` yields. */
  datatype Env = Env(
    sessionClient: Outcome<()>,
    adminClient: Outcome<()>,
    found: Outcome<bool>,
    foundAfterMkdirs: Outcome<bool>,
    children: Outcome<seq<Status>>,
    tree: Outcome<seq<Status>>)

  /** One listed file or directory as the UI receives it. */
  datatype Item = Item(name: string, path: string, isDirectory: bool, size: int, modificationTime: int)

  /** One trash-view row: the recorded name, the caller's view of the path,
      the stored path, and when the entry falls due. */
  datatype TrashItem = TrashItem(name: string, path: string, isDirectory: bool, originalPath: string, expireAt: int)

  datatype ListReply =
    | ListError(message: string)
    | Listing(path: string, items: seq<Item>)
    | TrashListing(path: string, trashItems: seq<TrashItem>)
    | SearchResults(results: seq<Item>)
    | Purged(purged: seq<string>)

  /** A view's reply and the storage calls it made. */
  datatype Viewed = Viewed(reply: ListReply, calls: seq<Call>)

  /** A handled listing request, with the ledger it leaves behind. */
  datatype Listed = Listed(reply: ListReply, calls: seq<Call>, ledger: Ledger)

  // ---------------------------------------------------------------------
  // Items

  /** The item for one storage entry: the text after the last '/', and the
      path as the caller sees it. */
  function ItemOf(user: SessionUser, fe: FileEntry): (it: Item)
    ensures '/' !in it.name
    ensures it.isDirectory == fe.isDirectory && it.size == fe.size && it.modificationTime == fe.modificationTime
    ensures !IsTenant(user) || !Under(RootOf(user.value), fe.path) ==> it.path == fe.path
    ensures IsTenant(user) && Under(RootOf(user.value), fe.path) ==>
              StartsWith(it.path, "/")
              && ((it.path == "/" && fe.path == RootOf(user.value)) || RootOf(user.value) + it.path == fe.path)
  {
    Item(AfterLast(fe.path, '/'), ToVirtual(user, Some(fe.path)).value, fe.isDirectory, fe.size, fe.modificationTime)
  }

  function Items(user: SessionUser, entries: seq<FileEntry>): (r: seq<Item>)
    ensures |r| == |entries|
    ensures forall i :: 0 <= i < |r| ==> r[i] == ItemOf(user, entries[i])
  {
    seq(|entries|, i requires 0 <= i < |entries| => ItemOf(user, entries[i]))
  }

  // ---------------------------------------------------------------------
  // The file-type view

  /** The class named by a "/.type/<class>" path: the third field of
      `path.split("/+")`, if there is one. */
  function TypeKey(path: string): (r: Option<string>)
  {
    var parts := SplitRuns(path, IsSlash);
    if |parts| >= 3 then Some(parts[2]) else None
  }

  /** A path "/<dir>/<k><rest>" splits into "", dir, k and the fields of
      `rest`. */
  lemma SplitTypePath(dir: string, k: string, rest: string)
    requires dir != [] && '/' !in dir
    requires k != [] && '/' !in k
    requires rest == [] || rest[0] == '/'
    ensures |SplitRuns("/" + dir + "/" + k + rest, IsSlash)| >= 3
    ensures SplitRuns("/" + dir + "/" + k + rest, IsSlash)[2] == k
  {
    var s := "/" + dir + "/" + k + rest;
    var tail := ['/'] + (k + rest);
    assert s == ['/'] + (dir + tail);
    TokensSkip('/', dir + tail, IsSlash);
    TokensRun(dir, tail, IsSlash);
    TokensSkip('/', k + rest, IsSlash);
    TokensRun(k, rest, IsSlash);
    var parts := [[]] + ([dir] + ([k] + Tokens(rest, IsSlash)));
    assert Tokens(s, IsSlash) == parts[1..];
    DropTrailingEmptyKeeps(parts);
    SplitRunsLeadingDelim(s, IsSlash);
    assert [[]] + parts[1..] == parts;
  }

  /** "/<dir>/" splits into "" and dir alone. */
  lemma SplitDirPath(dir: string)
    requires dir != [] && '/' !in dir
    ensures SplitRuns("/" + dir + "/", IsSlash) == [[], dir]
  {
    var s := "/" + dir + "/";
    var tail: string := ['/'];
    assert s == ['/'] + (dir + tail);
    TokensSkip('/', dir + tail, IsSlash);
    TokensRun(dir, tail, IsSlash);
    TokensSkip('/', [], IsSlash);
    assert tail == ['/'] + [];
    DropTrailingEmptyKeeps([[], dir]);
    SplitRunsLeadingDelim(s, IsSlash);
  }

  /** The class segment of a type path is read back, whatever follows it
      after a '/'. */
  lemma TypeKeyOf(k: string, rest: string)
    requires k != [] && '/' !in k
    requires rest == [] || rest[0] == '/'
    ensures TypeKey(TYPE_PREFIX + k + rest) == Some(k)
  {
    assert TYPE_PREFIX + k + rest == "/" + ".type" + "/" + k + rest;
    SplitTypePath(".type", k, rest);
  }

  /** "/.type/" names no class, so the view answers "Unknown type: null". */
  lemma TypeKeyMissing()
    ensures TypeKey(TYPE_PREFIX) == None
  {
    assert TYPE_PREFIX == "/" + ".type" + "/";
    SplitDirPath(".type");
  }

  /** Where the type view starts its recursive scan: "/" for the admin,
      the caller's root otherwise ("/users/null" without a session). */
  function StartDir(user: SessionUser): (d: string)
    ensures IsAdmin(user) ==> d == "/"
    ensures IsTenant(user) ==> d == RootOf(user.value)
    ensures user.None? ==> d == RootOf("null")
  {
    if IsAdmin(user) then "/" else RootOf(user.GetOr("null"))
  }

  function Lift(exts: seq<string>): (r: seq<Option<string>>)
    ensures |r| == |exts|
    ensures forall i :: 0 <= i < |r| ==> r[i] == Some(exts[i])
  {
    seq(|exts|, i requires 0 <= i < |exts| => Some(exts[i]))
  }

  /** The "/.type/<class>" listing: every file below the start directory
      whose extension belongs to the class. The scan uses the session
      client, or the admin client when the session client cannot be made. */
  function TypeView(user: SessionUser, path: string, key: Option<string>, types: TypeClasses.TypeMap, env: Env): (v: Viewed)
    ensures key.None? ==> v == Viewed(ListError("Unknown type: " + "null"), [])
    ensures key.Some? && key.value !in types ==> v == Viewed(ListError("Unknown type: " + key.value), [])
    ensures env.sessionClient.Exn? && env.adminClient.Exn? && key.Some? && key.value in types ==>
              v == Viewed(ListError("Failed to connect to HDFS: " + env.adminClient.msg), [])
    // at most one storage call: the recursive scan of the start directory
    ensures |v.calls| <= 1
    ensures forall i :: 0 <= i < |v.calls| ==>
              v.calls[i].op == SearchTree(StartDir(user))
              && (v.calls[i].client == AdminClient <==> env.sessionClient.Exn?)
    ensures v.reply.Listing? ==> v.reply.path == path
    ensures v.reply.Listing? && v.calls != [] ==> env.tree.Ok? && |v.reply.items| <= |env.tree.v|
  {
    if key.None? || key.value !in types then
      Viewed(ListError("Unknown type: " + key.GetOr("null")), [])
    else if env.sessionClient.Exn? && env.adminClient.Exn? then
      Viewed(ListError("Failed to connect to HDFS: " + env.adminClient.msg), [])
    else
      var exts := types[key.value];
      if exts == [] then Viewed(Listing(path, []), [])
      else
        var client := if env.sessionClient.Ok? then SessionClient else AdminClient;
        var calls := [Call(client, SearchTree(StartDir(user)))];
        match env.tree
        case Exn(m) => Viewed(ListError("Failed to list directory: " + m), calls)
        case Ok(listing) => Viewed(Listing(path, Items(user, SearchByExtensions(listing, Some(Lift(exts))))), calls)
  }

  /** Every item of a type view is a scanned file whose extension is one of
      the class's, shown through the caller's path mapping. */
  lemma TypeViewSound(user: SessionUser, path: string, key: Option<string>, types: TypeClasses.TypeMap, env: Env, it: Item)
    requires TypeView(user, path, key, types, env).reply.Listing?
    requires it in TypeView(user, path, key, types, env).reply.items
    ensures key.Some? && key.value in types && env.tree.Ok?
    ensures exists i :: 0 <= i < |env.tree.v|
              && HasExtensionIn(env.tree.v[i], NormalizeExts(Lift(types[key.value])))
              && it == ItemOf(user, EntryOf(env.tree.v[i]))
  {
    var exts := Some(Lift(types[key.value]));
    var found := SearchByExtensions(env.tree.v, exts);
    var k :| 0 <= k < |found| && TypeView(user, path, key, types, env).reply.items[k] == it;
    SearchByExtensionsSoundAndOrdered(env.tree.v, [], exts, found[k]);
  }

  /** ... and every such file is listed. */
  lemma TypeViewComplete(user: SessionUser, path: string, key: Option<string>, types: TypeClasses.TypeMap, env: Env, i: int)
    requires key.Some? && key.value in types && types[key.value] != []
    requires env.sessionClient.Ok? || env.adminClient.Ok?
    requires env.tree.Ok? && 0 <= i < |env.tree.v|
    ensures TypeView(user, path, key, types, env).reply.Listing?
    ensures HasExtensionIn(env.tree.v[i], NormalizeExts(Lift(types[key.value]))) ==>
            ItemOf(user, EntryOf(env.tree.v[i])) in TypeView(user, path, key, types, env).reply.items
  {
    var found := SearchByExtensions(env.tree.v, Some(Lift(types[key.value])));
    var items := Items(user, found);
    assert TypeView(user, path, key, types, env).reply == Listing(path, items);
    if HasExtensionIn(env.tree.v[i], NormalizeExts(Lift(types[key.value]))) {
      assert EntryOf(env.tree.v[i]) in found;
      var k :| 0 <= k < |found| && found[k] == EntryOf(env.tree.v[i]);
      assert items[k] == ItemOf(user, EntryOf(env.tree.v[i]));
    }
  }

  // ---------------------------------------------------------------------
  // The trash view and the purge

  /** A trash entry the caller may see: everything for the admin, otherwise
      entries at or below the caller's root. */
  predicate Visible(user: SessionUser, e: Entry)
  {
    IsAdmin(user) || Under(RootOf(user.GetOr("null")), e.path)
  }

  function TrashItemOf(user: SessionUser, e: Entry): (it: TrashItem)
    ensures it.originalPath == e.path && it.name == e.name && it.isDirectory == e.isDirectory
    ensures it.expireAt == Expiration(e, DEFAULT_RETENTION)
    ensures IsTenant(user) && Under(RootOf(user.value), e.path) ==> StartsWith(it.path, "/")
    ensures !IsTenant(user) ==> it.path == e.path
  {
    TrashItem(e.name, ToVirtual(user, Some(e.path)).value, e.isDirectory, e.path, Expiration(e, DEFAULT_RETENTION))
  }

  /** The rows for the visible entries, in ledger order. */
  function VisibleItems(user: SessionUser, l: Ledger): (r: seq<TrashItem>)
    ensures |r| <= |l|
    ensures forall i :: 0 <= i < |l| && Visible(user, l[i]) ==> TrashItemOf(user, l[i]) in r
  {
    if l == [] then []
    else
      var rest := VisibleItems(user, l[1..]);
      assert forall i :: 1 <= i < |l| ==> l[i] == l[1..][i - 1];
      (if Visible(user, l[0]) then [TrashItemOf(user, l[0])] else []) + rest
  }

  lemma {:induction false} VisibleItemsSound(user: SessionUser, l: Ledger, it: TrashItem)
    requires it in VisibleItems(user, l)
    ensures exists e :: e in l && Visible(user, e) && it == TrashItemOf(user, e)
  {
    if !(Visible(user, l[0]) && it == TrashItemOf(user, l[0])) {
      VisibleItemsSound(user, l[1..], it);
    }
  }

  function ExpiryKey(it: TrashItem): int
  {
    it.expireAt
  }

  /** The admin deletes a purge issues, one recursive delete per path. */
  function PurgeCalls(paths: seq<string>): (calls: seq<Call>)
    ensures |calls| == |paths|
    ensures forall i :: 0 <= i < |calls| ==> calls[i] == Call(AdminClient, Delete(paths[i], true))
  {
    seq(|paths|, i requires 0 <= i < |paths| => Call(AdminClient, Delete(paths[i], true)))
  }

  /** The "/.trash" listing: when the admin client can be made the due
      entries are purged first; the caller's visible entries are then shown
      earliest expiration first. */
  function TrashView(user: SessionUser, path: string, ledger: Ledger, now: int, adminClient: Outcome<()>): (r: Listed)
    ensures r.reply.TrashListing? && r.reply.path == path
    // the purge drops exactly the due entries, and only when it can run
    ensures adminClient.Exn? ==> r.ledger == ledger && r.calls == []
    ensures forall e :: e in r.ledger <==> e in ledger && (adminClient.Exn? || !Expired(e, DEFAULT_RETENTION, now))
    ensures forall i :: 0 <= i < |r.calls| ==> r.calls[i].client == AdminClient && r.calls[i].op.Delete?
    ensures SortedBy(r.reply.trashItems, ExpiryKey)
    ensures multiset(r.reply.trashItems) == multiset(VisibleItems(user, r.ledger))
  {
    KeptMembers(ledger, DEFAULT_RETENTION, now);
    var l := if adminClient.Ok? then Kept(ledger, DEFAULT_RETENTION, now) else ledger;
    var calls := if adminClient.Ok? then PurgeCalls(PurgedPaths(ledger, DEFAULT_RETENTION, now)) else [];
    Listed(TrashListing(path, Sort(VisibleItems(user, l), ExpiryKey)), calls, l)
  }

  /** The trash view lists exactly the caller's visible entries among those
      the purge kept. */
  lemma TrashViewMembers(user: SessionUser, path: string, ledger: Ledger, now: int, adminClient: Outcome<()>, it: TrashItem)
    ensures it in TrashView(user, path, ledger, now, adminClient).reply.trashItems
            <==> exists e :: e in TrashView(user, path, ledger, now, adminClient).ledger
                             && Visible(user, e) && it == TrashItemOf(user, e)
  {
    var r := TrashView(user, path, ledger, now, adminClient);
    assert r.reply.trashItems == Sort(VisibleItems(user, r.ledger), ExpiryKey);
    SortedVisibleMembers(user, r.ledger, it);
  }

  lemma SortedVisibleMembers(user: SessionUser, l: Ledger, it: TrashItem)
    ensures it in Sort(VisibleItems(user, l), ExpiryKey) <==> exists e :: e in l && Visible(user, e) && it == TrashItemOf(user, e)
  {
    var shown := VisibleItems(user, l);
    SortMembers(shown, ExpiryKey, it);
    if it in shown {
      VisibleItemsSound(user, l, it);
    }
    if exists e :: e in l && Visible(user, e) && it == TrashItemOf(user, e) {
      var e :| e in l && Visible(user, e) && it == TrashItemOf(user, e);
      var i :| 0 <= i < |l| && l[i] == e;
    }
  }

  /** After a purge nothing due is shown, and a tenant sees only its own
      entries, under virtual paths. */
  lemma TrashViewPendingAndOwn(user: SessionUser, path: string, ledger: Ledger, now: int, adminClient: Outcome<()>, it: TrashItem)
    requires it in TrashView(user, path, ledger, now, adminClient).reply.trashItems
    ensures adminClient.Ok? ==> it.expireAt > now
    ensures IsTenant(user) ==> Under(RootOf(user.value), it.originalPath) && StartsWith(it.path, "/")
  {
    TrashViewMembers(user, path, ledger, now, adminClient, it);
  }

  /** Entries falling due at the same instant keep their ledger order. */
  lemma TrashViewStable(user: SessionUser, path: string, ledger: Ledger, now: int, adminClient: Outcome<()>, k: int)
    ensures WithKey(TrashView(user, path, ledger, now, adminClient).reply.trashItems, ExpiryKey, k)
            == WithKey(VisibleItems(user, TrashView(user, path, ledger, now, adminClient).ledger), ExpiryKey, k)
  {
    var r := TrashView(user, path, ledger, now, adminClient);
    SortStable(VisibleItems(user, r.ledger), ExpiryKey, k);
  }

  /** The purge a trash view runs deletes, as admin, the stored path of every
      due entry, whoever it belongs to. */
  lemma TrashViewPurgesEveryone(user: SessionUser, path: string, ledger: Ledger, now: int, e: Entry)
    requires e in ledger && Expired(e, DEFAULT_RETENTION, now)
    ensures Call(AdminClient, Delete(e.path, true)) in TrashView(user, path, ledger, now, Ok(())).calls
  {
    PurgedMembers(ledger, DEFAULT_RETENTION, now);
    var paths := PurgedPaths(ledger, DEFAULT_RETENTION, now);
    var i :| 0 <= i < |paths| && paths[i] == e.path;
    assert PurgeCalls(paths)[i] == Call(AdminClient, Delete(e.path, true));
  }

  /** `handlePurge`: purge with the admin client and report the paths. */
  function Purge(ledger: Ledger, now: int, adminClient: Outcome<()>): (r: Listed)
    ensures adminClient.Exn? ==> r == Listed(ListError("Purge failed: " + adminClient.msg), [], ledger)
    ensures adminClient.Ok? ==> r.reply.Purged?
    ensures r.reply.Purged? ==>
              (forall p :: p in r.reply.purged <==> exists e :: e in ledger && e.path == p && Expired(e, DEFAULT_RETENTION, now))
              && (forall e :: e in r.ledger <==> e in ledger && !Expired(e, DEFAULT_RETENTION, now))
              && r.calls == PurgeCalls(r.reply.purged)
  {
    match adminClient
    case Exn(m) => Listed(ListError("Purge failed: " + m), [], ledger)
    case Ok(_) =>
      KeptMembers(ledger, DEFAULT_RETENTION, now);
      PurgedMembers(ledger, DEFAULT_RETENTION, now);
      var paths := PurgedPaths(ledger, DEFAULT_RETENTION, now);
      Listed(Purged(paths), PurgeCalls(paths), Kept(ledger, DEFAULT_RETENTION, now))
  }

  // ---------------------------------------------------------------------
  // The ordinary listing

  /** The items of the children not recorded in the trash ledger, in order.
      Only an exact path match hides a child. */
  function Shown(user: SessionUser, entries: seq<FileEntry>, ledger: Ledger): (r: seq<Item>)
    ensures |r| <= |entries|
    ensures forall i :: 0 <= i < |entries| && !TrashLedger.Contains(ledger, entries[i].path) ==> ItemOf(user, entries[i]) in r
  {
    if entries == [] then []
    else
      var rest := Shown(user, entries[1..], ledger);
      assert forall i :: 1 <= i < |entries| ==> entries[i] == entries[1..][i - 1];
      (if TrashLedger.Contains(ledger, entries[0].path) then [] else [ItemOf(user, entries[0])]) + rest
  }

  lemma {:induction false} ShownSound(user: SessionUser, entries: seq<FileEntry>, ledger: Ledger, it: Item)
    requires it in Shown(user, entries, ledger)
    ensures exists i :: 0 <= i < |entries| && !TrashLedger.Contains(ledger, entries[i].path) && it == ItemOf(user, entries[i])
  {
    if TrashLedger.Contains(ledger, entries[0].path) || it != ItemOf(user, entries[0]) {
      ShownSound(user, entries[1..], ledger, it);
      var i :| 0 <= i < |entries[1..]| && !TrashLedger.Contains(ledger, entries[1..][i].path) && it == ItemOf(user, entries[1..][i]);
      assert entries[i + 1] == entries[1..][i];
    }
  }

  /** The path probed before listing, and whether a missing per-user path
      gets the best-effort `mkdirs` and a second probe. */
  function Probe(actual: string, env: Env): (r: (bool, seq<Call>))
    ensures r.0 <==> env.found == Ok(true) || (StartsWith(actual, USER_ROOT + "/") && env.foundAfterMkdirs == Ok(true))
    ensures Call(SessionClient, Mkdirs(actual)) in r.1 <==> env.found != Ok(true) && StartsWith(actual, USER_ROOT + "/")
    ensures forall i :: 0 <= i < |r.1| ==> r.1[i] in {Call(SessionClient, Exists(actual)), Call(SessionClient, Mkdirs(actual))}
  {
    var probe := [Call(SessionClient, Exists(actual))];
    if env.found == Ok(true) then (true, probe)
    else if StartsWith(actual, USER_ROOT + "/") then
      (env.foundAfterMkdirs == Ok(true), probe + [Call(SessionClient, Mkdirs(actual)), Call(SessionClient, Exists(actual))])
    else (false, probe)
  }

  /** The listing of an ordinary directory through the session client; a
      directory that is not there lists as empty. */
  function NormalView(user: SessionUser, path: string, actual: string, ledger: Ledger, env: Env): (v: Viewed)
    ensures env.sessionClient.Exn? ==> v == Viewed(ListError("Failed to connect to HDFS as user: " + env.sessionClient.msg), [])
    // every call is a session-client probe, mkdirs or listing of `actual`
    ensures forall i :: 0 <= i < |v.calls| ==> v.calls[i].client == SessionClient && Paths(v.calls[i].op) == [actual]
    ensures Call(SessionClient, ListWithMeta(actual)) in v.calls <==> env.sessionClient.Ok? && Probe(actual, env).0
    ensures env.sessionClient.Ok? && !Probe(actual, env).0 ==> v.reply == Listing(path, [])
    ensures env.sessionClient.Ok? && Probe(actual, env).0 && env.children.Exn? ==>
              v.reply == ListError("Failed to list directory: " + env.children.msg)
    ensures env.sessionClient.Ok? && Probe(actual, env).0 && env.children.Ok? ==>
              v.reply.Listing? && v.reply.path == path && |v.reply.items| <= |env.children.v|
  {
    match env.sessionClient
    case Exn(m) => Viewed(ListError("Failed to connect to HDFS as user: " + m), [])
    case Ok(_) =>
      var (found, probe) := Probe(actual, env);
      if !found then Viewed(Listing(path, []), probe)
      else
        var calls := probe + [Call(SessionClient, ListWithMeta(actual))];
        assert Call(SessionClient, ListWithMeta(actual)) !in probe;
        match env.children
        case Exn(m) => Viewed(ListError("Failed to list directory: " + m), calls)
        case Ok(statuses) => Viewed(Listing(path, Shown(user, ListDirWithMeta(statuses), ledger)), calls)
  }

  /** The ordinary listing shows exactly the children the ledger does not
      record, with directories reporting size 0. */
  lemma NormalViewItems(user: SessionUser, path: string, actual: string, ledger: Ledger, env: Env, it: Item)
    requires env.sessionClient.Ok? && Probe(actual, env).0 && env.children.Ok?
    ensures it in NormalView(user, path, actual, ledger, env).reply.items
            <==> exists i :: 0 <= i < |env.children.v| && !TrashLedger.Contains(ledger, env.children.v[i].path)
                             && it == ItemOf(user, FileEntry(env.children.v[i].path, env.children.v[i].isDirectory,
                                                             if env.children.v[i].isDirectory then 0 else env.children.v[i].len,
                                                             env.children.v[i].mtime))
  {
    var statuses := env.children.v;
    var entries := ListDirWithMeta(statuses);
    if it in Shown(user, entries, ledger) {
      ShownSound(user, entries, ledger, it);
      var i :| 0 <= i < |entries| && !TrashLedger.Contains(ledger, entries[i].path) && it == ItemOf(user, entries[i]);
      assert entries[i] == FileEntry(statuses[i].path, statuses[i].isDirectory,
                                     if statuses[i].isDirectory then 0 else statuses[i].len, statuses[i].mtime);
    }
  }

  // ---------------------------------------------------------------------
  // handleList and handleSearch

  /** `handleList`: resolve the path (null or empty meaning "/"), then pick
      the view by the path as given. */
  function List(user: SessionUser, pathParam: Option<string>, types: TypeClasses.TypeMap,
                ledger: Ledger, now: int, env: Env): (r: Listed)
    ensures Resolve(user, pathParam).Denied? ==> r == Listed(ListError("Access denied"), [], ledger)
    ensures Resolve(user, pathParam).Resolved? ==> !r.reply.ListError? || r.reply.message != "Access denied"
    // only the trash view touches the ledger
    ensures !StartsWith(Normalize(pathParam), TRASH_PREFIX) || StartsWith(Normalize(pathParam), TYPE_PREFIX) ==> r.ledger == ledger
  {
    var path := Normalize(pathParam);
    match Resolve(user, pathParam)
    case Denied(_) => Listed(ListError("Access denied"), [], ledger)
    case Resolved(actual) =>
      if StartsWith(path, TYPE_PREFIX) then
        var v := TypeView(user, path, TypeKey(path), types, env);
        Listed(v.reply, v.calls, ledger)
      else if StartsWith(path, TRASH_PREFIX) then
        TrashView(user, path, ledger, now, env.adminClient)
      else
        var v := NormalView(user, path, actual, ledger, env);
        Listed(v.reply, v.calls, ledger)
  }

  /** A tenant's type views and ordinary listings name only paths inside
      its own root. */
  lemma ListConfined(u: string, pathParam: Option<string>, types: TypeClasses.TypeMap, ledger: Ledger, now: int, env: Env)
    requires IsTenant(Some(u)) && !StartsWith(Normalize(pathParam), TRASH_PREFIX)
    ensures Confined(List(Some(u), pathParam, types, ledger, now, env).calls, RootOf(u))
  {
    var path := Normalize(pathParam);
    var r := List(Some(u), pathParam, types, ledger, now, env);
    if Resolve(Some(u), pathParam).Resolved? {
      if StartsWith(path, TYPE_PREFIX) {
        assert StartDir(Some(u)) == RootOf(u);
      } else {
        assert !IsReserved(path);
        assert Under(RootOf(u), Resolve(Some(u), pathParam).path);
      }
    }
  }

  /** Outside the trash view the admin client is only used by a type view
      whose session client could not be made. */
  lemma ListAdminUse(user: SessionUser, pathParam: Option<string>, types: TypeClasses.TypeMap, ledger: Ledger, now: int, env: Env, i: int)
    requires 0 <= i < |List(user, pathParam, types, ledger, now, env).calls|
    requires List(user, pathParam, types, ledger, now, env).calls[i].client == AdminClient
    ensures StartsWith(Normalize(pathParam), TRASH_PREFIX)
            || (StartsWith(Normalize(pathParam), TYPE_PREFIX) && env.sessionClient.Exn?)
  {
  }

  /** `handleSearch`: a case-sensitive name search below a start directory
      (null or empty meaning "/"). */
  function Search(user: SessionUser, startDir: Option<string>, name: Option<string>, env: Env): (v: Viewed)
    ensures FileOps.Missing(name) ==> v == Viewed(ListError("Name parameter is required for search"), [])
    ensures !FileOps.Missing(name) && Resolve(user, startDir).Denied? ==> v == Viewed(ListError("Access denied"), [])
    ensures v.reply.SearchResults? <==> !FileOps.Missing(name) && Resolve(user, startDir).Resolved?
                                        && env.sessionClient.Ok? && env.tree.Ok?
    ensures forall i :: 0 <= i < |v.calls| ==> v.calls[i] == Call(SessionClient, SearchTree(Resolve(user, startDir).path))
    ensures v.reply.SearchResults? ==>
              forall it :: it in v.reply.results <==>
                exists i :: 0 <= i < |env.tree.v| && Text.Contains(env.tree.v[i].name, name.value)
                            && it == ItemOf(user, EntryOf(env.tree.v[i]))
  {
    if FileOps.Missing(name) then Viewed(ListError("Name parameter is required for search"), [])
    else match Resolve(user, startDir)
      case Denied(_) => Viewed(ListError("Access denied"), [])
      case Resolved(start) =>
        if env.sessionClient.Exn? then Viewed(ListError("Search failed: " + env.sessionClient.msg), [])
        else
          var calls := [Call(SessionClient, SearchTree(start))];
          match env.tree
          case Exn(m) => Viewed(ListError("Search failed: " + m), calls)
          case Ok(listing) =>
            var found := HdfsListing.Search(listing, name.value);
            var items := Items(user, found);
            SearchItems(user, listing, name.value, items);
            Viewed(SearchResults(items), calls)
  }

  lemma SearchItems(user: SessionUser, listing: seq<Status>, name: string, items: seq<Item>)
    requires items == Items(user, HdfsListing.Search(listing, name))
    ensures forall it :: it in items <==>
              exists i :: 0 <= i < |listing| && Text.Contains(listing[i].name, name) && it == ItemOf(user, EntryOf(listing[i]))
  {
    var found := HdfsListing.Search(listing, name);
    forall it | it in items
      ensures exists i :: 0 <= i < |listing| && Text.Contains(listing[i].name, name) && it == ItemOf(user, EntryOf(listing[i]))
    {
      var k :| 0 <= k < |items| && items[k] == it;
      SearchSound(listing, name, found[k]);
    }
    forall i | 0 <= i < |listing| && Text.Contains(listing[i].name, name)
      ensures ItemOf(user, EntryOf(listing[i])) in items
    {
      var k :| 0 <= k < |found| && found[k] == EntryOf(listing[i]);
      assert items[k] == ItemOf(user, EntryOf(listing[i]));
    }
  }
}
