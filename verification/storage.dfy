/** The storage calls a request handler issues, and the shape of its reply.

    The Hadoop client is not modelled: each call it would make is recorded
    as a `Call`, and whatever the call returned or threw is an input of the
    handler (an `Outcome`). A call goes either through the session client,
    which runs as `PathResolver.StorageIdentity` of the session, or through
    the admin client, which always runs as "root".
 */
module Storage {
  import opened Wrappers
  import opened PathResolver

  datatype Client = SessionClient | AdminClient

  datatype Op =
    | Mkdirs(path: string)
    | Delete(path: string, recursive: bool)
    | Rename(src: string, dst: string)
    | CopyTo(src: string, dst: string)
    | CreateFile(path: string)
    | Upload(target: string)
    | Exists(path: string)
    | IsDirectory(path: string)
    | ListDir(path: string)
    | ListWithMeta(path: string)
    | SearchTree(path: string)        // recursive `listFiles(path, true)`
    | SetOwner(path: string, owner: string)
    | Chmod(path: string, mode: string)

  datatype Call = Call(client: Client, op: Op)

  /** What the handler sends back: `sendError` (HTTP 400 with a message) or
      a JSON body with a success flag, a message and sometimes a path. */
  datatype Reply =
    | Error(message: string)
    | Reported(success: bool, message: string, path: Option<string>)

  /** A handled request: the reply and the storage calls made, in order. */
  datatype Handled = Handled(reply: Reply, calls: seq<Call>)

  /** Every call went through the session client. */
  predicate AllSession(calls: seq<Call>)
  {
    forall i :: 0 <= i < |calls| ==> calls[i].client == SessionClient
  }

  /** The storage paths an operation names. */
  function Paths(op: Op): (ps: seq<string>)
    ensures |ps| == (if op.Rename? || op.CopyTo? then 2 else 1)
  {
    match op
    case Rename(src, dst) => [src, dst]
    case CopyTo(src, dst) => [src, dst]
    case Mkdirs(p) => [p]
    case Delete(p, _) => [p]
    case CreateFile(p) => [p]
    case Upload(p) => [p]
    case Exists(p) => [p]
    case IsDirectory(p) => [p]
    case ListDir(p) => [p]
    case ListWithMeta(p) => [p]
    case SearchTree(p) => [p]
    case SetOwner(p, _) => [p]
    case Chmod(p, _) => [p]
  }

  /** Every path named by every call lies under `root`. */
  predicate Confined(calls: seq<Call>, root: string)
  {
    forall i, j :: 0 <= i < |calls| && 0 <= j < |Paths(calls[i].op)| ==> Under(root, Paths(calls[i].op)[j])
  }

  /** Every ownership change hands the path to the session user. */
  predicate ChownsToSessionUser(user: SessionUser, calls: seq<Call>)
  {
    forall i :: 0 <= i < |calls| && calls[i].op.SetOwner? ==> user.Some? && calls[i].op.owner == user.value
  }

  /** The escalation discipline shared by every handler: the admin client is
      used only after the tenant attempt threw, only for a logged-in
      non-admin caller, and ownership only ever goes to that caller. */
  predicate Disciplined(user: SessionUser, tenantThrew: bool, calls: seq<Call>)
  {
    (!AllSession(calls) ==> tenantThrew && IsTenant(user))
    && ChownsToSessionUser(user, calls)
  }

  /** `ensureUserRootOwnedByAdmin`: hand the tenant root back to the tenant
      and close it to others, as admin; nothing for an empty name. */
  function EnsureRootOwned(u: string): (calls: seq<Call>)
    ensures calls == [] <==> u == []
    ensures forall i :: 0 <= i < |calls| ==> calls[i].client == AdminClient
    ensures ChownsToSessionUser(Some(u), calls)
    // only the tenant root changes, and it ends owned by the tenant, mode 700
    ensures u != [] ==> OwnershipChanges(calls) == [SetOwner(RootOf(u), u), Chmod(RootOf(u), "700")]
  {
    if u == [] then []
    else [Call(AdminClient, SetOwner(RootOf(u), u)), Call(AdminClient, Chmod(RootOf(u), "700"))]
  }

  lemma AllSessionAppend(a: seq<Call>, b: seq<Call>)
    ensures AllSession(a + b) <==> AllSession(a) && AllSession(b)
  {
    if AllSession(a + b) {
      forall i | 0 <= i < |a| ensures a[i].client == SessionClient {
        assert (a + b)[i] == a[i];
      }
      forall i | 0 <= i < |b| ensures b[i].client == SessionClient {
        assert (a + b)[|a| + i] == b[i];
      }
    }
    if AllSession(a) && AllSession(b) {
      forall i | 0 <= i < |a + b| ensures (a + b)[i].client == SessionClient {
        if i >= |a| { assert (a + b)[i] == b[i - |a|]; } else { assert (a + b)[i] == a[i]; }
      }
    }
  }

  /** The ownership changes among `calls`, in order. */
  function OwnershipChanges(calls: seq<Call>): (r: seq<Op>)
    ensures forall i :: 0 <= i < |r| ==> r[i].SetOwner? || r[i].Chmod?
    ensures |r| <= |calls|
  {
    if calls == [] then []
    else (if calls[0].op.SetOwner? || calls[0].op.Chmod? then [calls[0].op] else []) + OwnershipChanges(calls[1..])
  }

  lemma {:induction false} OwnershipChangesAppend(a: seq<Call>, b: seq<Call>)
    ensures OwnershipChanges(a + b) == OwnershipChanges(a) + OwnershipChanges(b)
  {
    if a == [] {
      assert a + b == b;
    } else {
      assert (a + b)[1..] == a[1..] + b;
      assert (a + b)[0] == a[0];
      OwnershipChangesAppend(a[1..], b);
    }
  }

  /** The admin half of an escalated move, copy or save: hand the tenant
      root back to the tenant, repeat the operation as admin, then the
      follow-up ownership changes `after`. */
  function AdminRetry(u: string, op: Op, after: seq<Call>): (calls: seq<Call>)
    requires !op.SetOwner? && !op.Chmod?
    requires forall i :: 0 <= i < |after| ==> after[i].client == AdminClient
    requires ChownsToSessionUser(Some(u), after)
    ensures forall i :: 0 <= i < |calls| ==> calls[i].client == AdminClient
    ensures ChownsToSessionUser(Some(u), calls)
    ensures Call(AdminClient, op) in calls
    ensures OwnershipChanges(calls) == OwnershipChanges(EnsureRootOwned(u)) + OwnershipChanges(after)
  {
    var root := EnsureRootOwned(u);
    var mid := [Call(AdminClient, op)];
    assert OwnershipChanges(mid) == [] by { assert mid[1..] == []; }
    OwnershipChangesAppend(root, mid);
    OwnershipChangesAppend(root + mid, after);
    ChownsAppend(Some(u), root, mid);
    ChownsAppend(Some(u), root + mid, after);
    assert (root + mid + after)[|root|] == Call(AdminClient, op);
    root + mid + after
  }

  /** A handler that stayed on the session client is disciplined, and one
      that escalated for a tenant after a failure is too, provided its admin
      calls only chown to that tenant. */
  lemma DisciplineOf(user: SessionUser, threw: bool, first: seq<Call>, tail: seq<Call>)
    requires AllSession(first) && forall i :: 0 <= i < |first| ==> !first[i].op.SetOwner?
    requires tail != [] ==> threw && IsTenant(user)
    requires ChownsToSessionUser(user, tail)
    ensures Disciplined(user, threw, first + tail)
  {
    ChownsAppend(user, first, tail);
    if tail == [] {
      assert first + tail == first;
    }
  }

  lemma ChownsAppend(user: SessionUser, a: seq<Call>, b: seq<Call>)
    requires ChownsToSessionUser(user, a) && ChownsToSessionUser(user, b)
    ensures ChownsToSessionUser(user, a + b)
  {
    forall i | 0 <= i < |a + b| && (a + b)[i].op.SetOwner?
      ensures user.Some? && (a + b)[i].op.owner == user.value
    {
      if i >= |a| {
        assert (a + b)[i] == b[i - |a|];
      }
    }
  }
}
