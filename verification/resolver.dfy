/** The per-tenant path mapping of the drive (AbstractHdfsServlet and its
    copies in DirectoryServlet and the legacy FileServlet).

    A caller is known only by the optional "username" attribute of its
    session. The admin principal is the username "root"; every other
    username is a tenant whose files live under "/users/<name>". Paths are
    compared as plain strings: ".." is never interpreted.
 */
module PathResolver {
  import opened Wrappers
  import opened Text

  const ADMIN_USER: string := "root"
  const USER_ROOT: string := "/users"
  const TYPE_PREFIX: string := "/.type/"
  const TRASH_PREFIX: string := "/.trash"

  /** The session username, `None` when there is no session or no attribute. */
  type SessionUser = Option<string>

  predicate IsAdmin(user: SessionUser)
  {
    user.Some? && user.value == ADMIN_USER
  }

  /** An ordinary logged-in tenant. */
  predicate IsTenant(user: SessionUser)
  {
    user.Some? && !IsAdmin(user)
  }

  /** "/users/<name>": the subtree a tenant's virtual paths map into. */
  function RootOf(name: string): (r: string)
    ensures StartsWith(r, USER_ROOT + "/")
    ensures r[|USER_ROOT| + 1..] == name
  {
    USER_ROOT + "/" + name
  }

  /** `path` is the root itself or lies lexically below it. */
  predicate Under(root: string, path: string)
  {
    path == root || StartsWith(path, root + "/")
  }

  /** The synthetic namespaces that never go through the tenant mapping. */
  predicate IsReserved(path: string)
  {
    StartsWith(path, TYPE_PREFIX) || StartsWith(path, TRASH_PREFIX)
  }

  /** The identity storage calls run under: the session username, or the
      admin principal when there is none. */
  function StorageIdentity(user: SessionUser): (id: string)
    ensures user.Some? ==> id == user.value
    ensures user.None? ==> id == ADMIN_USER
  {
    user.GetOr(ADMIN_USER)
  }

  datatype Denial = NotLoggedIn | AccessDenied

  datatype Resolution = Resolved(path: string) | Denied(reason: Denial)

  /** A null or empty request path counts as "/". */
  function Normalize(virtualPath: Option<string>): (v: string)
    ensures |v| > 0
    ensures virtualPath.Some? && virtualPath.value != [] ==> v == virtualPath.value
  {
    if virtualPath.None? || virtualPath.value == [] then "/" else virtualPath.value
  }

  /** `resolveToActualPath`: map a caller's virtual path to a storage path. */
  function Resolve(user: SessionUser, virtualPath: Option<string>): (r: Resolution)
    // the reserved namespaces pass through for every caller, logged in or not
    ensures IsReserved(Normalize(virtualPath)) ==> r == Resolved(Normalize(virtualPath))
    // the admin principal sees the raw tree
    ensures IsAdmin(user) ==> r == Resolved(Normalize(virtualPath))
    // no identity and no reserved prefix: rejected
    ensures user.None? && !IsReserved(Normalize(virtualPath)) ==> r == Denied(NotLoggedIn)
    // a tenant only ever receives paths inside its own root (outside the reserved namespaces)
    ensures IsTenant(user) && !IsReserved(Normalize(virtualPath)) && r.Resolved?
            ==> Under(RootOf(user.value), r.path)
    // an absolute path under /users/ is accepted exactly when it is the tenant's own
    ensures IsTenant(user) && !IsReserved(Normalize(virtualPath))
            && StartsWith(Normalize(virtualPath), USER_ROOT + "/")
            ==> (r.Resolved? <==> Under(RootOf(user.value), Normalize(virtualPath)))
    // only absolute /users/ paths of someone else are ever denied to a tenant
    ensures IsTenant(user) && r.Denied? ==> r.reason == AccessDenied && StartsWith(Normalize(virtualPath), USER_ROOT + "/")
  {
    var v := Normalize(virtualPath);
    if IsReserved(v) then Resolved(v)
    else if IsAdmin(user) then Resolved(v)
    else if user.None? then Denied(NotLoggedIn)
    else
      var root := RootOf(user.value);
      if StartsWith(v, USER_ROOT + "/") then
        if Under(root, v) then Resolved(v) else Denied(AccessDenied)
      else if v == "/" then Resolved(root)
      else
        var rel := if StartsWith(v, "/") then v else "/" + v;
        StartsWithAppend(root + "/", rel[1..]);
        assert root + rel == root + "/" + rel[1..];
        Resolved(root + rel)
  }

  /** `toVirtualPath`: the path a caller is shown for a storage path. */
  function ToVirtual(user: SessionUser, actualPath: Option<string>): (r: Option<string>)
    ensures actualPath.None? ==> r.None?
    ensures actualPath.Some? ==> r.Some?
    ensures actualPath.Some? && !IsTenant(user) ==> r == actualPath
    ensures actualPath.Some? && IsTenant(user) && !Under(RootOf(user.value), actualPath.value) ==> r == actualPath
    ensures actualPath.Some? && IsTenant(user) && Under(RootOf(user.value), actualPath.value)
            ==> StartsWith(r.value, "/")
                && ((r.value == "/" && actualPath.value == RootOf(user.value))
                    || RootOf(user.value) + r.value == actualPath.value)
  {
    if actualPath.None? then None
    else
      var p := actualPath.value;
      if IsAdmin(user) || user.None? then Some(p)
      else
        var root := RootOf(user.value);
        if p == root then Some("/")
        else if StartsWith(p, root + "/") then
          assert p == root + p[|root|..];
          assert p[|root|..][..1] == "/";
          Some(p[|root|..])
        else Some(p)
  }

  // ---------------------------------------------------------------------
  // Properties

  /** Isolation: for tenants without '/' in their names, whatever a tenant
      resolves outside the reserved namespaces is never inside another
      tenant's root. */
  lemma TenantIsolation(u: string, other: string, v: Option<string>)
    requires IsTenant(Some(u))
    requires u != other && '/' !in u && '/' !in other
    requires !IsReserved(Normalize(v))
    requires Resolve(Some(u), v).Resolved?
    ensures !Under(RootOf(other), Resolve(Some(u), v).path)
  {
    RootsDisjoint(u, other, Resolve(Some(u), v).path);
  }

  /** The tenant name a storage path is filed under: the segment after "/users/". */
  function TenantSegment(p: string): (seg: string)
    ensures '/' !in seg
  {
    var t := if |p| > |USER_ROOT| then p[|USER_ROOT| + 1..] else [];
    var i := IndexOf(t, '/');
    if i < 0 then t else t[..i]
  }

  /** Every path under a slash-free tenant's root is filed under that tenant. */
  lemma SegmentOfUnder(u: string, p: string)
    requires '/' !in u
    ensures Under(RootOf(u), p) ==> TenantSegment(p) == u
  {
    var n := |USER_ROOT| + 1;
    var ru := RootOf(u);
    if p == ru {
      assert p[n..] == u;
    } else if StartsWith(p, ru + "/") {
      var rest := p[|ru| + 1..];
      assert p == ru + "/" + rest;
      assert p[n..] == u + "/" + rest;
      IndexOfAfterFree(u, '/', rest);
      assert (u + "/" + rest)[..|u|] == u;
    }
  }

  /** Two distinct slash-free tenant roots share no path. */
  lemma RootsDisjoint(u: string, w: string, p: string)
    requires u != w && '/' !in u && '/' !in w
    ensures !(Under(RootOf(u), p) && Under(RootOf(w), p))
  {
    SegmentOfUnder(u, p);
    SegmentOfUnder(w, p);
  }

  /** Round trip: a tenant's relative virtual path comes back unchanged. */
  lemma VirtualRoundTrip(u: string, v: string)
    requires IsTenant(Some(u))
    requires StartsWith(v, "/") && !IsReserved(v) && !StartsWith(v, USER_ROOT + "/")
    ensures Resolve(Some(u), Some(v)).Resolved?
    ensures ToVirtual(Some(u), Some(Resolve(Some(u), Some(v)).path)) == Some(v)
  {
    var root := RootOf(u);
    if v != "/" {
      var p := root + v;
      assert Resolve(Some(u), Some(v)) == Resolved(p);
      assert p != root;
      assert StartsWith(p, root + "/") by { assert p[..|root| + 1] == root + "/"; }
      assert p[|root|..] == v;
    }
  }

  /** The storage-side round trip: showing a tenant one of its own paths and
      resolving the result gives the path back, unless the shown path itself
      starts with "/users/" (a folder named "users" inside the tenant root), or
      the path is the root spelled with a trailing '/'. */
  lemma ActualRoundTrip(u: string, p: string)
    requires IsTenant(Some(u)) && Under(RootOf(u), p) && p != RootOf(u) + "/"
    requires !IsReserved(ToVirtual(Some(u), Some(p)).value)
    requires !StartsWith(ToVirtual(Some(u), Some(p)).value, USER_ROOT + "/")
    ensures Resolve(Some(u), ToVirtual(Some(u), Some(p))) == Resolved(p)
  {
    var v := ToVirtual(Some(u), Some(p)).value;
    var root := RootOf(u);
    if p != root {
      assert v == p[|root|..] && v != "/";
      assert root + v == p;
    }
  }

  /** The law `resolve(toVirtual(resolve(v))) == resolve(v)` fails in the
      code: tenant u may open its own "/users/u/users/w", is shown
      "/users/w", and resolving that is denied whenever w is not u's own
      name (or below it). */
  lemma UsersFolderBreaksIdempotence(u: string, w: string)
    requires IsTenant(Some(u)) && w != u && !StartsWith(w, u + "/")
    ensures Resolve(Some(u), Some(RootOf(u) + "/users/" + w)) == Resolved(RootOf(u) + "/users/" + w)
    ensures ToVirtual(Some(u), Some(RootOf(u) + "/users/" + w)) == Some("/users/" + w)
    ensures Resolve(Some(u), Some("/users/" + w)) == Denied(AccessDenied)
  {
    var root := RootOf(u);
    var q := "/users/" + w;
    assert root + "/users/" + w == root + q;
    UsersFolderUnderRoot(u, q);
    ForeignUsersPathDenied(u, w);
  }

  /** A tenant's own "/users/..." folder: resolved as is, shown without the root. */
  lemma UsersFolderUnderRoot(u: string, q: string)
    requires IsTenant(Some(u)) && StartsWith(q, "/")
    ensures Resolve(Some(u), Some(RootOf(u) + q)) == Resolved(RootOf(u) + q)
    ensures ToVirtual(Some(u), Some(RootOf(u) + q)) == Some(q)
  {
    var root := RootOf(u);
    var p := root + q;
    assert p == "/users/" + (u + q);
    UsersPathNotReserved(u + q);
    assert StartsWith(p, root + "/") by { assert p[..|root| + 1] == root + "/"; }
    assert p[|root|..] == q;
  }

  /** "/users/w" is denied to tenant u unless w is u's own name or below it. */
  lemma ForeignUsersPathDenied(u: string, w: string)
    requires IsTenant(Some(u)) && w != u && !StartsWith(w, u + "/")
    ensures Resolve(Some(u), Some("/users/" + w)) == Denied(AccessDenied)
  {
    var root := RootOf(u);
    var q := "/users/" + w;
    UsersPathNotReserved(w);
    UnderRootOfUsersPath(u, w);
  }

  /** "/users/w" lies under tenant u's root exactly when w is u or below u. */
  lemma UnderRootOfUsersPath(u: string, w: string)
    ensures Under(RootOf(u), "/users/" + w) <==> w == u || StartsWith(w, u + "/")
  {
    var root := RootOf(u);
    var q := "/users/" + w;
    assert q[7..] == w;
    assert root == "/users/" + u;
    if StartsWith(q, root + "/") {
      assert q[7..][..|u| + 1] == q[..|root| + 1][7..];
    }
    if StartsWith(w, u + "/") {
      assert q[..|root| + 1] == "/users/" + w[..|u| + 1];
    }
  }

  /** Nothing under "/users/" is in a reserved namespace. */
  lemma UsersPathNotReserved(w: string)
    ensures !IsReserved("/users/" + w) && StartsWith("/users/" + w, "/users/")
  {
    var q := "/users/" + w;
    assert q[1] == 'u';
    assert q[..7] == "/users/";
    assert q[..7][1] == q[1];
  }

  /** The reserved namespaces are not checked at all: even a caller without
      a session resolves "/.trash/../users/bob" to itself. */
  lemma ReservedBypass()
    ensures Resolve(None, Some("/.trash/../users/bob")) == Resolved("/.trash/../users/bob")
  {
    var p := "/.trash/../users/bob";
    assert StartsWith(p, TRASH_PREFIX) by { assert p[..7] == TRASH_PREFIX; }
  }

  /** Prefix check is exact on the name: "/users/alice2" is denied to "alice". */
  lemma SimilarNameDenied()
    ensures Resolve(Some("alice"), Some("/users/alice2")) == Denied(AccessDenied)
  {
    var p := "/users/alice2";
    assert StartsWith(p, "/users/") by { assert p[..7] == "/users/"; }
    assert !IsReserved(p) by { assert p[1] != '.'; assert p[..7][1] == p[1]; }
    assert p != RootOf("alice");
    assert !StartsWith(p, RootOf("alice") + "/") by { assert p[12] != '/'; }
  }
  // ---------------------------------------------------------------------
  // The servlet-local copies

  /** The private copies of the two mappings (DirectoryServlet and the legacy
      FileServlet), statement by statement: the request path is reassigned in
      place and every exit is an early return. They compute `Resolve` and
      `ToVirtual`. */
  method MapPathsStepwise(user: SessionUser, virtualPath: Option<string>, actualPath: Option<string>)
    returns (resolved: Resolution, shown: Option<string>)
    ensures resolved == Resolve(user, virtualPath)
    ensures shown == ToVirtual(user, actualPath)
  {
    resolved := ResolveStepwise(user, virtualPath);
    shown := ToVirtualStepwise(user, actualPath);
  }

  method ResolveStepwise(user: SessionUser, virtualPath: Option<string>) returns (r: Resolution)
    ensures r == Resolve(user, virtualPath)
  {
    var v: string;
    if virtualPath.None? || virtualPath.value == [] {
      v := "/";
    } else {
      v := virtualPath.value;
    }
    if StartsWith(v, "/.type/") || StartsWith(v, "/.trash") {
      return Resolved(v);
    }
    if user.Some? && user.value == "root" {
      return Resolved(v);
    }
    if user.None? {
      return Denied(NotLoggedIn);
    }
    var actualRoot := "/users" + "/" + user.value;
    if StartsWith(v, "/users" + "/") {
      if v == actualRoot || StartsWith(v, actualRoot + "/") {
        return Resolved(v);
      }
      return Denied(AccessDenied);
    }
    if v == "/" {
      return Resolved(actualRoot);
    }
    if !StartsWith(v, "/") {
      v := "/" + v;
    }
    return Resolved(actualRoot + v);
  }

  method ToVirtualStepwise(user: SessionUser, actualPath: Option<string>) returns (r: Option<string>)
    ensures r == ToVirtual(user, actualPath)
  {
    if actualPath.None? {
      return None;
    }
    var p := actualPath.value;
    if user.Some? && user.value == "root" {
      return Some(p);
    }
    if user.None? {
      return Some(p);
    }
    var actualRoot := "/users" + "/" + user.value;
    if p == actualRoot {
      return Some("/");
    }
    if StartsWith(p, actualRoot + "/") {
      return Some(p[|actualRoot|..]);
    }
    return Some(p);
  }
}
