/** The file handlers of the current FileServlet (web/file/FileServlet):
    move, copy, save, upload and delete, with their admin fallback.

    Every handler first resolves the caller's paths; a denial answers
    "Access denied" before any storage call. The storage attempt then runs
    through the session client. Only when that attempt THROWS, and only for
    a logged-in caller who is not the admin, does the handler retry through
    the admin client and hand ownership back to the caller. A `false`
    return is never escalated.
 */
module FileOps {
  import opened Wrappers
  import opened Text
  import opened PathResolver
  import opened Storage
  import TrashLedger

  /** The parameter is absent or empty. */
  predicate Missing(p: Option<string>)
  {
    p.None? || p.value == []
  }

  /** The session attempt threw and the caller is a logged-in non-admin:
      the only situation in which a handler turns to the admin client. */
  predicate Escalates<T>(user: SessionUser, tenant: Outcome<T>)
  {
    tenant.Exn? && IsTenant(user)
  }

  // ---------------------------------------------------------------------
  // Move and copy

  /** `handleMove`. `tenant` is what the session client's move returned or
      threw, `admin` the same for the admin client's retry. */
  function Move(user: SessionUser, src: Option<string>, dst: Option<string>,
                tenant: Outcome<bool>, admin: Outcome<bool>): (h: Handled)
    ensures Missing(src) || Missing(dst) ==> h == Handled(Error("src and dst parameters are required"), [])
    ensures !Missing(src) && !Missing(dst) && (Resolve(user, src).Denied? || Resolve(user, dst).Denied?)
            ==> h == Handled(Error("Access denied"), [])
    ensures h.reply.Reported? <==> !Missing(src) && !Missing(dst) && Resolve(user, src).Resolved? && Resolve(user, dst).Resolved?
    ensures Disciplined(user, tenant.Exn?, h.calls)
    // the session client's answer, or the admin retry's after an exception
    ensures h.reply.Reported? ==>
              (h.reply.success <==> tenant == Ok(true) || (Escalates(user, tenant) && admin == Ok(true)))
              && h.reply.message == (if h.reply.success then "Moved successfully" else "Move failed")
    ensures !Escalates(user, tenant) ==> OwnershipChanges(h.calls) == []
    // an escalated move re-owns the tenant root and, if it moved, hands the destination over (no chmod)
    ensures h.reply.Reported? && Escalates(user, tenant) ==>
              OwnershipChanges(h.calls) == OwnershipChanges(EnsureRootOwned(user.value))
                                           + (if admin == Ok(true) then [SetOwner(Resolve(user, dst).path, user.value)] else [])
  {
    if Missing(src) || Missing(dst) then Handled(Error("src and dst parameters are required"), [])
    else
      var rs := Resolve(user, src);
      var rd := Resolve(user, dst);
      if rs.Denied? || rd.Denied? then Handled(Error("Access denied"), [])
      else
        var ok := tenant == Ok(true) || (Escalates(user, tenant) && admin == Ok(true));
        var reply := Reported(ok, if ok then "Moved successfully" else "Move failed", None);
        Handled(reply, MoveCalls(user, rs.path, rd.path, tenant, admin))
  }

  /** The storage calls of a rename: the session client's, then, when it
      threw for a tenant, the admin retry, which hands the destination
      over if it moved. */
  function MoveCalls(user: SessionUser, src: string, dst: string, tenant: Outcome<bool>, admin: Outcome<bool>): (calls: seq<Call>)
    ensures Disciplined(user, tenant.Exn?, calls)
    ensures !Escalates(user, tenant) ==> OwnershipChanges(calls) == []
    ensures Escalates(user, tenant) ==>
              OwnershipChanges(calls) == OwnershipChanges(EnsureRootOwned(user.value))
                                         + (if admin == Ok(true) then [SetOwner(dst, user.value)] else [])
  {
    var op := Rename(src, dst);
    var first := [Call(SessionClient, op)];
    assert OwnershipChanges(first) == [] by { assert first[1..] == []; }
    if !Escalates(user, tenant) then
      DisciplineOf(user, tenant.Exn?, first, []);
      assert first + [] == first;
      first
    else
      var u := user.value;
      var after := if admin == Ok(true) then [Call(AdminClient, SetOwner(dst, u))] else [];
      assert OwnershipChanges(after) == (if admin == Ok(true) then [SetOwner(dst, u)] else []) by {
        if after != [] { assert after[1..] == []; }
      }
      var tail := AdminRetry(u, op, after);
      DisciplineOf(user, tenant.Exn?, first, tail);
      OwnershipChangesAppend(first, tail);
      first + tail
  }

  /** `handleCopy`: as move, and a destination the admin copied is also
      closed to others (chmod 600). */
  function Copy(user: SessionUser, src: Option<string>, dst: Option<string>,
                tenant: Outcome<bool>, admin: Outcome<bool>): (h: Handled)
    ensures Missing(src) || Missing(dst) ==> h == Handled(Error("src and dst parameters are required"), [])
    ensures !Missing(src) && !Missing(dst) && (Resolve(user, src).Denied? || Resolve(user, dst).Denied?)
            ==> h == Handled(Error("Access denied"), [])
    ensures h.reply.Reported? <==> !Missing(src) && !Missing(dst) && Resolve(user, src).Resolved? && Resolve(user, dst).Resolved?
    ensures Disciplined(user, tenant.Exn?, h.calls)
    ensures h.reply.Reported? ==>
              (h.reply.success <==> tenant == Ok(true) || (Escalates(user, tenant) && admin == Ok(true)))
              && h.reply.message == (if h.reply.success then "Copied successfully" else "Copy failed")
    ensures !Escalates(user, tenant) ==> OwnershipChanges(h.calls) == []
    ensures h.reply.Reported? && Escalates(user, tenant) ==>
              OwnershipChanges(h.calls) == OwnershipChanges(EnsureRootOwned(user.value))
                                           + (if admin == Ok(true)
                                              then [SetOwner(Resolve(user, dst).path, user.value), Chmod(Resolve(user, dst).path, "600")]
                                              else [])
  {
    if Missing(src) || Missing(dst) then Handled(Error("src and dst parameters are required"), [])
    else
      var rs := Resolve(user, src);
      var rd := Resolve(user, dst);
      if rs.Denied? || rd.Denied? then Handled(Error("Access denied"), [])
      else
        var ok := tenant == Ok(true) || (Escalates(user, tenant) && admin == Ok(true));
        var reply := Reported(ok, if ok then "Copied successfully" else "Copy failed", None);
        Handled(reply, CopyCalls(user, rs.path, rd.path, tenant, admin))
  }

  /** The storage calls of a copy: as for a rename, and a copy the admin
      made is also closed to others. */
  function CopyCalls(user: SessionUser, src: string, dst: string, tenant: Outcome<bool>, admin: Outcome<bool>): (calls: seq<Call>)
    ensures Disciplined(user, tenant.Exn?, calls)
    ensures !Escalates(user, tenant) ==> OwnershipChanges(calls) == []
    ensures Escalates(user, tenant) ==>
              OwnershipChanges(calls) == OwnershipChanges(EnsureRootOwned(user.value))
                                         + (if admin == Ok(true) then [SetOwner(dst, user.value), Chmod(dst, "600")] else [])
  {
    var op := CopyTo(src, dst);
    var first := [Call(SessionClient, op)];
    assert OwnershipChanges(first) == [] by { assert first[1..] == []; }
    if !Escalates(user, tenant) then
      DisciplineOf(user, tenant.Exn?, first, []);
      assert first + [] == first;
      first
    else
      var u := user.value;
      var after := if admin == Ok(true) then HandOver(dst, u) else [];
      var tail := AdminRetry(u, op, after);
      DisciplineOf(user, tenant.Exn?, first, tail);
      OwnershipChangesAppend(first, tail);
      first + tail
  }

  /** The admin calls that give a file the admin wrote to the tenant and
      close it to others. */
  function HandOver(p: string, u: string): (calls: seq<Call>)
    ensures forall i :: 0 <= i < |calls| ==> calls[i].client == AdminClient
    ensures ChownsToSessionUser(Some(u), calls)
    ensures OwnershipChanges(calls) == [SetOwner(p, u), Chmod(p, "600")]
  {
    var calls := [Call(AdminClient, SetOwner(p, u)), Call(AdminClient, Chmod(p, "600"))];
    assert calls[1..][1..] == [];
    calls
  }

  // ---------------------------------------------------------------------
  // Save

  /** `handleSave`: write a text file, refusing an existing directory.
      `isDir` is the session client's directory check (an exception there
      is ignored), `tenant` and `admin` the two writes. */
  function Save(user: SessionUser, path: Option<string>, isDir: Outcome<bool>,
                tenant: Outcome<()>, admin: Outcome<()>): (h: Handled)
    ensures Missing(path) ==> h == Handled(Error("Path parameter is required"), [])
    ensures !Missing(path) && Resolve(user, path).Denied? ==> h == Handled(Error("Access denied"), [])
    ensures Disciplined(user, tenant.Exn?, h.calls)
    // a directory is never written
    ensures isDir == Ok(true) ==> h.reply.Error? && forall i :: 0 <= i < |h.calls| ==> !h.calls[i].op.CreateFile?
    ensures h.reply.Reported? <==> !Missing(path) && Resolve(user, path).Resolved? && isDir != Ok(true)
                                   && (tenant.Ok? || (Escalates(user, tenant) && admin.Ok?))
    ensures h.reply.Reported? ==> h.reply.success
    // a failed fallback surfaces the session client's exception, not the admin's
    ensures h.reply.Error? && tenant.Exn? && !Missing(path) && Resolve(user, path).Resolved? && isDir != Ok(true)
            ==> h.reply.message == "保存失败: " + tenant.msg
    ensures !Escalates(user, tenant) ==> OwnershipChanges(h.calls) == []
    ensures h.reply.Reported? && Escalates(user, tenant) ==>
              OwnershipChanges(h.calls) == OwnershipChanges(EnsureRootOwned(user.value))
                                           + [SetOwner(Resolve(user, path).path, user.value), Chmod(Resolve(user, path).path, "600")]
  {
    if Missing(path) then Handled(Error("Path parameter is required"), [])
    else match Resolve(user, path)
      case Denied(_) => Handled(Error("Access denied"), [])
      case Resolved(p) =>
        var check := [Call(SessionClient, IsDirectory(p))];
        assert OwnershipChanges(check) == [] by { assert check[1..] == []; }
        if isDir == Ok(true) then Handled(Error("目标路径是目录，无法写入文件"), check)
        else
          var calls := SaveCalls(user, p, tenant, admin);
          if tenant.Ok? then
            Handled(Reported(true, "保存成功", None), calls)
          else if !IsTenant(user) then
            Handled(Error("保存失败: " + tenant.msg), calls)
          else if admin.Ok? then
            Handled(Reported(true, "保存成功（通过管理员回退）", None), calls)
          else Handled(Error("保存失败: " + tenant.msg), calls)
  }

  /** The storage calls of a save past the directory check: the session
      client's check and write, then, when the write threw for a tenant,
      the admin retry, which hands the file over if it wrote. */
  function SaveCalls(user: SessionUser, p: string, tenant: Outcome<()>, admin: Outcome<()>): (calls: seq<Call>)
    ensures Disciplined(user, tenant.Exn?, calls)
    ensures forall i :: 0 <= i < |calls| && calls[i].client == SessionClient ==> calls[i].op in {IsDirectory(p), CreateFile(p)}
    ensures !Escalates(user, tenant) ==> OwnershipChanges(calls) == []
    ensures Escalates(user, tenant) && admin.Ok? ==>
              OwnershipChanges(calls) == OwnershipChanges(EnsureRootOwned(user.value)) + [SetOwner(p, user.value), Chmod(p, "600")]
  {
    var check := [Call(SessionClient, IsDirectory(p))];
    var write := check + [Call(SessionClient, CreateFile(p))];
    assert OwnershipChanges(write) == [] by {
      assert OwnershipChanges(check) == [] by { assert check[1..] == []; }
      OwnershipChangesAppend(check, [Call(SessionClient, CreateFile(p))]);
      assert [Call(SessionClient, CreateFile(p))][1..] == [];
    }
    assert AllSession(write);
    if !Escalates(user, tenant) then
      DisciplineOf(user, tenant.Exn?, write, []);
      assert write + [] == write;
      write
    else
      var u := user.value;
      var after := if admin.Ok? then HandOver(p, u) else [];
      var tail := AdminRetry(u, CreateFile(p), after);
      DisciplineOf(user, tenant.Exn?, write, tail);
      OwnershipChangesAppend(write, tail);
      write + tail
  }

  // ---------------------------------------------------------------------
  // Upload

  /** `getFileName`: the value of the first `;`-separated part of the
      Content-Disposition header whose trimmed text starts with "filename":
      the text after its first '=', trimmed, with every '"' removed.
      "unknown" when the header is absent or no part qualifies. */
  function FileName(header: Option<string>): (name: string)
    ensures header.None? ==> name == "unknown"
    ensures '"' !in name
  {
    if header.None? then "unknown"
    else FirstFileNamePart(JavaSplit(header.value, ';'))
  }

  /** The first part that qualifies gives the name; "unknown" if none does. */
  function FirstFileNamePart(tokens: seq<string>): (name: string)
    ensures '"' !in name
    ensures (forall i :: 0 <= i < |tokens| ==> !IsFileNamePart(tokens[i])) ==> name == "unknown"
  {
    if tokens == [] then "unknown"
    else if IsFileNamePart(tokens[0]) then FileNameValue(tokens[0])
    else
      assert forall i :: 0 <= i < |tokens[1..]| ==> tokens[1..][i] == tokens[i + 1];
      FirstFileNamePart(tokens[1..])
  }

  /** A part names the file when its trimmed text starts with "filename". */
  predicate IsFileNamePart(t: string)
  {
    StartsWith(Trim(t), "filename")
  }

  /** The value of a part: after its first '=', trimmed, without any '"'. */
  function FileNameValue(t: string): (v: string)
    ensures '"' !in v
  {
    RemoveAll(Trim(t[IndexOf(t, '=') + 1..]), '"')
  }

  /** The storage path of an upload: the directory and the file name joined
      by exactly one '/'. */
  function UploadTarget(dir: string, name: string): (t: string)
    ensures EndsWith(dir, "/") ==> t == dir + name
    ensures !EndsWith(dir, "/") ==> t == dir + "/" + name
    ensures '/' in t
  {
    if EndsWith(dir, "/") then
      assert dir[|dir| - 1] == '/';
      assert (dir + name)[|dir| - 1] == '/';
      dir + name
    else
      assert (dir + "/" + name)[|dir|] == '/';
      dir + "/" + name
  }

  /** The parent checked before an upload: the target up to its last '/',
      or "/" when that is empty. */
  function UploadParent(target: string): (p: string)
    requires '/' in target
    ensures p != []
    ensures p == "/" || StartsWith(target, p + "/")
  {
    var k := LastIndexOf(target, '/');
    if k == 0 then "/"
    else
      assert target[..k + 1] == target[..k] + "/";
      target[..k]
  }

  /** `handleUpload`. The header and the outcomes of the calls the handler
      makes are inputs: whether the session client could be made, whether
      it found the parent, its upload, and the admin client's parent check
      and upload. */
  function UploadFile(user: SessionUser, path: Option<string>, hasFile: bool, header: Option<string>,
                      session: Outcome<()>, parentExists: Outcome<bool>, tenant: Outcome<()>,
                      adminParentExists: Outcome<bool>, admin: Outcome<()>): (h: Handled)
    ensures Missing(path) ==> h == Handled(Error("Path parameter is required"), [])
    ensures !Missing(path) && !hasFile ==> h == Handled(Error("File is required"), [])
    ensures !Missing(path) && hasFile && Resolve(user, path).Denied? ==> h == Handled(Error("Access denied"), [])
    ensures Disciplined(user, tenant.Exn?, h.calls)
    ensures !Missing(path) && hasFile && Resolve(user, path).Resolved? ==>
              h == UploadTo(user, UploadTarget(Resolve(user, path).path, FileName(header)),
                            session, parentExists, tenant, adminParentExists, admin)
  {
    if Missing(path) then Handled(Error("Path parameter is required"), [])
    else if !hasFile then Handled(Error("File is required"), [])
    else match Resolve(user, path)
      case Denied(_) => Handled(Error("Access denied"), [])
      case Resolved(p) =>
        var dir := if !IsAdmin(user) && user.Some? && p == "/" then RootOf(user.value) else p;
        assert dir == p by { if !IsAdmin(user) { ResolveNeverSlashForTenant(user, path); } }
        UploadTo(user, UploadTarget(dir, FileName(header)), session, parentExists, tenant, adminParentExists, admin)
  }

  /** The upload proper, once the storage target is known: when the session
      client could be made, make sure the parent exists (creating it only
      inside the tenant tree), upload, and on an exception retry as admin
      for a tenant. A session client that cannot be made fails the upload
      before any call, with no fallback. */
  function UploadTo(user: SessionUser, target: string, session: Outcome<()>, parentExists: Outcome<bool>,
                    tenant: Outcome<()>, adminParentExists: Outcome<bool>, admin: Outcome<()>): (h: Handled)
    requires '/' in target
    ensures session.Exn? ==> h == Handled(Error("Upload failed: " + session.msg), [])
    ensures Disciplined(user, tenant.Exn?, h.calls)
    ensures session.Ok? ==> Call(SessionClient, Upload(target)) in h.calls
    ensures h.reply.Reported? <==> session.Ok? && (tenant.Ok? || (Escalates(user, tenant) && adminParentExists.Ok? && admin.Ok?))
    // success reports where the file went, in the caller's terms
    ensures h.reply.Reported? ==> h.reply == Reported(true, "File uploaded successfully", ToVirtual(user, Some(target)))
    // a failed upload reports the session client's exception, never the admin's
    ensures session.Ok? && h.reply.Error? ==> tenant.Exn? && h.reply.message == "Upload failed: " + tenant.msg
    ensures !Escalates(user, tenant) ==> OwnershipChanges(h.calls) == []
    ensures h.reply.Reported? && Escalates(user, tenant) ==>
              OwnershipChanges(h.calls) == [SetOwner(target, user.value), Chmod(target, "600")]
  {
    if session.Exn? then
      assert OwnershipChanges([]) == [];
      Handled(Error("Upload failed: " + session.msg), [])
    else if Escalates(user, tenant) then UploadEscalated(user, target, parentExists, tenant, adminParentExists, admin)
    else UploadOnSession(user, target, parentExists, tenant)
  }

  /** An upload whose session attempt is final: it succeeded, or the caller
      is the admin or anonymous and its exception is reported. */
  function UploadOnSession(user: SessionUser, target: string, parentExists: Outcome<bool>, tenant: Outcome<()>): (h: Handled)
    requires '/' in target && !Escalates(user, tenant)
    ensures Disciplined(user, tenant.Exn?, h.calls) && AllSession(h.calls)
    ensures Call(SessionClient, Upload(target)) in h.calls
    ensures h.reply.Reported? <==> tenant.Ok?
    ensures h.reply.Reported? ==> h.reply == Reported(true, "File uploaded successfully", ToVirtual(user, Some(target)))
    ensures h.reply.Error? ==> h.reply.message == "Upload failed: " + tenant.msg
    ensures OwnershipChanges(h.calls) == []
  {
    var up := SessionUpload(UploadParent(target), target, parentExists);
    DisciplineOf(user, tenant.Exn?, up, []);
    assert up + [] == up;
    if tenant.Ok? then Handled(Reported(true, "File uploaded successfully", ToVirtual(user, Some(target))), up)
    else Handled(Error("Upload failed: " + tenant.msg), up)
  }

  /** A tenant's upload that threw, retried as admin: it succeeds only when
      the admin's parent check and upload both do, and then hands the file
      to the tenant. */
  function UploadEscalated(user: SessionUser, target: string, parentExists: Outcome<bool>, tenant: Outcome<()>,
                           adminParentExists: Outcome<bool>, admin: Outcome<()>): (h: Handled)
    requires '/' in target && Escalates(user, tenant)
    ensures Disciplined(user, true, h.calls)
    ensures Call(SessionClient, Upload(target)) in h.calls
    ensures h.reply.Reported? <==> adminParentExists.Ok? && admin.Ok?
    ensures h.reply.Reported? ==> h.reply == Reported(true, "File uploaded successfully", ToVirtual(user, Some(target)))
    ensures h.reply.Error? ==> h.reply.message == "Upload failed: " + tenant.msg
    ensures h.reply.Reported? ==> OwnershipChanges(h.calls) == [SetOwner(target, user.value), Chmod(target, "600")]
  {
    var calls := EscalatedUploadCalls(user, target, parentExists, adminParentExists, admin);
    if adminParentExists.Ok? && admin.Ok? then
      Handled(Reported(true, "File uploaded successfully", ToVirtual(user, Some(target))), calls)
    else Handled(Error("Upload failed: " + tenant.msg), calls)
  }

  /** The storage calls of an upload whose session client threw: its own
      attempt, then the admin's. */
  function EscalatedUploadCalls(user: SessionUser, target: string, parentExists: Outcome<bool>,
                                adminParentExists: Outcome<bool>, admin: Outcome<()>): (calls: seq<Call>)
    requires '/' in target && IsTenant(user)
    ensures Disciplined(user, true, calls)
    ensures Call(SessionClient, Upload(target)) in calls
    ensures OwnershipChanges(calls) == (if adminParentExists.Ok? && admin.Ok?
                                        then [SetOwner(target, user.value), Chmod(target, "600")] else [])
  {
    var parent := UploadParent(target);
    var up := SessionUpload(parent, target, parentExists);
    var tail := AdminUpload(user.value, parent, target, adminParentExists, admin);
    DisciplineOf(user, true, up, tail);
    OwnershipChangesAppend(up, tail);
    InFront(Call(SessionClient, Upload(target)), up, tail);
    up + tail
  }

  lemma InFront(x: Call, a: seq<Call>, b: seq<Call>)
    requires x in a
    ensures x in a + b
  {
    var k :| 0 <= k < |a| && a[k] == x;
    assert (a + b)[k] == x;
  }

  /** The session client's part of an upload: check the parent, create it
      when missing and inside the tenant tree, upload. */
  function SessionUpload(parent: string, target: string, parentExists: Outcome<bool>): (calls: seq<Call>)
    ensures AllSession(calls)
    ensures OwnershipChanges(calls) == []
    ensures forall i :: 0 <= i < |calls| ==> !calls[i].op.SetOwner?
    ensures forall i :: 0 <= i < |calls| && calls[i].op.Mkdirs? ==> StartsWith(calls[i].op.path, "/users/")
    ensures Call(SessionClient, Upload(target)) in calls
  {
    var prep := [Call(SessionClient, Exists(parent))]
                + (if parentExists == Ok(false) && StartsWith(parent, "/users/") then [Call(SessionClient, Mkdirs(parent))] else []);
    var calls := prep + [Call(SessionClient, Upload(target))];
    assert calls[|prep|] == Call(SessionClient, Upload(target));
    NoOwnership(calls);
    calls
  }

  /** The admin client's part of an upload retry: check the parent, create
      it when missing, upload, and hand the file over; a failure of the
      parent check stops it there. */
  function AdminUpload(u: string, parent: string, target: string, adminParentExists: Outcome<bool>, admin: Outcome<()>): (calls: seq<Call>)
    ensures forall i :: 0 <= i < |calls| ==> calls[i].client == AdminClient
    ensures ChownsToSessionUser(Some(u), calls)
    ensures adminParentExists.Ok? ==> Call(AdminClient, Upload(target)) in calls
    ensures OwnershipChanges(calls) == (if adminParentExists.Ok? && admin.Ok? then [SetOwner(target, u), Chmod(target, "600")] else [])
  {
    var check := [Call(AdminClient, Exists(parent))];
    if adminParentExists.Exn? then
      NoOwnership(check);
      check
    else
      var pre := check + (if adminParentExists.v then [] else [Call(AdminClient, Mkdirs(parent))])
                 + [Call(AdminClient, Upload(target))];
      assert pre[|pre| - 1] == Call(AdminClient, Upload(target));
      NoOwnership(pre);
      var post := if admin.Ok? then HandOver(target, u) else [];
      OwnershipChangesAppend(pre, post);
      ChownsAppend(Some(u), pre, post);
      assert (pre + post)[|pre| - 1] == Call(AdminClient, Upload(target));
      pre + post
  }

  /** Calls that change no ownership. */
  lemma {:induction false} NoOwnership(calls: seq<Call>)
    requires forall i :: 0 <= i < |calls| ==> !calls[i].op.SetOwner? && !calls[i].op.Chmod?
    ensures OwnershipChanges(calls) == []
    ensures forall user: SessionUser :: ChownsToSessionUser(user, calls)
  {
    if calls != [] {
      NoOwnership(calls[1..]);
    }
  }

  /** The guard that maps a tenant's resolved "/" to its root never fires:
      no caller other than the admin resolves to "/". */
  lemma ResolveNeverSlashForTenant(user: SessionUser, path: Option<string>)
    requires !IsAdmin(user) && Resolve(user, path).Resolved?
    ensures Resolve(user, path).path != "/"
  {
    var v := Normalize(path);
    if IsReserved(v) {
      assert v[..2] == "/." by {
        if StartsWith(v, TYPE_PREFIX) { assert v[..2] == v[..7][..2]; } else { assert v[..2] == v[..7][..2]; }
      }
    } else {
      assert Under(RootOf(user.value), Resolve(user, path).path);
      assert |RootOf(user.value)| >= 7;
    }
  }

  // ---------------------------------------------------------------------
  // Delete

  datatype Deleted = Deleted(reply: Reply, calls: seq<Call>, ledger: TrashLedger.Ledger)

  /** `handleDelete`: resolve, then a permanent or a soft (ledger-only)
      delete according to the `permanent` flag (`Boolean.parseBoolean`). */
  function DeleteFile(user: SessionUser, path: Option<string>, recursive: Option<string>, permanent: Option<string>,
                      ledger: TrashLedger.Ledger, now: int,
                      tenant: Outcome<bool>, admin: Outcome<bool>, listing: Outcome<()>): (r: Deleted)
    ensures Missing(path) ==> r == Deleted(Error("Path parameter is required"), [], ledger)
    ensures !Missing(path) && Resolve(user, path).Denied? ==> r == Deleted(Error("Access denied"), [], ledger)
    ensures !Missing(path) && Resolve(user, path).Resolved? && ParseBoolean(permanent) ==>
              r == DeletePermanently(user, Resolve(user, path).path, ParseBoolean(recursive), ledger, tenant, admin)
    ensures !Missing(path) && Resolve(user, path).Resolved? && !ParseBoolean(permanent) ==>
              r == SoftDelete(user, Resolve(user, path).path, ledger, now, listing)
  {
    if Missing(path) then Deleted(Error("Path parameter is required"), [], ledger)
    else match Resolve(user, path)
      case Denied(_) => Deleted(Error("Access denied"), [], ledger)
      case Resolved(p) =>
        if ParseBoolean(permanent) then DeletePermanently(user, p, ParseBoolean(recursive), ledger, tenant, admin)
        else SoftDelete(user, p, ledger, now, listing)
  }

  /** A delete never changes ownership, and uses the admin client only for
      a tenant whose own delete threw. */
  lemma DeleteFileDisciplined(user: SessionUser, path: Option<string>, recursive: Option<string>, permanent: Option<string>,
                              ledger: TrashLedger.Ledger, now: int,
                              tenant: Outcome<bool>, admin: Outcome<bool>, listing: Outcome<()>)
    ensures Disciplined(user, tenant.Exn?, DeleteFile(user, path, recursive, permanent, ledger, now, tenant, admin, listing).calls)
    ensures OwnershipChanges(DeleteFile(user, path, recursive, permanent, ledger, now, tenant, admin, listing).calls) == []
  {
    var r := DeleteFile(user, path, recursive, permanent, ledger, now, tenant, admin, listing);
    if Missing(path) || Resolve(user, path).Denied? {
      assert r.calls == [];
    } else if !ParseBoolean(permanent) {
      NoOwnership(r.calls);
    }
  }

  /** The permanent branch: delete through the session client; a tenant
      retries through the admin client (no ownership change), while the
      admin or a caller without a session gets the exception back and the
      ledger is left alone; otherwise the ledger forgets the path, whether
      or not anything was deleted. */
  function DeletePermanently(user: SessionUser, p: string, recursive: bool, ledger: TrashLedger.Ledger,
                             tenant: Outcome<bool>, admin: Outcome<bool>): (r: Deleted)
    ensures Disciplined(user, tenant.Exn?, r.calls)
    ensures OwnershipChanges(r.calls) == []
    ensures forall i :: 0 <= i < |r.calls| ==> r.calls[i].op == Delete(p, recursive)
    ensures tenant.Exn? && !IsTenant(user) ==> r.reply == Error("删除失败: " + tenant.msg) && r.ledger == ledger
    ensures tenant.Ok? || IsTenant(user) ==>
              r.ledger == TrashLedger.Remove(ledger, p).ledger
              && r.reply.Reported?
              && (r.reply.success <==> tenant == Ok(true) || (tenant.Exn? && admin == Ok(true)))
              && r.reply.message == (if r.reply.success then "File permanently deleted" else "File not found")
  {
    var first := [Call(SessionClient, Delete(p, recursive))];
    NoOwnership(first);
    if tenant.Exn? && !IsTenant(user) then
      Deleted(Error("删除失败: " + tenant.msg), first, ledger)
    else
      var deleted := if tenant.Ok? then tenant.v else admin == Ok(true);
      var calls := if tenant.Ok? then first else first + [Call(AdminClient, Delete(p, recursive))];
      NoOwnership(calls);
      Deleted(Reported(deleted, if deleted then "File permanently deleted" else "File not found", None),
              calls, TrashLedger.Remove(ledger, p).ledger)
  }

  /** The soft branch: nothing is deleted; the path is recorded in the
      ledger (as a directory when listing it did not throw, with no explicit
      expiration) and the caller is told where it went. */
  function SoftDelete(user: SessionUser, p: string, ledger: TrashLedger.Ledger, now: int, listing: Outcome<()>): (r: Deleted)
    ensures r.calls == [Call(SessionClient, ListDir(p))]
    ensures TrashLedger.Contains(r.ledger, p)
    ensures !TrashLedger.Contains(ledger, p) ==>
              r.ledger == ledger + [TrashLedger.Entry(p, listing.Ok?, TrashLedger.EntryName(p), now, 0)]
    ensures TrashLedger.Contains(ledger, p) ==> r.ledger == ledger
    ensures r.reply == Reported(true, "已移至回收站", ToVirtual(user, Some(p)))
  {
    var u := TrashLedger.AddWithoutExpiry(ledger, p, listing.Ok?, now);
    assert u.written ==> u.ledger == u.ledger[..|ledger|] + [u.ledger[|ledger|]];
    Deleted(Reported(true, "已移至回收站", ToVirtual(user, Some(p))), [Call(SessionClient, ListDir(p))], u.ledger)
  }

  // ---------------------------------------------------------------------
  // Properties

  /** The admin principal never escalates, in any handler. */
  lemma AdminNeverEscalates(src: Option<string>, dst: Option<string>, path: Option<string>, hasFile: bool,
                            header: Option<string>, b1: Outcome<bool>, b2: Outcome<bool>, u1: Outcome<()>,
                            u2: Outcome<()>, flag: Option<string>, ledger: TrashLedger.Ledger, now: int)
    ensures AllSession(Move(Some(ADMIN_USER), src, dst, b1, b2).calls)
    ensures AllSession(Copy(Some(ADMIN_USER), src, dst, b1, b2).calls)
    ensures AllSession(Save(Some(ADMIN_USER), path, b1, u1, u2).calls)
    ensures AllSession(UploadFile(Some(ADMIN_USER), path, hasFile, header, u1, b1, u1, b2, u2).calls)
    ensures AllSession(DeleteFile(Some(ADMIN_USER), path, flag, flag, ledger, now, b1, b2, u1).calls)
  {
    assert !IsTenant(Some(ADMIN_USER));
    DeleteFileDisciplined(Some(ADMIN_USER), path, flag, flag, ledger, now, b1, b2, u1);
  }

  /** A `false` answer from the session client is final: no admin call,
      and the handler reports failure. */
  lemma FalseIsNotEscalated(user: SessionUser, src: Option<string>, dst: Option<string>, admin: Outcome<bool>)
    ensures AllSession(Move(user, src, dst, Ok(false), admin).calls)
    ensures Move(user, src, dst, Ok(false), admin).reply.Reported? ==> !Move(user, src, dst, Ok(false), admin).reply.success
    ensures AllSession(Copy(user, src, dst, Ok(false), admin).calls)
    ensures Copy(user, src, dst, Ok(false), admin).reply.Reported? ==> !Copy(user, src, dst, Ok(false), admin).reply.success
  {
  }

  /** Reading the file name back from the header a browser sends for a
      plain name (no '"' and no ';'). */
  lemma FileNameOfFormData(name: string)
    requires '"' !in name && ';' !in name
    ensures FileName(Some("form-data; filename=\"" + name + "\"")) == name
  {
    var t0 := "form-data";
    var t1 := " filename=\"" + name + "\"";
    SplitFormData(name);
    FormDataIsNoFileName(t0);
    FileNamePartValue(name);
    FirstFileNamePartSkips([t0, t1]);
    assert [t0, t1][1..] == [t1];
  }

  lemma FormDataIsNoFileName(t0: string)
    requires t0 == "form-data"
    ensures !StartsWith(Trim(t0), "filename")
  {
    TrimNoSpace(t0);
    assert t0[1] != "filename"[1];
    assert t0[..8][1] == t0[1];
  }

  /** A first part that does not start with "filename" is passed over. */
  lemma FirstFileNamePartSkips(tokens: seq<string>)
    requires tokens != [] && !IsFileNamePart(tokens[0])
    ensures FirstFileNamePart(tokens) == FirstFileNamePart(tokens[1..])
  {
  }

  /** The first part that qualifies gives the name. */
  lemma FirstFileNamePartTakes(tokens: seq<string>)
    requires tokens != [] && IsFileNamePart(tokens[0])
    ensures FirstFileNamePart(tokens) == FileNameValue(tokens[0])
  {
  }

  /** The header splits on ';' into its two parts. */
  lemma SplitFormData(name: string)
    requires ';' !in name
    ensures JavaSplit("form-data; filename=\"" + name + "\"", ';') == ["form-data", " filename=\"" + name + "\""]
  {
    var t0 := "form-data";
    var t1 := " filename=\"" + name + "\"";
    assert ';' !in t1 by {
      forall i | 0 <= i < |t1| ensures t1[i] != ';' {
        if 11 <= i < 11 + |name| { assert t1[i] == name[i - 11]; }
      }
    }
    assert Join([t0, t1], [';']) == t0 + ";" + t1 by {
      assert [t0, t1][1..] == [t1];
    }
    assert t0 + ";" + t1 == "form-data; filename=\"" + name + "\"";
    JavaSplitJoin([t0, t1], ';');
  }

  /** The filename part qualifies, and yields the unquoted name. */
  lemma FileNamePartValue(name: string)
    requires '"' !in name
    ensures FirstFileNamePart([" filename=\"" + name + "\""]) == name
  {
    var a := " filename=";
    var q := "\"" + name + "\"";
    var t1 := a + q;
    assert t1 == " filename=\"" + name + "\"" by {
      assert " filename=\"" == a + "\"";
    }
    FileNamePartOf(t1, q, name);
  }

  lemma FileNamePartOf(t1: string, q: string, name: string)
    requires '"' !in name && q == "\"" + name + "\"" && t1 == " filename=" + q
    ensures FirstFileNamePart([t1]) == name
  {
    FileNamePartQualifies(t1, q);
    ValueAfterEquals(t1, q);
    TrimNoSpace(q);
    RemoveQuotes(name);
  }

  lemma ValueAfterEquals(t1: string, q: string)
    requires t1 == " filename=" + q
    ensures t1[IndexOf(t1, '=') + 1..] == q
  {
    assert t1 == " filename" + "=" + q;
    IndexOfAfterFree(" filename", '=', q);
    assert t1[10..] == q;
  }

  lemma FileNamePartQualifies(t1: string, q: string)
    requires |q| >= 2 && q[0] == '"' && q[|q| - 1] == '"' && t1 == " filename=" + q
    ensures StartsWith(Trim(t1), "filename")
  {
    var rest := "filename" + ("=" + q);
    assert t1 == " " + rest;
    assert t1[1..] == rest;
    TrimOfPadded(t1);
    StartsWithAppend("filename", "=" + q);
  }

  /** A single leading space in front of text that neither starts nor ends
      with a space is all that trim removes. */
  lemma TrimOfPadded(s: string)
    requires |s| >= 2 && s[0] == ' ' && !IsSpace(s[1]) && !IsSpace(s[|s| - 1])
    ensures Trim(s) == s[1..]
  {
    assert TrimStart(s) == TrimStart(s[1..]) == s[1..];
  }

  lemma RemoveQuotes(name: string)
    requires '"' !in name
    ensures RemoveAll("\"" + name + "\"", '"') == name
  {
    var q := "\"" + name + "\"";
    assert q[1..] == name + "\"";
    RemoveAllAppend(name, "\"", '"');
  }

  lemma {:induction false} RemoveAllAppend(a: string, b: string, c: char)
    ensures RemoveAll(a + b, c) == RemoveAll(a, c) + RemoveAll(b, c)
  {
    if a == [] {
      assert a + b == b;
    } else {
      assert (a + b)[1..] == a[1..] + b;
      assert (a + b)[0] == a[0];
      RemoveAllAppend(a[1..], b, c);
    }
  }
}
