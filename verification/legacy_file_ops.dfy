/** The legacy file servlet (web/FileServlet), kept alongside the current
    one. Its handlers are written out here the way the servlet runs them:
    a mutable flag and a growing list of storage calls, early returns, and
    the admin fallback inside the exception handler. Each is proved to
    compute the same reply, calls and ledger as the corresponding handler of
    `FileOps`, so every property proved there holds for the legacy servlet
    too. Only the operation log differs (the servlet's own log line instead
    of `LogUtil`), and the log is not part of a handler's result.
 */
module LegacyFileServlet {
  import opened Wrappers
  import opened Text
  import opened PathResolver
  import opened Storage
  import TrashLedger
  import FileOps
  import DirectoryOps

  /** `ensureUserRootOwnedByAdmin`, as the calls it issues. */
  method EnsureRootOwnedStepwise(sessionUser: string) returns (calls: seq<Call>)
    ensures calls == EnsureRootOwned(sessionUser)
    ensures sessionUser != [] ==> |calls| == 2 && calls[0].op == SetOwner(RootOf(sessionUser), sessionUser)
  {
    calls := [];
    if sessionUser == [] {
      return;
    }
    var userRoot := "/users" + "/" + sessionUser;
    calls := calls + [Call(AdminClient, SetOwner(userRoot, sessionUser))];
    calls := calls + [Call(AdminClient, Chmod(userRoot, "700"))];
  }

  /** `handleMove`: the session client's move, and on its exception, for
      a tenant, the root re-owned, the move repeated as admin and a moved
      destination handed to the tenant. */
  method MoveStepwise(user: SessionUser, src: Option<string>, dst: Option<string>,
                      tenant: Outcome<bool>, admin: Outcome<bool>) returns (h: Handled)
    ensures h == FileOps.Move(user, src, dst, tenant, admin)
  {
    if src.None? || dst.None? || src.value == [] || dst.value == [] {
      return Handled(Error("src and dst parameters are required"), []);
    }
    var actualSrc := ResolveStepwise(user, src);
    if actualSrc.Denied? {
      return Handled(Error("Access denied"), []);
    }
    var actualDst := ResolveStepwise(user, dst);
    if actualDst.Denied? {
      return Handled(Error("Access denied"), []);
    }
    var op := Rename(actualSrc.path, actualDst.path);
    var ok := false;
    var calls := [Call(SessionClient, op)];
    if tenant.Ok? {
      ok := tenant.v;
      assert calls == calls + [];
    } else if user.Some? && user.value != "root" {
      var sessionUser := user.value;
      var root := EnsureRootOwnedStepwise(sessionUser);
      var after: seq<Call> := [];
      if admin.Ok? {
        ok := admin.v;
        if ok {
          after := [Call(AdminClient, SetOwner(actualDst.path, sessionUser))];
        }
      }
      AdminRetryIs(sessionUser, op, after);
      calls := calls + (root + [Call(AdminClient, op)] + after);
    } else {
      assert calls == calls + [];
    }
    h := Handled(Reported(ok, if ok then "Moved successfully" else "Move failed", None), calls);
  }

  /** `handleCopy`: as the move, and a destination the admin copied is also
      closed to others (chmod 600). */
  method CopyStepwise(user: SessionUser, src: Option<string>, dst: Option<string>,
                      tenant: Outcome<bool>, admin: Outcome<bool>) returns (h: Handled)
    ensures h == FileOps.Copy(user, src, dst, tenant, admin)
  {
    if src.None? || dst.None? || src.value == [] || dst.value == [] {
      return Handled(Error("src and dst parameters are required"), []);
    }
    var actualSrc := ResolveStepwise(user, src);
    if actualSrc.Denied? {
      return Handled(Error("Access denied"), []);
    }
    var actualDst := ResolveStepwise(user, dst);
    if actualDst.Denied? {
      return Handled(Error("Access denied"), []);
    }
    var op := CopyTo(actualSrc.path, actualDst.path);
    var ok := false;
    var calls := [Call(SessionClient, op)];
    if tenant.Ok? {
      ok := tenant.v;
      assert calls == calls + [];
    } else if user.Some? && user.value != "root" {
      var sessionUser := user.value;
      var root := EnsureRootOwnedStepwise(sessionUser);
      var after: seq<Call> := [];
      if admin.Ok? {
        ok := admin.v;
        if ok {
          after := [Call(AdminClient, SetOwner(actualDst.path, sessionUser))] + [Call(AdminClient, Chmod(actualDst.path, "600"))];
          assert after == FileOps.HandOver(actualDst.path, sessionUser);
        }
      }
      AdminRetryIs(sessionUser, op, after);
      calls := calls + (root + [Call(AdminClient, op)] + after);
    } else {
      assert calls == calls + [];
    }
    h := Handled(Reported(ok, if ok then "Copied successfully" else "Copy failed", None), calls);
  }

  /** The admin half of a fallback is the root re-owned, the operation
      repeated, then the follow-up calls. */
  lemma AdminRetryIs(u: string, op: Op, after: seq<Call>)
    requires !op.SetOwner? && !op.Chmod?
    requires forall i :: 0 <= i < |after| ==> after[i].client == AdminClient
    requires ChownsToSessionUser(Some(u), after)
    ensures AdminRetry(u, op, after) == EnsureRootOwned(u) + [Call(AdminClient, op)] + after
  {
  }

  /** `handleSave`: the directory check, the session write, and on its
      exception the admin write for a tenant. */
  method SaveStepwise(user: SessionUser, path: Option<string>, isDir: Outcome<bool>,
                      tenant: Outcome<()>, admin: Outcome<()>) returns (h: Handled)
    ensures h == FileOps.Save(user, path, isDir, tenant, admin)
  {
    if path.None? || path.value == [] {
      return Handled(Error("Path parameter is required"), []);
    }
    var actualPath := ResolveStepwise(user, path);
    if actualPath.Denied? {
      return Handled(Error("Access denied"), []);
    }
    var p := actualPath.path;
    var calls := [Call(SessionClient, IsDirectory(p))];
    if isDir == Ok(true) {
      return Handled(Error("目标路径是目录，无法写入文件"), calls);
    }
    calls := calls + [Call(SessionClient, CreateFile(p))];
    if tenant.Ok? {
      return Handled(Reported(true, "保存成功", None), calls);
    }
    var fallbackDone := false;
    if user.Some? && user.value != "root" {
      var sessionUser := user.value;
      var root := EnsureRootOwnedStepwise(sessionUser);
      calls := calls + root + [Call(AdminClient, CreateFile(p))];
      if admin.Ok? {
        calls := calls + [Call(AdminClient, SetOwner(p, sessionUser))] + [Call(AdminClient, Chmod(p, "600"))];
        fallbackDone := true;
      }
    }
    if fallbackDone {
      h := Handled(Reported(true, "保存成功（通过管理员回退）", None), calls);
    } else {
      h := Handled(Error("保存失败: " + tenant.msg), calls);
    }
    SaveAgrees(user, path, isDir, tenant, admin, p, h);
  }

  lemma SaveAgrees(user: SessionUser, path: Option<string>, isDir: Outcome<bool>,
                   tenant: Outcome<()>, admin: Outcome<()>, p: string, h: Handled)
    requires !FileOps.Missing(path) && Resolve(user, path) == Resolved(p)
    requires isDir != Ok(true) && tenant.Exn?
    requires var write := [Call(SessionClient, IsDirectory(p))] + [Call(SessionClient, CreateFile(p))];
             if !IsTenant(user) then h == Handled(Error("保存失败: " + tenant.msg), write)
             else
               var tail := EnsureRootOwned(user.value) + [Call(AdminClient, CreateFile(p))]
                           + (if admin.Ok? then [Call(AdminClient, SetOwner(p, user.value))] + [Call(AdminClient, Chmod(p, "600"))] else []);
               h == (if admin.Ok? then Handled(Reported(true, "保存成功（通过管理员回退）", None), write + tail)
                     else Handled(Error("保存失败: " + tenant.msg), write + tail))
    ensures h == FileOps.Save(user, path, isDir, tenant, admin)
  {
    if IsTenant(user) {
      var u := user.value;
      var after := if admin.Ok? then FileOps.HandOver(p, u) else [];
      assert AdminRetry(u, CreateFile(p), after) == EnsureRootOwned(u) + [Call(AdminClient, CreateFile(p))] + after;
      var write := [Call(SessionClient, IsDirectory(p))] + [Call(SessionClient, CreateFile(p))];
      assert write + (EnsureRootOwned(u) + [Call(AdminClient, CreateFile(p))] + after)
          == write + AdminRetry(u, CreateFile(p), after);
    }
  }

  /** `getFileName`: scan the ';'-separated parts of the header for the
      first whose trimmed text starts with "filename". */
  method FileNameStepwise(header: Option<string>) returns (name: string)
    ensures name == FileOps.FileName(header)
  {
    if header.None? {
      return "unknown";
    }
    var tokens := JavaSplit(header.value, ';');
    var i := 0;
    while i < |tokens|
      invariant 0 <= i <= |tokens|
      invariant FileOps.FirstFileNamePart(tokens[i..]) == FileOps.FileName(header)
    {
      var token := tokens[i];
      var rest := tokens[i..];
      assert rest[0] == token;
      if FileOps.IsFileNamePart(token) {
        FileOps.FirstFileNamePartTakes(rest);
        return FileOps.FileNameValue(token);
      }
      FileOps.FirstFileNamePartSkips(rest);
      assert rest[1..] == tokens[i + 1..];
      i := i + 1;
    }
    assert tokens[i..] == [];
    return "unknown";
  }

  /** `handleUpload`: the target is built from the resolved directory (a
      tenant's "/" taken as its root) and the file name; a session client
      that cannot be made fails the upload at once, otherwise it prepares
      the parent and uploads, and on an exception a tenant's upload is
      repeated as admin. The original exception is what a failed fallback
      reports. */
  method UploadStepwise(user: SessionUser, path: Option<string>, hasFile: bool, header: Option<string>,
                        session: Outcome<()>, parentExists: Outcome<bool>, tenant: Outcome<()>,
                        adminParentExists: Outcome<bool>, admin: Outcome<()>) returns (h: Handled)
    ensures h == FileOps.UploadFile(user, path, hasFile, header, session, parentExists, tenant, adminParentExists, admin)
  {
    if path.None? || path.value == [] {
      assert FileOps.Missing(path);
      return Handled(Error("Path parameter is required"), []);
    }
    if !hasFile {
      return Handled(Error("File is required"), []);
    }
    h := UploadResolvingStepwise(user, path, header, session, parentExists, tenant, adminParentExists, admin);
    assert FileOps.UploadFile(user, path, hasFile, header, session, parentExists, tenant, adminParentExists, admin)
           == FileOps.UploadFile(user, path, true, header, session, parentExists, tenant, adminParentExists, admin);
  }

  /** The upload from the path resolution on. */
  method UploadResolvingStepwise(user: SessionUser, path: Option<string>, header: Option<string>,
                                 session: Outcome<()>, parentExists: Outcome<bool>, tenant: Outcome<()>,
                                 adminParentExists: Outcome<bool>, admin: Outcome<()>) returns (h: Handled)
    requires !FileOps.Missing(path)
    ensures h == FileOps.UploadFile(user, path, true, header, session, parentExists, tenant, adminParentExists, admin)
  {
    var resolved := ResolveStepwise(user, path);
    if resolved.Denied? {
      return Handled(Error("Access denied"), []);
    }
    var actualPath := resolved.path;
    if !(user.Some? && user.value == "root") && user.Some? && actualPath == "/" {
      actualPath := "/users" + "/" + user.value;
    }
    assert actualPath == resolved.path by {
      if !IsAdmin(user) { FileOps.ResolveNeverSlashForTenant(user, path); }
    }
    h := UploadIntoStepwise(user, actualPath, header, session, parentExists, tenant, adminParentExists, admin);
    assert FileOps.UploadFile(user, path, true, header, session, parentExists, tenant, adminParentExists, admin)
           == FileOps.UploadTo(user, FileOps.UploadTarget(resolved.path, FileOps.FileName(header)),
                               session, parentExists, tenant, adminParentExists, admin);
  }

  /** The upload into a resolved directory. */
  method UploadIntoStepwise(user: SessionUser, actualPath: string, header: Option<string>,
                            session: Outcome<()>, parentExists: Outcome<bool>, tenant: Outcome<()>,
                            adminParentExists: Outcome<bool>, admin: Outcome<()>) returns (h: Handled)
    ensures h == FileOps.UploadTo(user, FileOps.UploadTarget(actualPath, FileOps.FileName(header)),
                                  session, parentExists, tenant, adminParentExists, admin)
  {
    var fileName := FileNameStepwise(header);
    var targetPath := if EndsWith(actualPath, "/") then actualPath + fileName else actualPath + "/" + fileName;
    assert targetPath == FileOps.UploadTarget(actualPath, fileName);
    h := UploadToStepwise(user, targetPath, session, parentExists, tenant, adminParentExists, admin);
  }

  /** The upload once the target is known. */
  method UploadToStepwise(user: SessionUser, targetPath: string, session: Outcome<()>, parentExists: Outcome<bool>,
                          tenant: Outcome<()>, adminParentExists: Outcome<bool>, admin: Outcome<()>) returns (h: Handled)
    requires '/' in targetPath
    ensures h == FileOps.UploadTo(user, targetPath, session, parentExists, tenant, adminParentExists, admin)
  {
    if session.Exn? {
      return Handled(Error("Upload failed: " + session.msg), []);
    }
    var parent := targetPath[..LastIndexOf(targetPath, '/')];
    if parent == [] {
      parent := "/";
    }
    assert parent == FileOps.UploadParent(targetPath);
    var calls := SessionUploadStepwise(parent, targetPath, parentExists);
    var shown := ToVirtualStepwise(user, Some(targetPath));
    if tenant.Ok? || !(user.Some? && user.value != "root") {
      UploadToOnSession(user, targetPath, session, parentExists, tenant, adminParentExists, admin);
      if tenant.Ok? {
        h := Handled(Reported(true, "File uploaded successfully", shown), calls);
      } else {
        h := Handled(Error("Upload failed: " + tenant.msg), calls);
      }
    } else {
      var adminCalls, fallbackDone := AdminUploadStepwise(user.value, parent, targetPath, adminParentExists, admin);
      calls := calls + adminCalls;
      UploadToEscalated(user, targetPath, session, parentExists, tenant, adminParentExists, admin);
      if fallbackDone {
        h := Handled(Reported(true, "File uploaded successfully", shown), calls);
      } else {
        h := Handled(Error("Upload failed: " + tenant.msg), calls);
      }
    }
  }

  /** `FileOps.UploadTo` when the session client's upload is final. */
  lemma UploadToOnSession(user: SessionUser, target: string, session: Outcome<()>, parentExists: Outcome<bool>,
                          tenant: Outcome<()>, adminParentExists: Outcome<bool>, admin: Outcome<()>)
    requires '/' in target && session.Ok? && !FileOps.Escalates(user, tenant)
    ensures var calls := FileOps.SessionUpload(FileOps.UploadParent(target), target, parentExists);
            FileOps.UploadTo(user, target, session, parentExists, tenant, adminParentExists, admin)
            == if tenant.Ok? then Handled(Reported(true, "File uploaded successfully", ToVirtual(user, Some(target))), calls)
               else Handled(Error("Upload failed: " + tenant.msg), calls)
  {
  }

  /** `FileOps.UploadTo` when a tenant's upload threw. */
  lemma UploadToEscalated(user: SessionUser, target: string, session: Outcome<()>, parentExists: Outcome<bool>,
                          tenant: Outcome<()>, adminParentExists: Outcome<bool>, admin: Outcome<()>)
    requires '/' in target && session.Ok? && FileOps.Escalates(user, tenant)
    ensures var parent := FileOps.UploadParent(target);
            var calls := FileOps.SessionUpload(parent, target, parentExists)
                         + FileOps.AdminUpload(user.value, parent, target, adminParentExists, admin);
            FileOps.UploadTo(user, target, session, parentExists, tenant, adminParentExists, admin)
            == if adminParentExists.Ok? && admin.Ok? then Handled(Reported(true, "File uploaded successfully", ToVirtual(user, Some(target))), calls)
               else Handled(Error("Upload failed: " + tenant.msg), calls)
  {
  }

  /** The session client's part: check the parent, create it when it is
      missing and inside the tenant tree, upload. */
  method SessionUploadStepwise(parent: string, targetPath: string, parentExists: Outcome<bool>) returns (calls: seq<Call>)
    ensures calls == FileOps.SessionUpload(parent, targetPath, parentExists)
  {
    calls := [Call(SessionClient, Exists(parent))];
    if parentExists == Ok(false) && StartsWith(parent, "/users" + "/") {
      calls := calls + [Call(SessionClient, Mkdirs(parent))];
    } else {
      assert calls == calls + [];
    }
    calls := calls + [Call(SessionClient, Upload(targetPath))];
  }

  /** The admin client's part; `done` is whether the admin upload went
      through. */
  method AdminUploadStepwise(sessionUser: string, parent: string, targetPath: string,
                             adminParentExists: Outcome<bool>, admin: Outcome<()>) returns (calls: seq<Call>, done: bool)
    ensures calls == FileOps.AdminUpload(sessionUser, parent, targetPath, adminParentExists, admin)
    ensures done <==> adminParentExists.Ok? && admin.Ok?
  {
    done := false;
    calls := [Call(AdminClient, Exists(parent))];
    if adminParentExists.Ok? {
      if !adminParentExists.v {
        calls := calls + [Call(AdminClient, Mkdirs(parent))];
      } else {
        assert calls == calls + [];
      }
      calls := calls + [Call(AdminClient, Upload(targetPath))];
      if admin.Ok? {
        calls := calls + ([Call(AdminClient, SetOwner(targetPath, sessionUser))] + [Call(AdminClient, Chmod(targetPath, "600"))]);
        done := true;
      } else {
        assert calls == calls + [];
      }
    }
  }

  /** `handleDelete`: the permanent branch rethrows for the admin and for a
      caller without a session, and escalates the delete for a tenant; the
      soft branch only records the path in the ledger. */
  method DeleteStepwise(user: SessionUser, path: Option<string>, recursive: Option<string>, permanent: Option<string>,
                        ledger: TrashLedger.Ledger, now: int,
                        tenant: Outcome<bool>, admin: Outcome<bool>, listing: Outcome<()>) returns (r: FileOps.Deleted)
    ensures r == FileOps.DeleteFile(user, path, recursive, permanent, ledger, now, tenant, admin, listing)
  {
    if path.None? || path.value == [] {
      return FileOps.Deleted(Error("Path parameter is required"), [], ledger);
    }
    var resolved := ResolveStepwise(user, path);
    if resolved.Denied? {
      return FileOps.Deleted(Error("Access denied"), [], ledger);
    }
    var p := resolved.path;
    var rec := ParseBoolean(recursive);
    if ParseBoolean(permanent) {
      r := DeletePermanentlyStepwise(user, p, rec, ledger, tenant, admin);
    } else {
      r := SoftDeleteStepwise(user, p, ledger, now, listing);
    }
  }

  /** The permanent branch of `handleDelete`. */
  method DeletePermanentlyStepwise(user: SessionUser, p: string, rec: bool, ledger: TrashLedger.Ledger,
                                   tenant: Outcome<bool>, admin: Outcome<bool>) returns (r: FileOps.Deleted)
    ensures r == FileOps.DeletePermanently(user, p, rec, ledger, tenant, admin)
  {
    var deleted := false;
    var calls := [Call(SessionClient, Delete(p, rec))];
    if tenant.Ok? {
      deleted := tenant.v;
    } else if user.Some? && user.value != "root" {
      calls := calls + [Call(AdminClient, Delete(p, rec))];
      if admin.Ok? {
        deleted := admin.v;
      }
    } else {
      return FileOps.Deleted(Error("删除失败: " + tenant.msg), calls, ledger);
    }
    var removed := TrashLedger.Remove(ledger, p);
    return FileOps.Deleted(Reported(deleted, if deleted then "File permanently deleted" else "File not found", None),
                           calls, removed.ledger);
  }

  /** The soft branch of `handleDelete`. */
  method SoftDeleteStepwise(user: SessionUser, p: string, ledger: TrashLedger.Ledger, now: int, listing: Outcome<()>)
    returns (r: FileOps.Deleted)
    ensures r == FileOps.SoftDelete(user, p, ledger, now, listing)
  {
    // `listDir` never answers null, so the entry is a directory exactly when listing did not throw
    var isDirectory := listing.Ok?;
    var added := TrashLedger.AddWithoutExpiry(ledger, p, isDirectory, now);
    var shown := ToVirtualStepwise(user, Some(p));
    return FileOps.Deleted(Reported(true, "已移至回收站", shown), [Call(SessionClient, ListDir(p))], added.ledger);
  }

  /** `handleRestore` (the same in both file servlets and in the directory
      servlet): a caller other than the admin must restore inside its own
      root, computed from the literal "null" when there is no session. */
  method RestoreStepwise(user: SessionUser, path: Option<string>, ledger: TrashLedger.Ledger) returns (r: DirectoryOps.Restored)
    ensures r == DirectoryOps.Restore(user, path, ledger)
  {
    if path.None? || path.value == [] {
      return DirectoryOps.Restored(Error("Path parameter is required"), ledger);
    }
    var resolved := ResolveStepwise(user, path);
    if resolved.Denied? {
      return DirectoryOps.Restored(Error("Access denied"), ledger);
    }
    var actualPath := resolved.path;
    if !(user.Some? && user.value == "root") {
      var name := if user.None? then "null" else user.value;
      var actualRoot := "/users" + "/" + name;
      if !(actualPath == actualRoot || StartsWith(actualPath, actualRoot + "/")) {
        return DirectoryOps.Restored(Error("Access denied"), ledger);
      }
    }
    var removed := TrashLedger.Remove(ledger, actualPath);
    r := DirectoryOps.Restored(Reported(removed.written, if removed.written then "Restored successfully (UI)" else "Item not found in trash metadata", None),
                               removed.ledger);
  }
}
