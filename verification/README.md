# hdfs-drive, modelled in Dafny

hdfs-drive is a web application that lays one virtual file system per user
(a *tenant*) over a single shared HDFS tree, with a trash, sharing links,
an operation log and an administrator console; it ships next to a small
car-rental back end. This project models, as pure functions over immutable
data, the logic that sits between an HTTP request and the Hadoop client or
the database:

- the path resolver that maps a tenant's virtual paths into `/users/<name>`
  and back (`PathResolver`), and the storage identity of a session;
- the trash ledger (`TrashLedger`) and the share ledger (`ShareLedger`);
- the privilege-escalation fallback of the file and directory handlers:
  every storage call a handler issues is recorded with the client it went
  through (session or admin), and whatever the call returned or threw is an
  input (`Storage`, `FileOps`, `LegacyFileServlet`, `DirectoryOps`);
- directory listings with the type view, the trash view and the hidden
  trashed children (`DirectoryListing`, `HdfsListing`, `TypeClasses`,
  `StableSort`);
- the operation-log writers and the administrator's log reader (`OpLog`);
- order pricing with exact decimals (`Orders`), the event-stream relay of
  the chat proxy (`EventStream`), the SQL script splitter (`Schema`), the
  announcement board (`Announcements`), profile updates (`Profile`), login
  and registration (`Auth`), and the administrator console's folder and
  badge helpers (`AdminConsole`).

Java `null` is `Option`, an exception is `Exn(message)` of an `Outcome`,
strings are `seq<char>`, `long` arithmetic that can overflow is wrapped
explicitly (`Text.Wrap64`), and Java's and JavaScript's string library
calls (`split`, `trim`, `indexOf`, `toLowerCase` on ASCII, `Long.parseLong` on ASCII digits,
UTF-16 `length()` as `Text.Utf16Length`) are modelled in `Text`. Clocks, random ids, the database and the file
system are parameters.

## Model

| member | source | states |
|---|---|---|
| PathResolver.RootOf | src/main/java/com/hdfsdrive/web/common/AbstractHdfsServlet.java:53-55 | a tenant's root is "/users/" followed by exactly the tenant's name |
| PathResolver.StorageIdentity | src/main/java/com/hdfsdrive/web/common/AbstractHdfsServlet.java:27-34 | storage calls run as the session's username, or as "root" when the session has none |
| PathResolver.Normalize | src/main/java/com/hdfsdrive/web/common/AbstractHdfsServlet.java:64 | a null or empty request path counts as "/"; any other path is kept |
| PathResolver.Resolve | src/main/java/com/hdfsdrive/web/common/AbstractHdfsServlet.java:63-85 | "/.type/" and "/.trash" paths and the admin's paths pass unchanged; with no user the result is "Not logged in"; a tenant only ever gets paths inside its own root; an absolute "/users/" path is accepted exactly when it is the tenant's own, and only such paths are denied |
| PathResolver.ToVirtual | src/main/java/com/hdfsdrive/web/common/AbstractHdfsServlet.java:91-103 | null stays null; the admin and a caller with no user see the path unchanged; a tenant sees "/" for its root, the rest of a path under its root without the root prefix, and any other path unchanged |
| PathResolver.TenantIsolation | src/main/java/com/hdfsdrive/web/common/AbstractHdfsServlet.java:63-85 | outside the reserved namespaces, nothing a tenant resolves lies inside another tenant's root |
| PathResolver.SegmentOfUnder | src/main/java/com/hdfsdrive/web/common/AbstractHdfsServlet.java:53-55 | every path under a tenant's root is filed under that tenant's name |
| PathResolver.RootsDisjoint | src/main/java/com/hdfsdrive/web/common/AbstractHdfsServlet.java:53-55 | two distinct tenants' roots share no path |
| PathResolver.VirtualRoundTrip | src/main/java/com/hdfsdrive/web/common/AbstractHdfsServlet.java:63-103 | a tenant's virtual path that starts with '/', is not reserved and is not under "/users/" resolves, and showing the result gives the path back |
| PathResolver.ActualRoundTrip | src/main/java/com/hdfsdrive/web/common/AbstractHdfsServlet.java:63-103 | showing a tenant one of its own storage paths and resolving what it is shown gives the storage path back, except for a "users" folder inside the root and the root spelled with a trailing '/' |
| PathResolver.UsersFolderBreaksIdempotence | src/main/java/com/hdfsdrive/web/common/AbstractHdfsServlet.java:74-100 | a tenant may open "/users/u/users/w", is shown "/users/w", and resolving that is denied, so resolving what one is shown is not always allowed |
| PathResolver.UsersFolderUnderRoot | src/main/java/com/hdfsdrive/web/common/AbstractHdfsServlet.java:74-100 | a tenant's own "/users/u/..." path resolves to itself and is shown without the root prefix |
| PathResolver.ForeignUsersPathDenied | src/main/java/com/hdfsdrive/web/common/AbstractHdfsServlet.java:74-79 | "/users/w" is denied to tenant u unless w is u or lies below u |
| PathResolver.UnderRootOfUsersPath | src/main/java/com/hdfsdrive/web/common/AbstractHdfsServlet.java:75 | "/users/w" is inside u's root exactly when w is u or starts with u + "/" |
| PathResolver.UsersPathNotReserved | src/main/java/com/hdfsdrive/web/common/AbstractHdfsServlet.java:66-74 | no "/users/" path falls in a reserved namespace |
| PathResolver.ReservedBypass | src/main/java/com/hdfsdrive/web/common/AbstractHdfsServlet.java:66 | a reserved path is returned unchecked, even to a caller with no session and even with ".." inside |
| PathResolver.SimilarNameDenied | src/main/java/com/hdfsdrive/web/common/AbstractHdfsServlet.java:74-79 | "/users/alice2" is denied to "alice": the ownership test is on the whole name |
| PathResolver.MapPathsStepwise | src/main/java/com/hdfsdrive/web/DirectoryServlet.java:133-173 | DirectoryServlet's private copies of both mappings compute `Resolve` and `ToVirtual` |
| PathResolver.ResolveStepwise | src/main/java/com/hdfsdrive/web/FileServlet.java:83-97 | the older FileServlet's statement-by-statement resolver, which reassigns the path in place, computes `Resolve` |
| PathResolver.ToVirtualStepwise | src/main/java/com/hdfsdrive/web/FileServlet.java:99-108 | the older FileServlet's copy of `toVirtualPath` computes `ToVirtual` |
| Storage.EnsureRootOwned | src/main/java/com/hdfsdrive/web/file/FileServlet.java:526-538 | nothing happens for an empty name; otherwise, as admin, the tenant root is given to the tenant and set to mode 700, and nothing else changes ownership |
| Storage.AdminRetry | src/main/java/com/hdfsdrive/web/file/FileServlet.java:99-107 | the admin half of an escalation runs on the admin client only, repeats the operation, and changes ownership only as the root hand-over followed by the follow-up changes, always to the tenant |
| Storage.DisciplineOf | src/main/java/com/hdfsdrive/web/file/FileServlet.java:87-112 | a handler that stayed on the session client, or escalated for a tenant after its attempt threw, keeps the escalation discipline |
| TrashLedger.ContainsScan | src/main/java/com/hdfsdrive/core/TrashService.java:145-149 | the scan reports true exactly when some entry has the path |
| TrashLedger.EntryName | src/main/java/com/hdfsdrive/core/TrashService.java:72-73 | the display name is the whole last segment of the path: a '/'-free suffix preceded by the last '/' (or the whole path when it has no '/'); it is "/" exactly when the path is empty or ends with '/' |
| TrashLedger.Add | src/main/java/com/hdfsdrive/core/TrashService.java:66-78 | an already recorded path leaves the ledger alone; otherwise exactly one entry stamped `now`, with the given flags and name, is appended and the rest is unchanged; afterwards the path is recorded |
| TrashLedger.AddWithoutExpiry | src/main/java/com/hdfsdrive/core/TrashService.java:58-60 | the two-argument add is add with no explicit expiration |
| TrashLedger.WithoutFacts | src/main/java/com/hdfsdrive/core/TrashService.java:134-140 | dropping a path keeps exactly the entries with other paths, and changes nothing when the path is absent |
| TrashLedger.Remove | src/main/java/com/hdfsdrive/core/TrashService.java:130-143 | every entry with the path is dropped, the others are kept, and the result (and the rewrite) is true exactly when one existed |
| TrashLedger.Expiration | src/main/java/com/hdfsdrive/core/TrashService.java:93 | the due instant is the explicit expiration when positive, otherwise deletion time plus retention in wrapped 64-bit arithmetic |
| TrashLedger.PurgeStep | src/main/java/com/hdfsdrive/core/TrashService.java:91-112 | one more entry either joins the kept entries or adds its path to the purged ones |
| TrashLedger.PurgeExpired | src/main/java/com/hdfsdrive/core/TrashService.java:85-116 | the loop keeps exactly the entries not yet due, returns the due paths in ledger order, issues one recursive delete per due path whatever it does, and rewrites the store exactly when something was purged |
| TrashLedger.PurgeExpiredDefault | src/main/java/com/hdfsdrive/core/TrashService.java:121-124 | the one-argument overload is the purge with the 30-day default: the same kept ledger and purged paths, in ledger order, one recursive delete per purged path and a rewrite exactly when something was purged; an entry stays exactly when its due instant is later than now, only due entries' paths are purged, and an entry deleted 30 days ago or more without explicit expiration is purged |
| TrashLedger.AddIdempotent | src/main/java/com/hdfsdrive/core/TrashService.java:66-78 | adding a path twice leaves the ledger as adding it once |
| TrashLedger.AddKeepsUnique | src/main/java/com/hdfsdrive/core/TrashService.java:68-71 | adding keeps every path recorded at most once |
| TrashLedger.RemoveUndoesAdd | src/main/java/com/hdfsdrive/core/TrashService.java:130-143 | removing a freshly added path restores the ledger and reports true |
| TrashLedger.RetentionBoundary | src/main/java/com/hdfsdrive/core/TrashService.java:93-94 | the due instant is inclusive: an entry deleted at t survives a purge one millisecond before t + 30 days and is purged at t + 30 days |
| TrashLedger.RetentionOverflowPurgesAtOnce | src/main/java/com/hdfsdrive/core/TrashService.java:93-94 | a deletion time near the end of the long range wraps the default due instant negative, so the entry is purged at once |
| ShareLedger.Add | src/main/java/com/hdfsdrive/core/ShareService.java:56-62 | a new share with the given fields, created now, is appended after the unchanged earlier shares and the store is written |
| ShareLedger.Visible | src/main/java/com/hdfsdrive/core/ShareService.java:65-73 | the reference filter: the shares not yet expired, in store order |
| ShareLedger.List | src/main/java/com/hdfsdrive/core/ShareService.java:65-73 | the loop that skips expired shares returns exactly the visible ones |
| ShareLedger.VisibleShrinks | src/main/java/com/hdfsdrive/core/ShareService.java:70 | a share visible at a later instant was visible earlier too |
| ShareLedger.AddThenList | src/main/java/com/hdfsdrive/core/ShareService.java:56-73 | listing after an add shows the earlier visible shares, followed by the new one exactly when it has not expired |
| ShareLedger.FirstWithId | src/main/java/com/hdfsdrive/core/ShareService.java:94-95 | the reference lookup: none exactly when no share has the id, else the earliest share with it |
| ShareLedger.GetById | src/main/java/com/hdfsdrive/core/ShareService.java:91-100 | a found share has the id, is stored, has not expired and is the first share with that id; an unknown id gives null; a null for a known id means the first share with that id has expired, even if a later one has not |
| ShareLedger.AddThenGet | src/main/java/com/hdfsdrive/core/ShareService.java:91-100 | a share added under a new id is found by it exactly until it expires |
| ShareLedger.GetIsListed | src/main/java/com/hdfsdrive/core/ShareService.java:65-100 | a share found by id is among the listed ones |
| ShareLedger.WithoutId | src/main/java/com/hdfsdrive/core/ShareService.java:79-86 | exactly the shares with other ids remain, the store is unchanged when the id is absent and strictly shorter when present |
| ShareLedger.Remove | src/main/java/com/hdfsdrive/core/ShareService.java:76-88 | every share with the id is dropped and nothing else; the result and the rewrite happen exactly when one existed |
| ShareLedger.RemoveThenGet | src/main/java/com/hdfsdrive/core/ShareService.java:76-100 | after a removal the id is not found, and a second removal reports false |
| ShareLedger.RemoveUndoesAdd | src/main/java/com/hdfsdrive/core/ShareService.java:76-88 | removing the id of a share just added under a new id restores the store and reports true |
| ShareLedger.ExpiryBoundaryDiffers | src/main/java/com/hdfsdrive/core/ShareService.java:70-96 | at the exact expiry instant a share is still visible, while a trash entry due then is already purged |
| ShareLedger.NeverExpires | src/main/java/com/hdfsdrive/core/ShareService.java:70 | an expiry of 0 means the share never expires |
| HdfsListing.Select | src/main/java/com/hdfsdrive/core/HdfsService.java:141-152 | the entries of the statuses that pass the filter, in listing order, with none invented |
| HdfsListing.Search | src/main/java/com/hdfsdrive/core/HdfsService.java:141-152 | every child whose name contains the text is returned |
| HdfsListing.SearchSound | src/main/java/com/hdfsdrive/core/HdfsService.java:146 | every returned entry is a child whose name contains the text, compared case-sensitively |
| HdfsListing.NormalizeExts | src/main/java/com/hdfsdrive/core/HdfsService.java:163-170 | null extensions are skipped and every other one is trimmed and lower-cased, and nothing else enters the list |
| HdfsListing.ExtensionOf | src/main/java/com/hdfsdrive/core/HdfsService.java:173-176 | a name has an extension exactly when it holds a '.' that is not its last character; the extension is non-empty and dot-free |
| HdfsListing.ExtensionOfDotted | src/main/java/com/hdfsdrive/core/HdfsService.java:173-176 | the text after the last dot is read back lower-cased whatever the stem holds |
| HdfsListing.NoExtension | src/main/java/com/hdfsdrive/core/HdfsService.java:175 | a name without a dot, or ending in one, has no extension |
| HdfsListing.SearchByExtensions | src/main/java/com/hdfsdrive/core/HdfsService.java:160-182 | a null or empty list gives nothing; otherwise every child whose extension is in the normalised list is returned |
| HdfsListing.SearchByExtensionsSoundAndOrdered | src/main/java/com/hdfsdrive/core/HdfsService.java:160-182 | every match has a listed extension, and the matches of two listings joined are the two match lists joined |
| HdfsListing.ListDir | src/main/java/com/hdfsdrive/core/HdfsService.java:189-197 | one line per child, each a six-character tag followed by the child's path |
| HdfsListing.ListDirLineRoundTrip | src/main/java/com/hdfsdrive/core/HdfsService.java:195 | the child's path and whether it is a directory can be read back from its line |
| HdfsListing.ListDirWithMeta | src/main/java/com/hdfsdrive/core/HdfsService.java:203-213 | one entry per child, in order, with path, kind and modification time kept and size 0 for a directory, the length for a file |
| HdfsListing.ToShort | src/main/java/com/hdfsdrive/core/HdfsService.java:251 | the cast to short lands in the 16-bit range, keeps values already in range and differs from the input by a multiple of 65536 |
| HdfsListing.PermissionOf | src/main/java/com/hdfsdrive/core/HdfsService.java:249-253 | a null or empty mode string changes nothing; otherwise a set mode is a 16-bit value parsed from a string that starts with a sign or an octal digit |
| HdfsListing.PermissionRoundTrip | src/main/java/com/hdfsdrive/core/HdfsService.java:249-253 | any octal mode written without a sign, such as "700", is applied as that mode |
| StableSort.WithKey | src/main/java/com/hdfsdrive/web/DirectoryServlet.java:382-387 | the reference projection used to state stability: the elements with one key, in order, and no others |
| StableSort.Insert | src/main/java/com/hdfsdrive/web/DirectoryServlet.java:382-387 | inserting into a sorted list keeps it sorted and adds exactly the one element |
| StableSort.InsertStableAhead | src/main/java/com/hdfsdrive/web/DirectoryServlet.java:382-387 | an inserted element goes behind every element with the same key |
| StableSort.Sort | src/main/java/com/hdfsdrive/web/DirectoryServlet.java:382-387 | the list sort used for the trash view is sorted by the key and a permutation of its input |
| StableSort.SortMembers | src/main/java/com/hdfsdrive/web/DirectoryServlet.java:382-387 | the sorted list holds exactly the input's elements |
| DirectoryListing.ItemOf | src/main/java/com/hdfsdrive/web/DirectoryServlet.java:439-446 | a row's name holds no '/', kind, size and time are copied, and its path is the storage path mapped into the caller's view |
| DirectoryListing.Items | src/main/java/com/hdfsdrive/web/DirectoryServlet.java:305-315 | one row per scanned entry, in order |
| DirectoryListing.TypeKeyOf | src/main/java/com/hdfsdrive/web/DirectoryServlet.java:291-293 | the class named after "/.type/" is read back whatever follows it |
| DirectoryListing.TypeKeyMissing | src/main/java/com/hdfsdrive/web/DirectoryServlet.java:292-293 | "/.type/" alone names no class |
| DirectoryListing.StartDir | src/main/java/com/hdfsdrive/web/DirectoryServlet.java:297 | the type scan starts at "/" for the admin, at the tenant's root for a tenant, and at "/users/null" with no session |
| DirectoryListing.TypeView | src/main/java/com/hdfsdrive/web/DirectoryServlet.java:291-326 | an unknown or missing class is reported with its name; a client failure on both clients is reported; at most one scan, of the start directory, on the admin client exactly when the session client failed; rows come only from scanned entries |
| DirectoryListing.TypeViewSound | src/main/java/com/hdfsdrive/web/DirectoryServlet.java:304-315 | every row of a type view is a scanned file whose extension belongs to the class |
| DirectoryListing.TypeViewComplete | src/main/java/com/hdfsdrive/web/DirectoryServlet.java:304-315 | every scanned file whose extension belongs to the class is shown |
| DirectoryListing.TrashItemOf | src/main/java/com/hdfsdrive/web/DirectoryServlet.java:346-355 | a trash row keeps the original path, name and kind, carries the effective expiry, and shows the path mapped into the caller's view |
| DirectoryListing.VisibleItems | src/main/java/com/hdfsdrive/web/DirectoryServlet.java:340-380 | every ledger entry the caller may see gets a row |
| DirectoryListing.PurgeCalls | src/main/java/com/hdfsdrive/core/TrashService.java:99-103 | one admin recursive delete per purged path, in order |
| DirectoryListing.TrashView | src/main/java/com/hdfsdrive/web/DirectoryServlet.java:330-396 | when the admin client can be made the due entries, and only they, leave the ledger through admin deletes; otherwise nothing changes; the rows are the caller's visible entries, a permutation sorted by effective expiry |
| DirectoryListing.TrashViewMembers | src/main/java/com/hdfsdrive/web/DirectoryServlet.java:330-396 | a row is shown exactly when it belongs to a kept entry the caller may see |
| DirectoryListing.TrashViewPendingAndOwn | src/main/java/com/hdfsdrive/web/DirectoryServlet.java:330-345 | after a purge no row is due, and a tenant sees only entries under its own root, with virtual paths |
| DirectoryListing.TrashViewStable | src/main/java/com/hdfsdrive/web/DirectoryServlet.java:382-387 | entries falling due at the same instant keep their ledger order |
| DirectoryListing.TrashViewPurgesEveryone | src/main/java/com/hdfsdrive/web/DirectoryServlet.java:330-336 | opening the trash view deletes, as admin, every due entry of every tenant |
| DirectoryListing.Purge | src/main/java/com/hdfsdrive/web/DirectoryServlet.java:240-250 | a failed admin client is reported as "Purge failed"; otherwise the reply lists exactly the due paths, the ledger keeps exactly the others, and one admin delete is issued per path |
| DirectoryListing.Shown | src/main/java/com/hdfsdrive/web/DirectoryServlet.java:429-447 | every child not recorded in the trash ledger by its exact path gets a row |
| DirectoryListing.Probe | src/main/java/com/hdfsdrive/web/DirectoryServlet.java:410-420 | the directory counts as present when the first probe says so, or, below "/users/", when the probe after a best-effort mkdirs says so; mkdirs happens exactly in the second case |
| DirectoryListing.NormalView | src/main/java/com/hdfsdrive/web/DirectoryServlet.java:399-428 | a session-client failure is reported; every call is a session call on the resolved path; the directory is listed exactly when it is present; a missing directory lists as empty and a listing failure is reported |
| DirectoryListing.NormalViewItems | src/main/java/com/hdfsdrive/web/DirectoryServlet.java:429-447 | the ordinary listing shows exactly the children the ledger does not record, directories with size 0 |
| DirectoryListing.List | src/main/java/com/hdfsdrive/web/DirectoryServlet.java:272-470 | a denied path gives "Access denied" and nothing else does; only the trash view can change the ledger |
| DirectoryListing.ListConfined | src/main/java/com/hdfsdrive/web/DirectoryServlet.java:272-470 | every storage call of a tenant's type view or ordinary listing names only paths inside the tenant's root |
| DirectoryListing.ListAdminUse | src/main/java/com/hdfsdrive/web/DirectoryServlet.java:291-336 | the admin client appears only in the trash view or in a type view whose session client failed |
| DirectoryListing.Search | src/main/java/com/hdfsdrive/web/DirectoryServlet.java:652-689 | a missing name is reported first, then a denied start directory; results come exactly when both pass and the scan succeeds, and then hold exactly the entries whose name contains the text |
| DirectoryListing.SearchItems | src/main/java/com/hdfsdrive/web/DirectoryServlet.java:666-680 | the search rows are exactly the rows of the matching entries |
| DirectoryOps.CreateDir | src/main/java/com/hdfsdrive/web/DirectoryServlet.java:476-525 | a missing path and a denied path are reported, in that order; otherwise the reply carries the path as given, and the success flag and message of the storage side |
| DirectoryOps.CreateAt | src/main/java/com/hdfsdrive/web/DirectoryServlet.java:492-512 | the first call is a session mkdirs; the directory counts as made when it succeeded, or when it threw for a non-admin caller and the admin mkdirs succeeded; only then is the admin client used; ownership goes only to the session user, and only after an admin-made directory for a logged-in caller |
| DirectoryOps.AdminMkdirs | src/main/java/com/hdfsdrive/web/DirectoryServlet.java:497-507 | the admin half is an admin mkdirs, followed, when it made the directory for a logged-in caller, by handing it to that caller with mode 700 |
| DirectoryOps.CreateDirDisciplined | src/main/java/com/hdfsdrive/web/DirectoryServlet.java:476-525 | for a logged-in caller directory creation keeps the escalation discipline of the file handlers |
| DirectoryOps.AnonymousCreateEscalates | src/main/java/com/hdfsdrive/web/DirectoryServlet.java:494-500 | a caller without a session can make the admin create a reserved path, breaking the discipline |
| DirectoryOps.TrashExpiry | src/main/java/com/hdfsdrive/web/DirectoryServlet.java:554-558 | a missing or unparsable "days" gives 0 (the default retention); a parsed value gives now plus that many days when no long arithmetic overflows, and the result is always a long |
| DirectoryOps.DeleteDir | src/main/java/com/hdfsdrive/web/DirectoryServlet.java:527-573 | missing and denied paths are reported; no call escalates or changes ownership; a permanent delete is one session delete that, when it returns, forgets the path in the ledger and reports its result, and when it throws reports the failure; a soft delete is one directory probe and a ledger add with the computed expiry |
| DirectoryOps.ZeroDaysDueAtOnce | src/main/java/com/hdfsdrive/web/DirectoryServlet.java:554-559 | a soft delete with "days" 0 is recorded as due at once |
| DirectoryOps.RestoreTarget | src/main/java/com/hdfsdrive/web/DirectoryServlet.java:584-594 | a restore may touch the resolved path only, and only when the caller is the admin or the path lies inside the caller's root |
| DirectoryOps.RestoreTargetOf | src/main/java/com/hdfsdrive/web/DirectoryServlet.java:584-594 | a tenant may restore exactly the non-reserved paths it resolves, the admin any path as normalised, a caller without a session nothing |
| DirectoryOps.Restore | src/main/java/com/hdfsdrive/web/DirectoryServlet.java:575-603 | missing and refused paths are reported; otherwise the path leaves the ledger, and success and message say whether it was recorded |
| DirectoryOps.RestoreUndoesSoftDelete | src/main/java/com/hdfsdrive/web/DirectoryServlet.java:527-603 | restoring a path just moved to the trash gives back the ledger as it was and reports success |
| DirectoryOps.RestoreOne | src/main/java/com/hdfsdrive/web/DirectoryServlet.java:617-637 | one batch path adds its own result and keeps the others; it reports true exactly when it may be restored and was recorded, and the ledger loses exactly that path |
| DirectoryOps.RepeatedPathReportsFalse | src/main/java/com/hdfsdrive/web/DirectoryServlet.java:631-636 | a path listed twice reports false, because the second result overwrites the first |
| DirectoryOps.RestoreBatch | src/main/java/com/hdfsdrive/web/DirectoryServlet.java:605-649 | a body that is not JSON is reported; a missing or non-list "paths" gives an empty result; otherwise there is one result per listed path, and it is true exactly when, at the path's last listing, the caller may restore it and its stored path was recorded before the batch and not cleared by an earlier path; the ledger loses exactly the cleared paths |
| DirectoryOps.RestoreAll | src/main/java/com/hdfsdrive/web/DirectoryServlet.java:617-638 | the loop over the paths skips nulls, answers every listed path with the outcome of its last listing (true exactly when that restore found its recorded, not yet cleared entry), and leaves the ledger without the cleared paths, nothing else changed |
| FileOps.Move | src/main/java/com/hdfsdrive/web/file/FileServlet.java:77-124 | missing and denied paths are reported in that order; the escalation discipline holds; success means the session rename returned true, or it threw for a tenant and the admin rename returned true; only an escalation changes ownership: the tenant root, then the destination when it moved, with no chmod |
| FileOps.MoveCalls | src/main/java/com/hdfsdrive/web/file/FileServlet.java:89-112 | the calls of a rename keep the discipline and change ownership only after a tenant's rename threw |
| FileOps.Copy | src/main/java/com/hdfsdrive/web/file/FileServlet.java:126-173 | as for a rename, with the copy's messages, and an admin-made copy is also set to mode 600 |
| FileOps.CopyCalls | src/main/java/com/hdfsdrive/web/file/FileServlet.java:138-161 | the calls of a copy keep the discipline and change ownership only after a tenant's copy threw |
| FileOps.HandOver | src/main/java/com/hdfsdrive/web/file/FileServlet.java:268-269 | the hand-over runs on the admin client and gives the file to the tenant with mode 600 |
| FileOps.Save | src/main/java/com/hdfsdrive/web/file/FileServlet.java:209-294 | missing and denied paths are reported; an existing directory is refused and never written; the save reports success exactly when the session write succeeded or a tenant's admin retry did; a failed retry reports the session exception; only an escalation changes ownership |
| FileOps.SaveCalls | src/main/java/com/hdfsdrive/web/file/FileServlet.java:231-285 | the session client only checks and writes the target, and a tenant's admin retry hands the file over after re-owning the tenant root |
| FileOps.FileName | src/main/java/com/hdfsdrive/web/file/FileServlet.java:540-550 | an absent header gives "unknown", and no name ever holds a '"' |
| FileOps.FirstFileNamePart | src/main/java/com/hdfsdrive/web/file/FileServlet.java:544-548 | the first qualifying part gives the name, and "unknown" when none qualifies |
| FileOps.FileNameValue | src/main/java/com/hdfsdrive/web/file/FileServlet.java:546 | the value of a part never holds a '"' |
| FileOps.FileNameOfFormData | src/main/java/com/hdfsdrive/web/file/FileServlet.java:540-550 | the name a browser sends as form-data; filename="name" is read back, for a name without '"' or ';' |
| FileOps.FirstFileNamePartSkips | src/main/java/com/hdfsdrive/web/file/FileServlet.java:545 | a part that does not start with "filename" after trimming is passed over |
| FileOps.FirstFileNamePartTakes | src/main/java/com/hdfsdrive/web/file/FileServlet.java:545-546 | a qualifying first part gives the name |
| FileOps.UploadTarget | src/main/java/com/hdfsdrive/web/file/FileServlet.java:337 | the upload target joins directory and file name with exactly one '/' |
| FileOps.UploadParent | src/main/java/com/hdfsdrive/web/file/FileServlet.java:342-343 | the parent checked is non-empty, and is "/" or a proper prefix of the target ending before a '/' |
| FileOps.UploadFile | src/main/java/com/hdfsdrive/web/file/FileServlet.java:301-398 | missing path, missing file and denied path are reported in that order; otherwise the upload goes to the target built from the resolved path and the header's file name |
| FileOps.UploadTo | src/main/java/com/hdfsdrive/web/file/FileServlet.java:338-392 | a session client that cannot be made fails the upload with its exception and no call at all; once the session client is open its upload is always tried; success means it succeeded, or a tenant's admin parent check and upload both did; success reports the target as the caller sees it; a failure reports the session exception; an escalated success gives the file to the tenant with mode 600 |
| FileOps.UploadOnSession | src/main/java/com/hdfsdrive/web/file/FileServlet.java:338-357 | an upload without escalation stays on the session client, changes no ownership and reports the session outcome |
| FileOps.UploadEscalated | src/main/java/com/hdfsdrive/web/file/FileServlet.java:354-378 | a tenant's escalated upload succeeds exactly when the admin's parent check and upload succeed, and then hands the file over |
| FileOps.EscalatedUploadCalls | src/main/java/com/hdfsdrive/web/file/FileServlet.java:354-378 | the calls after a tenant's upload threw keep the discipline and change ownership only when the admin upload succeeded |
| FileOps.SessionUpload | src/main/java/com/hdfsdrive/web/file/FileServlet.java:340-353 | the session side changes no ownership and creates a missing parent only below "/users/" |
| FileOps.AdminUpload | src/main/java/com/hdfsdrive/web/file/FileServlet.java:360-372 | the admin side runs on the admin client, uploads when its parent check returned, and hands the file over only when the upload succeeded |
| FileOps.ResolveNeverSlashForTenant | src/main/java/com/hdfsdrive/web/file/FileServlet.java:325-333 | the guard that maps a tenant's "/" to its root never fires, because no caller but the admin resolves to "/" |
| FileOps.DeleteFile | src/main/java/com/hdfsdrive/web/file/FileServlet.java:443-523 | missing and denied paths are reported; otherwise "permanent" chooses the permanent or the soft branch |
| FileOps.DeleteFileDisciplined | src/main/java/com/hdfsdrive/web/file/FileServlet.java:443-523 | a delete never changes ownership and escalates only for a tenant whose own delete threw |
| FileOps.DeletePermanently | src/main/java/com/hdfsdrive/web/file/FileServlet.java:455-489 | every call deletes the path; a thrown delete for the admin or an anonymous caller is reported and leaves the ledger; otherwise the ledger forgets the path whether or not anything was deleted, and success means the session or the admin delete returned true |
| FileOps.SoftDelete | src/main/java/com/hdfsdrive/web/file/FileServlet.java:490-510 | nothing is deleted: one listing probe, the path recorded as a directory exactly when the probe returned, no explicit expiry, and the reply shows where it went |
| FileOps.AdminNeverEscalates | src/main/java/com/hdfsdrive/web/file/FileServlet.java:98 | the admin principal never reaches the admin client in any file handler |
| FileOps.FalseIsNotEscalated | src/main/java/com/hdfsdrive/web/file/FileServlet.java:89-116 | a false answer from the session client is final: no admin call and failure reported |
| LegacyFileServlet.EnsureRootOwnedStepwise | src/main/java/com/hdfsdrive/web/FileServlet.java:586-598 | the older servlet's root re-owning issues the same calls as the current one: for a named tenant, the root given to the tenant first, then mode 700 |
| LegacyFileServlet.MoveStepwise | src/main/java/com/hdfsdrive/web/FileServlet.java:140-187 | the older servlet's rename, written statement by statement, issues the same calls and gives the same reply as the current handler |
| LegacyFileServlet.CopyStepwise | src/main/java/com/hdfsdrive/web/FileServlet.java:189-236 | the older servlet's copy agrees with the current handler |
| LegacyFileServlet.AdminRetryIs | src/main/java/com/hdfsdrive/web/FileServlet.java:160-170 | an admin fallback is the root re-owned, the operation repeated as admin, then the follow-up calls |
| LegacyFileServlet.SaveStepwise | src/main/java/com/hdfsdrive/web/FileServlet.java:272-356 | the older servlet's save agrees with the current handler |
| LegacyFileServlet.FileNameStepwise | src/main/java/com/hdfsdrive/web/FileServlet.java:600-610 | the older servlet's header scan yields the same file name as the current one |
| LegacyFileServlet.UploadStepwise | src/main/java/com/hdfsdrive/web/FileServlet.java:362-459 | the older servlet's upload, with its checks, agrees with the current handler |
| LegacyFileServlet.UploadResolvingStepwise | src/main/java/com/hdfsdrive/web/FileServlet.java:384-459 | from the path resolution on, including the guard for a tenant's "/", the older upload agrees with the current one |
| LegacyFileServlet.UploadIntoStepwise | src/main/java/com/hdfsdrive/web/FileServlet.java:396-459 | the upload into a resolved directory agrees with the current one |
| LegacyFileServlet.UploadToStepwise | src/main/java/com/hdfsdrive/web/FileServlet.java:399-443 | once the target is known, the failure to make the session client, the session attempt and the admin fallback agree with the current upload |
| LegacyFileServlet.UploadToOnSession | src/main/java/com/hdfsdrive/web/FileServlet.java:400-415 | an upload whose session attempt is final reports its outcome over the session calls alone |
| LegacyFileServlet.UploadToEscalated | src/main/java/com/hdfsdrive/web/FileServlet.java:414-439 | a tenant's failed upload reports success exactly when the admin parent check and upload succeed, and otherwise the session exception |
| LegacyFileServlet.SessionUploadStepwise | src/main/java/com/hdfsdrive/web/FileServlet.java:402-414 | the session side probes the parent, creates it only below "/users/", and uploads |
| LegacyFileServlet.AdminUploadStepwise | src/main/java/com/hdfsdrive/web/FileServlet.java:420-433 | the admin side probes and creates the parent, uploads and hands the file over, and reports success exactly when the probe and the upload went through |
| LegacyFileServlet.DeleteStepwise | src/main/java/com/hdfsdrive/web/FileServlet.java:504-584 | the older servlet's delete agrees with the current handler |
| LegacyFileServlet.DeletePermanentlyStepwise | src/main/java/com/hdfsdrive/web/FileServlet.java:520-549 | the permanent branch rethrows for the admin and an anonymous caller and escalates for a tenant, as in the current handler |
| LegacyFileServlet.SoftDeleteStepwise | src/main/java/com/hdfsdrive/web/FileServlet.java:550-575 | the soft branch only records the path in the ledger, as in the current handler |
| LegacyFileServlet.RestoreStepwise | src/main/java/com/hdfsdrive/web/FileServlet.java:238-270 | the file servlets' restore is the directory servlet's restore |
| TypeClasses.BuiltinTypes | src/main/java/com/hdfsdrive/web/DirectoryServlet.java:175-184 | the built-in table has exactly the four classes images, videos, archives and documents, each with a non-empty list of extensions |
| TypeClasses.SeparatorIndex | src/main/java/com/hdfsdrive/web/DirectoryServlet.java:199 | the first ':' or '：' of a line, or -1 when it has neither |
| TypeClasses.ClassOfLabel | src/main/java/com/hdfsdrive/web/DirectoryServlet.java:204-208 | a heading names a class exactly when it contains one of the four labels, and 图片 wins over the others |
| TypeClasses.FormatTokensAreRuns | src/main/java/com/hdfsdrive/web/DirectoryServlet.java:210-217 | the extension list of a line is its maximal runs of ASCII letters and digits, lower-cased, and the empty fields of the split never reach it |
| TypeClasses.FormatTokensAreExtensions | src/main/java/com/hdfsdrive/web/DirectoryServlet.java:210-217 | every extension read from the file is non-empty, lower-case and alphanumeric |
| TypeClasses.LineUpdate | src/main/java/com/hdfsdrive/web/DirectoryServlet.java:196-220 | a line that changes the table names one of the four classes and gives a non-empty list of extensions |
| TypeClasses.UpdateOf | src/main/java/com/hdfsdrive/web/DirectoryServlet.java:208-220 | a line changes the table exactly when it named a class and gave at least one extension |
| TypeClasses.NoSeparatorSkipped | src/main/java/com/hdfsdrive/web/DirectoryServlet.java:199-200 | a line with neither ':' nor '：' is skipped |
| TypeClasses.ApplyUpdate | src/main/java/com/hdfsdrive/web/DirectoryServlet.java:218-220 | a line replaces the named class's list and keeps every other class's |
| TypeClasses.ApplyFormatLine | src/main/java/com/hdfsdrive/web/DirectoryServlet.java:196-220 | applying a line keeps every class's list non-empty and alphanumeric |
| TypeClasses.ParseFormats | src/main/java/com/hdfsdrive/web/DirectoryServlet.java:192-223 | the formats file applied line by line keeps the table well formed and loses no class |
| TypeClasses.InitialTypes | src/main/java/com/hdfsdrive/web/DirectoryServlet.java:66-81 | the table the servlet starts with has exactly the four classes, is well formed, and is the built-in one without a formats file |
| TypeClasses.FormatLineRoundTrip | src/main/java/com/hdfsdrive/web/DirectoryServlet.java:196-220 | a class line written as a labelled heading, a colon of either kind and lower-case extensions joined by any non-alphanumeric character is read back as that class and exactly those extensions |
| TypeClasses.LineOfParts | src/main/java/com/hdfsdrive/web/DirectoryServlet.java:199-210 | a line is split at its first colon, and both halves are trimmed before the class and the extensions are read |
| OpLog.FieldsOf | src/main/java/com/hdfsdrive/core/LogUtil.java:35-46 | one key=value field per pair, in order |
| OpLog.LogUtilPairs | src/main/java/com/hdfsdrive/core/LogUtil.java:35-46 | a LogUtil line records the user and the action, then the path and the info only when given |
| OpLog.LogUtilPairsAre | src/main/java/com/hdfsdrive/core/LogUtil.java:35-46 | the user is "unknown" when absent, the action empty when absent, and the path and the info appear exactly when given |
| OpLog.LogUtilLine | src/main/java/com/hdfsdrive/core/LogUtil.java:17-49 | a line is written exactly when there is a servlet context and its log directory resolves, and it ends with a newline |
| OpLog.LogUtilDetail | src/main/java/com/hdfsdrive/core/LogUtil.java:13-15 | the four-argument log is the five-argument one with the detail as path and no info |
| OpLog.ReplaceChar | src/main/java/com/hdfsdrive/web/common/AbstractHdfsServlet.java:137 | replacing a character changes exactly its occurrences and nothing else |
| OpLog.AdminLogPairs | src/main/java/com/hdfsdrive/web/common/AbstractHdfsServlet.java:130-138 | an admin log line always carries the four keys user, action, path and info |
| OpLog.AdminLogLine | src/main/java/com/hdfsdrive/web/common/AbstractHdfsServlet.java:123-139 | an admin log line ends with a newline |
| OpLog.Get | src/main/java/com/hdfsdrive/web/admin/AdminLogsServlet.java:78-81 | a key's value is present exactly when the record holds the key |
| OpLog.ParseLine | src/main/java/com/hdfsdrive/web/admin/AdminLogsServlet.java:34-62 | a blank line is skipped, and a kept line is never blank and always has an "action" key |
| OpLog.FirstFields | src/main/java/com/hdfsdrive/web/admin/AdminLogsServlet.java:40-49 | a record starts with the raw line, the time text, and the time exactly when the date parser accepts the text |
| OpLog.Records | src/main/java/com/hdfsdrive/web/admin/AdminLogsServlet.java:32-64 | the records are at most one per line, each with an action |
| OpLog.ReadRecords | src/main/java/com/hdfsdrive/web/admin/AdminLogsServlet.java:32-64 | the read loop produces the records of the lines, in file order |
| OpLog.SeedEntries | src/main/java/com/hdfsdrive/web/admin/AdminLogsServlet.java:16-20 | the two built-in entries are timed one minute and one hour before the class was loaded |
| OpLog.Collected | src/main/java/com/hdfsdrive/web/admin/AdminLogsServlet.java:25-74 | a file read to the end gives its records; an unreadable file gives the seed entries; a read that breaks mid-file gives the records so far followed by the seed entries |
| OpLog.Page | src/main/java/com/hdfsdrive/web/admin/AdminLogsServlet.java:76-85 | the page holds exactly the collected records, newest first |
| OpLog.NewestFirstSorted | src/main/java/com/hdfsdrive/web/admin/AdminLogsServlet.java:77-83 | the descending-time comparator yields a sorted permutation |
| OpLog.NewestFirstStable | src/main/java/com/hdfsdrive/web/admin/AdminLogsServlet.java:77-83 | records with equal times keep the order in which they were collected |
| OpLog.PageHasActions | src/main/java/com/hdfsdrive/web/admin/AdminLogsServlet.java:59-61 | every record on the page has an action |
| OpLog.FieldParts | src/main/java/com/hdfsdrive/web/admin/AdminLogsServlet.java:52-56 | a key=value field with a non-empty, '='-free key splits back at its first '=' into that key and value |
| OpLog.ReadBackPresent | src/main/java/com/hdfsdrive/web/admin/AdminLogsServlet.java:50-58 | entering fields with distinct keys gives each key its own value |
| OpLog.ReadBackAbsent | src/main/java/com/hdfsdrive/web/admin/AdminLogsServlet.java:50-58 | a key no field carries keeps its earlier value |
| OpLog.WrittenLineReadBack | src/main/java/com/hdfsdrive/web/admin/AdminLogsServlet.java:34-62 | a written line of tab-free pairs is kept by the reader with its timestamp text, every pair, and no other key |
| OpLog.PairsReadBack | src/main/java/com/hdfsdrive/web/admin/AdminLogsServlet.java:50-58 | entering the fields of distinct well-formed keys gives every pair, keeps the reserved keys and adds nothing else |
| OpLog.LogUtilRoundTrip | src/main/java/com/hdfsdrive/core/LogUtil.java:33-48 | what LogUtil writes, with no tab and no line break in any part (it writes them unescaped), is read back by the log page as one line with the timestamp text, the user, the action, and exactly the path and info given |
| OpLog.AdminLogRoundTrip | src/main/java/com/hdfsdrive/web/common/AbstractHdfsServlet.java:123-139 | what appendAdminLog writes, with no tab in any part, no line break in the user, action or path and no carriage return in the result, is read back as one line with the timestamp text, all four keys, the placeholders for an absent user or path, and the result with its '\n' turned into spaces |
| Orders.Rescale | src/main/java/com/carrental/web/OrderServlet.java:284 | rewriting a decimal at a larger scale keeps its value |
| Orders.Add | src/main/java/com/carrental/web/OrderServlet.java:284 | a decimal sum is exact and takes the larger scale |
| Orders.Subtract | src/main/java/com/carrental/web/OrderServlet.java:284 | a decimal difference is exact and takes the larger scale |
| Orders.Multiply | src/main/java/com/carrental/web/OrderServlet.java:278 | a decimal product is exact and its scale is the sum of the scales |
| Orders.OfInt | src/main/java/com/carrental/web/OrderServlet.java:278 | a whole number becomes a decimal of that value at scale 0 |
| Orders.SumIsExact | src/main/java/com/carrental/web/OrderServlet.java:284 | two decimals at the same scale add by adding their unscaled integers, with no rounding: 0.1 plus 0.2 is 3 at scale one, exactly 0.3 |
| Orders.PriceTimesDays | src/main/java/com/carrental/web/OrderServlet.java:278 | the rental amount is the daily rate times the number of days, exactly |
| Orders.RentalDays | src/main/java/com/carrental/web/OrderServlet.java:269-270 | a rental is charged for at least one day |
| Orders.DaysBracket | src/main/java/com/carrental/web/OrderServlet.java:269-270 | a rental shorter than a day counts as one day; otherwise the count is the whole days, rounded down |
| Orders.FeeValue | src/main/java/com/carrental/web/OrderServlet.java:279-282 | an absent fee is zero, a JSON null fee stops the request with a null dereference, and a given one is parsed, its parse failure stopping the request with the parser's message |
| Orders.Fees | src/main/java/com/carrental/web/OrderServlet.java:279-282 | the four fees are parsed in order; the step fails exactly when one of them fails, with the error of the first that does; on success each keeps its parsed value |
| Orders.CreateOrder | src/main/java/com/carrental/web/OrderServlet.java:248-350 | checked in source order: a missing date is refused as an invalid format; a return not after pickup is refused; then the price lookup and then the deposit lookup, a missing vehicle refused as not found and any other lookup exception with its message; a NULL price fails at the rental amount; then the first failing fee; then a failed insert with its message; an order is placed exactly when all of these pass, and it satisfies the price formula and keeps the looked-up deposit, NULL included |
| Orders.NullPriceRefused | src/main/java/com/carrental/web/OrderServlet.java:273-278 | a NULL daily price stops the request with a null dereference whatever the fees and the insert |
| Orders.NullDepositPlaced | src/main/java/com/carrental/web/OrderServlet.java:324-348 | a NULL deposit does not stop the request: the order is placed and echoes a null deposit |
| Orders.Message | src/main/java/com/carrental/web/OrderServlet.java:129-134 | every refusal is answered with its message, except a null dereference, whose text is the runtime's |
| Orders.NewOrder | src/main/java/com/carrental/web/OrderServlet.java:269-350 | the placed order has the rental days of the two times, the rate times days as rental amount, the fees added and the discount subtracted as total, status PENDING and UNPAID, the clock's order number and the inserted id |
| Orders.OrderNumber | src/main/java/com/carrental/web/OrderServlet.java:249 | an order number starts with "ORD" |
| Orders.OrderNumberReadsBack | src/main/java/com/carrental/web/OrderServlet.java:249 | the clock reading is read back from the order number |
| Orders.TotalNotClamped | src/main/java/com/carrental/web/OrderServlet.java:284 | a discount larger than the rest gives a negative total: nothing clamps it |
| EventStream.Target | src/main/java/com/hdfsdrive/web/AiServlet.java:74 | the upstream endpoint is the base URL followed by "/chat/completions", with no doubled slash |
| EventStream.TargetIgnoresTrailingSlash | src/main/java/com/hdfsdrive/web/AiServlet.java:74 | a trailing '/' on the base URL makes no difference |
| EventStream.WithStream | src/main/java/com/hdfsdrive/web/AiServlet.java:103-109 | the payload's "stream" member becomes true and every other member is kept, with none added |
| EventStream.WithStreamIdempotent | src/main/java/com/hdfsdrive/web/AiServlet.java:103-109 | forcing the flag twice is forcing it once |
| EventStream.Payload | src/main/java/com/hdfsdrive/web/AiServlet.java:95-111 | a body that is not a JSON object goes upstream as it came; an object goes with the flag forced on |
| EventStream.Deltas | src/main/java/com/hdfsdrive/web/AiServlet.java:167-179 | no choices write nothing |
| EventStream.Extract | src/main/java/com/hdfsdrive/web/AiServlet.java:163-198 | an event that is not JSON, or has neither a choices array nor a top-level content, is written as it came; a choices array writes the choices' texts; without one, a top-level content is written |
| EventStream.Step | src/main/java/com/hdfsdrive/web/AiServlet.java:145-202 | once "[DONE]" was seen nothing changes, and a line only ever appends to what was written |
| EventStream.Stream | src/main/java/com/hdfsdrive/web/AiServlet.java:141-203 | the read loop, with its break on "[DONE]", writes what the line-by-line reference relay writes |
| EventStream.DoneStops | src/main/java/com/hdfsdrive/web/AiServlet.java:157-161 | nothing after the line that ended the stream is read |
| EventStream.OneEvent | src/main/java/com/hdfsdrive/web/AiServlet.java:147-198 | one data line followed by a blank line writes that event's text |
| EventStream.OtherLinesIgnored | src/main/java/com/hdfsdrive/web/AiServlet.java:199-202 | a line that neither carries data nor is blank is ignored |
| EventStream.EmptyRemote | src/main/java/com/hdfsdrive/web/AiServlet.java:131-132 | the stand-in for a missing upstream body is a JSON object text |
| EventStream.RemoteLines | src/main/java/com/hdfsdrive/web/AiServlet.java:130-132 | the read loop reads the upstream's body, or the stand-in text when there is none |
| EventStream.Proxy | src/main/java/com/hdfsdrive/web/AiServlet.java:61-216 | a missing key and then a blank body are answered 400 before any upstream call; past those checks nothing is rejected, an exchange that throws is answered 500 with its message, and an answered one is forwarded to the target with the rewritten payload, under the upstream's status, with the text the read loop writes for the upstream's lines |
| EventStream.EmptyRemoteWritesNothing | src/main/java/com/hdfsdrive/web/AiServlet.java:131-203 | when the upstream offers no body, its stand-in is not event data and nothing is written |
| Schema.Statements | src/main/java/com/carrental/core/DatabaseInitializer.java:36-53 | every statement run is non-empty, trimmed and free of ';' |
| Schema.StatementsOfAllPieces | src/main/java/com/carrental/core/DatabaseInitializer.java:48-53 | splitting the script at ';' as Java's split does gives the same statements as splitting at every ';' |
| Schema.DroppedLineStatements | src/main/java/com/carrental/core/DatabaseInitializer.java:40-45 | a blank or "--" comment line contributes nothing to the statements |
| Schema.TerminatedRoundTrip | src/main/java/com/carrental/core/DatabaseInitializer.java:36-53 | clean statements, each written on its own line with a ';', are exactly the statements run |
| Schema.SemicolonInsideLineSplits | src/main/java/com/carrental/core/DatabaseInitializer.java:48 | a ';' inside a line cuts it like one at a line end, quotes or not |
| Schema.QuotedSemicolonSplits | src/main/java/com/carrental/core/DatabaseInitializer.java:48 | a quoted ';' in an INSERT cuts the statement in two |
| Schema.Initialize | src/main/java/com/carrental/core/DatabaseInitializer.java:28-66 | no script runs nothing; otherwise the statements run in order, and each rejected one adds two log lines (the statement, then the error) without stopping the rest |
| Schema.FailureLines | src/main/java/com/carrental/core/DatabaseInitializer.java:56-57 | a rejected statement prints two lines: the statement after "Failed to execute statement: ", whole when it has at most 100 characters, then "Error: " and the database's message |
| Schema.FailureLog | src/main/java/com/carrental/core/DatabaseInitializer.java:55-57 | at most two log lines (the statement cut at 100 characters, then the error) per statement run |
| Schema.FailureLogAppend | src/main/java/com/carrental/core/DatabaseInitializer.java:55-57 | a further statement adds its two log lines exactly when the database rejects it |
| Announcements.Lookup | src/main/java/com/hdfsdrive/web/AdminAnnouncementsServlet.java:45-47 | a key present in the body wins, even with a JSON null value; an absent key gives the default |
| Announcements.Post | src/main/java/com/hdfsdrive/web/AdminAnnouncementsServlet.java:38-54 | a body that does not parse changes nothing and reports the parser's message; a JSON null body advances the counter, adds nothing and fails; the post saves exactly when the body is an object, and then the counter advances and the new item with the next id, the body's fields or their defaults and the clock goes in front |
| Announcements.PostIdsCount | src/main/java/com/hdfsdrive/web/AdminAnnouncementsServlet.java:41-49 | two saving posts in a row get the two ids after the counter, the later in front and the counter two higher; from the initial counter the first id is 1001 |
| Announcements.Initial | src/main/java/com/hdfsdrive/web/AdminAnnouncementsServlet.java:17-28 | the board starts valid (ids falling along the list, none above the counter), with one item, id 1, and the counter at 1000 |
| Announcements.PostValid | src/main/java/com/hdfsdrive/web/AdminAnnouncementsServlet.java:38-54 | a post keeps the board valid |
| Announcements.PathId | src/main/java/com/hdfsdrive/web/AdminAnnouncementsServlet.java:59-63 | a missing path or one of at most one character has no id, and a parsed id fits in a long |
| Announcements.PathIdRoundTrip | src/main/java/com/hdfsdrive/web/AdminAnnouncementsServlet.java:61-63 | the path a client writes for an id, with or without further segments, gives that id back |
| Announcements.SlashesCrash | src/main/java/com/hdfsdrive/web/AdminAnnouncementsServlet.java:61 | a path of slashes alone, such as "//", splits into no field and fails before the handler's error handling |
| Announcements.FirstFrom | src/main/java/com/hdfsdrive/web/AdminAnnouncementsServlet.java:66-69 | the reference search: the first item with the id, or none |
| Announcements.Edited | src/main/java/com/hdfsdrive/web/AdminAnnouncementsServlet.java:70-71 | an edit replaces the title and the content by the body's where the body has them, even JSON null, and keeps the id, author and time |
| Announcements.Put | src/main/java/com/hdfsdrive/web/AdminAnnouncementsServlet.java:57-81 | missing id, crash, unparsable id and unparsable body are reported in that order and change nothing; the put succeeds exactly when the body is an object and some item has the id, and then only the first such item takes the body's title and content where given; a JSON null body fails exactly when an item has the id, and otherwise reports it not found |
| Announcements.PutValid | src/main/java/com/hdfsdrive/web/AdminAnnouncementsServlet.java:57-81 | a put keeps the board valid |
| Announcements.PutIdempotent | src/main/java/com/hdfsdrive/web/AdminAnnouncementsServlet.java:57-81 | putting the same body twice is putting it once |
| Announcements.Without | src/main/java/com/hdfsdrive/web/AdminAnnouncementsServlet.java:91 | the removal keeps exactly the items with other ids, and changes nothing when none has the id |
| Announcements.Delete | src/main/java/com/hdfsdrive/web/AdminAnnouncementsServlet.java:84-98 | missing id, crash and unparsable id are reported and change nothing; otherwise every item with the id goes, nothing else changes, and success says whether one did |
| Announcements.DeleteValid | src/main/java/com/hdfsdrive/web/AdminAnnouncementsServlet.java:84-98 | a delete keeps the board valid |
| Announcements.DeleteUndoesPost | src/main/java/com/hdfsdrive/web/AdminAnnouncementsServlet.java:84-98 | deleting the item just posted gives the items back, while the counter stays advanced |
| Announcements.DeleteRemovesOne | src/main/java/com/hdfsdrive/web/AdminAnnouncementsServlet.java:91 | on a valid board a successful delete removes exactly one item |
| Profile.Keep | src/main/java/com/hdfsdrive/web/user/UserServlet.java:93-94 | a blank field falls back to the stored value and any other is kept |
| Profile.UserName | src/main/java/com/hdfsdrive/web/user/UserServlet.java:73-75 | a blank user name falls back to the session's |
| Profile.NewPassword | src/main/java/com/hdfsdrive/web/user/UserServlet.java:83 | a password made of whitespace only counts as none |
| Profile.Extension | src/main/java/com/hdfsdrive/web/user/UserServlet.java:110-113 | the current version names the file jpg exactly when the MIME type mentions jpeg or jpg, otherwise gif exactly when it mentions gif, otherwise bmp exactly when it mentions bmp, and png in every other case |
| Profile.LegacyExtension | src/main/java/com/hdfsdrive/web/UserServlet.java:92-96 | the older version names the file jpg, then gif, in the same cases, then png when the MIME type mentions png or does not mention bmp, and bmp exactly when it mentions bmp but none of the others |
| Profile.ExtensionsDiffer | src/main/java/com/hdfsdrive/web/user/UserServlet.java:110-113 | the two versions name the file differently exactly when the MIME type mentions png and bmp and neither jpeg, jpg nor gif |
| Profile.StoreAvatar | src/main/java/com/hdfsdrive/web/user/UserServlet.java:103-135 | a file is stored exactly when the avatar is a data URL with its ',' at index 5 or later and a MIME part, whose payload decodes and whose write succeeds; it is stored under <context>/avatars/avatar_<id>_<time>.<extension of the MIME type>, becomes the avatar, and the previous avatar file is the one removed; otherwise nothing is removed and the avatar is the one sent or the previous one, and one that is not a data URL passes through |
| Profile.AvatarPath | src/main/java/com/hdfsdrive/web/user/UserServlet.java:119-122 | a stored avatar's path lies under "<context>/avatars/avatar_" |
| Profile.Replaced | src/main/java/com/hdfsdrive/web/user/UserServlet.java:125-129 | the file removed is the previous avatar, under the avatars folder, and never the new file |
| Profile.BadDataKeepsPrevious | src/main/java/com/hdfsdrive/web/user/UserServlet.java:132-134 | a data URL whose payload is not Base64 leaves the previous avatar |
| Profile.Capped | src/main/java/com/hdfsdrive/web/user/UserServlet.java:138-143 | lengths are UTF-16 units, as Java counts them: the avatar written never exceeds 2000; one of at most 2000 is kept; a longer one is replaced by the stored file's path when that is shorter than 2000, else by nothing |
| Profile.Commit | src/main/java/com/hdfsdrive/web/user/UserServlet.java:145-164 | on an SQL error the update is retried once with the stored file's path as avatar; success follows the last update's answer; a failed retry reports the first error; on success the session and the reply carry the user name and the avatar of the first attempt |
| Profile.Save | src/main/java/com/hdfsdrive/web/user/UserServlet.java:56-168 | without a session the reply is 401 and nothing is written; a bad body, a failed or empty user lookup and a wrong current password write nothing and report why; a row is written exactly when there is a session, the body parses, the user is found and the current password does not refuse; its name, password, e-mail and phone follow the form with blanks falling back to the stored values; its avatar is the form's, or the stored one when blank, taken through the data-URL step with the stored avatar as the file to replace, then capped; the update, its retry, the reply and the new session are those of `Commit`; the session changes only after a write |
| Profile.PlainAvatarMerged | src/main/java/com/hdfsdrive/web/user/UserServlet.java:96-98 | an avatar that needs no file and fits the column is written as the form gives it, and a blank one as stored |
| Profile.SavedReplyEchoesRow | src/main/java/com/hdfsdrive/web/user/UserServlet.java:156-160 | a successful reply, in either version, carries the avatar written (and the current version's contact fields), and the session takes that avatar |
| Profile.EmptyFormKeepsProfile | src/main/java/com/hdfsdrive/web/user/UserServlet.java:73-98 | an empty form saves the profile as stored, with the session's user name |
| Profile.WrongPasswordWritesNothing | src/main/java/com/hdfsdrive/web/user/UserServlet.java:86-91 | a wrong current password stops the request before any file or row is written |
| Profile.EmptyCurrentPasswordSkipsCheck | src/main/java/com/hdfsdrive/web/user/UserServlet.java:86 | an empty current password skips the check |
| Profile.PreviousAvatar | src/main/java/com/hdfsdrive/web/UserServlet.java:79-83 | the older version's second lookup gives the previous avatar, or none when it throws or finds nobody |
| Profile.LegacySave | src/main/java/com/hdfsdrive/web/UserServlet.java:49-176 | the older version refuses without a session and for a bad body, and fails when the password lookup it needs throws; otherwise it writes a row: name and password from the form, the stored password when none is given and the user is found; the avatar as sent, taken through the data-URL step with the avatar of the second, best-effort lookup as the file to replace, then capped; the update, its retry, the reply and the new session are those of `Commit`; the session changes only after a write |
| Profile.LegacyPlainAvatarAsSent | src/main/java/com/hdfsdrive/web/UserServlet.java:137-146 | the older version writes an avatar that needs no file and fits the column as sent, whatever is stored |
| Profile.AbsentAvatarDiffers | src/main/java/com/hdfsdrive/web/user/UserServlet.java:96-98 | a form without an avatar keeps the stored avatar in the current version and clears it in the older one |
| Profile.LegacySkipsPasswordCheck | src/main/java/com/hdfsdrive/web/UserServlet.java:65-74 | the older version has no current-password check, so it writes a form the current version refuses |
| Auth.Shown | src/main/java/com/hdfsdrive/web/user/AuthServlet.java:130-135 | an exception message that is present is printed as it is |
| Auth.OpenFor | src/main/java/com/hdfsdrive/web/user/AuthServlet.java:113-117 | the session after a login carries the account's id and name and lasts two hours; its avatar becomes the account's when the account has one and otherwise stays what the reused session held |
| Auth.Login | src/main/java/com/hdfsdrive/web/user/AuthServlet.java:95-138 | a missing name or password is a bad request; an unknown name is refused; a stored password that is absent or differs is refused as wrong; a failed lookup is reported; a session is opened exactly when the login succeeds |
| Auth.LoginSucceedsIff | src/main/java/com/hdfsdrive/web/user/AuthServlet.java:103-120 | a login succeeds exactly when the account exists and its stored password equals the one given, and the session then belongs to that account for two hours |
| Auth.NoPasswordNoLogin | src/main/java/com/hdfsdrive/web/user/AuthServlet.java:109-112 | an account with no stored password can never log in |
| Auth.Probe | src/main/java/com/hdfsdrive/web/user/AuthServlet.java:179 | the root probe runs as admin, stays inside the root and changes no ownership; it starts with the existence check whenever the admin client opened |
| Auth.HandOver | src/main/java/com/hdfsdrive/web/user/AuthServlet.java:181-182 | the hand-over gives the root to the new tenant with mode 700 and touches nothing else |
| Auth.CreateRoot | src/main/java/com/hdfsdrive/web/user/AuthServlet.java:175-188 | every call runs as admin on the new tenant's root, the first is the existence check, and the root changes hands, to the tenant with mode 700, exactly when the probe went through |
| Auth.Failure | src/main/java/com/hdfsdrive/web/user/AuthServlet.java:193-213 | an unexpected failure reads as a taken name exactly when debug output is off and the message names a duplicate or unique key; otherwise the failure is reported |
| Auth.Validate | src/main/java/com/hdfsdrive/web/user/AuthServlet.java:143-155 | lengths in UTF-16 units: the form passes exactly when both fields are given, the trimmed name has at least 3 and the password at least 4; a missing field, then a short name, then a short password is refused, each with its own message |
| Auth.Register | src/main/java/com/hdfsdrive/web/user/AuthServlet.java:140-215 | a failed check writes nothing; the account is inserted exactly when the checks pass; the reply is a success, with the trimmed name, exactly when the insert and the lookup both went through; a session belongs to the account found; storage calls stay inside the new tenant's root; a unique-key violation reads as a taken name |
| Auth.RootIsBestEffort | src/main/java/com/hdfsdrive/web/user/AuthServlet.java:173-190 | the reply, the session and the insert do not depend on whether the tenant root could be created |
| Auth.NameCheckedBeforePassword | src/main/java/com/hdfsdrive/web/user/AuthServlet.java:147-155 | a name too short is reported even when the password is too short too |
| Auth.PaddedShortName | src/main/java/com/hdfsdrive/web/user/AuthServlet.java:147-151 | a name too short stays too short however much blank padding surrounds it, whatever the password |
| Auth.DebugHidesDuplicate | src/main/java/com/hdfsdrive/web/user/AuthServlet.java:196-212 | with debug output asked for, a duplicate-key message is reported raw instead of as a taken name |
| Auth.LookupFailureAfterInsert | src/main/java/com/hdfsdrive/web/user/AuthServlet.java:159-172 | an insert that went through followed by a failing lookup reports a failure, though the account exists |
| AdminConsole.Base | src/main/webapp/js/admin.js:541 | the base falls back from the argument to the current folder to "/", so it is never empty |
| AdminConsole.NormBase | src/main/webapp/js/admin.js:569-570 | the normalised base ends with '/' and adds one only when the base lacks it |
| AdminConsole.Contribution | src/main/webapp/js/admin.js:573-582 | a path outside the base adds its first segment at the top level; a path inside adds the base's child that holds it exactly when it lies at least two levels down; nothing else is added |
| AdminConsole.CollectFacts | src/main/webapp/js/admin.js:571-583 | the set keeps the first-seen order, holds each directory once, and holds exactly the contributions of the items |
| AdminConsole.Collect | src/main/webapp/js/admin.js:571-583 | collecting keeps what was seen in front and adds at most one directory per item |
| AdminConsole.NameOf | src/main/webapp/js/admin.js:585-586 | a directory is named by its last segment, or by its whole path when it has no segment |
| AdminConsole.Named | src/main/webapp/js/admin.js:584-587 | one entry per directory, with its path and name |
| AdminConsole.TopLevelDirs | src/main/webapp/js/admin.js:568-588 | the sidebar lists at most one directory per item, each named by its path's last segment |
| AdminConsole.TopLevelDirsDistinct | src/main/webapp/js/admin.js:568-588 | the sidebar lists each directory once |
| AdminConsole.TopLevelDirsSound | src/main/webapp/js/admin.js:568-588 | every directory listed is contributed by some item |
| AdminConsole.TopLevelDirsComplete | src/main/webapp/js/admin.js:568-588 | every item's contribution is listed |
| AdminConsole.DirectChildAddsNothing | src/main/webapp/js/admin.js:578-580 | a path directly inside the base adds nothing |
| AdminConsole.DeeperAddsChild | src/main/webapp/js/admin.js:578-581 | a path two or more levels inside the base adds the base's child that holds it |
| AdminConsole.OutsideAddsTop | src/main/webapp/js/admin.js:574-576 | a path outside the base adds its first segment at the top level |
| AdminConsole.ChildPath | src/main/webapp/js/admin.js:556 | a child's path is its parent's followed by '/' and its name, or "/" and its name under the root |
| AdminConsole.ChildIndex | src/main/webapp/js/admin.js:557-561 | the lookup finds the first child with the name, or reports none |
| AdminConsole.Insert | src/main/webapp/js/admin.js:553-562 | walking a path into the tree keeps the node's name and path and every existing child's name and path, and only adds children |
| AdminConsole.InsertWellFormed | src/main/webapp/js/admin.js:553-562 | inserting a path keeps the tree well formed: child names unique and child paths built from the names |
| AdminConsole.InsertReaches | src/main/webapp/js/admin.js:553-562 | after an insert the tree holds a folder for every segment of the inserted path |
| AdminConsole.InsertKeeps | src/main/webapp/js/admin.js:553-562 | an insert keeps every folder the tree already held |
| AdminConsole.InsertPresent | src/main/webapp/js/admin.js:557-561 | inserting a path the tree already holds changes nothing |
| AdminConsole.InsertIdempotent | src/main/webapp/js/admin.js:553-562 | inserting the same path twice is inserting it once |
| AdminConsole.InsertSound | src/main/webapp/js/admin.js:553-562 | an insert adds no folder but those on the inserted path: whatever the result holds was there before or is a prefix of the path |
| AdminConsole.Relative | src/main/webapp/js/admin.js:548-550 | the relative path is never longer than the item's path |
| AdminConsole.RootNode | src/main/webapp/js/admin.js:544 | the root is a well-formed empty folder whose path is the base without its trailing '/', or "/" |
| AdminConsole.AddItem | src/main/webapp/js/admin.js:545-562 | one item keeps the root's name and path and loses no child, and an item with no relative segment changes nothing |
| AdminConsole.AddAll | src/main/webapp/js/admin.js:545-563 | adding the items keeps the root's name and path and loses no child |
| AdminConsole.DirTree | src/main/webapp/js/admin.js:540-565 | the tree's root is named and placed at the base without its trailing '/', and has no child when there is no item |
| AdminConsole.AddAllFacts | src/main/webapp/js/admin.js:545-563 | adding the items one by one keeps the tree well formed and keeps a folder for every item added so far |
| AdminConsole.AddAllSound | src/main/webapp/js/admin.js:545-563 | every folder the items add lies on the way to one of them: it is a prefix of some item's relative path |
| AdminConsole.DirTreeFacts | src/main/webapp/js/admin.js:540-565 | the tree is well formed, holds a folder for every item's relative path, and holds no other folder: each folder below the root is a prefix of some item's relative path |
| AdminConsole.Extension | src/main/webapp/js/admin.js:649 | a name without '.' is its own extension, lower-cased |
| AdminConsole.KindOfExtension | src/main/webapp/js/admin.js:650-673 | an extension gets a kind whose list in the switch names it, it is unknown exactly when no list names it, and it is never shown as a folder |
| AdminConsole.FileIcon | src/main/webapp/js/admin.js:647-648 | a directory always gets the folder icon |
| AdminConsole.FileIconOfExtension | src/main/webapp/js/admin.js:649-673 | the icon is decided by what follows the last '.', lower-cased, whatever comes before |
| AdminConsole.FileIconIgnoresCase | src/main/webapp/js/admin.js:649 | the letter case of a name does not change its icon |
| AdminConsole.ActionBadge | src/main/webapp/js/admin.js:677-685 | the first word group the lower-cased action mentions decides the colour: red for a deletion word, else green for an addition word, else blue for an edit word, else orange for a login word, each exactly so; gray exactly when the action is empty or mentions none |
| AdminConsole.UpdateIsGreen | src/main/webapp/js/admin.js:681-682 | "update" holds "up", so it is coloured as an addition, never as an edit |
| AdminConsole.InitialLoader | src/main/webapp/js/admin.js:470-476 | nothing has been loaded at first and the current folder is the default |
| AdminConsole.Target | src/main/webapp/js/admin.js:476 | the folder asked for is never empty: the argument unless JavaScript's trim empties it, else the current folder, else "/users" |
| AdminConsole.LoadFiles | src/main/webapp/js/admin.js:473-485 | a call is ignored exactly when it asks for the folder loaded last less than 500 ms before, and then changes nothing; otherwise that folder, as JavaScript's trim decides it, is fetched and remembered with the time |
| AdminConsole.RepeatedLoad | src/main/webapp/js/admin.js:478 | the same call repeated within 500 ms is ignored, and at 500 ms or later fetches again |
| AdminConsole.FirstLoadFetches | src/main/webapp/js/admin.js:470-478 | the first call always fetches |
| TrashLedger.Kept | src/main/java/com/hdfsdrive/core/TrashService.java:91-97 | the entries a purge keeps are never more than the ledger holds |
| TrashLedger.PurgedPaths | src/main/java/com/hdfsdrive/core/TrashService.java:91-103 | every entry is either kept or has its path purged, never both and never neither |
| TrashLedger.KeptMembers | src/main/java/com/hdfsdrive/core/TrashService.java:91-97 | an entry is kept exactly when it is in the ledger and not yet due |
| TrashLedger.PurgedMembers | src/main/java/com/hdfsdrive/core/TrashService.java:91-103 | every due entry's path is purged, and every purged path belongs to a due entry |
| TrashLedger.KeptIsFilter | src/main/java/com/hdfsdrive/core/TrashService.java:91-97 | the kept entries are the ledger with the due entries filtered out |
| TrashLedger.PurgeIdempotent | src/main/java/com/hdfsdrive/core/TrashService.java:85-116 | purging again at the same instant keeps everything and purges nothing |
| TrashLedger.KeptKeepsUnique | src/main/java/com/hdfsdrive/core/TrashService.java:85-116 | a purge keeps every path recorded at most once |
| ShareLedger.VisibleMembers | src/main/java/com/hdfsdrive/core/ShareService.java:65-73 | a share is listed exactly when it is stored and not expired |
| ShareLedger.VisibleIdempotent | src/main/java/com/hdfsdrive/core/ShareService.java:65-73 | filtering the listed shares again at the same instant changes nothing |
| StableSort.InsertStable | src/main/java/com/hdfsdrive/web/DirectoryServlet.java:382-387 | inserting an element keeps the order of the elements with each key and puts the new one last among its key |
| StableSort.SortStable | src/main/java/com/hdfsdrive/web/DirectoryServlet.java:382-387 | sorting keeps the order of the elements that share a key |
| OpLog.PutFieldsLookup | src/main/java/com/hdfsdrive/web/admin/AdminLogsServlet.java:50-58 | after the fields are entered a key is present exactly when it was or some field carries it, and holds the value of the last such field |
| OpLog.PutFields | src/main/java/com/hdfsdrive/web/admin/AdminLogsServlet.java:50-58 | entering the fields loses no key and adds the key of every field that has one |
| OpLog.LastValueFound | src/main/java/com/hdfsdrive/web/admin/AdminLogsServlet.java:52-56 | the key of a well-formed field is found among the fields |
| OpLog.LastValueUnique | src/main/java/com/hdfsdrive/web/admin/AdminLogsServlet.java:52-56 | when no other field carries its key, a field's own value is the one found |
| OpLog.LastValueAbsent | src/main/java/com/hdfsdrive/web/admin/AdminLogsServlet.java:52-56 | a key no field carries is not found |
| OpLog.WrittenLineParses | src/main/java/com/hdfsdrive/web/admin/AdminLogsServlet.java:34-58 | a written line of tab-free fields is taken apart into its time text and those fields |
| OpLog.LogUtilReadBack | src/main/java/com/hdfsdrive/core/LogUtil.java:35-46 | the record read back from a LogUtil line holds the time text and the user, "unknown" when absent |
| OpLog.LogUtilText | src/main/java/com/hdfsdrive/core/LogUtil.java:33-48 | the text LogUtil writes is the tab-joined time and fields, then a newline |
| OpLog.AdminLogText | src/main/java/com/hdfsdrive/web/common/AbstractHdfsServlet.java:130-138 | the text appendAdminLog writes is the tab-joined time and fields, then a newline |
| HdfsListing.SelectSound | src/main/java/com/hdfsdrive/core/HdfsService.java:141-152 | every selected entry comes from a status that passed the filter |
| HdfsListing.OctalValueOfString | src/main/java/com/hdfsdrive/core/HdfsService.java:251 | reading back the octal digits of a number gives the number |
| DirectoryListing.ShownSound | src/main/java/com/hdfsdrive/web/DirectoryServlet.java:429-447 | every row of the ordinary listing comes from a child not recorded in the trash ledger |
| DirectoryListing.VisibleItemsSound | src/main/java/com/hdfsdrive/web/DirectoryServlet.java:340-380 | every row of the trash view comes from a ledger entry the caller may see |
| EventStream.DoneStays | src/main/java/com/hdfsdrive/web/AiServlet.java:157-161 | once the stream has ended, further lines change nothing |
| EventStream.NoBlankNoOutput | src/main/java/com/hdfsdrive/web/AiServlet.java:147-202 | lines with no blank line among them write nothing and do not end the stream |
| Schema.DroppedLine | src/main/java/com/carrental/core/DatabaseInitializer.java:40-45 | a blank or "--" comment line anywhere in the file adds nothing to the script |
| Schema.NoRejectionNoLog | src/main/java/com/carrental/core/DatabaseInitializer.java:55-57 | when the database accepts every statement nothing is logged |
| Text.ParseLongRoundTrip | src/main/java/com/carrental/web/OrderServlet.java:249 | a long written in decimal parses back to itself |
| Text.ParseLong | src/main/java/com/hdfsdrive/web/AdminAnnouncementsServlet.java:63 | a parsed text is an optional sign followed by ASCII digits only, its value fits in a long and is negative only after '-', and a digit string within the long range parses to its value |
| Text.Wrap64 | src/main/java/com/hdfsdrive/web/DirectoryServlet.java:561 | long arithmetic wraps: the result is in the long range, equals the exact value when that fits, and differs from it by a multiple of 2^64 |
| Text.JavaSplit | src/main/java/com/hdfsdrive/web/AdminAnnouncementsServlet.java:61 | no field holds the delimiter, and a text without it is its own single field |
| Text.Trim | src/main/java/com/hdfsdrive/web/user/AuthServlet.java:147 | trimming never lengthens, leaves no space (a char at or below U+0020) at either end, and empties exactly a blank text |
| Text.TrimPadded | src/main/java/com/hdfsdrive/web/user/AuthServlet.java:147 | blank padding on both sides of a text with no space at its ends is exactly what trimming removes |
| Text.Utf16Length | src/main/java/com/hdfsdrive/web/user/AuthServlet.java:148-152 | the length Java and JavaScript report lies between the number of characters and twice it, and equals it exactly when no character is above U+FFFF |
| Text.BlankTestsDiffer | src/main/webapp/js/admin.js:476 | JavaScript's trim and Java's disagree both ways: a no-break space is blank only to JavaScript, U+0001 only to Java |

## Left out

- The Hadoop client, JDBC and the file system: every call's answer (a value or an exception) is an input of the handler, and only the calls issued are recorded; what a call does to the store is not modelled.
- Servlet, session and HTTP plumbing: status codes other than those in the replies, response writing, request parsing, multipart and temporary files.
- JSON, ISO date, decimal and Base64 parsing, `SimpleDateFormat`, UUID generation and the timestamp text of a log line: parameters or parsed inputs, treated as opaque.
- The system clock: every operation takes `now` as a parameter.
- Concurrency: the `synchronized` ledger methods and the scheduled purge in DirectoryServlet; a purge is one sequential call.
- Reading a text stream line by line (`BufferedReader.readLine`): the lines arrive as a sequence.
- The operation log of every handler other than the writers in `OpLog` (the servlets' own log calls are side output, not part of a reply), the stack traces debug mode prints, and the separate authentication error log.
- File download (`handleDownload`) and the size and modification-time probes of the trash view's rows: streaming, and a display detail only.
- The logout action and the GET of the current user in AuthServlet and UserServlet: they only read or drop the session.
- Writing and deleting the avatar files: the model records which files would be written and removed, not their contents.
- Orders.Message: the text of a `NullPointerException` (a NULL daily price, or a fee sent as JSON null) is the runtime's own helpful message and depends on how the class was compiled, so it is left open; the model records only that the request stops there.
- Orders.NewOrder: does not model the `(int)` cast of the rental days into the insert, because a rental of more than 2^31 days is not a meaningful input.
- Announcements.Post: does not model the wrap-around of the `AtomicLong` id counter, which would need 2^63 posts.
- AdminConsole: `humanSize` and `formatTimeAgo` (floating point) and all rendering and DOM code are not modelled; `toLowerCase` is modelled on ASCII letters only.
- Text.ToLower: lower-cases ASCII letters only, where Java and JavaScript also fold other alphabets.
- HdfsListing.PermissionOf: accepts ASCII octal digits only, where `Integer.parseInt(s, 8)` goes through `Character.digit` and also accepts other Unicode digits of value 0-7; permission strings come from the Hadoop client and are ASCII.
- DirectoryOps.TrashExpiry: accepts ASCII decimal digits only, where `Long.parseLong` also accepts other Unicode decimal digits (a "days" value written in Arabic-Indic or full-width digits gives 0 in the model).
- Announcements.PathId: accepts ASCII decimal digits only, where `Long.parseLong` also accepts other Unicode decimal digits; its `length() <= 1` test counts characters, which differs from UTF-16 units only for a one-character path that is a supplementary character, and a servlet path always starts with '/'.
- Schema.FailureLines: cuts the statement at 100 characters, where Java's `length()` and `substring` count UTF-16 units and can split a surrogate pair.
- Announcements.Put: the message of the failure reply for a JSON `null` body (null, or the runtime's own NullPointerException text) is not modelled; the reply is `NullBody`.
- Announcements.Post: the same holds for a JSON `null` body posted: the reply is `NullBody`, without its message.

## Where the code and the design differ

The model follows the code in each of these cases, and the named lemma or contract states the behaviour.

- Resolving what a tenant is shown does not always give the same storage path, because a tenant's own folder named "users" is shown as a "/users/..." path, which is then denied (`PathResolver.UsersFolderBreaksIdempotence`).
- Directory creation falls back to the admin client for a caller without a session too, so an anonymous caller can have a reserved path created as admin (`DirectoryOps.AnonymousCreateEscalates`).
- Opening the trash view purges every due entry of every tenant, as admin, not only the caller's (`DirectoryListing.TrashViewPurgesEveryone`).
- In a batch restore a path listed twice reports false, because the second answer overwrites the first (`DirectoryOps.RepeatedPathReportsFalse`).
- A path made only of slashes makes the id extraction throw (`Announcements.SlashesCrash`).
- A deletion time near the end of the `long` range makes the lazily computed expiration wrap negative, so the entry is purged at once (`TrashLedger.RetentionOverflowPurgesAtOnce`).
- Shares use a strict comparison with the expiry, while the trash purges an entry at exactly its due instant (`ShareLedger.ExpiryBoundaryDiffers`).
- The script splitter cuts at a ';' inside a quoted string literal (`Schema.QuotedSemicolonSplits`).
- A discount larger than the other amounts gives a negative total (`Orders.TotalNotClamped`).
- The older profile servlet clears the avatar when the form has none, where the current one keeps the stored avatar (`Profile.AbsentAvatarDiffers`).
- A permanent delete by the administrator or by a caller without a session rethrows the storage failure and so never reaches the removal of the trash entry, while a tenant's failure falls back to the admin client and the entry is removed (`FileOps.DeletePermanently`).
- With debug output on, a duplicate-name failure is reported raw instead of as a taken name (`Auth.DebugHidesDuplicate`).
- A registration whose insert went through but whose follow-up lookup failed reports a failure, though the account exists (`Auth.LookupFailureAfterInsert`).
- The action "update" contains "up" and is coloured as an addition, not as an edit (`AdminConsole.UpdateIsGreen`).
