/** Saving one's own profile (`UserServlet.doPost`, in two versions: the
    current one under `web/user`, with e-mail, phone and a current-password
    check, and the older one under `web`). The form's fields, the stored
    user, the avatar file system and the database's answers are inputs;
    the result is the reply, the rows handed to `updateUser`, the session
    after the request and the avatar files touched.
 */
module Profile {
  import opened Wrappers
  import opened Text

  /** The form as the JSON parser leaves it: a key that is missing or JSON
      null has no entry; any other value is kept as its `toString`. */
  type Body = map<string, string>

  datatype Session = Session(userId: Option<int>, username: Option<string>, avatar: Option<string>)

  datatype Stored = Stored(password: Option<string>, avatar: Option<string>, email: Option<string>, phone: Option<string>)

  datatype Contact = Contact(email: Option<string>, phone: Option<string>)

  /** The arguments of one `updateUser` call; the older version passes no
      e-mail or phone (`contact` is `None`). */
  datatype Row = Row(username: Option<string>, password: Option<string>, avatar: Option<string>, contact: Option<Contact>)

  /** One answer of `updateUser`: its result, an `SQLException`, or any
      other exception. */
  datatype DbAnswer = Done(ok: bool) | SqlError(msg: string) | OtherError(msg: string)

  /** Everything outside the servlet: the stored user, the context path,
      the clock, Base64 validity, the avatar file write, and the two
      answers of `updateUser`. The older version looks the user up a
      second time for the previous avatar; `relookup` answers that call. */
  datatype World = World(lookup: Outcome<Option<Stored>>, relookup: Outcome<Option<Stored>>, ctx: string, now: int,
                         decodes: string -> bool, write: Outcome<()>, first: DbAnswer, retry: DbAnswer)

  datatype Reply = Unauthorized | Failed(message: string) | Updated(avatar: Option<string>, contact: Option<Contact>)

  /** The avatar after the data-URL step: the value to save, the path of
      the file written, and the name of the earlier file removed. */
  datatype AvatarStep = AvatarStep(value: Option<string>, saved: Option<string>, removed: Option<string>)

  datatype Handled = Handled(reply: Reply, rows: seq<Row>, session: Session, avatar: AvatarStep)

  const NOT_LOGGED_IN := "未登录"
  const NO_SUCH_USER := "用户不存在"
  const WRONG_PASSWORD := "当前密码不正确"
  const NOT_UPDATED := "更新失败"
  const MAX_AVATAR := 2000

  function Field(body: Body, key: string): (v: Option<string>)
  {
    if key in body then Some(body[key]) else None
  }

  /** `s == null || s.trim().isEmpty()`. */
  predicate Blank(s: Option<string>)
  {
    s.None? || IsBlank(s.value)
  }

  /** A blank field falls back to the stored value. */
  function Keep(field: Option<string>, stored: Option<string>): (v: Option<string>)
    ensures Blank(field) ==> v == stored
    ensures !Blank(field) ==> v == field
  {
    if Blank(field) then stored else field
  }

  /** A blank user name falls back to the session's. */
  function UserName(session: Session, body: Body): (v: Option<string>)
    ensures Blank(Field(body, "username")) ==> v == session.username
    ensures !Blank(Field(body, "username")) ==> v == Field(body, "username")
  {
    Keep(Field(body, "username"), session.username)
  }

  /** A whitespace-only password counts as none. */
  function NewPassword(body: Body): (v: Option<string>)
    ensures v.Some? <==> !Blank(Field(body, "password"))
    ensures v.Some? ==> v == Field(body, "password")
  {
    var p := Field(body, "password");
    if p.Some? && IsBlank(p.value) then None else p
  }

  // ---------------------------------------------------------------------
  // The avatar

  /** The file extension for a MIME type, current version: jpeg or jpg,
      then gif, then bmp, otherwise png. */
  function Extension(mime: string): (ext: string)
    ensures ext in {"jpg", "gif", "bmp", "png"}
    ensures ext == "jpg" <==> MentionsJpeg(mime)
    ensures ext == "gif" <==> !MentionsJpeg(mime) && Contains(mime, "gif")
    ensures ext == "bmp" <==> !MentionsJpeg(mime) && !Contains(mime, "gif") && Contains(mime, "bmp")
    ensures ext == "png" <==> !MentionsJpeg(mime) && !Contains(mime, "gif") && !Contains(mime, "bmp")
  {
    if Contains(mime, "jpeg") || Contains(mime, "jpg") then "jpg"
    else if Contains(mime, "gif") then "gif"
    else if Contains(mime, "bmp") then "bmp"
    else "png"
  }

  predicate MentionsJpeg(mime: string)
  {
    Contains(mime, "jpeg") || Contains(mime, "jpg")
  }

  /** The older version tests png before bmp. */
  function LegacyExtension(mime: string): (ext: string)
    ensures ext in {"jpg", "gif", "bmp", "png"}
    ensures ext == "jpg" <==> MentionsJpeg(mime)
    ensures ext == "gif" <==> !MentionsJpeg(mime) && Contains(mime, "gif")
    ensures ext == "png" <==> !MentionsJpeg(mime) && !Contains(mime, "gif") && (Contains(mime, "png") || !Contains(mime, "bmp"))
    ensures ext == "bmp" <==> !MentionsJpeg(mime) && !Contains(mime, "gif") && !Contains(mime, "png") && Contains(mime, "bmp")
  {
    if Contains(mime, "jpeg") || Contains(mime, "jpg") then "jpg"
    else if Contains(mime, "gif") then "gif"
    else if Contains(mime, "png") then "png"
    else if Contains(mime, "bmp") then "bmp"
    else "png"
  }

  /** The two versions name a file differently exactly for a MIME type
      that mentions both png and bmp and none of the earlier ones. */
  lemma ExtensionsDiffer(mime: string)
    ensures Extension(mime) != LegacyExtension(mime) <==>
              !MentionsJpeg(mime) && !Contains(mime, "gif")
              && Contains(mime, "png") && Contains(mime, "bmp")
  {
  }

  /** The data-URL step: a `data:` avatar with a comma past its start is
      decoded and written to `<ctx>/avatars/avatar_<id>_<now>.<ext>`, and
      an earlier avatar file under the same folder with another name is
      removed; any exception on the way (a MIME part made of ';' alone, bad
      Base64, a failed write) restores the previous avatar. */
  function StoreAvatar(avatar: Option<string>, previous: Option<string>, id: int, w: World,
                       ext: string -> string): (r: AvatarStep)
    ensures r.saved.Some? <==> avatar.Some? && DataUrl(avatar.value) && w.decodes(Payload(avatar.value)) && w.write.Ok?
    ensures r.saved.Some? ==> r.saved.value == AvatarPath(w.ctx, id, w.now, ext(MimeOf(avatar.value)))
                              && r.removed == Replaced(previous, w.ctx, r.saved.value)
    ensures r.saved.Some? ==> r.value == r.saved
    ensures r.saved.None? ==> r.removed.None? && (r.value == avatar || r.value == previous)
    ensures avatar.None? || !StartsWith(avatar.value, "data:") ==> r == AvatarStep(avatar, None, None)
    ensures r.saved.Some? ==> StartsWith(r.saved.value, w.ctx + "/avatars/avatar_")
  {
    if avatar.None? || !StartsWith(avatar.value, "data:") then AvatarStep(avatar, None, None)
    else
      var a := avatar.value;
      var comma := IndexOf(a, ',');
      if comma <= 0 then AvatarStep(avatar, None, None)
      else if comma < 5 then AvatarStep(previous, None, None)
      else
        var fields := JavaSplit(a[5..comma], ';');
        if fields == [] || !w.decodes(a[comma + 1..]) || w.write.Exn? then AvatarStep(previous, None, None)
        else
          var saved := AvatarPath(w.ctx, id, w.now, ext(fields[0]));
          AvatarStep(Some(saved), Some(saved), Replaced(previous, w.ctx, saved))
  }

  /** A data URL the step can store: "data:", then a MIME part of five or
      more characters' offset that `split(";")` leaves something of, then
      ','. */
  predicate DataUrl(a: string)
  {
    StartsWith(a, "data:") && IndexOf(a, ',') >= 5 && JavaSplit(a[5..IndexOf(a, ',')], ';') != []
  }

  /** The MIME type of a data URL: its first ';'-separated field. */
  function MimeOf(a: string): string
    requires DataUrl(a)
  {
    JavaSplit(a[5..IndexOf(a, ',')], ';')[0]
  }

  /** What follows the first ','. */
  function Payload(a: string): string
    requires IndexOf(a, ',') >= 0
  {
    a[IndexOf(a, ',') + 1..]
  }

  /** `<ctx>/avatars/avatar_<id>_<now>.<ext>`. */
  function AvatarPath(ctx: string, id: int, now: int, ext: string): (path: string)
    ensures StartsWith(path, ctx + "/avatars/avatar_")
  {
    var tail := IntToString(id) + "_" + IntToString(now) + "." + ext;
    var prefix := ctx + "/avatars/avatar_";
    StartsWithAppend(prefix, tail);
    prefix + tail
  }

  /** The earlier avatar file to remove: one under `<ctx>/avatars/` with
      another name than the new file. */
  function Replaced(previous: Option<string>, ctx: string, saved: string): (name: Option<string>)
    ensures name.Some? ==> previous.Some? && previous.value != saved
                           && previous.value == ctx + "/avatars/" + name.value
  {
    var folder := ctx + "/avatars/";
    if previous.Some? && StartsWith(previous.value, folder) && previous.value != saved then
      assert previous.value == folder + previous.value[|folder|..];
      Some(previous.value[|folder|..])
    else None
  }

  /** A data URL whose payload is not Base64 leaves the previous avatar. */
  lemma BadDataKeepsPrevious(a: string, previous: Option<string>, id: int, w: World, ext: string -> string)
    requires StartsWith(a, "data:") && ',' in a
    requires !w.decodes(a[IndexOf(a, ',') + 1..])
    ensures StoreAvatar(Some(a), previous, id, w, ext) == AvatarStep(previous, None, None)
  {
    assert a[..5] == "data:";
    assert a[0] == 'd';
    var comma := IndexOf(a, ',');
    assert comma > 0;
    if comma >= 5 {
      var step := StoreAvatar(Some(a), previous, id, w, ext);
      assert step.saved.None? by {
        assert !w.decodes(Payload(a));
      }
    }
  }

  /** An avatar too long for the column (in UTF-16 units, as Java's
      `length()` counts): the written file's path if that is short enough,
      otherwise nothing. */
  function Capped(avatar: Option<string>, saved: Option<string>): (r: Option<string>)
    ensures r.Some? ==> Utf16Length(r.value) <= MAX_AVATAR
    ensures avatar.Some? && Utf16Length(avatar.value) <= MAX_AVATAR ==> r == avatar
    ensures avatar.Some? && Utf16Length(avatar.value) > MAX_AVATAR ==>
              r == (if saved.Some? && Utf16Length(saved.value) < MAX_AVATAR then saved else None)
  {
    if avatar.Some? && Utf16Length(avatar.value) > MAX_AVATAR then
      (if saved.Some? && Utf16Length(saved.value) < MAX_AVATAR then saved else None)
    else avatar
  }

  // ---------------------------------------------------------------------
  // The update and its retry

  /** `updateUser`, and on an `SQLException` one retry with the written
      file's path as the avatar; a failing retry reports the first error. */
  function Commit(session: Session, row: Row, saved: Option<string>, w: World, contact: Option<Contact>,
                  step: AvatarStep): (h: Handled)
    ensures h.avatar == step
    ensures w.first.SqlError? ==> h.rows == [row, row.(avatar := saved)]
    ensures !w.first.SqlError? ==> h.rows == [row]
    ensures h.reply.Updated? <==> (if w.first.SqlError? then w.retry == Done(true) else w.first == Done(true))
    ensures h.reply.Updated? ==> h.reply == Updated(row.avatar, contact)
                                 && h.session == session.(username := row.username, avatar := row.avatar)
    ensures !h.reply.Updated? ==> h.session == session
    ensures w.first.SqlError? && !w.retry.Done? ==> h.reply == Failed("保存失败: " + w.first.msg)
    ensures w.first.OtherError? ==> h.reply == Failed(w.first.msg)
  {
    var answer := if w.first.SqlError? then w.retry else w.first;
    var rows := if w.first.SqlError? then [row, row.(avatar := saved)] else [row];
    if answer == Done(true) then
      Handled(Updated(row.avatar, contact), rows, session.(username := row.username, avatar := row.avatar), step)
    else if answer.Done? then Handled(Failed(NOT_UPDATED), rows, session, step)
    else if w.first.SqlError? then Handled(Failed("保存失败: " + w.first.msg), rows, session, step)
    else Handled(Failed(w.first.msg), rows, session, step)
  }

  // ---------------------------------------------------------------------
  // The current version

  /** The current-password check rejects the request. */
  predicate WrongCurrentPassword(body: Body, u: Stored)
  {
    var cur := Field(body, "currentPassword");
    NewPassword(body).Some? && cur.Some? && cur.value != [] && u.password.Some? && u.password.value != cur.value
  }

  /** The row the current version asks for, the stored user known. */
  predicate RowFollowsForm(session: Session, body: Body, u: Stored, row: Row)
  {
    && row.username == UserName(session, body)
    && row.password == (if NewPassword(body).Some? then NewPassword(body) else u.password)
    && row.contact == Some(Contact(Keep(Field(body, "email"), u.email), Keep(Field(body, "phone"), u.phone)))
    && (row.avatar.Some? ==> Utf16Length(row.avatar.value) <= MAX_AVATAR)
  }

  /** `doPost` of the current version. */
  function Save(session: Session, body: Outcome<Body>, w: World): (h: Handled)
    ensures session.userId.None? ==> h.reply == Unauthorized && h.rows == []
    ensures session.userId.Some? && body.Exn? ==> h.reply == Failed(body.msg) && h.rows == []
    ensures session.userId.Some? && body.Ok? && w.lookup == Ok(None) ==> h.reply == Failed(NO_SUCH_USER) && h.rows == []
    ensures session.userId.Some? && body.Ok? && w.lookup.Ok? && w.lookup.v.Some? && WrongCurrentPassword(body.v, w.lookup.v.value)
            ==> h.reply == Failed(WRONG_PASSWORD) && h.rows == [] && h.session == session
    ensures session.userId.Some? && body.Ok? && w.lookup.Exn? ==> h.reply == Failed(w.lookup.msg) && h.rows == []
    ensures h.rows != [] <==> session.userId.Some? && body.Ok? && w.lookup.Ok? && w.lookup.v.Some?
                              && !WrongCurrentPassword(body.v, w.lookup.v.value)
    ensures h.rows != [] ==> RowFollowsForm(session, body.v, w.lookup.v.value, h.rows[0])
    // the avatar: a blank one falls back to the stored one, a data URL is
    // stored as a file replacing the stored one, and the result is capped
    ensures h.rows != [] ==>
              h.avatar == StoreAvatar(Keep(Field(body.v, "avatar"), w.lookup.v.value.avatar), w.lookup.v.value.avatar,
                                      session.userId.value, w, Extension)
              && h.rows[0].avatar == Capped(h.avatar.value, h.avatar.saved)
    // the write, its retry, the reply and the session are Commit's
    ensures h.rows != [] ==> h == Commit(session, h.rows[0], h.avatar.saved, w, h.rows[0].contact, h.avatar)
    ensures h.rows == [] ==> h.session == session
  {
    if session.userId.None? then Handled(Unauthorized, [], session, AvatarStep(None, None, None))
    else if body.Exn? then Handled(Failed(body.msg), [], session, AvatarStep(None, None, None))
    else
      var b := body.v;
      match w.lookup
      case Exn(m) => Handled(Failed(m), [], session, AvatarStep(None, None, None))
      case Ok(None) => Handled(Failed(NO_SUCH_USER), [], session, AvatarStep(None, None, None))
      case Ok(Some(u)) =>
        if WrongCurrentPassword(b, u) then Handled(Failed(WRONG_PASSWORD), [], session, AvatarStep(None, None, None))
        else
          var password := if NewPassword(b).Some? then NewPassword(b) else u.password;
          var contact := Contact(Keep(Field(b, "email"), u.email), Keep(Field(b, "phone"), u.phone));
          var step := StoreAvatar(Keep(Field(b, "avatar"), u.avatar), u.avatar, session.userId.value, w, Extension);
          var row := Row(UserName(session, b), password, Capped(step.value, step.saved), Some(contact));
          Commit(session, row, step.saved, w, Some(contact), step)
  }

  /** An empty form saves the profile as stored (the user name from the
      session), provided the stored avatar is not itself a data URL and
      fits the column. */
  lemma EmptyFormKeepsProfile(session: Session, w: World, u: Stored)
    requires session.userId.Some? && w.lookup == Ok(Some(u))
    requires u.avatar.None? || (!StartsWith(u.avatar.value, "data:") && Utf16Length(u.avatar.value) <= MAX_AVATAR)
    ensures Save(session, Ok(map[]), w).rows[0] == Row(session.username, u.password, u.avatar, Some(Contact(u.email, u.phone)))
  {
  }

  /** The current version's field merge for the avatar: a value that needs
      no file and fits the column is written as the form gives it, a blank
      one as stored. */
  lemma PlainAvatarMerged(session: Session, body: Body, w: World)
    requires session.userId.Some? && w.lookup.Ok? && w.lookup.v.Some?
    requires !WrongCurrentPassword(body, w.lookup.v.value)
    ensures var a := Keep(Field(body, "avatar"), w.lookup.v.value.avatar);
            a.None? || (!StartsWith(a.value, "data:") && Utf16Length(a.value) <= MAX_AVATAR) ==>
              Save(session, Ok(body), w).rows[0].avatar == a
  {
  }

  /** On success the reply and the session carry the avatar written and,
      in the current version, the merged contact fields. */
  lemma SavedReplyEchoesRow(session: Session, body: Outcome<Body>, w: World)
    ensures var h := Save(session, body, w);
            h.reply.Updated? ==> h.rows != [] && h.reply == Updated(h.rows[0].avatar, h.rows[0].contact)
                                 && h.session.avatar == h.rows[0].avatar
    ensures var h := LegacySave(session, body, w);
            h.reply.Updated? ==> h.rows != [] && h.reply == Updated(h.rows[0].avatar, None)
                                 && h.session.avatar == h.rows[0].avatar
  {
  }

  /** A wrong current password stops everything: nothing is written. */
  lemma WrongPasswordWritesNothing(session: Session, body: Body, w: World)
    requires session.userId.Some? && w.lookup.Ok? && w.lookup.v.Some?
    requires WrongCurrentPassword(body, w.lookup.v.value)
    ensures Save(session, Ok(body), w).rows == []
    ensures Save(session, Ok(body), w).avatar.saved.None?
  {
  }

  /** An empty current password skips the check. */
  lemma EmptyCurrentPasswordSkipsCheck(body: Body, u: Stored)
    requires Field(body, "currentPassword") == Some("")
    ensures !WrongCurrentPassword(body, u)
  {
  }

  // ---------------------------------------------------------------------
  // The older version

  /** The row the older version asks for: no contact fields and the
      stored password only when the user is found; the avatar, sent with
      no fallback to the stored one, is stated by `LegacySave`. */
  predicate LegacyRowFollowsForm(session: Session, body: Body, lookup: Outcome<Option<Stored>>, row: Row)
  {
    && row.username == UserName(session, body)
    && row.password == (if NewPassword(body).Some? then NewPassword(body)
                        else if lookup.Ok? && lookup.v.Some? then lookup.v.value.password else None)
    && row.contact.None?
    && (row.avatar.Some? ==> Utf16Length(row.avatar.value) <= MAX_AVATAR)
  }

  /** The previous avatar the older version finds by its best-effort
      second lookup: none when that lookup throws or finds nobody. */
  function PreviousAvatar(relookup: Outcome<Option<Stored>>): (a: Option<string>)
    ensures a.Some? ==> relookup.Ok? && relookup.v.Some? && relookup.v.value.avatar == a
    ensures relookup.Ok? && relookup.v.Some? ==> a == relookup.v.value.avatar
  {
    if relookup.Ok? && relookup.v.Some? then relookup.v.value.avatar else None
  }

  /** `doPost` of the older version. The stored user is looked up for the
      password only when none is given (an exception there fails the
      request) and again, best effort, for the previous avatar. */
  function LegacySave(session: Session, body: Outcome<Body>, w: World): (h: Handled)
    ensures session.userId.None? ==> h.reply == Unauthorized && h.rows == []
    ensures session.userId.Some? && body.Exn? ==> h.reply == Failed(body.msg) && h.rows == []
    ensures session.userId.Some? && body.Ok? && NewPassword(body.v).None? && w.lookup.Exn?
            ==> h.reply == Failed(w.lookup.msg) && h.rows == []
    ensures h.rows != [] <==> session.userId.Some? && body.Ok? && !(NewPassword(body.v).None? && w.lookup.Exn?)
    ensures h.rows != [] ==> LegacyRowFollowsForm(session, body.v, w.lookup, h.rows[0])
    // the avatar as sent, a data URL stored as a file replacing the one the
    // second lookup found, and the result capped
    ensures h.rows != [] ==>
              h.avatar == StoreAvatar(Field(body.v, "avatar"), PreviousAvatar(w.relookup), session.userId.value, w,
                                      LegacyExtension)
              && h.rows[0].avatar == Capped(h.avatar.value, h.avatar.saved)
    ensures h.rows != [] ==> h == Commit(session, h.rows[0], h.avatar.saved, w, None, h.avatar)
    ensures h.rows == [] ==> h.session == session
  {
    if session.userId.None? then Handled(Unauthorized, [], session, AvatarStep(None, None, None))
    else if body.Exn? then Handled(Failed(body.msg), [], session, AvatarStep(None, None, None))
    else
      var b := body.v;
      if NewPassword(b).None? && w.lookup.Exn? then Handled(Failed(w.lookup.msg), [], session, AvatarStep(None, None, None))
      else
        var found := if w.lookup.Ok? && w.lookup.v.Some? then Some(w.lookup.v.value) else None;
        var password := if NewPassword(b).Some? then NewPassword(b) else if found.Some? then found.value.password else None;
        var step := StoreAvatar(Field(b, "avatar"), PreviousAvatar(w.relookup), session.userId.value, w, LegacyExtension);
        var row := Row(UserName(session, b), password, Capped(step.value, step.saved), None);
        Commit(session, row, step.saved, w, None, step)
  }

  /** The older version writes an avatar that needs no file and fits the
      column as sent, whatever is stored. */
  lemma LegacyPlainAvatarAsSent(session: Session, body: Body, w: World)
    requires session.userId.Some? && !(NewPassword(body).None? && w.lookup.Exn?)
    ensures var a := Field(body, "avatar");
            a.None? || (!StartsWith(a.value, "data:") && Utf16Length(a.value) <= MAX_AVATAR) ==>
              LegacySave(session, Ok(body), w).rows[0].avatar == a
  {
  }

  /** Where the versions part: a form without an avatar keeps the stored
      one in the current version and clears it in the older one. */
  lemma AbsentAvatarDiffers(session: Session, w: World, u: Stored)
    requires session.userId.Some? && w.lookup == Ok(Some(u))
    requires u.avatar.Some? && !StartsWith(u.avatar.value, "data:") && Utf16Length(u.avatar.value) <= MAX_AVATAR
    ensures Save(session, Ok(map[]), w).rows[0].avatar == u.avatar
    ensures LegacySave(session, Ok(map[]), w).rows[0].avatar == None
  {
  }

  /** Where the versions part: the older one has no current-password
      check, so a form the current version refuses is written. */
  lemma LegacySkipsPasswordCheck(session: Session, body: Body, w: World)
    requires session.userId.Some? && w.lookup.Ok? && w.lookup.v.Some?
    requires WrongCurrentPassword(body, w.lookup.v.value)
    ensures Save(session, Ok(body), w).rows == []
    ensures LegacySave(session, Ok(body), w).rows != []
  {
  }
}
