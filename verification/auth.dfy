/** Logging in and registering (`AuthServlet`): the validation order, the
    messages, the session a successful request opens, and the best-effort
    creation of the new tenant's storage root. The user table and the
    storage client are inputs; the stack traces written to the error log
    are not modelled.
 */
module Auth {
  import opened Wrappers
  import opened Text
  import opened PathResolver
  import opened Storage

  datatype Account = Account(id: int, username: string, password: Option<string>, avatar: Option<string>)

  /** The session attributes a successful request sets. */
  datatype Opened = Opened(userId: int, username: string, avatar: Option<string>, timeout: int)

  datatype Reply =
    | BadRequest(message: string)               // HTTP 400, success false
    | Refused(message: string)                  // success false
    | LoggedIn(userId: int, username: string, avatar: Option<string>)
    | Registered(username: string)

  datatype Result = Result(reply: Reply, session: Option<Opened>)

  const SESSION_TIMEOUT := 2 * 60 * 60
  const NO_SUCH_USER := "用户不存在"
  const WRONG_PASSWORD := "密码错误"
  const LOGIN_FIELDS := "username and password required"
  const REGISTER_FIELDS := "用户名和密码为必填项"
  const SHORT_NAME := "用户名需至少 3 个字符"
  const SHORT_PASSWORD := "密码需至少 4 个字符"
  const NOT_REGISTERED := "注册失败"
  const TAKEN := "用户名已存在"

  /** `Exception.getMessage()`, which may be null; string concatenation
      prints a null message as "null". */
  function Shown(msg: Option<string>): (s: string)
    ensures msg.Some? ==> s == msg.value
  {
    if msg.Some? then msg.value else "null"
  }

  /** The session after a successful request for `a`. The session is
      reused, so its avatar (`prior`) stays when the account has none. */
  function OpenFor(a: Account, prior: Option<string>): (o: Opened)
    ensures o.userId == a.id && o.username == a.username
    ensures a.avatar.Some? ==> o.avatar == a.avatar
    ensures a.avatar.None? ==> o.avatar == prior
    ensures o.timeout == 7200
  {
    Opened(a.id, a.username, if a.avatar.Some? then a.avatar else prior, SESSION_TIMEOUT)
  }

  // ---------------------------------------------------------------------
  // Login

  /** `handleLogin`, the account looked up by name an input (`None` when
      absent, `Exn` when the lookup threw), and `prior` the avatar the
      caller's session already carries. */
  function Login(username: Option<string>, password: Option<string>, found: Outcome<Option<Account>>,
                 prior: Option<string>): (r: Result)
    ensures username.None? || password.None? ==> r == Result(BadRequest(LOGIN_FIELDS), None)
    ensures username.Some? && password.Some? && found == Ok(None) ==> r == Result(Refused(NO_SUCH_USER), None)
    ensures username.Some? && password.Some? && found.Ok? && found.v.Some? && found.v.value.password != password
            ==> r == Result(Refused(WRONG_PASSWORD), None)
    ensures username.Some? && password.Some? && found.Exn? ==> r == Result(BadRequest("登录失败: " + found.msg), None)
    ensures r.session.Some? <==> r.reply.LoggedIn?
  {
    if username.None? || password.None? then Result(BadRequest(LOGIN_FIELDS), None)
    else match found
      case Exn(m) => Result(BadRequest("登录失败: " + m), None)
      case Ok(None) => Result(Refused(NO_SUCH_USER), None)
      case Ok(Some(a)) =>
        if a.password.None? || a.password.value != password.value then Result(Refused(WRONG_PASSWORD), None)
        else Result(LoggedIn(a.id, a.username, a.avatar), Some(OpenFor(a, prior)))
  }

  /** A login succeeds exactly when the account exists and its stored
      password equals the one given, character for character; the session
      then belongs to that account for two hours. */
  lemma LoginSucceedsIff(username: Option<string>, password: Option<string>, found: Outcome<Option<Account>>,
                         prior: Option<string>)
    ensures Login(username, password, found, prior).reply.LoggedIn? <==>
              username.Some? && password.Some? && found.Ok? && found.v.Some? && found.v.value.password == password
    ensures Login(username, password, found, prior).reply.LoggedIn? ==>
              Login(username, password, found, prior).session
                == Some(Opened(found.v.value.id, found.v.value.username,
                               if found.v.value.avatar.Some? then found.v.value.avatar else prior, 7200))
  {
  }

  /** An account with no stored password can never log in. */
  lemma NoPasswordNoLogin(username: string, password: string, a: Account)
    requires a.password.None?
    ensures forall prior :: Login(Some(username), Some(password), Ok(Some(a)), prior) == Result(Refused(WRONG_PASSWORD), None)
  {
  }

  // ---------------------------------------------------------------------
  // The tenant root

  /** The answers of the storage client that registration opens as "root":
      whether it could be opened, and what `exists` (here `present`) and `mkdirs` did. */
  datatype RootAnswers = RootAnswers(opens: bool, present: Outcome<bool>, mkdirs: Outcome<()>)

  /** Every call went through the admin client. */
  predicate AsAdmin(calls: seq<Call>)
  {
    forall i :: 0 <= i < |calls| ==> calls[i].client == AdminClient
  }

  /** The calls made on `root` for `name` keep to the registration's
      bounds: admin client only, nothing outside the root, ownership only
      to the new tenant. */
  predicate KeepsToRoot(calls: seq<Call>, root: string, name: string)
  {
    AsAdmin(calls) && Confined(calls, root) && ChownsToSessionUser(Some(name), calls)
  }

  lemma KeepsToRootAppend(a: seq<Call>, b: seq<Call>, root: string, name: string)
    requires KeepsToRoot(a, root, name) && KeepsToRoot(b, root, name)
    ensures KeepsToRoot(a + b, root, name)
  {
    ChownsAppend(Some(name), a, b);
    forall i | 0 <= i < |a + b| ensures (a + b)[i] == (if i < |a| then a[i] else b[i - |a|]) { }
  }

  /** `exists`, then `mkdirs` when the root is missing. */
  function Probe(root: string, ans: RootAnswers): (calls: seq<Call>)
    ensures AsAdmin(calls) && Confined(calls, root) && OwnershipChanges(calls) == []
    ensures forall i :: 0 <= i < |calls| ==> !calls[i].op.SetOwner?
    ensures ans.opens ==> calls != [] && calls[0] == Call(AdminClient, Exists(root))
    ensures !ans.opens ==> calls == []
  {
    if !ans.opens then []
    else if ans.present.Exn? || ans.present.v then [Call(AdminClient, Exists(root))]
    else [Call(AdminClient, Exists(root)), Call(AdminClient, Mkdirs(root))]
  }

  /** The probe got through: the root was there, or was created. */
  predicate Handed(ans: RootAnswers)
  {
    ans.opens && ans.present.Ok? && (ans.present.v || ans.mkdirs.Ok?)
  }

  /** Give the root to the tenant and close it to others. */
  function HandOver(root: string, name: string): (calls: seq<Call>)
    ensures KeepsToRoot(calls, root, name)
    ensures OwnershipChanges(calls) == [SetOwner(root, name), Chmod(root, "700")]
  {
    [Call(AdminClient, SetOwner(root, name)), Call(AdminClient, Chmod(root, "700"))]
  }

  /** Creating `/users/<name>` best effort: check, create if missing, then
      hand it to the tenant with mode 700 (each of the last two ignoring
      its own failure). A failure of `exists` or `mkdirs` ends the attempt. */
  function CreateRoot(name: string, ans: RootAnswers): (calls: seq<Call>)
    ensures KeepsToRoot(calls, RootOf(name), name)
    ensures ans.opens ==> calls != [] && calls[0] == Call(AdminClient, Exists(RootOf(name)))
    ensures OwnershipChanges(calls) == (if Handed(ans) then [SetOwner(RootOf(name), name), Chmod(RootOf(name), "700")] else [])
  {
    var root := RootOf(name);
    var probe := Probe(root, ans);
    if Handed(ans) then
      KeepsToRootAppend(probe, HandOver(root, name), root, name);
      OwnershipChangesAppend(probe, HandOver(root, name));
      probe + HandOver(root, name)
    else probe
  }

  // ---------------------------------------------------------------------
  // Registration

  /** What `createUser` did: its result, a unique-key violation, or another
      exception with its (possibly null) message. */
  datatype Created = Created(ok: bool) | Duplicate | Thrown(msg: Option<string>)

  /** The inputs of one registration: whether the client asked for debug
      output, the insert, the lookup that follows it, the avatar the
      caller's session already carries, and the storage. */
  datatype World = World(debug: bool, create: Created, found: Outcome<Option<Account>>, prior: Option<string>,
                         root: RootAnswers)

  datatype Registration = Registration(result: Result, inserted: bool, calls: seq<Call>)

  /** The message of an exception names a duplicate key. */
  predicate NamesDuplicate(msg: Option<string>)
  {
    var m := ToLower(if msg.Some? then msg.value else "");
    Contains(m, "duplicate") || Contains(m, "unique")
  }

  /** The reply to an exception other than a unique-key violation: with
      debug output asked for, always the failure; otherwise a message that
      names a duplicate key reads as a taken name. */
  function Failure(debug: bool, msg: Option<string>): (r: Reply)
    ensures r == Refused(TAKEN) || r == BadRequest("注册失败: " + Shown(msg))
    ensures r == Refused(TAKEN) <==> !debug && NamesDuplicate(msg)
  {
    if !debug && NamesDuplicate(msg) then Refused(TAKEN) else BadRequest("注册失败: " + Shown(msg))
  }

  /** The checks before anything is written, in the order the handler runs
      them; `None` when the form passes. */
  function Validate(username: Option<string>, password: Option<string>): (r: Option<Reply>)
    ensures r.None? <==> username.Some? && password.Some? && Utf16Length(Trim(username.value)) >= 3
                         && Utf16Length(password.value) >= 4
    ensures username.None? || password.None? ==> r == Some(Refused(REGISTER_FIELDS))
    ensures username.Some? && password.Some? && Utf16Length(Trim(username.value)) < 3 ==> r == Some(Refused(SHORT_NAME))
    ensures username.Some? && password.Some? && Utf16Length(Trim(username.value)) >= 3 && Utf16Length(password.value) < 4
            ==> r == Some(Refused(SHORT_PASSWORD))
  {
    if username.None? || password.None? then Some(Refused(REGISTER_FIELDS))
    else if Utf16Length(Trim(username.value)) < 3 then Some(Refused(SHORT_NAME))
    else if Utf16Length(password.value) < 4 then Some(Refused(SHORT_PASSWORD))
    else None
  }

  /** `handleRegister`. The stored name is the trimmed one; the password is
      stored as given. */
  function Register(username: Option<string>, password: Option<string>, w: World): (r: Registration)
    ensures Validate(username, password).Some? ==>
              r == Registration(Result(Validate(username, password).value, None), false, [])
    ensures r.inserted <==> Validate(username, password).None?
    ensures r.result.reply.Registered? <==>
              Validate(username, password).None? && w.create == Created(true) && w.found.Ok?
    ensures r.result.reply.Registered? ==> r.result.reply.username == Trim(username.value)
    ensures r.result.session.Some? ==> r.result.reply.Registered? && w.found.v.Some? && r.result.session == Some(OpenFor(w.found.v.value, w.prior))
    ensures r.calls != [] ==> r.result.reply.Registered? && Confined(r.calls, RootOf(Trim(username.value)))
    ensures Validate(username, password).None? && w.create == Duplicate ==> r.result.reply == Refused(TAKEN)
  {
    var invalid := Validate(username, password);
    if invalid.Some? then Registration(Result(invalid.value, None), false, [])
    else
      var name := Trim(username.value);
      match w.create
      case Duplicate => Registration(Result(Refused(TAKEN), None), true, [])
      case Thrown(m) => Registration(Result(Failure(w.debug, m), None), true, [])
      case Created(ok) =>
        if !ok then Registration(Result(Refused(NOT_REGISTERED), None), true, [])
        else match w.found
          case Exn(m) => Registration(Result(Failure(w.debug, Some(m)), None), true, [])
          case Ok(a) =>
            var session := if a.Some? then Some(OpenFor(a.value, w.prior)) else None;
            Registration(Result(Registered(name), session), true, CreateRoot(name, w.root))
  }

  /** Registration's reply and session do not depend on the storage: a
      tenant root that cannot be created does not fail it. */
  lemma RootIsBestEffort(username: Option<string>, password: Option<string>, w: World, other: RootAnswers)
    ensures Register(username, password, w).result == Register(username, password, w.(root := other)).result
    ensures Register(username, password, w).inserted == Register(username, password, w.(root := other)).inserted
  {
  }

  /** The checks run in order: a name too short is reported even when the
      password is too short as well. */
  lemma NameCheckedBeforePassword(username: string, password: string, w: World)
    requires Utf16Length(Trim(username)) < 3 && Utf16Length(password) < 4
    ensures Register(Some(username), Some(password), w).result.reply == Refused(SHORT_NAME)
  {
  }

  /** Padding around the name does not count toward its length: a name
      too short stays too short however much blank padding surrounds it,
      and whatever the password. */
  lemma PaddedShortName(pre: string, name: string, post: string, password: string, w: World)
    requires IsBlank(pre) && IsBlank(post)
    requires |name| > 0 ==> !IsSpace(name[0]) && !IsSpace(name[|name| - 1])
    requires Utf16Length(name) < 3
    ensures Register(Some(pre + name + post), Some(password), w).result.reply == Refused(SHORT_NAME)
  {
    TrimPadded(pre, name, post);
    ShortNameRefused(pre + name + post, password, w);
  }

  lemma ShortNameRefused(username: string, password: string, w: World)
    requires Utf16Length(Trim(username)) < 3
    ensures Register(Some(username), Some(password), w).result.reply == Refused(SHORT_NAME)
  {
  }

  /** With debug output asked for, a duplicate-key message is no longer
      recognised and the raw failure is reported. */
  lemma DebugHidesDuplicate(username: string, password: string, w: World, m: string)
    requires Validate(Some(username), Some(password)).None?
    requires w.create == Thrown(Some(m)) && NamesDuplicate(Some(m))
    ensures !w.debug ==> Register(Some(username), Some(password), w).result.reply == Refused(TAKEN)
    ensures w.debug ==> Register(Some(username), Some(password), w).result.reply == BadRequest("注册失败: " + m)
  {
  }

  /** An insert that went through followed by a failing lookup reports a
      failure, though the account now exists. */
  lemma LookupFailureAfterInsert(username: string, password: string, w: World)
    requires Validate(Some(username), Some(password)).None?
    requires w.create == Created(true) && w.found.Exn?
    ensures Register(Some(username), Some(password), w).inserted
    ensures !Register(Some(username), Some(password), w).result.reply.Registered?
  {
  }
}
