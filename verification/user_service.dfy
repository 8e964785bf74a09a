/** Accounts: registration, login, logout, profile and account updates, the
    admin-only role change and the paged user list, as pure functions from
    the store (and the abstract crypto, token and id sources) to a reply. */
module UserService {
  import opened Results
  import opened Seqs
  import opened Strings
  import opened Tables
  import opened Paging
  import opened Models
  import opened Store
  import opened Upload
  import opened Auth

  /** The message for a failed cache write (the client's own error text is
      not modelled). */
  const CacheUnavailable := "cache unavailable"

  // ------------------------------------------------------- email format

  /** `[a-zA-Z0-9._%+\-]` */
  predicate LocalChar(c: char) {
    IsAsciiLetter(c) || IsAsciiDigit(c) || c == '.' || c == '_' || c == '%' || c == '+' || c == '-'
  }

  /** `[a-zA-Z0-9.\-]` */
  predicate DomainChar(c: char) {
    IsAsciiLetter(c) || IsAsciiDigit(c) || c == '.' || c == '-'
  }

  predicate AllLocal(s: string) { forall i :: 0 <= i < |s| ==> LocalChar(s[i]) }
  predicate AllDomain(s: string) { forall i :: 0 <= i < |s| ==> DomainChar(s[i]) }
  predicate AllLetters(s: string) { forall i :: 0 <= i < |s| ==> IsAsciiLetter(s[i]) }

  /** What `^[a-zA-Z0-9._%+\-]+@[a-zA-Z0-9.\-]+\.[a-zA-Z]{2,}$` accepts: a
      non-empty local part, '@', a non-empty domain, '.', and at least two
      letters, with the pieces split anywhere that fits. */
  predicate EmailPattern(s: string) {
    exists at, dot ::
      && 0 < at && at + 1 < dot && dot + 2 < |s|
      && s[at] == '@' && s[dot] == '.'
      && AllLocal(s[..at]) && AllDomain(s[at + 1..dot]) && AllLetters(s[dot + 1..])
  }

  /** A deterministic matcher for the pattern: the '@' can only be the first
      one and the final dot only the last one, since the local part holds no
      '@' and the top-level domain no '.'. */
  function MatchesEmail(s: string): bool {
    var at := IndexOf(s, '@');
    var dot := LastIndexOf(s, '.');
    && 0 < at && at + 1 < dot && dot + 2 < |s|
    && AllLocal(s[..at]) && AllDomain(s[at + 1..dot]) && AllLetters(s[dot + 1..])
  }

  /** The matcher accepts exactly the strings of the pattern. */
  lemma MatchesEmailIff(s: string)
    ensures MatchesEmail(s) <==> EmailPattern(s)
  {
    if MatchesEmail(s) {
      MatcherSound(s);
    }
    if EmailPattern(s) {
      MatcherComplete(s);
    }
  }

  /** What the matcher accepts fits the pattern at the first '@' and the
      last '.'. */
  lemma MatcherSound(s: string)
    requires MatchesEmail(s)
    ensures EmailPattern(s)
  {
    var at := IndexOf(s, '@');
    var dot := LastIndexOf(s, '.');
    assert s[at] == '@' && s[dot] == '.';
  }

  /** Any split the pattern allows puts the '@' first and the dot last. */
  lemma MatcherComplete(s: string)
    requires EmailPattern(s)
    ensures MatchesEmail(s)
  {
    var at', dot' :| && 0 < at' && at' + 1 < dot' && dot' + 2 < |s|
                     && s[at'] == '@' && s[dot'] == '.'
                     && AllLocal(s[..at']) && AllDomain(s[at' + 1..dot']) && AllLetters(s[dot' + 1..]);
    forall i | 0 <= i < at' ensures s[i] != '@' {
      assert LocalChar(s[..at'][i]);
    }
    IndexOfAt(s, '@', at');
    forall i | dot' < i < |s| ensures s[i] != '.' {
      assert IsAsciiLetter(s[dot' + 1..][i - dot' - 1]);
    }
    LastIndexOfAt(s, '.', dot');
  }

  /** Some concrete answers of the format check. */
  lemma EmailExamples()
    ensures MatchesEmail("a@b.co")
    ensures !MatchesEmail("a.b.co")
  {
    var s := "a@b.co";
    IndexOfAt(s, '@', 1);
    LastIndexOfAt(s, '.', 3);
    assert s[..1] == "a" && s[2..3] == "b" && s[4..] == "co";
    assert IndexOf("a.b.co", '@') == -1 by {
      assert forall i :: 0 <= i < |"a.b.co"| ==> "a.b.co"[i] != '@';
    }
  }

  /** Go's `len(password) < 6`: the length is counted in UTF-8 bytes. */
  const MinPasswordBytes := 6

  /** Two CJK characters are six bytes and pass the length check; five
      ASCII characters do not. */
  lemma PasswordLengthCountsBytes()
    ensures Utf8Length("密码") >= MinPasswordBytes
    ensures Utf8Length("abcde") < MinPasswordBytes
  {
    Utf8LengthBounds("abcde");
    assert IsAscii("abcde");
  }

  // --------------------------------------------------------- lookups

  predicate UsernameTaken(users: Table<User>, username: string) {
    exists k :: k in users.byId && users.byId[k].username == username
  }

  predicate EmailTaken(users: Table<User>, email: string) {
    exists k :: k in users.byId && users.byId[k].email == email
  }

  /** A user other than `self` already has the username or the email. */
  predicate ClashesWithOther(users: Table<User>, self: Id, username: string, email: string) {
    exists k :: k in users.byId && k != self && (users.byId[k].username == username || users.byId[k].email == email)
  }

  function ToResponse(id: Id, u: User, avatar: string, token: string): (r: UserResponse)
    ensures r.id == id && r.username == u.username && r.email == u.email
    ensures r.role == u.role && r.nickname == u.nickname && r.avatar == avatar && r.token == token
  {
    UserResponse(id, u.username, u.email, u.nickname, avatar, u.role, token)
  }

  // --------------------------------------------------------- register

  datatype RegisterRequest = RegisterRequest(username: string, email: string, password: string)

  /** The checks and the insert of `Register` succeed: the row is stored
      under the next generated key. */
  predicate Admitted(s: Store, req: RegisterRequest, hash: string -> Result<string>, gen: nat -> Id) {
    && MatchesEmail(req.email) && Utf8Length(req.password) >= MinPasswordBytes
    && !UsernameTaken(s.users, req.username) && !EmailTaken(s.users, req.email)
    && hash(req.password).Ok? && gen(s.serial) !in s.users.byId
  }

  /** `Register`. Checks, in order: the email format, the password length,
      a taken username, a taken email; then inserts the user under the next
      generated key through the `BeforeCreate` hook and issues a token for
      it (`mint`). The insert is not undone when the token cannot be
      issued. */
  function Register(
    s: Store, req: RegisterRequest,
    hash: string -> Result<string>, mint: Id -> Result<string>, gen: nat -> Id): (r: Reply<UserResponse>)
    ensures !Admitted(s, req, hash, gen) ==> r.result.Err? && r.store == s
    ensures Admitted(s, req, hash, gen) ==>
      r.store == s.(users := s.users.Insert(gen(s.serial), User(req.username, req.email,
           Hashed(hash(req.password).value), req.username, "", RoleUser)), serial := s.serial + 1)
    ensures Admitted(s, req, hash, gen) && mint(gen(s.serial)).Err? ==>
      r.result == Err(mint(gen(s.serial)).error)
    ensures !MatchesEmail(req.email) ==> r.result == Err("invalid email format")
    ensures MatchesEmail(req.email) && Utf8Length(req.password) < MinPasswordBytes ==>
      r.result == Err("password must be at least 6 characters")
    ensures (&& MatchesEmail(req.email) && Utf8Length(req.password) >= MinPasswordBytes
             && UsernameTaken(s.users, req.username)) ==>
      r.result == Err("username already exists")
    ensures (&& MatchesEmail(req.email) && Utf8Length(req.password) >= MinPasswordBytes
             && !UsernameTaken(s.users, req.username) && EmailTaken(s.users, req.email)) ==>
      r.result == Err("email already exists")
    ensures r.result.Ok? <==> Admitted(s, req, hash, gen) && mint(gen(s.serial)).Ok?
    ensures r.result.Ok? ==>
      var id := gen(s.serial);
      && r.result.value.id == id
      && r.result.value.username == req.username && r.result.value.email == req.email
      && r.result.value.nickname == req.username && r.result.value.avatar == GetFileURL("")
      && r.result.value.role == RoleUser && mint(id) == Ok(r.result.value.token)
  {
    if !MatchesEmail(req.email) then Reply(s, Err("invalid email format"))
    else if Utf8Length(req.password) < MinPasswordBytes then Reply(s, Err("password must be at least 6 characters"))
    else if UsernameTaken(s.users, req.username) then Reply(s, Err("username already exists"))
    else if EmailTaken(s.users, req.email) then Reply(s, Err("email already exists"))
    else
      var draft := User(req.username, req.email, Plain(req.password), "", "", RoleUser);
      match BeforeCreate(draft, hash)
      case Err(e) => Reply(s, Err(e))
      case Ok(user) =>
        var id := gen(s.serial);
        if id in s.users.byId then Reply(s, Err(DuplicateKey))
        else
          var s' := s.(users := s.users.Insert(id, user), serial := s.serial + 1);
          match mint(id)
          case Err(e) => Reply(s', Err(e))
          case Ok(token) => Reply(s', Ok(ToResponse(id, user, GetFileURL(user.avatar), token)))
  }

  /** A second registration with a username or an email already in use
      fails. */
  lemma RegisterTwiceFails(
    s: Store, req: RegisterRequest, req2: RegisterRequest,
    hash: string -> Result<string>, mint: Id -> Result<string>, gen: nat -> Id)
    requires Register(s, req, hash, mint, gen).result.Ok?
    requires req2.username == req.username || req2.email == req.email
    ensures Register(Register(s, req, hash, mint, gen).store, req2, hash, mint, gen).result.Err?
  {
    var s' := Register(s, req, hash, mint, gen).store;
    var id := gen(s.serial);
    assert id in s'.users.byId && s'.users.byId[id].username == req.username;
    assert s'.users.byId[id].email == req.email;
  }

  /** Registration keeps the store's integrity. */
  lemma RegisterPreservesValid(
    s: Store, req: RegisterRequest,
    hash: string -> Result<string>, mint: Id -> Result<string>, gen: nat -> Id)
    requires Valid(s)
    ensures Valid(Register(s, req, hash, mint, gen).store)
  {
  }

  // ------------------------------------------------------------ login

  datatype LoginRequest = LoginRequest(username: string, password: string)

  const BadCredentials := "invalid username or password"

  /** `Login`: one message for an unknown username and for a wrong
      password; a token that cannot be issued passes its own error on. */
  function Login(s: Store, req: LoginRequest, verify: (string, string) -> bool, mint: Id -> Result<string>): (r: Result<UserResponse>)
    ensures s.users.Valid() ==>
      (r.Ok? <==> exists k :: k in s.users.byId && s.users.byId[k].username == req.username
                             && ComparePassword(s.users.byId[k], req.password, verify) && mint(k).Ok?)
      || !UniqueUsernames(s.users)
    ensures s.users.Valid() && (forall k :: k in s.users.byId ==> s.users.byId[k].username != req.username) ==>
      r == Err(BadCredentials)
    ensures r.Err? && r.error != BadCredentials ==>
      exists k :: k in s.users.byId && s.users.byId[k].username == req.username
                  && ComparePassword(s.users.byId[k], req.password, verify) && mint(k) == Err(r.error)
    ensures r.Ok? ==>
      && r.value.id in s.users.byId && r.value.username == req.username
      && mint(r.value.id) == Ok(r.value.token)
      && ComparePassword(s.users.byId[r.value.id], req.password, verify)
  {
    match s.users.Find((u: User) => u.username == req.username)
    case None => Err(BadCredentials)
    case Some(id) =>
      var user := s.users.byId[id];
      if !ComparePassword(user, req.password, verify) then Err(BadCredentials)
      else
        match mint(id)
        case Err(e) => Err(e)
        case Ok(token) => Ok(ToResponse(id, user, GetFileURL(user.avatar), token))
  }

  /** With a bcrypt that verifies its own digests, a user who just
      registered can log in with the same password. */
  lemma RegisterThenLogin(
    s: Store, req: RegisterRequest,
    hash: string -> Result<string>, verify: (string, string) -> bool,
    mint: Id -> Result<string>, gen: nat -> Id)
    requires Valid(s)
    requires forall p :: hash(p).Ok? ==> verify(hash(p).value, p)
    requires Register(s, req, hash, mint, gen).result.Ok?
    ensures Login(Register(s, req, hash, mint, gen).store, LoginRequest(req.username, req.password), verify, mint).Ok?
  {
    var s' := Register(s, req, hash, mint, gen).store;
    RegisterPreservesValid(s, req, hash, mint, gen);
    var id := gen(s.serial);
    assert ComparePassword(s'.users.byId[id], req.password, verify);
  }

  // ------------------------------------------------------------ logout

  /** `Logout`: revoke the context's token by writing its blacklist key with
      the user id; nothing happens without a token. */
  function Logout(s: Store, ctx: RequestContext, userId: Id, cacheUp: bool): (r: Reply<()>)
    ensures GetTokenFromContext(ctx) == "" ==> r == Reply(s, Ok(()))
    ensures GetTokenFromContext(ctx) != "" && !cacheUp ==> r == Reply(s, Err(CacheUnavailable))
    ensures GetTokenFromContext(ctx) != "" && cacheUp ==>
      r.result.Ok? && r.store == s.(cache := s.cache[BlacklistKey(GetTokenFromContext(ctx)) := Text(userId)])
  {
    var token := GetTokenFromContext(ctx);
    if token == "" then Reply(s, Ok(()))
    else if !cacheUp then Reply(s, Err(CacheUnavailable))
    else Reply(s.(cache := s.cache[BlacklistKey(token) := Text(userId)]), Ok(()))
  }

  /** After logout, the same bearer header is refused as invalidated, even
      though the token itself still verifies. */
  lemma LogoutRevokesToken(
    s: Store, keys: GinKeys, userId: Id, parse: string -> TokenCheck)
    requires keys.token.Some? && keys.token.value != "" && ' ' !in keys.token.value
    ensures var s' := Logout(s, Gin(keys), userId, true).store;
            Authenticate("Bearer " + keys.token.value, s'.cache, true, parse, s'.users)
              == Reject(401, "Token has been invalidated")
  {
    BearerTokenIff("Bearer " + keys.token.value, keys.token.value);
  }

  // ------------------------------------------------------------ profile

  /** `GetUserByID`. */
  function GetUserByID(s: Store, userId: Id): (r: Result<UserResponse>)
    ensures r.Ok? <==> userId in s.users.byId
    ensures r.Err? ==> r.error == RecordNotFound
    ensures r.Ok? ==>
      var u := s.users.byId[userId];
      && r.value.id == userId && r.value.token == ""
      && r.value.username == u.username && r.value.email == u.email
      && r.value.nickname == u.nickname && r.value.role == u.role
      && r.value.avatar == GetFileURL(u.avatar)
  {
    match s.users.Get(userId)
    case None => Err(RecordNotFound)
    case Some(u) => Ok(ToResponse(userId, u, GetFileURL(u.avatar), ""))
  }

  /** A user who just registered is found under the returned id, with the
      answer of the registration less the token. */
  lemma RegisterThenGetUserByID(
    s: Store, req: RegisterRequest,
    hash: string -> Result<string>, mint: Id -> Result<string>, gen: nat -> Id)
    requires Register(s, req, hash, mint, gen).result.Ok?
    ensures var r := Register(s, req, hash, mint, gen);
            GetUserByID(r.store, r.result.value.id) == Ok(r.result.value.(token := ""))
  {
  }

  datatype ProfileUpdate = ProfileUpdate(nickname: string, avatar: Option<FileHeader>)

  /** `UpdateProfile`: a non-empty nickname replaces the old one; an avatar
      file, if given and accepted by the upload guards, replaces the avatar
      path. Nothing else of the user changes. */
  function UpdateProfile(s: Store, userId: Id, req: ProfileUpdate, date: string, uuid: string): (r: Reply<UserResponse>)
    ensures r.result.Err? ==> r.store == s
    ensures userId !in s.users.byId ==> r.result == Err("user not found")
    ensures r.result.Ok? <==>
      userId in s.users.byId && (req.avatar.Some? ==> UploadFile(req.avatar.value, "avatars", date, uuid).Ok?)
    ensures r.result.Ok? ==>
      var prev := s.users.byId[userId];
      && userId in r.store.users.byId
      && var u := r.store.users.byId[userId];
      && r.store == s.(users := s.users.Put(userId, u))
      && u.nickname == (if req.nickname != "" then req.nickname else prev.nickname)
      && u.avatar == (if req.avatar.Some? then UploadFile(req.avatar.value, "avatars", date, uuid).value else prev.avatar)
      && u.(nickname := prev.nickname, avatar := prev.avatar) == prev
      && r.result.value.avatar == GetFileURL(u.avatar)
  {
    match s.users.Get(userId)
    case None => Reply(s, Err("user not found"))
    case Some(prev) =>
      var u := if req.nickname != "" then prev.(nickname := req.nickname) else prev;
      match req.avatar
      case None =>
        Reply(s.(users := s.users.Put(userId, u)), Ok(ToResponse(userId, u, GetFileURL(u.avatar), "")))
      case Some(file) =>
        match UploadFile(file, "avatars", date, uuid)
        case Err(e) => Reply(s, Err(e))
        case Ok(path) =>
          var u' := u.(avatar := path);
          Reply(s.(users := s.users.Put(userId, u')), Ok(ToResponse(userId, u', GetFileURL(path), "")))
  }

  /** `UpdateUser`: replaces both username and email; the unique indexes
      refuse a value another user holds. The response carries the raw avatar
      path. */
  function UpdateUser(s: Store, userId: Id, username: string, email: string): (r: Reply<UserResponse>)
    ensures r.result.Err? ==> r.store == s
    ensures !MatchesEmail(email) ==> r.result == Err("invalid email format")
    ensures r.result.Ok? <==>
      MatchesEmail(email) && userId in s.users.byId && !ClashesWithOther(s.users, userId, username, email)
    ensures r.result.Ok? ==>
      var prev := s.users.byId[userId];
      && r.store == s.(users := s.users.Put(userId, prev.(username := username, email := email)))
      && r.result.value.avatar == prev.avatar
  {
    if !MatchesEmail(email) then Reply(s, Err("invalid email format"))
    else match s.users.Get(userId)
      case None => Reply(s, Err(RecordNotFound))
      case Some(prev) =>
        var u := prev.(username := username, email := email);
        if ClashesWithOther(s.users, userId, username, email) then Reply(s, Err(DuplicateKey))
        else Reply(s.(users := s.users.Put(userId, u)), Ok(ToResponse(userId, u, u.avatar, "")))
  }

  /** Rewriting a user row keeps the store's integrity when its username,
      email and password stay the same. */
  lemma RewriteUserKeepsValid(s: Store, userId: Id, u: User)
    requires Valid(s) && userId in s.users.byId
    requires u.username == s.users.byId[userId].username && u.email == s.users.byId[userId].email
    requires u.password == s.users.byId[userId].password
    ensures Valid(s.(users := s.users.Put(userId, u)))
  {
  }

  lemma UpdateProfilePreservesValid(s: Store, userId: Id, req: ProfileUpdate, date: string, uuid: string)
    requires Valid(s)
    ensures Valid(UpdateProfile(s, userId, req, date, uuid).store)
  {
    var r := UpdateProfile(s, userId, req, date, uuid);
    if r.result.Ok? {
      RewriteUserKeepsValid(s, userId, r.store.users.byId[userId]);
    }
  }

  lemma UpdateUserPreservesValid(s: Store, userId: Id, username: string, email: string)
    requires Valid(s)
    ensures Valid(UpdateUser(s, userId, username, email).store)
  {
  }

  // ------------------------------------------------------------- roles

  /** `UpdateUserRole`: the caller must exist and be an admin, the target
      must exist; then only the target's role changes. The role value itself
      is not checked here, and an admin may change their own role. */
  function UpdateUserRole(s: Store, adminId: Id, userId: Id, role: Role): (r: Reply<()>)
    ensures r.result.Err? ==> r.store == s
    ensures adminId !in s.users.byId ==> r.result == Err(RecordNotFound)
    ensures adminId in s.users.byId && !s.users.byId[adminId].IsAdmin() ==>
      r.result == Err("permission denied: requires admin role")
    ensures r.result.Ok? <==>
      adminId in s.users.byId && s.users.byId[adminId].IsAdmin() && userId in s.users.byId
    ensures r.result.Ok? ==>
      r.store == s.(users := s.users.Put(userId, s.users.byId[userId].(role := role)))
  {
    match s.users.Get(adminId)
    case None => Reply(s, Err(RecordNotFound))
    case Some(admin) =>
      if admin.role != RoleAdmin then Reply(s, Err("permission denied: requires admin role"))
      else match s.users.Get(userId)
        case None => Reply(s, Err(RecordNotFound))
        case Some(u) => Reply(s.(users := s.users.Put(userId, u.(role := role))), Ok(()))
  }

  lemma UpdateUserRolePreservesValid(s: Store, adminId: Id, userId: Id, role: Role)
    requires Valid(s)
    ensures Valid(UpdateUserRole(s, adminId, userId, role).store)
  {
    if UpdateUserRole(s, adminId, userId, role).result.Ok? {
      RewriteUserKeepsValid(s, userId, s.users.byId[userId].(role := role));
    }
  }

  /** Every stored role is one the system recognises. */
  predicate RolesValid(users: Table<User>) {
    forall k :: k in users.byId ==> IsValidRole(users.byId[k].role)
  }

  /** Registration and role changes that passed the handler's `IsValidRole`
      check keep every stored role valid. */
  lemma RolesStayValid(
    s: Store, adminId: Id, userId: Id, role: Role, req: RegisterRequest,
    hash: string -> Result<string>, mint: Id -> Result<string>, gen: nat -> Id)
    requires RolesValid(s.users)
    ensures RolesValid(Register(s, req, hash, mint, gen).store.users)
    ensures IsValidRole(role) ==> RolesValid(UpdateUserRole(s, adminId, userId, role).store.users)
  {
  }

  /** Without that handler check the service stores any role string. */
  lemma ServiceAcceptsUnknownRole(s: Store, adminId: Id, userId: Id)
    requires adminId in s.users.byId && s.users.byId[adminId].IsAdmin() && userId in s.users.byId
    ensures var r := UpdateUserRole(s, adminId, userId, "invalid_role");
            r.result.Ok? && !IsValidRole(r.store.users.byId[userId].role)
  {
  }

  /** An admin may demote themselves: the service does not refuse it. */
  lemma SelfDemotionAllowed(s: Store, adminId: Id)
    requires adminId in s.users.byId && s.users.byId[adminId].IsAdmin()
    ensures var r := UpdateUserRole(s, adminId, adminId, RoleUser);
            r.result.Ok? && !r.store.users.byId[adminId].IsAdmin()
  {
  }

  // --------------------------------------------------------- user list

  /** The list rows: every user as stored, with the raw avatar path and no
      token. */
  function Responses(es: seq<(Id, User)>): (r: seq<UserResponse>)
    ensures |r| == |es|
    ensures forall i :: 0 <= i < |es| ==> r[i] == ToResponse(es[i].0, es[i].1, es[i].1.avatar, "")
  {
    if es == [] then [] else [ToResponse(es[0].0, es[0].1, es[0].1.avatar, "")] + Responses(es[1..])
  }

  datatype UserPage = UserPage(total: int, users: seq<UserResponse>)

  /** `items` are the users of a valid table from scan position `offset`
      on, at most `size` of them, with raw avatar paths and no token. */
  predicate UsersFrom(t: Table<User>, offset: nat, size: nat, items: seq<UserResponse>) {
    && |items| == (if offset >= |t.byId| then 0 else Min(size, |t.byId| - offset))
    && forall i :: 0 <= i < |items| ==>
         offset + i < |t.rows| && t.rows[offset + i] in t.byId &&
         var id := t.rows[offset + i];
         items[i] == ToResponse(id, t.byId[id], t.byId[id].avatar, "")
  }

  /** The responses of an OFFSET/LIMIT window are the users from that scan
      position on. */
  lemma PageOfUsers(t: Table<User>, offset: nat, size: nat)
    requires t.Valid()
    ensures UsersFrom(t, offset, size, Responses(Window(t.Entries(), offset, size)))
  {
    RowCount(t);
    var items := Responses(Window(t.Entries(), offset, size));
    forall i | 0 <= i < |items|
      ensures offset + i < |t.rows| && t.rows[offset + i] in t.byId
      ensures var id := t.rows[offset + i];
              items[i] == ToResponse(id, t.byId[id], t.byId[id].avatar, "")
    {
      UserAt(t, offset, size, i);
    }
  }

  /** The i-th response of a window is the user at scan position
      offset + i. */
  lemma UserAt(t: Table<User>, offset: nat, size: nat, i: nat)
    requires t.Valid() && i < |Window(t.Entries(), offset, size)|
    ensures offset + i < |t.rows| && t.rows[offset + i] in t.byId
    ensures var id := t.rows[offset + i];
            Responses(Window(t.Entries(), offset, size))[i]
              == ToResponse(id, t.byId[id], t.byId[id].avatar, "")
  {
    var w := Window(t.Entries(), offset, size);
    assert w[i] == t.Entries()[offset + i];
    EntryAt(t, offset + i);
  }

  /** `ListUsers` with the request's binding rules (page at least 1, page
      size 1..100): the users of the page in scan order, with the total
      number of users. Avatars are raw paths. */
  function ListUsers(s: Store, page: nat, pageSize: nat): (r: UserPage)
    requires page >= 1 && 1 <= pageSize <= 100
    ensures r.total == |s.users.byId|
    ensures |r.users| <= pageSize
    ensures s.users.Valid() ==> UsersFrom(s.users, Offset(page, pageSize), pageSize, r.users)
  {
    var offset := Offset(page, pageSize);
    var items := Responses(Window(s.users.Entries(), offset, pageSize));
    assert s.users.Valid() ==> UsersFrom(s.users, offset, pageSize, items) by {
      if s.users.Valid() { PageOfUsers(s.users, offset, pageSize); }
    }
    UserPage(|s.users.byId|, items)
  }

  /** Every user of the list, in scan order. */
  function AllUsers(s: Store): seq<UserResponse> {
    Responses(s.users.Entries())
  }

  /** A page of users is the OFFSET/LIMIT window of the whole list. */
  lemma ListUsersIsWindow(s: Store, page: nat, size: nat)
    requires s.users.Valid() && page >= 1 && 1 <= size <= 100
    ensures ListUsers(s, page, size).users == Window(AllUsers(s), Offset(page, size), size)
  {
    var es := s.users.Entries();
    RowCount(s.users);
    var r := ListUsers(s, page, size).users;
    var w := Window(AllUsers(s), Offset(page, size), size);
    assert |r| == |w|;
    forall i | 0 <= i < |r| ensures r[i] == w[i] {
      EntryAt(s.users, Offset(page, size) + i);
    }
  }

  /** Pages 1..n of the user list as a client fetches them. */
  function UserPages(s: Store, size: nat, n: nat): seq<UserResponse>
    requires 1 <= size <= 100
  {
    ReadPages(k => if k >= 1 then ListUsers(s, k, size).users else [], n)
  }

  /** Fetching pages 1..ceil(total/size) lists every user exactly once, in
      scan order, as long as no offset wraps around. */
  lemma ListUsersPagesCoverAll(s: Store, size: nat)
    requires s.users.Valid() && 1 <= size <= 100
    requires |s.users.byId| + size <= Two63
    ensures UserPages(s, size, PageCount(|s.users.byId|, size)) == AllUsers(s)
  {
    var xs := AllUsers(s);
    RowCount(s.users);
    var n := PageCount(|s.users.byId|, size);
    var page := k => if k >= 1 then ListUsers(s, k, size).users else [];
    forall k | 1 <= k <= n ensures page(k) == Window(xs, Offset(k, size), size) {
      ListUsersIsWindow(s, k, size);
    }
    ReadPagesAreFirstPages(xs, size, page, n);
    AllPagesCoverList(xs, size);
  }
}
