/** The user directory of crates/auth-local/src/lib.rs: TOTP enrolment with single-use backup codes,
    admin promotion with privilege stashing, and the login flow. */
module AuthDirectory {
  import opened Base32
  import opened Options
  import opened Totp

  datatype Privileges = Privileges(
    canUseAgent: bool, canUseBash: bool, canUseDocuments: bool, canUseResearch: bool, canManageMemory: bool,
    maxMessagesPerDay: nat, allowedModels: seq<string>, allowedModelsRestricted: bool, blockAllModels: bool)

  const DEFAULT_PRIVILEGES := Privileges(true, false, true, true, true, 0, [], false, false)
  const ADMIN_PRIVILEGES := DEFAULT_PRIVILEGES.(canUseBash := true)
  const RESERVED_USERNAMES := ["internal-tool", "api", "demo", "system"]
  const BACKUP_CODE_COUNT := 8

  datatype User = User(
    passwordHash: string,
    isAdmin: bool,
    privileges: Privileges,
    totpSecret: Option<seq<Byte>>,
    totpPending: Option<seq<Byte>>,
    backupCodes: seq<string>,
    totpEnabled: bool,
    privilegesBeforeAdmin: Option<Privileges>)

  datatype AuthError =
    | ReservedUsername | UserExists | UserNotFound | WrongPassword | HashingFailed
    | LastAdmin | NoPendingEnrollment | InvalidTotpCode

  /** The foreign parts: HMAC-SHA1, and bcrypt's comparison of a password with a stored hash. */
  datatype Env = Env(hmac: Hmac, verify: (string, string) -> bool)

  type Users = map<string, User>

  datatype Reply = Done | Verdict(accepted: bool) | Codes(codes: seq<string>) | Err(error: AuthError)

  /** One call on the store. Hashes, secrets and random bytes arrive as arguments. */
  datatype Op =
    | CreateUser(name: string, hash: Option<string>, admin: bool)
    | DeleteUser(name: string)
    | ChangePassword(name: string, current: string, hash: Option<string>)
    | SetPrivileges(name: string, privileges: Privileges)
    | SetAdmin(name: string, makeAdmin: bool)
    | EnrollBegin(name: string, secret: seq<Byte>)
    | ConfirmEnable(name: string, code: string, now: nat, random: seq<seq<Byte>>)
    | Disable(name: string)
    | Verify(name: string, code: string, now: nat)
    | Login(name: string, password: string, totp: Option<string>, now: nat)

  // ---- One step ----

  function AdminNames(users: Users): set<string> {
    set u | u in users && users[u].isAdmin
  }

  function NewUser(hash: string, admin: bool): User {
    User(hash, admin, if admin then ADMIN_PRIVILEGES else DEFAULT_PRIVILEGES, None, None, [], false, None)
  }

  function Promoted(u: User): User {
    u.(privilegesBeforeAdmin := Some(u.privileges), privileges := ADMIN_PRIVILEGES, isAdmin := true)
  }

  function Demoted(u: User): User {
    u.(privileges := if u.privilegesBeforeAdmin.Some? then u.privilegesBeforeAdmin.value else DEFAULT_PRIVILEGES,
    privilegesBeforeAdmin := None, isAdmin := false)
  }

  function BackupCodes(random: seq<seq<Byte>>): (codes: seq<string>)
    requires forall r :: r in random ==> |r| == 4
    ensures |codes| == |random| && forall c :: c in codes ==> IsBackupCode(c)
  {
    seq(|random|, i requires 0 <= i < |random| => HexEncode(random[i]))
  }

  predicate FreshRandom(random: seq<seq<Byte>>) {
    |random| == BACKUP_CODE_COUNT && forall r :: r in random ==> |r| == 4
  }

  /** The list without its first `code`. */
  function RemoveFirst(codes: seq<string>, code: string): (r: seq<string>)
    ensures multiset(r) == multiset(codes) - multiset{code}
  {
    if codes == [] then []
    else
      assert codes == [codes[0]] + codes[1..];
      if codes[0] == code then codes[1..] else [codes[0]] + RemoveFirst(codes[1..], code)
  }

  /** Lines 334-343: the one-time code first, then the backup codes, consuming one on a match. */
  ghost function VerifyUser(env: Env, u: User, code: string, now: nat): (User, bool) {
    if u.totpSecret.Some? && Accepts(env.hmac, u.totpSecret.value, now, code) then (u, true)
    else if code in u.backupCodes then (u.(backupCodes := RemoveFirst(u.backupCodes, code)), true)
    else (u, false)
  }

  /** The call is one the source can make: random bytes have the requested shape. */
  ghost predicate Callable(op: Op) {
    op.ConfirmEnable? ==> FreshRandom(op.random)
  }

  /** A call that finds its user, seen from that user's record. */
  ghost function OnUser(env: Env, u: User, op: Op): (User, Reply)
    requires Callable(op)
  {
    match op
    case ChangePassword(_, current, hash) =>
      if !env.verify(current, u.passwordHash) then (u, Err(WrongPassword))
      else if hash.None? then (u, Err(HashingFailed))
      else (u.(passwordHash := hash.value), Done)
    case SetPrivileges(_, p) => (u.(privileges := p), Done)
    case SetAdmin(_, make) =>
      (if make && !u.isAdmin then Promoted(u) else if !make && u.isAdmin then Demoted(u) else u, Done)
    case EnrollBegin(_, secret) => (u.(totpPending := Some(secret)), Done)
    case ConfirmEnable(_, code, now, random) =>
      if u.totpPending.None? then (u, Err(NoPendingEnrollment))
      else if !Accepts(env.hmac, u.totpPending.value, now, code) then (u, Err(InvalidTotpCode))
      else
        var codes := BackupCodes(random);
        (u.(totpSecret := u.totpPending, totpPending := None, totpEnabled := true, backupCodes := codes), Codes(codes))
    case Disable(_) => (u.(totpSecret := None, totpPending := None, backupCodes := [], totpEnabled := false), Done)
    case Verify(_, code, now) =>
      var (u', ok) := VerifyUser(env, u, code, now);
      (u', Verdict(ok))
    case Login(_, password, totp, now) =>
      if !env.verify(password, u.passwordHash) then (u, Err(WrongPassword))
      else if !u.totpEnabled then (u, Done)
      else if totp.None? then (u, Err(InvalidTotpCode))
      else
        var (u', ok) := VerifyUser(env, u, totp.value, now);
        (u', if ok then Done else Err(InvalidTotpCode))
    case _ => (u, Done)
  }

  ghost function Step(env: Env, users: Users, op: Op): (Users, Reply)
    requires Callable(op)
  {
    if op.CreateUser? then
      if op.name in RESERVED_USERNAMES then (users, Err(ReservedUsername))
      else if op.name in users then (users, Err(UserExists))
      else if op.hash.None? then (users, Err(HashingFailed))
      else (users[op.name := NewUser(op.hash.value, op.admin)], Done)
    else if op.name !in users then (users, Err(UserNotFound))
    else if op.DeleteUser? then (users - {op.name}, Done)
    else if op.SetAdmin? && !op.makeAdmin && users[op.name].isAdmin && |AdminNames(users)| <= 1 then
      (users, Err(LastAdmin))
    else
      var (u, reply) := OnUser(env, users[op.name], op);
      (users[op.name := u], reply)
  }

  // ---- Runs ----

  ghost function Run(env: Env, users: Users, ops: seq<Op>): Users
    requires forall op :: op in ops ==> Callable(op)
    decreases |ops|
  {
    if ops == [] then users else Run(env, Step(env, users, ops[0]).0, ops[1..])
  }

  /** Every stored backup code has the eight-character shape. */
  ghost predicate WellFormed(users: Users) {
    forall n :: n in users ==> ShapedCodes(users[n])
  }

  ghost predicate ShapedCodes(u: User) {
    forall c :: c in multiset(u.backupCodes) ==> IsBackupCode(c)
  }

  lemma OnUserKeepsShape(env: Env, u: User, op: Op)
    requires ShapedCodes(u) && Callable(op)
    ensures ShapedCodes(OnUser(env, u, op).0)
  {
    var u' := OnUser(env, u, op).0;
    if op.ConfirmEnable? && u'.backupCodes != u.backupCodes {
      assert u'.backupCodes == BackupCodes(op.random);
      assert forall c :: c in multiset(BackupCodes(op.random)) ==> c in BackupCodes(op.random);
    } else {
      assert multiset(u'.backupCodes) <= multiset(u.backupCodes);
    }
  }

  lemma StepKeepsWellFormed(env: Env, users: Users, op: Op)
    requires WellFormed(users) && Callable(op)
    ensures WellFormed(Step(env, users, op).0)
  {
    if op.name in users {
      OnUserKeepsShape(env, users[op.name], op);
    }
  }

  /** The backup code a caller saw accepted for `name` in this step: a successful verification or a
      two-factor login with an eight-character code. */
  ghost function Spent(env: Env, users: Users, op: Op, name: string): multiset<string>
    requires Callable(op)
  {
    if op.name == name && name in users then SpentOn(users[name], op, Step(env, users, op).1) else multiset{}
  }

  ghost predicate PresentsBackup(u: User, op: Op) {
    || (op.Verify? && IsBackupCode(op.code))
    || (op.Login? && u.totpEnabled && op.totp.Some? && IsBackupCode(op.totp.value))
  }

  ghost function Presented(op: Op): string
    requires op.Verify? || (op.Login? && op.totp.Some?)
  {
    if op.Verify? then op.code else op.totp.value
  }

  ghost function SpentIn(env: Env, users: Users, ops: seq<Op>, name: string): multiset<string>
    requires forall op :: op in ops ==> Callable(op)
    decreases |ops|
  {
    if ops == [] then multiset{}
    else Spent(env, users, ops[0], name) + SpentIn(env, Step(env, users, ops[0]).0, ops[1..], name)
  }

  /** No call that replaces or drops the codes of `name`. */
  ghost predicate KeepsCodes(op: Op, name: string) {
    op.name == name ==> !op.ConfirmEnable? && !op.Disable? && !op.DeleteUser?
  }

  lemma StepConserves(env: Env, users: Users, op: Op, name: string)
    requires WellFormed(users) && Callable(op) && KeepsCodes(op, name) && name in users
    ensures name in Step(env, users, op).0
    ensures multiset(users[name].backupCodes)
            == multiset(Step(env, users, op).0[name].backupCodes) + Spent(env, users, op, name)
  {
    if op.name == name && !op.CreateUser? {
      OnUserConserves(env, users[name], op);
    }
  }

  /** What the caller saw accepted when one user's call got this reply. */
  ghost function SpentOn(u: User, op: Op, reply: Reply): multiset<string> {
    if PresentsBackup(u, op) && (reply == Verdict(true) || reply == Done) then multiset{Presented(op)} else multiset{}
  }

  lemma OnUserConserves(env: Env, u: User, op: Op)
    requires ShapedCodes(u) && Callable(op) && !op.ConfirmEnable? && !op.Disable?
    ensures multiset(u.backupCodes) == multiset(OnUser(env, u, op).0.backupCodes) + SpentOn(u, op, OnUser(env, u, op).1)
  {
    if op.Verify? {
      VerifyConserves(env, u, op.code, op.now);
    } else if op.Login? {
      LoginConserves(env, u, op);
    } else {
      OtherCallsKeepCodes(env, u, op);
    }
  }

  lemma LoginConserves(env: Env, u: User, op: Op)
    requires ShapedCodes(u) && op.Login?
    ensures multiset(u.backupCodes) == multiset(OnUser(env, u, op).0.backupCodes) + SpentOn(u, op, OnUser(env, u, op).1)
  {
    if env.verify(op.password, u.passwordHash) && u.totpEnabled && op.totp.Some? {
      var code := op.totp.value;
      VerifyConserves(env, u, code, op.now);
      assert OnUser(env, u, op).0 == VerifyUser(env, u, code, op.now).0;
      assert OnUser(env, u, op).1 == Done <==> VerifyUser(env, u, code, op.now).1;
    } else {
      assert OnUser(env, u, op).0 == u;
    }
  }

  lemma OtherCallsKeepCodes(env: Env, u: User, op: Op)
    requires Callable(op) && !op.ConfirmEnable? && !op.Disable? && !op.Verify? && !op.Login?
    ensures OnUser(env, u, op).0.backupCodes == u.backupCodes
  {
  }

  lemma VerifyConserves(env: Env, u: User, code: string, now: nat)
    requires ShapedCodes(u)
    ensures var (u', ok) := VerifyUser(env, u, code, now);
            multiset(u.backupCodes)
            == multiset(u'.backupCodes) + if ok && IsBackupCode(code) then multiset{code} else multiset{}
  {
    if u.totpSecret.Some? && IsBackupCode(code) {
      BackupCodeNeverAccepted(env.hmac, u.totpSecret.value, now, code);
    }
    assert code in u.backupCodes <==> code in multiset(u.backupCodes);
  }

  /** Over any run that does not reissue or drop them, issued codes are the remaining ones plus the
      accepted ones, as multisets: each code is good exactly once. */
  lemma {:induction false} BackupCodesConserved(env: Env, users: Users, ops: seq<Op>, name: string)
    requires WellFormed(users) && name in users
    requires forall op :: op in ops ==> Callable(op) && KeepsCodes(op, name)
    ensures name in Run(env, users, ops)
    ensures multiset(users[name].backupCodes)
            == multiset(Run(env, users, ops)[name].backupCodes) + SpentIn(env, users, ops, name)
    decreases |ops|
  {
    if ops != [] {
      StepConserves(env, users, ops[0], name);
      StepKeepsWellFormed(env, users, ops[0]);
      BackupCodesConserved(env, Step(env, users, ops[0]).0, ops[1..], name);
    }
  }

  /** A login with a wrong password leaves the directory as it was, whatever code it carries. */
  lemma WrongPasswordConsumesNothing(env: Env, users: Users, name: string, password: string, totp: Option<string>, now: nat)
    requires name in users && !env.verify(password, users[name].passwordHash)
    ensures Step(env, users, Login(name, password, totp, now)) == (users, Err(WrongPassword))
  {
    assert users[name := users[name]] == users;
  }

  /** So does every login that is refused, whatever the reason. */
  lemma RefusedLoginChangesNothing(env: Env, users: Users, name: string, password: string, totp: Option<string>, now: nat)
    ensures var (after, reply) := Step(env, users, Login(name, password, totp, now));
            reply.Err? ==> after == users
  {
    if name in users { assert users[name := users[name]] == users; }
  }

  // ---- When a call is granted, and what it leaves ----

  /** A login is granted exactly with the right password and, where two factors are on, with an accepted
      one-time code or an unused backup code; then at most that backup code is gone. */
  lemma LoginGrantedIff(env: Env, users: Users, name: string, password: string, totp: Option<string>, now: nat)
    requires name in users
    ensures var u, (after, reply) := users[name], Step(env, users, Login(name, password, totp, now));
            && (reply == Done <==>
                  && env.verify(password, u.passwordHash)
                  && (u.totpEnabled ==>
                        && totp.Some?
                        && (|| (u.totpSecret.Some? && Accepts(env.hmac, u.totpSecret.value, now, totp.value))
                            || totp.value in u.backupCodes)))
            && (reply == Err(WrongPassword) <==> !env.verify(password, u.passwordHash))
            && (reply == Done || reply == Err(WrongPassword) || reply == Err(InvalidTotpCode))
            && after.Keys == users.Keys && after[name] == u.(backupCodes := after[name].backupCodes)
            && (forall other :: other in users && other != name ==> after[other] == users[other])
  {
  }

  /** A code is good exactly when it is an accepted one-time code or an unused backup code; a one-time code
      uses up nothing. */
  lemma VerifyGrantedIff(env: Env, users: Users, name: string, code: string, now: nat)
    requires name in users
    ensures var u, (after, reply) := users[name], Step(env, users, Verify(name, code, now));
            var oneTime := u.totpSecret.Some? && Accepts(env.hmac, u.totpSecret.value, now, code);
            && reply == Verdict(oneTime || code in u.backupCodes)
            && after.Keys == users.Keys && after[name] == u.(backupCodes := after[name].backupCodes)
            && multiset(after[name].backupCodes)
               == (if !oneTime && code in u.backupCodes then multiset(u.backupCodes) - multiset{code} else multiset(u.backupCodes))
            && (forall other :: other in users && other != name ==> after[other] == users[other])
  {
  }

  /** Enrolment is confirmed exactly with an accepted code of the pending secret: that secret becomes the
      active one and eight codes of eight hexadecimal digits are issued. */
  lemma ConfirmGrantedIff(env: Env, users: Users, name: string, code: string, now: nat, random: seq<seq<Byte>>)
    requires name in users && FreshRandom(random)
    ensures var u, (after, reply) := users[name], Step(env, users, ConfirmEnable(name, code, now, random));
            var pending := u.totpPending;
            && (reply == Err(NoPendingEnrollment) <==> pending.None?)
            && (reply == Err(InvalidTotpCode) <==> pending.Some? && !Accepts(env.hmac, pending.value, now, code))
            && (reply.Codes? <==> pending.Some? && Accepts(env.hmac, pending.value, now, code))
            && (!reply.Codes? ==> after == users)
            && (reply.Codes? ==>
                  && |reply.codes| == 8 && (forall i :: 0 <= i < 8 ==> reply.codes[i] == HexEncode(random[i]))
                  && after == users[name := u.(totpSecret := pending, totpPending := None, totpEnabled := true,
                                               backupCodes := reply.codes)])
  {
    assert users[name := users[name]] == users;
  }

  /** Turning two factors off leaves no secret and no code; beginning enrolment changes only the pending
      secret, so the active one stays in force. */
  lemma EnrolmentLeaves(env: Env, users: Users, name: string, secret: seq<Byte>)
    requires name in users
    ensures var u := users[name];
            && Step(env, users, Disable(name))
               == (users[name := User(u.passwordHash, u.isAdmin, u.privileges, None, None, [], false, u.privilegesBeforeAdmin)], Done)
            && Step(env, users, EnrollBegin(name, secret)) == (users[name := u.(totpPending := Some(secret))], Done)
  {
  }

  /** A password changes exactly when the current one is right and the new one can be hashed, and only
      the password changes. */
  lemma PasswordGrantedIff(env: Env, users: Users, name: string, current: string, hash: Option<string>)
    requires name in users
    ensures var (after, reply) := Step(env, users, ChangePassword(name, current, hash));
            && (reply == Done <==> env.verify(current, users[name].passwordHash) && hash.Some?)
            && (reply == Err(WrongPassword) <==> !env.verify(current, users[name].passwordHash))
            && (reply != Done ==> after == users)
            && (reply == Done ==> after == users[name := users[name].(passwordHash := hash.value)])
  {
    assert users[name := users[name]] == users;
  }

  /** A user is created exactly under a fresh name that is not reserved, with the flags of its kind and no
      second factor. */
  lemma CreateGrantedIff(env: Env, users: Users, name: string, hash: Option<string>, admin: bool)
    ensures var reserved := name in {"internal-tool", "api", "demo", "system"};
            var (after, reply) := Step(env, users, CreateUser(name, hash, admin));
            && (reply == Err(ReservedUsername) <==> reserved)
            && (reply == Err(UserExists) <==> !reserved && name in users)
            && (reply == Err(HashingFailed) <==> !reserved && name !in users && hash.None?)
            && (reply == Done <==> !reserved && name !in users && hash.Some?)
            && (reply != Done ==> after == users)
            && (reply == Done ==>
                  after == users[name := User(hash.value, admin, Privileges(true, admin, true, true, true, 0, [], false, false),
                                              None, None, [], false, None)])
  {
  }

  /** Only an existing user can be deleted, and nobody else is touched. */
  lemma DeleteGrantedIff(env: Env, users: Users, name: string)
    ensures Step(env, users, DeleteUser(name)) == if name in users then (users - {name}, Done) else (users, Err(UserNotFound))
  {
  }

  /** A demotion is refused exactly for the only admin. Otherwise the flag is as asked, and only the flag,
      the privileges and the stash can change: promotion grants the shell and stashes what was there, a
      demotion brings the stash back, or the defaults where there is none. */
  lemma AdminGrantedIff(env: Env, users: Users, name: string, make: bool)
    requires name in users
    ensures var u, (after, reply) := users[name], Step(env, users, SetAdmin(name, make));
            && (reply == Err(LastAdmin) <==> !make && AdminNames(users) == {name})
            && (reply == Done || reply == Err(LastAdmin))
            && (reply != Done || make == u.isAdmin ==> after == users)
            && (reply == Done ==> after.Keys == users.Keys && after[name].isAdmin == make)
            && (reply == Done && make && !u.isAdmin ==>
                  after == users[name := u.(isAdmin := true, privilegesBeforeAdmin := Some(u.privileges),
                                            privileges := Privileges(true, true, true, true, true, 0, [], false, false))])
            && (reply == Done && !make && u.isAdmin ==>
                  after == users[name := u.(isAdmin := false, privilegesBeforeAdmin := None,
                                            privileges := if u.privilegesBeforeAdmin.Some? then u.privilegesBeforeAdmin.value
                                                          else Privileges(true, false, true, true, true, 0, [], false, false))])
  {
    assert users[name := users[name]] == users;
    OnlyAdmin(AdminNames(users), name);
    assert name in AdminNames(users) <==> users[name].isAdmin;
  }

  lemma OnlyAdmin(s: set<string>, x: string)
    ensures x in s && |s| <= 1 <==> s == {x}
  {
    if x in s && |s| <= 1 {
      assert |s - {x}| == 0;
      assert s == {x} + (s - {x});
    }
  }

  /** Nothing is granted to a name that is not there, but creating it. */
  lemma UnknownUserRefused(env: Env, users: Users, op: Op)
    requires Callable(op) && op.name !in users && !op.CreateUser?
    ensures Step(env, users, op) == (users, Err(UserNotFound))
  {
  }

  // ---- Admins ----

  /** The call deletes the only admin there is. */
  ghost predicate DeletesOnlyAdmin(users: Users, op: Op) {
    op.DeleteUser? && AdminNames(users) == {op.name}
  }

  /** Over any run there is an admin at every point exactly when no call deletes the only one. */
  lemma {:induction false} AdminsRemain(env: Env, users: Users, ops: seq<Op>)
    requires AdminNames(users) != {} && forall op :: op in ops ==> Callable(op)
    ensures (forall i :: 0 <= i <= |ops| ==> AdminNames(Run(env, users, ops[..i])) != {})
            <==> forall i :: 0 <= i < |ops| ==> !DeletesOnlyAdmin(Run(env, users, ops[..i]), ops[i])
    decreases |ops|
  {
    if ops != [] {
      var n := |ops| - 1;
      var before := ops[..n];
      AdminsRemain(env, users, before);
      assert forall i :: 0 <= i <= n ==> before[..i] == ops[..i];
      assert forall i :: 0 <= i < n ==> before[i] == ops[i];
      assert ops[..n + 1] == ops == before + [ops[n]];
      RunSnoc(env, users, before, ops[n]);
      if AdminNames(Run(env, users, before)) != {} {
        StepKeepsAnAdmin(env, Run(env, users, before), ops[n]);
      }
    }
  }

  lemma {:induction false} RunSnoc(env: Env, users: Users, ops: seq<Op>, op: Op)
    requires Callable(op) && forall o :: o in ops ==> Callable(o)
    ensures Run(env, users, ops + [op]) == Step(env, Run(env, users, ops), op).0
    decreases |ops|
  {
    if ops == [] {
      assert Run(env, Step(env, users, op).0, [op][1..]) == Step(env, users, op).0;
    } else {
      assert (ops + [op])[1..] == ops[1..] + [op];
      RunSnoc(env, Step(env, users, ops[0]).0, ops[1..], op);
    }
  }

  /** One call leaves an admin exactly unless it deletes the only one. */
  lemma StepKeepsAnAdmin(env: Env, users: Users, op: Op)
    requires AdminNames(users) != {} && Callable(op)
    ensures AdminNames(Step(env, users, op).0) != {} <==> !DeletesOnlyAdmin(users, op)
  {
    var users' := Step(env, users, op).0;
    if DeletesOnlyAdmin(users, op) {
      assert AdminNames(users') == {};
    } else if op.DeleteUser? {
      var other := SomeMember(AdminNames(users) - {op.name});
      assert other in AdminNames(users');
    } else if op.SetAdmin? && !op.makeAdmin && op.name in AdminNames(users) && |AdminNames(users)| > 1 {
      var other := OtherMember(AdminNames(users), op.name);
      assert other in AdminNames(users');
    } else {
      var a := SomeMember(AdminNames(users));
      if a == op.name { AdminFlag(env, users[a], op); }
      assert a in AdminNames(users');
    }
  }

  /** Only a demotion clears the admin flag. */
  lemma AdminFlag(env: Env, u: User, op: Op)
    requires Callable(op) && u.isAdmin
    ensures OnUser(env, u, op).0.isAdmin <==> !(op.SetAdmin? && !op.makeAdmin)
  {
  }

  lemma SomeMember(s: set<string>) returns (x: string)
    requires s != {}
    ensures x in s
  {
    assert (forall x :: x !in s) ==> s == {};
    x :| x in s;
  }

  lemma OtherMember(s: set<string>, y: string) returns (x: string)
    requires |s| > 1
    ensures x in s && x != y
  {
    assert |s - {y}| >= |s| - 1;
    assert s - {y} != {};
    x := SomeMember(s - {y});
  }

  /** Deleting is the exception: it can remove the only admin. */
  lemma DeleteCanRemoveLastAdmin(env: Env, hash: string)
    ensures var users := map["root" := NewUser(hash, true)];
            AdminNames(users) != {} && AdminNames(Step(env, users, DeleteUser("root")).0) == {}
  {
    assert "root" in AdminNames(map["root" := NewUser(hash, true)]);
  }

  /** Calls that leave the admin flag and the stash of `name` alone. */
  ghost predicate KeepsAdminship(op: Op, name: string) {
    op.name == name ==> !op.SetAdmin? && !op.DeleteUser?
  }

  lemma {:induction false} StashSurvives(env: Env, users: Users, ops: seq<Op>, name: string)
    requires name in users
    requires forall op :: op in ops ==> Callable(op) && KeepsAdminship(op, name)
    ensures name in Run(env, users, ops)
    ensures Run(env, users, ops)[name].isAdmin == users[name].isAdmin
    ensures Run(env, users, ops)[name].privilegesBeforeAdmin == users[name].privilegesBeforeAdmin
    decreases |ops|
  {
    if ops != [] {
      StashSurvives(env, Step(env, users, ops[0]).0, ops[1..], name);
    }
  }

  /** Promotion, anything else, then a demotion that is granted: the privileges from before are back. */
  lemma DemotionRestores(env: Env, users: Users, ops: seq<Op>, name: string)
    requires name in users && !users[name].isAdmin
    requires forall op :: op in ops ==> Callable(op) && KeepsAdminship(op, name)
    ensures var promoted := Step(env, users, SetAdmin(name, true)).0;
            var later := Run(env, promoted, ops);
            var (final, reply) := Step(env, later, SetAdmin(name, false));
            reply == Done ==> name in final && final[name].privileges == users[name].privileges && !final[name].isAdmin
  {
    StashSurvives(env, Step(env, users, SetAdmin(name, true)).0, ops, name);
  }

  // ---- The store itself ----

  class AuthStore {
    const env: Env
    var users: Users

    constructor (env: Env)
      ensures this.env == env && users == map[]
    {
      this.env := env;
      users := map[];
    }

    method CreateUser(name: string, hash: Option<string>, admin: bool) returns (reply: Reply)
      modifies this
      ensures (users, reply) == Step(env, old(users), Op.CreateUser(name, hash, admin))
    {
      if name in RESERVED_USERNAMES {
        return Err(ReservedUsername);
      }
      if name in users {
        return Err(UserExists);
      }
      if hash.None? {
        return Err(HashingFailed);
      }
      users := users[name := NewUser(hash.value, admin)];
      return Done;
    }

    method DeleteUser(name: string) returns (reply: Reply)
      modifies this
      ensures (users, reply) == Step(env, old(users), Op.DeleteUser(name))
    {
      if name !in users {
        return Err(UserNotFound);
      }
      users := users - {name};
      return Done;
    }

    method ChangePassword(name: string, current: string, hash: Option<string>) returns (reply: Reply)
      modifies this
      ensures (users, reply) == Step(env, old(users), Op.ChangePassword(name, current, hash))
    {
      if name !in users {
        return Err(UserNotFound);
      }
      assert users[name := users[name]] == users;
      if !env.verify(current, users[name].passwordHash) {
        return Err(WrongPassword);
      }
      if hash.None? {
        return Err(HashingFailed);
      }
      users := users[name := users[name].(passwordHash := hash.value)];
      return Done;
    }

    method SetPrivileges(name: string, privileges: Privileges) returns (reply: Reply)
      modifies this
      ensures (users, reply) == Step(env, old(users), Op.SetPrivileges(name, privileges))
    {
      if name !in users {
        return Err(UserNotFound);
      }
      users := users[name := users[name].(privileges := privileges)];
      return Done;
    }

    method SetAdmin(name: string, makeAdmin: bool) returns (reply: Reply)
      modifies this
      ensures (users, reply) == Step(env, old(users), Op.SetAdmin(name, makeAdmin))
    {
      var lastAdmin := !makeAdmin && |AdminNames(users)| <= 1 && name in users && users[name].isAdmin;
      if lastAdmin {
        return Err(LastAdmin);
      }
      if name !in users {
        return Err(UserNotFound);
      }
      assert users[name := users[name]] == users;
      if makeAdmin && !users[name].isAdmin {
        users := users[name := Promoted(users[name])];
      } else if !makeAdmin && users[name].isAdmin {
        users := users[name := Demoted(users[name])];
      }
      return Done;
    }

    /** Lines 265-277: the pending secret, shown to the user in Base32. */
    method TotpEnrollBegin(name: string, secret: seq<Byte>) returns (reply: Reply, encoded: string)
      modifies this
      ensures (users, reply) == Step(env, old(users), EnrollBegin(name, secret))
      ensures reply == Done ==> IsEncoding(secret, encoded)
    {
      if name !in users {
        return Err(UserNotFound), "";
      }
      encoded := Encode(secret);
      users := users[name := users[name].(totpPending := Some(secret))];
      reply := Done;
    }

    method TotpConfirmEnable(name: string, code: string, now: nat, random: seq<seq<Byte>>) returns (reply: Reply)
      requires FreshRandom(random)
      modifies this
      ensures (users, reply) == Step(env, old(users), ConfirmEnable(name, code, now, random))
    {
      if name !in users {
        return Err(UserNotFound);
      }
      var u := users[name];
      assert users[name := u] == users;
      if u.totpPending.None? {
        return Err(NoPendingEnrollment);
      }
      var ok := VerifyAt(env.hmac, u.totpPending.value, now, code);
      if !ok {
        return Err(InvalidTotpCode);
      }
      var codes := BackupCodes(random);
      users := users[name := u.(totpSecret := u.totpPending, totpPending := None, totpEnabled := true, backupCodes := codes)];
      return Codes(codes);
    }

    method TotpDisable(name: string) returns (reply: Reply)
      modifies this
      ensures (users, reply) == Step(env, old(users), Disable(name))
    {
      if name !in users {
        return Err(UserNotFound);
      }
      users := users[name := users[name].(totpSecret := None, totpPending := None, backupCodes := [], totpEnabled := false)];
      return Done;
    }

    method TotpVerify(name: string, code: string, now: nat) returns (reply: Reply)
      modifies this
      ensures (users, reply) == Step(env, old(users), Verify(name, code, now))
    {
      if name !in users {
        return Err(UserNotFound);
      }
      var u := users[name];
      assert users[name := u] == users;
      if u.totpSecret.Some? {
        var ok := VerifyAt(env.hmac, u.totpSecret.value, now, code);
        if ok {
          return Verdict(true);
        }
      }
      if code in u.backupCodes {
        users := users[name := u.(backupCodes := RemoveFirst(u.backupCodes, code))];
        return Verdict(true);
      }
      return Verdict(false);
    }

    /** Lines 357-375: the password first, then the code if two factors are on. */
    method Login(name: string, password: string, totp: Option<string>, now: nat) returns (reply: Reply)
      modifies this
      ensures (users, reply) == Step(env, old(users), Op.Login(name, password, totp, now))
    {
      if name !in users {
        return Err(UserNotFound);
      }
      assert users[name := users[name]] == users;
      if !env.verify(password, users[name].passwordHash) {
        return Err(WrongPassword);
      }
      if users[name].totpEnabled {
        if totp.None? {
          return Err(InvalidTotpCode);
        }
        var verdict := TotpVerify(name, totp.value, now);
        if verdict != Verdict(true) {
          return Err(InvalidTotpCode);
        }
      }
      return Done;
    }
  }
}
