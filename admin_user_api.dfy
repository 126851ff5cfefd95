/** The admin handlers for user accounts and user settings: the validation
    chain of `saveSetting`, and the guards, table effects and error mapping of
    `createUser`, `deleteUser`, `resetPassword` and `updateUserRoles`.
    Collaborators outside the handlers are parameters: whether a KV binding
    exists, the configured domains, the valid role names, the password
    policy's verdict (`None` = accepted, `Some(message)` = thrown) and the
    store's outcome for each statement. A request field that JavaScript
    treats as falsy is "" for strings and `None` for a user id. */
module AdminUserApi {
  import opened Wrappers
  import opened Strings
  import opened Models
  import opened Store

  // ---------------------------------------------------------------------
  // Responses

  /** The error responses, one per distinct response text. */
  datatype Error =
    | KvRequired                                   // KV must be enabled for mail verify
    | SenderMissing                                // verifyMailSender not provided
    | SenderDomainNotAllowed(sender: string, domains: seq<string>)
    | InvalidMaxAddressCount
    | InvalidEmailOrPassword
    | UserAlreadyExists
    | RegisterFailed(detail: Option<string>)       // "Failed to register[: message]"
    | InvalidUserId
    | DeleteFailed
    | ResetPasswordFailed(detail: Option<string>)  // "Failed to reset password[: message]"
    | InvalidRoleText
    | UpdateRolesFailed
    | Uncaught(message: string)                    // an error that escapes the handler

  /** `c.json({ success: true })` or a text response carrying an error. */
  datatype Response = Success | Failure(error: Error)

  /** HTTP status of an error response: 403 for the missing KV binding,
      400 for bad input and duplicates, 500 for store failures. */
  function StatusOf(e: Error): (code: int)
    ensures 400 <= code < 600
    ensures code == 403 <==> e == KvRequired
  {
    match e
    case KvRequired => 403
    case SenderMissing => 400
    case SenderDomainNotAllowed(_, _) => 400
    case InvalidMaxAddressCount => 400
    case InvalidEmailOrPassword => 400
    case UserAlreadyExists => 400
    case InvalidUserId => 400
    case InvalidRoleText => 400
    case RegisterFailed(_) => 500
    case DeleteFailed => 500
    case ResetPasswordFailed(_) => 500
    case UpdateRolesFailed => 500
    case Uncaught(_) => 500
  }

  function Status(r: Response): (code: int)
    ensures code == 200 <==> r == Success
  {
    if r == Success then 200 else StatusOf(r.error)
  }

  // ---------------------------------------------------------------------
  // saveSetting

  /** `sender.split("@")[1]`: the text between the first "@" and the next
      one (or the end); `None` for JavaScript's `undefined`. */
  function MailDomain(sender: string): Option<string>
  {
    var parts := Split(sender, '@');
    if |parts| > 1 then Some(parts[1]) else None
  }

  /** `domains.includes(mailDomain)`; `undefined` is never included. */
  predicate DomainAllowed(domain: Option<string>, domains: seq<string>)
  {
    domain.Some? && domain.value in domains
  }

  /** `sender` reads `local@domain` followed by nothing or by another "@". */
  ghost predicate SenderShape(sender: string, local: string, domain: string, rest: string)
  {
    && '@' !in local && '@' !in domain
    && (rest == [] || rest[0] == '@')
    && sender == local + ['@'] + domain + rest
  }

  /** The four requirements on settings, all at once. */
  ghost predicate SettingsAcceptable(s: UserSettings, hasKV: bool, domains: seq<string>)
  {
    && (s.enableMailVerify ==>
          hasKV && s.verifyMailSender != "" && DomainAllowed(MailDomain(s.verifyMailSender), domains))
    && s.maxAddressCount >= 0
  }

  datatype Verdict = Accepted | Rejected(error: Error)

  /** The checks of `saveSetting` in their order; the first that fails
      decides the response. */
  function ValidateSettings(s: UserSettings, hasKV: bool, domains: seq<string>): (v: Verdict)
    ensures v == Accepted <==> SettingsAcceptable(s, hasKV, domains)
    // check 1 wins over everything else
    ensures v == Rejected(KvRequired) <==> s.enableMailVerify && !hasKV
    // check 2 applies only after check 1 passed
    ensures v == Rejected(SenderMissing) <==> s.enableMailVerify && hasKV && s.verifyMailSender == ""
    // check 3 applies only after checks 1 and 2 passed; its text names the sender and the domains
    ensures (v.Rejected? && v.error.SenderDomainNotAllowed?) <==>
              && s.enableMailVerify && hasKV && s.verifyMailSender != ""
              && !DomainAllowed(MailDomain(s.verifyMailSender), domains)
    ensures v.Rejected? && v.error.SenderDomainNotAllowed? ==>
              v.error == SenderDomainNotAllowed(s.verifyMailSender, domains)
    // check 4 applies whether or not mail verification is on
    ensures v == Rejected(InvalidMaxAddressCount) <==>
              && (s.enableMailVerify ==> hasKV && s.verifyMailSender != ""
                                         && DomainAllowed(MailDomain(s.verifyMailSender), domains))
              && s.maxAddressCount < 0
    ensures v.Rejected? ==> StatusOf(v.error) == if v.error == KvRequired then 403 else 400
  {
    if s.enableMailVerify && !hasKV then Rejected(KvRequired)
    else if s.enableMailVerify && s.verifyMailSender == "" then Rejected(SenderMissing)
    else if s.enableMailVerify && !DomainAllowed(MailDomain(s.verifyMailSender), domains) then
      Rejected(SenderDomainNotAllowed(s.verifyMailSender, domains))
    else if s.maxAddressCount < 0 then Rejected(InvalidMaxAddressCount)
    else Accepted
  }

  /** `saveSetting`: persists the whole settings object exactly when every
      check passes, and otherwise leaves the stored settings as they were. */
  method SaveSetting(db: Database, settings: UserSettings, hasKV: bool, domains: seq<string>)
    returns (resp: Response)
    modifies db`userSettings
    ensures resp == Success <==> SettingsAcceptable(settings, hasKV, domains)
    ensures resp.Failure? ==> ValidateSettings(settings, hasKV, domains) == Rejected(resp.error)
    ensures db.userSettings == if resp == Success then Some(settings) else old(db.userSettings)
  {
    var verdict := ValidateSettings(settings, hasKV, domains);
    if verdict.Rejected? {
      return Failure(verdict.error);
    }
    db.WriteUserSettings(settings);
    resp := Success;
  }

  /** The sender has a domain exactly when it contains an "@". */
  lemma MailDomainAbsent(sender: string)
    ensures MailDomain(sender) == None <==> '@' !in sender
  {
    SplitCount(sender, '@');
    assert '@' in sender <==> '@' in multiset(sender);
  }

  /** The domain of `local@domain...` is `domain`. */
  lemma MailDomainOf(local: string, domain: string, rest: string)
    requires '@' !in local && '@' !in domain
    requires rest == [] || rest[0] == '@'
    ensures MailDomain(local + ['@'] + domain + rest) == Some(domain)
  {
    assert local + ['@'] + domain + rest == local + ['@'] + (domain + rest);
    SplitAfterPrefix(local, '@', domain + rest);
    SplitFirstPart(domain, '@', rest);
  }

  /** Conversely, a domain found in a sender sits right after its first "@". */
  lemma MailDomainFound(sender: string, domain: string)
    requires MailDomain(sender) == Some(domain)
    ensures exists local, rest :: SenderShape(sender, local, domain, rest)
  {
    var parts := Split(sender, '@');
    JoinSplit(sender, '@');
    SplitPartsFree(sender, '@');
    var tail := parts[1..];
    var rest := if |tail| > 1 then ['@'] + Join(tail[1..], '@') else [];
    assert Join(tail, '@') == domain + rest;
    assert sender == parts[0] + ['@'] + domain + rest;
    assert SenderShape(sender, parts[0], domain, rest);
  }

  /** Whatever the other fields, mail verification without KV is refused with 403. */
  lemma VerifyWithoutKvForbidden(s: UserSettings, domains: seq<string>)
    requires s.enableMailVerify
    ensures ValidateSettings(s, false, domains) == Rejected(KvRequired)
    ensures StatusOf(ValidateSettings(s, false, domains).error) == 403
  {
  }

  /** A negative address limit is refused with 400 even when mail
      verification is off. */
  lemma NegativeLimitRejected(s: UserSettings, hasKV: bool, domains: seq<string>)
    requires s.maxAddressCount < 0
    ensures ValidateSettings(s, hasKV, domains).Rejected?
    ensures !s.enableMailVerify ==> ValidateSettings(s, hasKV, domains) == Rejected(InvalidMaxAddressCount)
    ensures !s.enableMailVerify ==> StatusOf(ValidateSettings(s, hasKV, domains).error) == 400
  {
  }

  /** A sender without "@" fails the domain check, whatever the domains. */
  lemma SenderWithoutAtRejected(s: UserSettings, domains: seq<string>)
    requires s.enableMailVerify && s.verifyMailSender != "" && '@' !in s.verifyMailSender
    ensures ValidateSettings(s, true, domains) == Rejected(SenderDomainNotAllowed(s.verifyMailSender, domains))
  {
    MailDomainAbsent(s.verifyMailSender);
  }

  /** With KV present, a sender `local@domain` whose domain is configured
      passes the mail checks, so only the address limit can still refuse. */
  lemma ConfiguredSenderAccepted(s: UserSettings, domains: seq<string>, local: string, domain: string)
    requires s.enableMailVerify && s.maxAddressCount >= 0
    requires '@' !in local && '@' !in domain && domain in domains
    requires s.verifyMailSender == local + ['@'] + domain
    ensures ValidateSettings(s, true, domains) == Accepted
  {
    MailDomainOf(local, domain, []);
    assert local + ['@'] + domain + [] == local + ['@'] + domain;
  }

  // ---------------------------------------------------------------------
  // createUser

  /** The catch block of `createUser`: a message containing "UNIQUE" means
      the email is already registered; anything else is a server error. */
  function ClassifyRegisterError(message: string): (e: Error)
    ensures e == UserAlreadyExists <==> Contains(message, "UNIQUE")
    ensures !Contains(message, "UNIQUE") ==> e == RegisterFailed(Some(message))
    ensures StatusOf(e) == if Contains(message, "UNIQUE") then 400 else 500
  {
    if message != "" && Contains(message, "UNIQUE") then UserAlreadyExists
    else RegisterFailed(Some(message))
  }

  /** The store's duplicate-email error is reported as "User already exists". */
  lemma UniqueViolationIsDuplicate()
    ensures ClassifyRegisterError(UniqueViolation) == UserAlreadyExists
    ensures StatusOf(ClassifyRegisterError(UniqueViolation)) == 400
  {
    ContainsPrefix(UniqueViolation, "UNIQUE");
  }

  /** `createUser`. */
  method CreateUser(db: Database, email: string, password: string, policy: Option<string>, fault: Fault)
    returns (resp: Response)
    requires db.Valid()
    modifies db`users, db`nextId
    ensures db.Valid()
    ensures email == "" || password == "" ==> resp == Failure(InvalidEmailOrPassword)
    ensures email != "" && password != "" && policy.Some? ==>
              resp == Failure(ClassifyRegisterError(policy.value))
    ensures email != "" && password != "" && policy == None ==>
              resp == match fault
                      case NoFault =>
                        if EmailTaken(old(db.users), email) then Failure(UserAlreadyExists) else Success
                      case ReportsFailure => Failure(RegisterFailed(None))
                      case Raises(m) => Failure(ClassifyRegisterError(m))
    ensures resp == Success ==>
              && !EmailTaken(old(db.users), email) && EmailTaken(db.users, email)
              && db.users == old(db.users)[old(db.nextId) := User(email, password)]
    ensures resp != Success ==> db.users == old(db.users) && db.nextId == old(db.nextId)
  {
    if email == "" || password == "" {
      return Failure(InvalidEmailOrPassword);
    }
    if policy.Some? {
      return Failure(ClassifyRegisterError(policy.value));
    }
    var r := db.InsertUser(email, password, fault);
    match r
    case Finished(success) =>
      resp := if success then Success else Failure(RegisterFailed(None));
      if success {
        assert db.users[old(db.nextId)].email == email;
      }
    case Threw(m) =>
      UniqueViolationIsDuplicate();
      resp := Failure(ClassifyRegisterError(m));
  }

  /** Registering the same email twice: success, then 400 "User already exists". */
  method RegisterTwice(db: Database, email: string, password: string)
    returns (first: Response, second: Response)
    requires db.Valid() && !EmailTaken(db.users, email)
    requires email != "" && password != ""
    modifies db`users, db`nextId
    ensures first == Success
    ensures second == Failure(UserAlreadyExists) && Status(second) == 400
  {
    first := CreateUser(db, email, password, None, NoFault);
    second := CreateUser(db, email, password, None, NoFault);
  }

  // ---------------------------------------------------------------------
  // deleteUser

  /** `deleteUser`: two independent deletes, the user row and then its
      address bindings. A reported failure of either gives 500 while the
      other's effect stands; a thrown error leaves the handler at once. */
  method DeleteUser(db: Database, userId: Option<UserId>, userFault: Fault, bindingFault: Fault)
    returns (resp: Response)
    requires db.Valid()
    modifies db`users, db`bindings
    ensures db.Valid()
    ensures userId == None ==>
              resp == Failure(InvalidUserId) && db.users == old(db.users) && db.bindings == old(db.bindings)
    ensures userId.Some? ==>
              && db.users == (if userFault == NoFault then old(db.users) - {userId.value} else old(db.users))
              && db.bindings == (if !userFault.Raises? && bindingFault == NoFault
                                 then BindingsWithout(old(db.bindings), userId.value)
                                 else old(db.bindings))
              && resp == (if userFault.Raises? then Failure(Uncaught(userFault.message))
                          else if bindingFault.Raises? then Failure(Uncaught(bindingFault.message))
                          else if userFault == NoFault && bindingFault == NoFault then Success
                          else Failure(DeleteFailed))
    ensures resp == Success ==>
              && userId.Some? && userId.value !in db.users
              && forall b :: b in db.bindings ==> b.userId != userId.value
  {
    if userId == None {
      return Failure(InvalidUserId);
    }
    var id := userId.value;
    var r1 := db.DeleteUserRow(id, userFault);
    if r1.Threw? {
      return Failure(Uncaught(r1.message));
    }
    var r2 := db.DeleteBindings(id, bindingFault);
    if r2.Threw? {
      return Failure(Uncaught(r2.message));
    }
    if !r1.success || !r2.success {
      return Failure(DeleteFailed);
    }
    resp := Success;
  }

  // ---------------------------------------------------------------------
  // resetPassword

  /** `resetPassword`: the id check, then the password policy, then the
      update; a policy rejection or a store failure gives 500 and changes
      nothing. */
  method ResetPassword(db: Database, userId: Option<UserId>, password: string, policy: Option<string>, fault: Fault)
    returns (resp: Response)
    requires db.Valid()
    modifies db`users
    ensures db.Valid()
    ensures userId == None ==> resp == Failure(InvalidUserId)
    ensures userId.Some? && policy.Some? ==> resp == Failure(ResetPasswordFailed(policy))
    ensures userId.Some? && policy == None ==>
              resp == match fault
                      case NoFault => Success
                      case ReportsFailure => Failure(ResetPasswordFailed(None))
                      case Raises(m) => Failure(ResetPasswordFailed(Some(m)))
    ensures db.users == if resp == Success && userId.Some? then WithPassword(old(db.users), userId.value, password)
                        else old(db.users)
    ensures db.users.Keys == old(db.users).Keys
    ensures forall u :: u in db.users ==> db.users[u].email == old(db.users)[u].email
    ensures resp == Success && userId.Some? && userId.value in db.users ==>
              db.users[userId.value].password == password
  {
    if userId == None {
      return Failure(InvalidUserId);
    }
    if policy.Some? {
      return Failure(ResetPasswordFailed(policy));
    }
    var r := db.UpdatePassword(userId.value, password, fault);
    match r
    case Finished(success) =>
      resp := if success then Success else Failure(ResetPasswordFailed(None));
    case Threw(m) =>
      resp := Failure(ResetPasswordFailed(Some(m)));
  }

  // ---------------------------------------------------------------------
  // updateUserRoles

  /** The role table once the store has applied the request: an empty role
      clears the user's entry, any other role is upserted. */
  function RolesAfter(roles: map<UserId, string>, id: UserId, roleText: string): (r: map<UserId, string>)
    ensures roleText == "" ==> id !in r
    ensures roleText != "" ==> id in r && r[id] == roleText
    ensures forall u :: u != id ==> (u in r <==> u in roles) && (u in r ==> r[u] == roles[u])
  {
    if roleText == "" then roles - {id} else roles[id := roleText]
  }

  /** Every role in the table is one of the valid roles. */
  ghost predicate RolesDrawnFrom(roles: map<UserId, string>, validRoles: seq<string>)
  {
    forall u :: u in roles ==> roles[u] in validRoles
  }

  /** Applying the same request twice gives the table of applying it once. */
  lemma RolesAfterIdempotent(roles: map<UserId, string>, id: UserId, roleText: string)
    ensures RolesAfter(RolesAfter(roles, id, roleText), id, roleText) == RolesAfter(roles, id, roleText)
  {
  }

  /** `updateUserRoles`. */
  method UpdateUserRoles(db: Database, userId: Option<UserId>, roleText: string, validRoles: seq<string>, fault: Fault)
    returns (resp: Response)
    modifies db`roles
    ensures userId == None ==> resp == Failure(InvalidUserId)
    ensures userId.Some? && roleText != "" && roleText !in validRoles ==> resp == Failure(InvalidRoleText)
    ensures userId.Some? && (roleText == "" || roleText in validRoles) ==>
              resp == match fault
                      case NoFault => Success
                      case ReportsFailure => Failure(UpdateRolesFailed)
                      case Raises(m) => Failure(Uncaught(m))
    ensures db.roles == if resp == Success && userId.Some? then RolesAfter(old(db.roles), userId.value, roleText)
                        else old(db.roles)
    ensures RolesDrawnFrom(old(db.roles), validRoles) ==> RolesDrawnFrom(db.roles, validRoles)
  {
    if userId == None {
      return Failure(InvalidUserId);
    }
    var id := userId.value;
    var r;
    if roleText == "" {
      r := db.DeleteRole(id, fault);
    } else {
      if roleText !in validRoles {
        return Failure(InvalidRoleText);
      }
      r := db.UpsertRole(id, roleText, fault);
    }
    match r
    case Finished(success) =>
      resp := if success then Success else Failure(UpdateRolesFailed);
    case Threw(m) =>
      resp := Failure(Uncaught(m));
  }

  /** Setting the same valid role twice leaves the table as setting it once. */
  method AssignRoleTwice(db: Database, id: UserId, role: string, validRoles: seq<string>)
    returns (first: Response, second: Response)
    requires role != "" && role in validRoles
    modifies db`roles
    ensures first == Success && second == Success
    ensures db.roles == old(db.roles)[id := role]
  {
    first := UpdateUserRoles(db, Some(id), role, validRoles, NoFault);
    second := UpdateUserRoles(db, Some(id), role, validRoles, NoFault);
    RolesAfterIdempotent(old(db.roles), id, role);
  }
}
