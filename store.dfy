/** The relational store behind the handlers, as abstract tables. Each
    statement either takes effect and reports success, or reports failure or
    throws and takes no effect; which one happens is chosen by the
    environment and passed in as a `Fault`. */
module Store {
  import opened Wrappers
  import opened Models

  type UserId = nat

  /** A row of `users_address`, binding a mail address to a user. */
  datatype Binding = Binding(userId: UserId, addressId: nat)

  /** What the environment makes a statement do. */
  datatype Fault = NoFault | ReportsFailure | Raises(message: string)

  /** What `.run()` gives back: `{ success }`, or a thrown error's message. */
  datatype RunResult = Finished(success: bool) | Threw(message: string)

  /** The message the store throws when an insert repeats a user's email. */
  const UniqueViolation := "UNIQUE constraint failed: users.user_email"

  /** The outcome of a statement that the store itself does not refuse. */
  function Reported(fault: Fault): (r: RunResult)
    ensures r == Finished(true) <==> fault == NoFault
    ensures r.Threw? <==> fault.Raises?
  {
    match fault
    case NoFault => Finished(true)
    case ReportsFailure => Finished(false)
    case Raises(m) => Threw(m)
  }

  predicate EmailTaken(users: map<UserId, User>, email: string)
  {
    exists id | id in users :: users[id].email == email
  }

  /** The uniqueness constraint on `users.user_email`. */
  ghost predicate UniqueEmails(users: map<UserId, User>)
  {
    forall a, b :: a in users && b in users && users[a].email == users[b].email ==> a == b
  }

  /** `users` with the password of `id` replaced, if that row exists
      (`UPDATE users SET password = ? WHERE id = ?`). */
  function WithPassword(users: map<UserId, User>, id: UserId, password: string): map<UserId, User>
  {
    if id in users then users[id := users[id].(password := password)] else users
  }

  /** `users_address` after `DELETE FROM users_address WHERE user_id = ?`. */
  function BindingsWithout(bindings: set<Binding>, id: UserId): set<Binding>
  {
    set b | b in bindings && b.userId != id
  }

  class Database {
    var users: map<UserId, User>         // users, by id
    var nextId: UserId                   // the next id the store assigns
    var roles: map<UserId, string>       // user_roles: at most one role per user
    var bindings: set<Binding>           // users_address
    var userSettings: Option<UserSettings>  // the settings row under the user-settings key

    ghost predicate Valid()
      reads this
    {
      UniqueEmails(users) && forall id :: id in users ==> id < nextId
    }

    constructor ()
      ensures Valid()
      ensures users == map[] && roles == map[] && bindings == {} && userSettings == None
    {
      users, nextId, roles, bindings, userSettings := map[], 1, map[], {}, None;
    }

    /** `INSERT INTO users (user_email, password, ...) VALUES (?, ?, ...)`. */
    method InsertUser(email: string, password: string, fault: Fault) returns (r: RunResult)
      requires Valid()
      modifies this`users, this`nextId
      ensures Valid()
      ensures r == if fault == NoFault && EmailTaken(old(users), email) then Threw(UniqueViolation)
                   else Reported(fault)
      ensures r == Finished(true) ==>
                users == old(users)[old(nextId) := User(email, password)] && nextId == old(nextId) + 1
      ensures r != Finished(true) ==> users == old(users) && nextId == old(nextId)
    {
      if fault == NoFault && EmailTaken(users, email) {
        r := Threw(UniqueViolation);
      } else {
        r := Reported(fault);
        if r == Finished(true) {
          users := users[nextId := User(email, password)];
          nextId := nextId + 1;
        }
      }
    }

    /** `DELETE FROM users WHERE id = ?`. */
    method DeleteUserRow(id: UserId, fault: Fault) returns (r: RunResult)
      requires Valid()
      modifies this`users
      ensures Valid()
      ensures r == Reported(fault)
      ensures users == if r == Finished(true) then old(users) - {id} else old(users)
    {
      r := Reported(fault);
      if r == Finished(true) {
        users := users - {id};
      }
    }

    /** `DELETE FROM users_address WHERE user_id = ?`. */
    method DeleteBindings(id: UserId, fault: Fault) returns (r: RunResult)
      modifies this`bindings
      ensures r == Reported(fault)
      ensures bindings == if r == Finished(true) then BindingsWithout(old(bindings), id) else old(bindings)
    {
      r := Reported(fault);
      if r == Finished(true) {
        bindings := BindingsWithout(bindings, id);
      }
    }

    /** `UPDATE users SET password = ? WHERE id = ?`. */
    method UpdatePassword(id: UserId, password: string, fault: Fault) returns (r: RunResult)
      requires Valid()
      modifies this`users
      ensures Valid()
      ensures r == Reported(fault)
      ensures users == if r == Finished(true) then WithPassword(old(users), id, password) else old(users)
    {
      r := Reported(fault);
      if r == Finished(true) {
        users := WithPassword(users, id, password);
      }
    }

    /** `DELETE FROM user_roles WHERE user_id = ?`. */
    method DeleteRole(id: UserId, fault: Fault) returns (r: RunResult)
      modifies this`roles
      ensures r == Reported(fault)
      ensures roles == if r == Finished(true) then old(roles) - {id} else old(roles)
    {
      r := Reported(fault);
      if r == Finished(true) {
        roles := roles - {id};
      }
    }

    /** `INSERT INTO user_roles ... ON CONFLICT(user_id) DO UPDATE SET role_text = ?`. */
    method UpsertRole(id: UserId, role: string, fault: Fault) returns (r: RunResult)
      modifies this`roles
      ensures r == Reported(fault)
      ensures roles == if r == Finished(true) then old(roles)[id := role] else old(roles)
    {
      r := Reported(fault);
      if r == Finished(true) {
        roles := roles[id := role];
      }
    }

    /** Overwrites the whole settings blob. */
    method WriteUserSettings(settings: UserSettings)
      modifies this`userSettings
      ensures userSettings == Some(settings)
    {
      userSettings := Some(settings);
    }
  }
}
