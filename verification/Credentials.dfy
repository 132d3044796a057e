/** The user service's table of accounts, with handlers that look a row up in one database statement and
    change it in a later one, and the simple map from email to password it has to agree with. */
module Credentials {
  import opened Basics

  /** A salted hash, ideal in that comparing succeeds for the hashed password alone. */
  datatype Hash = Hash(salt: nat, of: string)

  predicate Compare(password: string, hash: Hash) {
    hash.of == password
  }

  /** A field of a request body. */
  datatype Field = Missing | Null | Text(s: string)

  datatype User = User(name: string, email: string, password: Hash, role: string)

  type Users = map<int, User>

  const ROLES := {"admin", "user", "moderator"}
  const DEFAULT_ROLE := "user"
  const RESET_PASSWORD := "1234"

  /** What a name or an email column holds. */
  const STRING_LIMIT := 255

  /** The row a registration asks for, or None when the model refuses it or the password cannot be
      hashed. */
  function NewUser(name: Field, email: Field, password: Field, role: Field, salt: nat): (user: Option<User>)
    ensures user.Some? <==> name.Text? && email.Text? && password.Text?
                            && (role.Missing? || (role.Text? && role.s in {"admin", "user", "moderator"}))
    ensures user.Some? ==>
              && name == Text(user.value.name) && email == Text(user.value.email)
              && user.value.password == Hash(salt, password.s)
              && user.value.role == (if role.Missing? then "user" else role.s)
  {
    if !name.Text? || !email.Text? || !password.Text? then None
    else match role
      case Missing => Some(User(name.s, email.s, Hash(salt, password.s), DEFAULT_ROLE))
      case Null => None
      case Text(r) => if r in ROLES then Some(User(name.s, email.s, Hash(salt, password.s), r)) else None
  }

  /** A profile update; a missing field stays, a null, an unknown role or too long a name is refused. */
  function Patched(user: User, name: Field, role: Field): (patched: Option<User>)
    ensures patched.Some? ==> patched.value.email == user.email && patched.value.password == user.password
    ensures patched.Some? ==>
              && (if name.Missing? then patched.value.name == user.name else name == Text(patched.value.name))
              && (if role.Missing? then patched.value.role == user.role else role == Text(patched.value.role))
    ensures patched.Some? <==> !name.Null? && (name.Text? ==> |name.s| <= 255)
                               && (role.Missing? || (role.Text? && role.s in {"admin", "user", "moderator"}))
  {
    if name.Null? || role.Null? || (role.Text? && role.s !in ROLES) then None
    else if name.Text? && |name.s| > STRING_LIMIT then None
    else Some(user.(name := if name.Text? then name.s else user.name, role := if role.Text? then role.s else user.role))
  }

  predicate Fits(user: User) {
    |user.name| <= STRING_LIMIT && |user.email| <= STRING_LIMIT
  }

  predicate EmailTaken(users: Users, email: string) {
    exists id :: id in users && users[id].email == email
  }

  // ---- Statements: what one round trip to the database does -------------------------------------------

  datatype Statement =
    | InsertUser(user: User)
    | SetProfile(id: int, name: Field, role: Field)
    | SetPassword(id: int, password: Hash)
    | DeleteUser(id: int)

  datatype Table = Table(users: Users, nextId: int)

  predicate Accepted(t: Table, st: Statement) {
    match st
    case InsertUser(user) => !EmailTaken(t.users, user.email) && Fits(user)
    case SetProfile(id, name, role) => id in t.users ==> Patched(t.users[id], name, role).Some?
    case _ => true
  }

  /** A refused statement changes no row, though a refused insert uses up an id; an update or delete
      whose row is gone does nothing. */
  function Execute(t: Table, st: Statement): Table {
    match st
    case InsertUser(user) =>
      if Accepted(t, st) then Table(t.users[t.nextId := user], t.nextId + 1) else t.(nextId := t.nextId + 1)
    case SetProfile(id, name, role) =>
      if id in t.users && Accepted(t, st) then t.(users := t.users[id := Patched(t.users[id], name, role).value]) else t
    case SetPassword(id, password) =>
      if id in t.users then t.(users := t.users[id := t.users[id].(password := password)]) else t
    case DeleteUser(id) => t.(users := t.users - {id})
  }

  ghost predicate Valid(t: Table) {
    && (forall id :: id in t.users ==> id < t.nextId)
    && (forall a, b :: a in t.users && b in t.users && t.users[a].email == t.users[b].email ==> a == b)
  }

  // ---- The map the table stands for -------------------------------------------------------------------

  type Accounts = map<string, string>

  /** The table holds exactly these accounts, each with a hash of its password. */
  ghost predicate Represents(t: Table, accounts: Accounts) {
    && (forall id :: id in t.users ==>
          t.users[id].email in accounts && accounts[t.users[id].email] == t.users[id].password.of)
    && (forall email :: email in accounts ==> EmailTaken(t.users, email))
  }

  /** `verifyCredentials`: look the email up, compare the password. */
  predicate Verifies(t: Table, email: string, password: string) {
    exists id :: id in t.users && t.users[id].email == email && Compare(password, t.users[id].password)
  }

  lemma VerifiesIsLookup(t: Table, accounts: Accounts, email: string, password: string)
    requires Represents(t, accounts)
    ensures Verifies(t, email, password) <==> email in accounts && accounts[email] == password
  {
  }

  /** What happened to an account, by email. */
  datatype Effect =
    | Registered(email: string, password: string)
    | PasswordSet(email: string, password: string)
    | Removed(email: string)

  function EffectsOf(t: Table, st: Statement): seq<Effect> {
    match st
    case InsertUser(user) => if Accepted(t, st) then [Registered(user.email, user.password.of)] else []
    case SetPassword(id, password) => if id in t.users then [PasswordSet(t.users[id].email, password.of)] else []
    case DeleteUser(id) => if id in t.users then [Removed(t.users[id].email)] else []
    case SetProfile(_, _, _) => []
  }

  /** The password last set for an email, if its account exists. */
  function LastSet(effects: seq<Effect>, email: string): Option<string>
    decreases |effects|
  {
    if effects == [] then None
    else
      var last := effects[|effects| - 1];
      if last.email != email then LastSet(effects[..|effects| - 1], email)
      else if last.Removed? then None
      else Some(last.password)
  }

  lemma ExecuteKeepsValid(t: Table, st: Statement)
    requires Valid(t)
    ensures Valid(Execute(t, st))
  {
  }

  function Affect(accounts: Accounts, effect: Effect): Accounts {
    if effect.Removed? then accounts - {effect.email} else accounts[effect.email := effect.password]
  }

  function AfterEffects(accounts: Accounts, effects: seq<Effect>): Accounts
    decreases |effects|
  {
    if effects == [] then accounts
    else Affect(AfterEffects(accounts, effects[..|effects| - 1]), effects[|effects| - 1])
  }

  lemma InsertAccounts(t: Table, user: User, accounts: Accounts)
    requires Represents(t, accounts)
    requires t.nextId !in t.users && !EmailTaken(t.users, user.email)
    ensures Represents(Table(t.users[t.nextId := user], t.nextId + 1), accounts[user.email := user.password.of])
  {
    var users := t.users[t.nextId := user];
    assert users[t.nextId] == user;
    forall email | email in accounts || email == user.email ensures EmailTaken(users, email) {
      if email != user.email {
        assert EmailTaken(t.users, email);
        var id :| id in t.users && t.users[id].email == email;
        assert users[id] == t.users[id];
      }
    }
  }

  /** A change to one row that keeps its email. */
  lemma UpdateAccounts(t: Table, id: int, user: User, accounts: Accounts)
    requires Valid(t) && Represents(t, accounts) && id in t.users && user.email == t.users[id].email
    ensures Represents(t.(users := t.users[id := user]), accounts[user.email := user.password.of])
  {
    var users := t.users[id := user];
    assert users[id].email == user.email;
    forall email | email in accounts || email == user.email ensures EmailTaken(users, email) {
      if email != user.email {
        assert EmailTaken(t.users, email);
        var k :| k in t.users && t.users[k].email == email;
        assert users[k] == t.users[k];
      }
    }
  }

  lemma ProfileAccounts(t: Table, id: int, name: Field, role: Field, accounts: Accounts)
    requires Valid(t) && Represents(t, accounts) && id in t.users && Patched(t.users[id], name, role).Some?
    ensures Represents(t.(users := t.users[id := Patched(t.users[id], name, role).value]), accounts)
  {
    var user := Patched(t.users[id], name, role).value;
    UpdateAccounts(t, id, user, accounts);
    assert accounts[user.email := user.password.of] == accounts;
  }

  lemma ProfileValid(t: Table, id: int, user: User)
    requires Valid(t) && id in t.users && user.email == t.users[id].email
    ensures Valid(t.(users := t.users[id := user]))
  {
  }

  lemma DeleteAccounts(t: Table, id: int, accounts: Accounts)
    requires Valid(t) && Represents(t, accounts) && id in t.users
    ensures Represents(t.(users := t.users - {id}), accounts - {t.users[id].email})
  {
    var users := t.users - {id};
    forall email | email in accounts && email != t.users[id].email ensures EmailTaken(users, email) {
      assert EmailTaken(t.users, email);
      var k :| k in t.users && t.users[k].email == email;
      assert users[k] == t.users[k];
    }
  }

  lemma NoEffect(accounts: Accounts)
    ensures AfterEffects(accounts, []) == accounts
  {
  }

  lemma OneEffect(accounts: Accounts, effect: Effect)
    ensures AfterEffects(accounts, [effect]) == Affect(accounts, effect)
  {
  }

  /** One statement changes the map by its effect alone: a profile update leaves it as it was, and so
      does an update or delete aimed at an account that is gone. */
  lemma ExecuteAccounts(t: Table, st: Statement, accounts: Accounts)
    requires Valid(t) && Represents(t, accounts)
    ensures Represents(Execute(t, st), AfterEffects(accounts, EffectsOf(t, st)))
  {
    NoEffect(accounts);
    match st
    case InsertUser(user) =>
      if Accepted(t, st) {
        InsertAccounts(t, user, accounts);
        OneEffect(accounts, Registered(user.email, user.password.of));
      } else {
        assert Execute(t, st).users == t.users;
      }
    case SetProfile(id, name, role) =>
      if id in t.users && Accepted(t, st) {
        ProfileAccounts(t, id, name, role, accounts);
      }
    case SetPassword(id, password) =>
      if id in t.users {
        UpdateAccounts(t, id, t.users[id].(password := password), accounts);
        OneEffect(accounts, PasswordSet(t.users[id].email, password.of));
      }
    case DeleteUser(id) =>
      if id in t.users {
        DeleteAccounts(t, id, accounts);
        OneEffect(accounts, Removed(t.users[id].email));
      } else {
        assert t.users - {id} == t.users;
      }
  }

  // ---- Requests in flight ----------------------------------------------------------------------------

  datatype Request =
    | Register(name: Field, email: Field, password: Field, role: Field)
    | UpdateProfile(id: int, name: Field, role: Field)
    | ChangePassword(id: int, password: Field, newPassword: Field, repeated: Field)
    | ResetPassword(id: int)
    | Delete(id: int)

  datatype Reply = Fine | BadRequest | NotFound

  datatype Prepared = Answer(reply: Reply) | Ready(st: Statement)

  /** A field equal to what the row already holds is not written. */
  function Changed(field: Field, current: string): Field {
    if field == Text(current) then Missing else field
  }

  /** A profile update of a row that nobody changes meanwhile. */
  function Updated(user: User, name: Field, role: Field): Option<User> {
    Patched(user, Changed(name, user.name), Changed(role, user.role))
  }

  /** A handler up to its statement: the row is read and the checks are made on it. */
  function Prepare(t: Table, r: Request, salt: nat): Prepared {
    match r
    case Register(name, email, password, role) =>
      var user := NewUser(name, email, password, role, salt);
      if user.None? then Answer(BadRequest) else Ready(InsertUser(user.value))
    case UpdateProfile(id, name, role) =>
      if id !in t.users then Answer(NotFound)
      else Ready(SetProfile(id, Changed(name, t.users[id].name), Changed(role, t.users[id].role)))
    case ChangePassword(id, password, newPassword, repeated) =>
      if id !in t.users then Answer(NotFound)
      else if newPassword != repeated || !password.Text? || !Compare(password.s, t.users[id].password)
              || !newPassword.Text?
      then Answer(BadRequest)
      else Ready(SetPassword(id, Hash(salt, newPassword.s)))
    case ResetPassword(id) =>
      if id !in t.users then Answer(NotFound) else Ready(SetPassword(id, Hash(salt, RESET_PASSWORD)))
    case Delete(id) =>
      if id !in t.users then Answer(NotFound) else Ready(DeleteUser(id))
  }

  /** A request served with nothing in between its lookup and its statement. */
  function Served(t: Table, r: Request, salt: nat): (Table, Reply) {
    var prepared := Prepare(t, r, salt);
    if prepared.Answer? then (t, prepared.reply)
    else (Execute(t, prepared.st), if Accepted(t, prepared.st) then Fine else BadRequest)
  }

  /** Requests at work: the statements they have prepared and not sent yet, and the effects so far. */
  datatype World = World(table: Table, waiting: multiset<Statement>, effects: seq<Effect>)

  datatype Step = Arrive(r: Request, salt: nat) | Send(st: Statement)

  predicate Enabled(w: World, step: Step) {
    step.Send? ==> step.st in w.waiting
  }

  function Apply(w: World, step: Step): World
    requires Enabled(w, step)
  {
    match step
    case Arrive(r, salt) =>
      var prepared := Prepare(w.table, r, salt);
      if prepared.Answer? then w else w.(waiting := w.waiting + multiset{prepared.st})
    case Send(st) =>
      World(Execute(w.table, st), w.waiting - multiset{st}, w.effects + EffectsOf(w.table, st))
  }

  ghost predicate Run(w: World, steps: seq<Step>)
    decreases |steps|
  {
    steps == [] || (Enabled(w, steps[0]) && Run(Apply(w, steps[0]), steps[1..]))
  }

  ghost function Final(w: World, steps: seq<Step>): World
    requires Run(w, steps)
    decreases |steps|
  {
    if steps == [] then w else Final(Apply(w, steps[0]), steps[1..])
  }

  const EMPTY := World(Table(map[], 1), multiset{}, [])

  /** The account a waiting statement is aimed at existed when it was prepared. */
  ghost predicate AimedAtOld(w: World) {
    forall st :: st in w.waiting && !st.InsertUser? ==> st.id < w.table.nextId
  }

  function Lookup(accounts: Accounts, email: string): Option<string> {
    if email in accounts then Some(accounts[email]) else None
  }

  ghost predicate Agrees(w: World) {
    && Valid(w.table) && AimedAtOld(w)
    && Represents(w.table, AfterEffects(map[], w.effects))
  }

  lemma {:induction false} LastSetIsLookup(effects: seq<Effect>, email: string)
    ensures LastSet(effects, email) == Lookup(AfterEffects(map[], effects), email)
    decreases |effects|
  {
    if effects != [] {
      LastSetIsLookup(effects[..|effects| - 1], email);
    }
  }

  lemma {:induction false} EffectsAppend(accounts: Accounts, before: seq<Effect>, more: seq<Effect>)
    requires |more| <= 1
    ensures AfterEffects(accounts, before + more) == AfterEffects(AfterEffects(accounts, before), more)
  {
    if more == [] {
      assert before + more == before;
      NoEffect(AfterEffects(accounts, before));
    } else {
      assert more == [more[0]] && (before + more)[..|before|] == before;
      OneEffect(AfterEffects(accounts, before), more[0]);
    }
  }

  lemma AgreesStep(w: World, step: Step)
    requires Agrees(w) && Enabled(w, step)
    ensures Agrees(Apply(w, step))
  {
    match step
    case Arrive(r, salt) =>
      AimedStep(w, r, salt);
    case Send(st) =>
      ExecuteKeepsValid(w.table, st);
      ExecuteAccounts(w.table, st, AfterEffects(map[], w.effects));
      EffectsAppend(map[], w.effects, EffectsOf(w.table, st));
      assert Execute(w.table, st).nextId >= w.table.nextId;
      assert forall other :: other in w.waiting - multiset{st} ==> other in w.waiting;
  }

  lemma AimedStep(w: World, r: Request, salt: nat)
    requires Valid(w.table) && AimedAtOld(w)
    ensures AimedAtOld(Apply(w, Arrive(r, salt)))
  {
  }

  lemma {:induction false} AgreesAlways(w: World, steps: seq<Step>)
    requires Agrees(w) && Run(w, steps)
    ensures Agrees(Final(w, steps))
    decreases |steps|
  {
    if steps != [] {
      AgreesStep(w, steps[0]);
      AgreesAlways(Apply(w, steps[0]), steps[1..]);
    }
  }

  /** Over any interleaving of registrations, profile updates, password changes, resets and deletions,
      a login succeeds exactly when the account exists and the password is the last one set for it. */
  lemma VerifiesLastPassword(steps: seq<Step>, email: string, password: string)
    requires Run(EMPTY, steps)
    ensures Verifies(Final(EMPTY, steps).table, email, password)
       <==> LastSet(Final(EMPTY, steps).effects, email) == Some(password)
  {
    NoEffect(map[]);
    assert EMPTY.table.users == map[];
    assert Agrees(EMPTY);
    AgreesAlways(EMPTY, steps);
    LastSetIsLookup(Final(EMPTY, steps).effects, email);
    VerifiesIsLookup(Final(EMPTY, steps).table, AfterEffects(map[], Final(EMPTY, steps).effects), email, password);
  }

  lemma {:induction false} GoneStaysGone(w: World, steps: seq<Step>, st: Statement)
    requires Valid(w.table) && Run(w, steps)
    requires !st.InsertUser? && st.id < w.table.nextId && st.id !in w.table.users
    ensures Execute(Final(w, steps).table, st).users == Final(w, steps).table.users
    ensures EffectsOf(Final(w, steps).table, st) == []
    decreases |steps|
  {
    if steps == [] {
      assert w.table.users - {st.id} == w.table.users;
    } else {
      if steps[0].Send? {
        ExecuteKeepsValid(w.table, steps[0].st);
      }
      GoneStaysGone(Apply(w, steps[0]), steps[1..], st);
    }
  }

  /** Ids are never used twice, so a waiting statement whose account has been deleted changes nothing,
      however late it is sent and however many accounts, even of the same email, are registered in
      between. */
  lemma LateStatementHarmless(before: seq<Step>, after: seq<Step>, st: Statement)
    requires Run(EMPTY, before) && Run(Final(EMPTY, before), after)
    requires st in Final(EMPTY, before).waiting && !st.InsertUser? && st.id !in Final(EMPTY, before).table.users
    ensures var t := Final(Final(EMPTY, before), after).table;
            Execute(t, st).users == t.users && EffectsOf(t, st) == []
  {
    NoEffect(map[]);
    assert EMPTY.table.users == map[] && Agrees(EMPTY);
    AgreesAlways(EMPTY, before);
    GoneStaysGone(Final(EMPTY, before), after, st);
  }

  /** The steps of one request with nothing in between give what the handler gives. */
  lemma ServedAlone(w: World, r: Request, salt: nat)
    ensures var prepared := Prepare(w.table, r, salt);
            var steps := [Arrive(r, salt)] + if prepared.Ready? then [Send(prepared.st)] else [];
            && Run(w, steps)
            && Final(w, steps).table == Served(w.table, r, salt).0
            && Final(w, steps).waiting == w.waiting
  {
    var a := Apply(w, Arrive(r, salt));
    var prepared := Prepare(w.table, r, salt);
    if prepared.Ready? {
      var send := Send(prepared.st);
      var b := Apply(a, send);
      assert b.waiting == w.waiting;
      assert [send][1..] == [] && ([Arrive(r, salt)] + [send])[1..] == [send];
      assert Run(b, []) && Final(b, []) == b;
      assert Run(a, [send]) && Final(a, [send]) == b;
    } else {
      assert [Arrive(r, salt)] + [] == [Arrive(r, salt)] && [Arrive(r, salt)][1..] == [];
      assert Run(a, []) && Final(a, []) == a;
    }
  }

  // ---- The code, one request at a time ---------------------------------------------------------------

  class UserService {
    var users: Users
    var nextId: int
    ghost var accounts: Accounts   // the map the table stands for

    ghost function State(): Table
      reads this
    {
      Table(users, nextId)
    }

    ghost predicate Consistent()
      reads this
    {
      Valid(State()) && Represents(State(), accounts)
    }

    constructor ()
      ensures Consistent() && users == map[] && accounts == map[]
    {
      users, nextId, accounts := map[], 1, map[];
    }

    /** `User.findOne` by email. */
    method FindByEmail(email: string) returns (id: Option<int>)
      requires Consistent()
      ensures id.Some? ==>
                && id.value in users && users[id.value].email == email
                && email in accounts && accounts[email] == users[id.value].password.of
      ensures id.None? ==> !EmailTaken(users, email) && email !in accounts
    {
      var left := users.Keys;
      while left != {}
        invariant left <= users.Keys
        invariant forall k :: k in users && k !in left ==> users[k].email != email
        decreases |left|
      {
        ghost var some := SomeMember(left);
        var k :| k in left;
        if users[k].email == email {
          return Some(k);
        }
        left := left - {k};
      }
      id := None;
    }

    method VerifyCredentials(email: string, password: string) returns (accepted: bool)
      requires Consistent()
      ensures accepted <==> email in accounts && accounts[email] == password
    {
      var id := FindByEmail(email);
      accepted := id.Some? && Compare(password, users[id.value].password);
    }

    method RegisterUser(name: Field, email: Field, password: Field, role: Field, salt: nat) returns (reply: Reply)
      requires Consistent()
      modifies this
      ensures Consistent() && (State(), reply) == Served(old(State()), Register(name, email, password, role), salt)
      ensures reply.Fine? <==> (name.Text? && email.Text? && password.Text? && email.s !in old(accounts)
                                && |name.s| <= 255 && |email.s| <= 255
                                && (role.Missing? || (role.Text? && role.s in {"admin", "user", "moderator"})))
      ensures reply.Fine? ==>
                && accounts == old(accounts)[email.s := password.s] && old(nextId) !in old(users)
                && users == old(users)[old(nextId) := User(name.s, email.s, Hash(salt, password.s),
                                                           if role.Missing? then "user" else role.s)]
      ensures !reply.Fine? ==> reply == BadRequest && users == old(users) && accounts == old(accounts)
    {
      var user := NewUser(name, email, password, role, salt);
      if user.None? {
        return BadRequest;
      }
      var taken := FindByEmail(user.value.email);
      if taken.Some? || !Fits(user.value) {
        nextId := nextId + 1;
        return BadRequest;
      }
      InsertAccounts(State(), user.value, accounts);
      users, nextId := users[nextId := user.value], nextId + 1;
      accounts := accounts[email.s := password.s];
      reply := Fine;
    }

    /** `updateMine` and `updateById`. */
    method UpdateProfile(id: int, name: Field, role: Field) returns (reply: Reply)
      requires Consistent()
      modifies `users
      ensures Consistent() && (State(), reply) == Served(old(State()), Request.UpdateProfile(id, name, role), 0)
      ensures reply.NotFound? <==> id !in old(users)
      ensures reply.Fine? <==>
                && id in old(users) && !name.Null? && !role.Null?
                && (name.Text? ==> name.s == old(users)[id].name || |name.s| <= 255)
                && (role.Text? ==> role.s == old(users)[id].role || role.s in {"admin", "user", "moderator"})
      ensures reply.Fine? ==>
                && var was := old(users)[id];
                && users == old(users)[id := User(if name.Text? then name.s else was.name, was.email, was.password,
                                                  if role.Text? then role.s else was.role)]
      ensures !reply.Fine? ==> users == old(users)
    {
      if id !in users {
        return NotFound;
      }
      var patched := Updated(users[id], name, role);
      if patched.None? {
        return BadRequest;
      }
      ProfileAccounts(State(), id, Changed(name, users[id].name), Changed(role, users[id].role), accounts);
      ProfileValid(State(), id, patched.value);
      users := users[id := patched.value];
      reply := Fine;
    }

    method PasswordChangeMine(id: int, password: Field, newPassword: Field, repeated: Field, salt: nat)
        returns (reply: Reply)
      requires Consistent()
      modifies `users, `accounts
      ensures Consistent()
      ensures (State(), reply) == Served(old(State()), ChangePassword(id, password, newPassword, repeated), salt)
      ensures reply.NotFound? <==> id !in old(users)
      ensures reply.Fine? <==> (id in old(users) && newPassword.Text? && newPassword == repeated
                                && password.Text? && password.s == old(accounts)[old(users)[id].email])
      ensures reply.Fine? ==>
                && accounts == old(accounts)[old(users)[id].email := newPassword.s]
                && users == old(users)[id := old(users)[id].(password := Hash(salt, newPassword.s))]
      ensures !reply.Fine? ==> users == old(users) && accounts == old(accounts)
    {
      if id !in users {
        return NotFound;
      }
      if newPassword != repeated || !password.Text? || !Compare(password.s, users[id].password) || !newPassword.Text? {
        return BadRequest;
      }
      UpdateAccounts(State(), id, users[id].(password := Hash(salt, newPassword.s)), accounts);
      accounts := accounts[users[id].email := newPassword.s];
      users := users[id := users[id].(password := Hash(salt, newPassword.s))];
      reply := Fine;
    }

    method PasswordReset(id: int, salt: nat) returns (reply: Reply)
      requires Consistent()
      modifies `users, `accounts
      ensures Consistent() && (State(), reply) == Served(old(State()), ResetPassword(id), salt)
      ensures reply == if id in old(users) then Fine else NotFound
      ensures reply.Fine? ==>
                && accounts == old(accounts)[old(users)[id].email := "1234"]
                && users == old(users)[id := old(users)[id].(password := Hash(salt, "1234"))]
      ensures !reply.Fine? ==> users == old(users) && accounts == old(accounts)
    {
      if id !in users {
        return NotFound;
      }
      UpdateAccounts(State(), id, users[id].(password := Hash(salt, RESET_PASSWORD)), accounts);
      accounts := accounts[users[id].email := RESET_PASSWORD];
      users := users[id := users[id].(password := Hash(salt, RESET_PASSWORD))];
      reply := Fine;
    }

    method DeleteUser(id: int) returns (reply: Reply)
      requires Consistent()
      modifies `users, `accounts
      ensures Consistent() && (State(), reply) == Served(old(State()), Delete(id), 0)
      ensures reply == if id in old(users) then Fine else NotFound
      ensures reply.Fine? ==> users == old(users) - {id} && accounts == old(accounts) - {old(users)[id].email}
      ensures !reply.Fine? ==> users == old(users) && accounts == old(accounts)
    {
      if id !in users {
        return NotFound;
      }
      DeleteAccounts(State(), id, accounts);
      accounts := accounts - {users[id].email};
      users := users - {id};
      reply := Fine;
    }
  }
}
