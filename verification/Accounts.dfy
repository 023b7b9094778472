/** Registration, login and authentication over runs of the store. */
module Accounts {
  import opened Model
  import opened Sets
  import opened TableLimits
  import opened Store
  import opened Interleaving
  import opened Runs

  predicate CheckPassword(password: string, hash: Hash) { hash == HashOf(password) }

  /** `LoginUser(username, password)` returns the user `u`. */
  predicate LogsInAs(db: Db, username: string, password: string, u: int) {
    && u in db.users
    && db.users[u].username == username
    && if db.users[u].passwordPlaintext != "" then password == db.users[u].passwordPlaintext
       else username == GLOBAL_USERNAME || CheckPassword(password, db.users[u].passwordHash)
  }

  /** From the moment of registration until the user is evicted, whatever else happens: the name
      and password log in as that user, no other password does, and the token is theirs alone. */
  lemma RegisteredUserLogsIn(limits: Limits, s: State, t: int, id: int, view: View, actions: seq<Action>,
                             username: string, password: string, token: string)
    requires Inv(limits, s) && username != GLOBAL_USERNAME
    requires t in s.pending && s.pending[t] == Registering(UserRow(username, token, HashOf(password), ""))
    requires var registered := Apply(limits, s, AddUser(t, id, view));
      id !in s.log.users && id in registered.log.users && id in Run(limits, registered, actions).db.users
    ensures var later := Run(limits, Apply(limits, s, AddUser(t, id, view)), actions).db;
      && (forall pw, u :: LogsInAs(later, username, pw, u) <==> u == id && pw == password)
      && (forall u :: AuthenticatesAs(later, token, u) <==> u == id)
  {
    var registered := Apply(limits, s, AddUser(t, id, view));
    var later := Run(limits, registered, actions);
    assert registered.log.users[id] == UserRow(username, token, HashOf(password), "");
    assert UniqueAccounts(later.db.users) && later.db.users[id] == registered.log.users[id] by {
      ApplyKeepsInv(limits, s, AddUser(t, id, view));
      RunKeepsInv(limits, registered, actions);
      RowsAreStable(limits, registered, actions);
    }
    OnlyOwnerLogsIn(later.db, id, username, password, token);
  }

  lemma OnlyOwnerLogsIn(db: Db, id: int, username: string, password: string, token: string)
    requires UniqueAccounts(db.users) && username != GLOBAL_USERNAME
    requires id in db.users && db.users[id] == UserRow(username, token, HashOf(password), "")
    ensures forall pw, u :: LogsInAs(db, username, pw, u) <==> u == id && pw == password
    ensures forall u :: AuthenticatesAs(db, token, u) <==> u == id
  {
  }

  /** The seeded accounts, for as long as they are there: the default user logs in with any password,
      the others with the password stored in plain text and no other, and each has its token. */
  lemma SeededUsersLogIn(limits: Limits, catalogue: Catalogue, now: int, actions: seq<Action>, pw: string, u: int)
    requires HoldsSeedItems(catalogue)
    ensures var db := Run(limits, Seed(catalogue, now), actions).db;
      && (1 in db.users ==> (LogsInAs(db, "default", pw, u) <==> u == 1))
      && (2 in db.users ==> (LogsInAs(db, "synthetics_multihttp_example", pw, u) <==>
                               u == 2 && pw == "synthetics_multihttp_example"))
      && (3 in db.users ==> (LogsInAs(db, "studio-user", pw, u) <==> u == 3 && pw == "k6studiorocks"))
      && (1 in db.users ==> (AuthenticatesAs(db, "abcdef0123456789", u) <==> u == 1))
      && (2 in db.users ==> (AuthenticatesAs(db, "woSyhhrE3pQVUxMU", u) <==> u == 2))
      && (3 in db.users ==> (AuthenticatesAs(db, "oBGOPc5tVtk9WAgf", u) <==> u == 3))
  {
    var seed := Seed(catalogue, now);
    var db := Run(limits, seed, actions).db;
    assert UniqueAccounts(db.users) &&
           (forall v :: v in SeedUsers() && v in db.users ==> db.users[v] == SeedUsers()[v]) by {
      ReachableInv(limits, catalogue, now, actions);
      SeedInv(limits, catalogue, now);
      RowsAreStable(limits, seed, actions);
    }
  }

  /** The users ever registered under a name. */
  function Registered(s: State, username: string): set<int> {
    set u | u in s.log.users && s.log.users[u].username == username
  }

  /** However many requests race to register a name, each having seen it free, at most one of
      them succeeds as long as the winner is not evicted; and none if somebody held the name throughout. */
  lemma AtMostOneRegistrationWins(limits: Limits, s: State, actions: seq<Action>, username: string)
    requires Inv(limits, s)
    requires Registered(Run(limits, s, actions), username) - s.log.users.Keys <= Run(limits, s, actions).db.users.Keys
    ensures var end := Run(limits, s, actions); var won := Registered(end, username) - s.log.users.Keys;
      && |won| <= 1
      && ((exists u :: u in s.log.users && u in end.db.users && end.db.users[u].username == username) ==>
            won == {})
  {
    var end := Run(limits, s, actions);
    var won := Registered(end, username) - s.log.users.Keys;
    RunKeepsInv(limits, s, actions);
    if won != {} {
      var w := Pick(won);
      assert w in end.db.users && end.db.users[w].username == username;
      forall u | u in won ensures u == w {
        assert u in end.db.users && end.db.users[u].username == username;
      }
      assert won <= {w};
      SubsetSize(won, {w});
    }
  }

  /** Step `k` of the run is the one that registered user `u`. */
  ghost predicate InsertedAt(limits: Limits, s: State, actions: seq<Action>, k: nat, u: int) {
    && k < |actions|
    && u !in At(limits, s, actions, k).log.users && u in At(limits, s, actions, k + 1).log.users
  }

  lemma {:induction false} InsertedSomewhere(limits: Limits, s: State, actions: seq<Action>, n: nat, u: int)
    returns (k: nat)
    requires n <= |actions| && u !in s.log.users && u in At(limits, s, actions, n).log.users
    ensures k < n && InsertedAt(limits, s, actions, k, u)
  {
    k := 0;
    AtStart(limits, s, actions);
    if n == 0 {
      assert false;
    } else if u in At(limits, s, actions, n - 1).log.users {
      k := InsertedSomewhere(limits, s, actions, n - 1, u);
    } else {
      k := n - 1;
    }
  }

  lemma LogGrows(limits: Limits, s: State, actions: seq<Action>, i: nat, j: nat)
    requires i <= j <= |actions|
    ensures LogExtends(At(limits, s, actions, i).log, At(limits, s, actions, j).log)
  {
    assert actions[..j] == actions[..i] + actions[i..j];
    RunConcat(limits, s, actions[..i], actions[i..j]);
    NeverRevived(limits, At(limits, s, actions, i), actions[i..j]);
  }

  /** Whoever is registered finds nobody live under that name, and is the only one the step adds. */
  lemma NameIsFreeAtInsert(limits: Limits, s: State, a: Action, v: int)
    requires v !in s.log.users && v in Apply(limits, s, a).log.users
    ensures forall u :: u in s.db.users ==> s.db.users[u].username != Apply(limits, s, a).log.users[v].username
    ensures forall u :: u in Apply(limits, s, a).log.users && u !in s.log.users ==> u == v
  {
  }

  lemma LoggedForGood(limits: Limits, s: State, actions: seq<Action>, i: nat, j: nat, u: int)
    requires i <= j <= |actions| && u in At(limits, s, actions, i).log.users
    ensures u in At(limits, s, actions, j).log.users
    ensures At(limits, s, actions, j).log.users[u] == At(limits, s, actions, i).log.users[u]
  {
    LogGrows(limits, s, actions, i, j);
  }

  lemma LiveAsLogged(limits: Limits, s: State, actions: seq<Action>, k: nat, u: int)
    requires Inv(limits, s) && k <= |actions| && u in At(limits, s, actions, k).db.users
    ensures u in At(limits, s, actions, k).log.users
    ensures At(limits, s, actions, k).db.users[u] == At(limits, s, actions, k).log.users[u]
  {
    RunKeepsInv(limits, s, actions[..k]);
  }

  lemma NobodyLiveAtInsert(limits: Limits, s: State, actions: seq<Action>, k: nat, u: int, v: int)
    requires InsertedAt(limits, s, actions, k, v) && u in At(limits, s, actions, k).db.users
    ensures At(limits, s, actions, k).db.users[u].username != At(limits, s, actions, k + 1).log.users[v].username
  {
    AtNext(limits, s, actions, k);
    NameIsFreeAtInsert(limits, At(limits, s, actions, k), actions[k], v);
  }

  lemma EarlierWinnerIsGone(limits: Limits, s: State, actions: seq<Action>, i: nat, j: nat, u: int, v: int)
    requires Inv(limits, s) && i < j
    requires InsertedAt(limits, s, actions, i, u) && InsertedAt(limits, s, actions, j, v)
    requires var log := Run(limits, s, actions).log.users;
      u in log && v in log && log[u].username == log[v].username
    ensures u in At(limits, s, actions, j).log.users && u !in At(limits, s, actions, j).db.users
  {
    assert actions[..|actions|] == actions;
    LoggedForGood(limits, s, actions, i + 1, j, u);
    LoggedForGood(limits, s, actions, j, |actions|, u);
    LoggedForGood(limits, s, actions, j + 1, |actions|, v);
    if u in At(limits, s, actions, j).db.users {
      LiveAsLogged(limits, s, actions, j, u);
      NobodyLiveAtInsert(limits, s, actions, j, u, v);
      assert false;
    }
  }

  /** However many requests race to register a name: of any two that succeed, the first had been
      evicted by the time the second was inserted. */
  lemma RegistrationsOfANameTakeTurns(limits: Limits, s: State, actions: seq<Action>, username: string, u: int, v: int)
    requires Inv(limits, s) && u != v
    requires var log := Run(limits, s, actions).log.users;
      && u in log && u !in s.log.users && log[u].username == username
      && v in log && v !in s.log.users && log[v].username == username
    ensures exists i: nat, j: nat ::
      && InsertedAt(limits, s, actions, i, u) && InsertedAt(limits, s, actions, j, v) && i != j
      && (i < j ==> u in At(limits, s, actions, j).log.users && u !in At(limits, s, actions, j).db.users)
      && (j < i ==> v in At(limits, s, actions, i).log.users && v !in At(limits, s, actions, i).db.users)
  {
    assert actions[..|actions|] == actions;
    var i := InsertedSomewhere(limits, s, actions, |actions|, u);
    var j := InsertedSomewhere(limits, s, actions, |actions|, v);
    if i == j {
      AtNext(limits, s, actions, i);
      NameIsFreeAtInsert(limits, At(limits, s, actions, i), actions[i], v);
    } else if i < j {
      EarlierWinnerIsGone(limits, s, actions, i, j, u, v);
    } else {
      EarlierWinnerIsGone(limits, s, actions, j, i, v, u);
    }
    assert InsertedAt(limits, s, actions, i, u) && InsertedAt(limits, s, actions, j, v);
  }

  ghost predicate Answered(db: Db, token: string) {
    exists u :: AuthenticatesAs(db, token, u)
  }

  ghost predicate AlwaysAnswers(db: Db) {
    forall token :: Answered(db, token)
  }

  lemma DefaultUserAnswers(db: Db)
    requires 1 in db.users
    ensures AlwaysAnswers(db)
  {
    forall token ensures Answered(db, token) {
      if TokenKnown(db, token) {
        var u :| u in db.users && db.users[u].token == token;
        assert AuthenticatesAs(db, token, u);
      } else {
        assert AuthenticatesAs(db, token, 1);
      }
    }
  }

  /** No token ever stands for two users, and who is answered as user 1 is the default user. */
  lemma AnswersAreUnique(limits: Limits, s: State, token: string, u: int, v: int)
    requires Inv(limits, s)
    requires AuthenticatesAs(s.db, token, u) && AuthenticatesAs(s.db, token, v)
    ensures u == v
    ensures u == 1 ==> s.db.users[u].username == GLOBAL_USERNAME
  {
  }

  /** Authentication never leaves a request without a user, in any interleaving. */
  lemma AuthenticateIsTotal(limits: Limits, catalogue: Catalogue, now: int, actions: seq<Action>)
    requires HoldsSeedItems(catalogue)
    requires 1 <= limits.fixedUsers || limits.maxUsers <= 0
    ensures AlwaysAnswers(Run(limits, Seed(catalogue, now), actions).db)
  {
    var s := Run(limits, Seed(catalogue, now), actions);
    ReachableInv(limits, catalogue, now, actions);
    assert 1 in Kept(s.log.users.Keys, limits.fixedUsers, limits.maxUsers);
    DefaultUserAnswers(s.db);
  }

  /** The handler validates names before it registers them. */
  predicate NamesValidated(actions: seq<Action>) {
    forall a :: a in actions && a.CheckUsername? ==> ValidRegistration(a.username, a.password)
  }

  ghost predicate OneDefaultName(s: State) {
    && (forall u :: u in s.log.users && s.log.users[u].username == "default" ==> u == 1)
    && (forall t :: t in s.pending && s.pending[t].Registering? ==> s.pending[t].account.username != "default")
  }

  lemma OneDefaultNameStep(limits: Limits, s: State, a: Action)
    requires OneDefaultName(s) && NamesValidated([a])
    ensures OneDefaultName(Apply(limits, s, a))
  {
    assert a in [a];
  }

  lemma {:induction false} OneDefaultNameRun(limits: Limits, s: State, actions: seq<Action>)
    requires OneDefaultName(s) && NamesValidated(actions)
    ensures OneDefaultName(Run(limits, s, actions))
    decreases |actions|
  {
    if actions != [] {
      assert actions[0] in actions && forall a :: a in actions[1..] ==> a in actions;
      OneDefaultNameStep(limits, s, actions[0]);
      OneDefaultNameRun(limits, Apply(limits, s, actions[0]), actions[1..]);
    }
  }

  /** Who a token that nobody owns stands for: the user called "default", and nobody else. */
  lemma UnownedTokenIsTheDefaultUser(limits: Limits, catalogue: Catalogue, now: int, actions: seq<Action>,
                                     token: string, u: int)
    requires HoldsSeedItems(catalogue)
    requires var users := Run(limits, Seed(catalogue, now), actions).db.users;
      forall v :: v in users ==> users[v].token != token
    ensures var db := Run(limits, Seed(catalogue, now), actions).db;
      && (AuthenticatesAs(db, token, u) ==> u == 1 && db.users[u].username == "default")
      && (1 in db.users || NamesValidated(actions) ==>
            (AuthenticatesAs(db, token, u) <==> u in db.users && db.users[u].username == "default"))
  {
    var s := Run(limits, Seed(catalogue, now), actions);
    assert UsersOk(limits, s.db.users, s.log.users) by { ReachableInv(limits, catalogue, now, actions); }
    if NamesValidated(actions) {
      assert OneDefaultName(s) by {
        SeedHasOneDefault(catalogue, now);
        OneDefaultNameRun(limits, Seed(catalogue, now), actions);
      }
    }
  }

  lemma SeedHasOneDefault(catalogue: Catalogue, now: int)
    ensures OneDefaultName(Seed(catalogue, now))
  {
  }

  lemma {:induction false} UnusedToken(db: Db, users: set<int>) returns (token: string)
    requires users <= db.users.Keys
    ensures forall u :: u in users ==> |db.users[u].token| < |token|
  {
    if users == {} {
      token := "";
      assert forall u :: u !in users;
    } else {
      var v := Pick(users);
      var shorter := UnusedToken(db, users - {v});
      token := shorter + db.users[v].token + "t";
    }
  }

  lemma AnswersWhileDefaultUserLives(db: Db)
    ensures AlwaysAnswers(db) <==> 1 in db.users
  {
    if 1 in db.users {
      DefaultUserAnswers(db);
    } else {
      var token := UnusedToken(db, db.users.Keys);
      assert forall u :: !AuthenticatesAs(db, token, u);
      assert !Answered(db, token);
    }
  }

  lemma DefaultUserKept(ids: set<int>, fixed: int, maximum: int)
    requires 1 in ids && forall i :: i in ids ==> 1 <= i
    ensures 1 in Kept(ids, fixed, maximum) <==> 1 <= fixed || maximum <= 0 || |ids| <= maximum
  {
    assert Newer(ids, 1) == ids - {1};
  }

  /** The documented promise that a user is always returned, exactly: it holds while the default
      user is protected, or nothing is trimmed, or no more than `maxUsers` users were ever recorded. */
  lemma AlwaysAnswersExactlyWhen(limits: Limits, catalogue: Catalogue, now: int, actions: seq<Action>)
    requires HoldsSeedItems(catalogue) && Serial(actions)
    requires Run(limits, Seed(catalogue, now), actions).log.users.Keys != SeedUsers().Keys
    ensures var s := Run(limits, Seed(catalogue, now), actions);
      AlwaysAnswers(s.db) <==> 1 <= limits.fixedUsers || limits.maxUsers <= 0 || |s.log.users.Keys| <= limits.maxUsers
  {
    var s := Run(limits, Seed(catalogue, now), actions);
    ReachableInv(limits, catalogue, now, actions);
    SerialRunsTrimTheLog(limits, catalogue, now, actions);
    DefaultUserKept(s.log.users.Keys, limits.fixedUsers, limits.maxUsers);
    AnswersWhileDefaultUserLives(s.db);
  }

  lemma SeedLeavesFree(username: string, token: string)
    requires |username| == 10 && |token| == USER_TOKEN_LENGTH && token[0] == '0'
    ensures AccountFree(SeedUsers(), username, token)
  {
    forall u | u in SeedUsers() ensures SeedUsers()[u].username != username && SeedUsers()[u].token != token {
      assert SeedUsers()[u].token[0] != '0';
      assert |SeedUsers()[u].username| != 10;
    }
  }

  /** The two steps of a registration, with nobody in between. */
  lemma UserEffect(limits: Limits, s: State, username: string, password: string, token: string, id: int)
    requires s.pending == map[] && Fresh(id, s.log.users.Keys)
    requires password != "" && AccountFree(s.db.users, username, token)
    ensures var row := UserRow(username, token, HashOf(password), "");
      var s' := Both(limits, s, CheckUsername(0, username, password, token), AddUser(0, id, Whole));
      && s'.pending == map[] && s'.log == s.log.(users := s.log.users[id := row])
      && Some(s'.db) == InsertUser(limits, s.db, id, row, s.db.users.Keys + {id})
  {
    assert map[0 := Registering(UserRow(username, token, HashOf(password), ""))] - {0} == map[];
  }

  /** One valid registration is enough to lose the default user when nothing protects it. */
  lemma DefaultUserCanBeEvicted(catalogue: Catalogue, now: int)
    requires HoldsSeedItems(catalogue)
    ensures ValidRegistration("margherita", "secret")
    ensures !AlwaysAnswers(Run(Limits(0, 0, 0, 0, 1, 0), Seed(catalogue, now),
              [CheckUsername(0, "margherita", "secret", "0123456789abcdef"), AddUser(0, 4, Whole)]).db)
  {
    var limits, seed := Limits(0, 0, 0, 0, 1, 0), Seed(catalogue, now);
    var check, add := CheckUsername(0, "margherita", "secret", "0123456789abcdef"), AddUser(0, 4, Whole);
    SeedLeavesFree("margherita", "0123456789abcdef");
    UserEffect(limits, seed, "margherita", "secret", "0123456789abcdef", 4);
    assert [check, add] == [] + [check, add];
    RunTwo(limits, seed, [], check, add);
    assert Run(limits, seed, [check, add]).log.users.Keys == {1, 2, 3, 4} && 4 !in SeedUsers();
    AlwaysAnswersExactlyWhen(limits, catalogue, now, [check, add]);
  }

  // ---------- Which settings keep the promise ----------

  function Repeated(n: nat): string {
    seq(n, _ => 'u')
  }

  /** The account of the `n`-th registration: name and token are longer than all before. */
  function LongAccount(n: nat): UserRow {
    UserRow(Repeated(32 + n), Repeated(32 + n), HashOf("secret"), "")
  }

  function CheckLong(n: nat): Action {
    CheckUsername(0, LongAccount(n).username, "secret", LongAccount(n).token)
  }

  function AddLong(n: nat): Action {
    AddUser(0, 3 + n, Whole)
  }

  /** Registrations of `n` users, one after the other. */
  function Registrations(n: nat): seq<Action> {
    if n == 0 then [] else Registrations(n - 1) + [CheckLong(n), AddLong(n)]
  }

  ghost predicate ShorterThan(users: map<int, UserRow>, n: nat) {
    forall u :: u in users ==> |users[u].username| < n && |users[u].token| < n
  }

  /** `n` users have registered since the seed. */
  ghost predicate HasRegistered(users: map<int, UserRow>, n: nat) {
    ShorterThan(users, 33 + n) && |users.Keys| == 3 + n && 1 in users && forall u :: u in users ==> u <= 3 + n
  }

  lemma LongAccountIsFree(users: map<int, UserRow>, n: nat)
    requires ShorterThan(users, 32 + n)
    ensures AccountFree(users, LongAccount(n).username, LongAccount(n).token)
  {
  }

  lemma OneMoreRegistered(users: map<int, UserRow>, n: nat)
    requires 0 < n && HasRegistered(users, n - 1)
    ensures HasRegistered(users[3 + n := LongAccount(n)], n)
  {
    assert users[3 + n := LongAccount(n)].Keys == users.Keys + {3 + n};
  }

  lemma OneMoreRegisters(limits: Limits, s: State, n: nat)
    requires UsersOk(limits, s.db.users, s.log.users) && s.pending == map[]
    requires 0 < n && HasRegistered(s.log.users, n - 1)
    ensures var s' := Both(limits, s, CheckLong(n), AddLong(n));
      s'.pending == map[] && s'.log.users == s.log.users[3 + n := LongAccount(n)]
  {
    assert ShorterThan(s.db.users, 32 + n);
    LongAccountIsFree(s.db.users, n);
    UserEffect(limits, s, LongAccount(n).username, "secret", LongAccount(n).token, 3 + n);
  }

  lemma {:induction false} RegistrationsAreSerial(n: nat)
    ensures Serial(Registrations(n))
  {
    if n > 0 { RegistrationsAreSerial(n - 1); }
  }

  lemma SeedUsersAreShort()
    ensures ShorterThan(SeedUsers(), 33)
  {
  }

  lemma SeedHasNoRegistrations()
    ensures HasRegistered(SeedUsers(), 0)
  {
    SeedUsersAreShort();
    assert SeedUsers().Keys == {1, 2, 3};
  }

  lemma BothKeepInv(limits: Limits, s: State, first: Action, second: Action)
    requires Inv(limits, s)
    ensures Inv(limits, Both(limits, s, first, second))
  {
    ApplyKeepsInv(limits, s, first);
    ApplyKeepsInv(limits, Apply(limits, s, first), second);
  }

  lemma NextRegisters(limits: Limits, s: State, n: nat) returns (after: State)
    requires Inv(limits, s) && s.pending == map[] && 0 < n && HasRegistered(s.log.users, n - 1)
    ensures after == Both(limits, s, CheckLong(n), AddLong(n))
    ensures Inv(limits, after) && after.pending == map[] && HasRegistered(after.log.users, n)
  {
    after := Both(limits, s, CheckLong(n), AddLong(n));
    assert after.pending == map[] && HasRegistered(after.log.users, n) by {
      OneMoreRegisters(limits, s, n);
      OneMoreRegistered(s.log.users, n);
    }
    BothKeepInv(limits, s, CheckLong(n), AddLong(n));
  }

  lemma {:induction false} AllRegister(limits: Limits, s: State, n: nat) returns (end: State)
    requires Inv(limits, s) && s.pending == map[] && HasRegistered(s.log.users, 0)
    ensures end == Run(limits, s, Registrations(n))
    ensures Inv(limits, end) && end.pending == map[] && HasRegistered(end.log.users, n)
  {
    if n == 0 {
      end := s;
    } else {
      var before := AllRegister(limits, s, n - 1);
      end := NextRegisters(limits, before, n);
      RunTwo(limits, s, Registrations(n - 1), CheckLong(n), AddLong(n));
    }
  }

  /** With the default user unprotected and users limited, enough registrations evict it. */
  lemma EnoughRegistrationsEvictTheDefault(limits: Limits, catalogue: Catalogue, now: int)
    requires HoldsSeedItems(catalogue) && limits.fixedUsers < 1 && 0 < limits.maxUsers
    ensures !AlwaysAnswers(Run(limits, Seed(catalogue, now), Registrations(limits.maxUsers)).db)
  {
    SeedInv(limits, catalogue, now);
    SeedHasNoRegistrations();
    var end := AllRegister(limits, Seed(catalogue, now), limits.maxUsers);
    RegistrationsAreSerial(limits.maxUsers);
    assert SeedUsers().Keys == {1, 2, 3} && |end.log.users.Keys| > 3;
    AlwaysAnswersExactlyWhen(limits, catalogue, now, Registrations(limits.maxUsers));
  }

  /** The documented promise over all interleavings of a configuration: every token is answered in
      every reachable state exactly when the default user is protected or nothing is trimmed. */
  lemma SettingsAlwaysAnswerExactlyWhen(limits: Limits, catalogue: Catalogue, now: int)
    requires HoldsSeedItems(catalogue)
    ensures (forall actions :: AlwaysAnswers(Run(limits, Seed(catalogue, now), actions).db)) <==>
            1 <= limits.fixedUsers || limits.maxUsers <= 0
  {
    if 1 <= limits.fixedUsers || limits.maxUsers <= 0 {
      forall actions ensures AlwaysAnswers(Run(limits, Seed(catalogue, now), actions).db) {
        AuthenticateIsTotal(limits, catalogue, now, actions);
      }
    } else {
      EnoughRegistrationsEvictTheDefault(limits, catalogue, now);
    }
  }
}
