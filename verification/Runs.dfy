/** What holds over whole runs of the store, from the seed and under any interleaving. */
module Runs {
  import opened Model
  import opened Sets
  import opened TableLimits
  import opened Store
  import opened Interleaving

  /** Every reachable state satisfies the invariant. */
  lemma ReachableInv(limits: Limits, catalogue: Catalogue, now: int, actions: seq<Action>)
    requires HoldsSeedItems(catalogue)
    ensures Inv(limits, Run(limits, Seed(catalogue, now), actions))
  {
    SeedInv(limits, catalogue, now);
    RunKeepsInv(limits, Seed(catalogue, now), actions);
  }

  /** In every reachable state every foreign key points at a row and accounts are unique. */
  lemma ReachableConstraints(limits: Limits, catalogue: Catalogue, now: int, actions: seq<Action>)
    requires HoldsSeedItems(catalogue)
    ensures var db := Run(limits, Seed(catalogue, now), actions).db; ForeignKeysHold(db) && UniqueAccounts(db.users)
  {
    ReachableInv(limits, catalogue, now, actions);
    InvMeansConstraints(limits, Run(limits, Seed(catalogue, now), actions));
  }

  lemma {:induction false} RunConcat(limits: Limits, s: State, first: seq<Action>, second: seq<Action>)
    ensures Run(limits, s, first + second) == Run(limits, Run(limits, s, first), second)
    decreases |first|
  {
    if first == [] {
      assert first + second == second;
    } else {
      assert (first + second)[1..] == first[1..] + second;
      RunConcat(limits, Apply(limits, s, first[0]), first[1..], second);
    }
  }

  lemma RunOne(limits: Limits, s: State, actions: seq<Action>, a: Action)
    ensures Run(limits, s, actions + [a]) == Apply(limits, Run(limits, s, actions), a)
  {
    RunConcat(limits, s, actions, [a]);
    assert [a][1..] == [];
  }

  lemma RunSingle(limits: Limits, s: State, a: Action)
    ensures Run(limits, s, [a]) == Apply(limits, s, a)
  {
    assert [a][1..] == [];
  }

  /** The two steps of an operation, with nobody in between. */
  function Both(limits: Limits, s: State, first: Action, second: Action): State {
    Apply(limits, Apply(limits, s, first), second)
  }

  lemma RunTwo(limits: Limits, s: State, actions: seq<Action>, a: Action, b: Action)
    ensures Run(limits, s, actions + [a, b]) == Both(limits, Run(limits, s, actions), a, b)
  {
    assert actions + [a, b] == actions + [a] + [b];
    RunOne(limits, s, actions + [a], b);
    RunOne(limits, s, actions, a);
  }

  /** The state before step `k` of a run. */
  function At(limits: Limits, s: State, actions: seq<Action>, k: nat): State
    requires k <= |actions|
  {
    Run(limits, s, actions[..k])
  }

  lemma AtStart(limits: Limits, s: State, actions: seq<Action>)
    ensures At(limits, s, actions, 0) == s
  {
    assert actions[..0] == [];
  }

  lemma AtNext(limits: Limits, s: State, actions: seq<Action>, k: nat)
    requires k < |actions|
    ensures At(limits, s, actions, k + 1) == Apply(limits, At(limits, s, actions, k), actions[k])
  {
    assert actions[..k + 1] == actions[..k] + [actions[k]];
    RunOne(limits, s, actions[..k], actions[k]);
  }

  // ---------- Rows never change, and never come back ----------

  ghost predicate LogExtends(old': Log, new': Log) {
    && (forall u :: u in old'.users ==> u in new'.users && new'.users[u] == old'.users[u])
    && (forall p :: p in old'.pizzas ==> p in new'.pizzas && new'.pizzas[p] == old'.pizzas[p])
    && (forall r :: r in old'.ratings ==> r in new'.ratings && new'.ratings[r] == old'.ratings[r])
  }

  ghost predicate NothingRevived(s: State, s': State) {
    && (forall u :: u in s.log.users && u in s'.db.users ==> u in s.db.users)
    && (forall p :: p in s.log.pizzas && p in s'.db.pizzas ==> p in s.db.pizzas)
    && (forall r :: r in s.log.ratings && r in s'.db.ratings ==> r in s.db.ratings)
  }

  /** No operation, not even one that read a row before it was deleted, brings a deleted row back;
      ids are never used for a second row, and whoever was authenticated once may go on. */
  lemma {:induction false} NeverRevived(limits: Limits, s: State, actions: seq<Action>)
    ensures LogExtends(s.log, Run(limits, s, actions).log)
    ensures NothingRevived(s, Run(limits, s, actions))
    ensures s.callers <= Run(limits, s, actions).callers
    decreases |actions|
  {
    if actions != [] {
      StepExtendsLog(limits, s, actions[0]);
      StepRevivesNothing(limits, s, actions[0]);
      NeverRevived(limits, Apply(limits, s, actions[0]), actions[1..]);
    }
  }

  lemma StepExtendsLog(limits: Limits, s: State, a: Action)
    ensures LogExtends(s.log, Apply(limits, s, a).log)
    ensures s.callers <= Apply(limits, s, a).callers
  {
  }

  lemma StepRevivesNothing(limits: Limits, s: State, a: Action)
    ensures NothingRevived(s, Apply(limits, s, a))
  {
  }

  lemma StepKeepsCatalogue(limits: Limits, s: State, a: Action)
    ensures Apply(limits, s, a).db.catalogue == s.db.catalogue
  {
  }

  /** A user or a pizza that is still there is as it was recorded, links included. */
  lemma RowsAreStable(limits: Limits, s: State, actions: seq<Action>)
    requires Inv(limits, s)
    ensures var s' := Run(limits, s, actions);
      && (forall u :: u in s.log.users && u in s'.db.users ==> s'.db.users[u] == s.log.users[u])
      && (forall p :: p in s.log.pizzas && p in s'.db.pizzas ==>
            s'.db.pizzas[p] == s.log.pizzas[p].row && LinkedTo(s'.db.links, p) == s.log.pizzas[p].ingredients)
  {
    RunKeepsInv(limits, s, actions);
    NeverRevived(limits, s, actions);
  }

  lemma {:induction false} CatalogueFixed(limits: Limits, s: State, actions: seq<Action>)
    ensures Run(limits, s, actions).db.catalogue == s.db.catalogue
    decreases |actions|
  {
    if actions != [] {
      StepKeepsCatalogue(limits, s, actions[0]);
      CatalogueFixed(limits, Apply(limits, s, actions[0]), actions[1..]);
    }
  }

  // ---------- The tables against the log ----------

  /** Whatever the views of the transactions were, and in whatever order they committed, the rows
      with a protected id and the newest `maximum` rows of the live table are those of the log. */
  lemma ProtectedAndNewestSurvive(limits: Limits, s: State)
    requires Inv(limits, s)
    ensures var live, log := s.db.pizzas.Keys, s.log.pizzas.Keys;
      && (0 < limits.maxPizzas ==> Low(live, limits.fixedPizzas) == Low(log, limits.fixedPizzas))
      && (limits.maxPizzas <= 0 ==> live == log)
      && Newest(live, limits.maxPizzas) == Newest(log, limits.maxPizzas)
    ensures var live, log := s.db.users.Keys, s.log.users.Keys;
      && (0 < limits.maxUsers ==> Low(live, limits.fixedUsers) == Low(log, limits.fixedUsers))
      && (limits.maxUsers <= 0 ==> live == log)
      && Newest(live, limits.maxUsers) == Newest(log, limits.maxUsers)
  {
    forall p | p in s.db.pizzas.Keys ensures p in s.log.pizzas.Keys {}
    forall u | u in s.db.users.Keys ensures u in s.log.users.Keys {}
    BetweenKeptAndLog(s.db.pizzas.Keys, s.log.pizzas.Keys, limits.maxPizzas, limits.fixedPizzas, limits.maxPizzas);
    BetweenKeptAndLog(s.db.users.Keys, s.log.users.Keys, limits.maxUsers, limits.fixedUsers, limits.maxUsers);
  }

  /** An insert whose trim reads the whole table leaves the log trimmed once, whatever was there. */
  lemma WholeInsertIsExact<R, L>(live: map<int, R>, log: map<int, L>, id: int, row: R, logged: L,
                                 fixed: int, maximum: int)
    requires forall i :: i in live ==> i in log
    requires Kept(log.Keys, fixed, maximum) <= live.Keys
    ensures (live[id := row] - ToDelete(live.Keys + {id}, fixed, maximum)).Keys ==
            Kept(log[id := logged].Keys, fixed, maximum)
  {
    forall i | i in live.Keys ensures i in log.Keys {}
    WholeTrimIsExact(live.Keys, log.Keys, {id}, fixed, maximum);
    assert log[id := logged].Keys == log.Keys + {id};
    assert live[id := row].Keys == live.Keys + {id};
  }

  /** After any interleaving at all, one pizza recorded by a transaction whose trim reads the whole
      table makes the table exactly the log trimmed once; and likewise one registered user. */
  lemma OneWholeTrimHeals(limits: Limits, s: State, a: Action)
    requires Inv(limits, s)
    ensures var s' := Apply(limits, s, a);
      && (a.RecordPizza? && a.view == Whole && s'.log.pizzas != s.log.pizzas ==>
            s'.db.pizzas.Keys == Kept(s'.log.pizzas.Keys, limits.fixedPizzas, limits.maxPizzas))
      && (a.AddUser? && a.view == Whole && s'.log.users != s.log.users ==>
            s'.db.users.Keys == Kept(s'.log.users.Keys, limits.fixedUsers, limits.maxUsers))
  {
    if a.RecordPizza? { PizzaTrimHeals(limits, s, a); }
    if a.AddUser? { UserTrimHeals(limits, s, a); }
  }

  lemma PizzaTrimHeals(limits: Limits, s: State, a: Action)
    requires PizzasOk(limits, s.db.catalogue, s.db.pizzas, s.db.links, s.log.pizzas) && a.RecordPizza?
    ensures var s' := Apply(limits, s, a);
      a.view == Whole && s'.log.pizzas != s.log.pizzas ==>
        s'.db.pizzas.Keys == Kept(s'.log.pizzas.Keys, limits.fixedPizzas, limits.maxPizzas)
  {
    var s' := Apply(limits, s, a);
    if a.view == Whole && s'.log.pizzas != s.log.pizzas {
      var logged, live := LoggedPizza(a.pizza, set i | i in a.ingredients), s.db.pizzas.Keys;
      assert s'.log.pizzas == s.log.pizzas[a.id := logged];
      assert s'.db.pizzas == s.db.pizzas[a.id := a.pizza] -
               ToDelete(live + {a.id}, limits.fixedPizzas, limits.maxPizzas);
      WholeInsertIsExact(s.db.pizzas, s.log.pizzas, a.id, a.pizza, logged, limits.fixedPizzas, limits.maxPizzas);
    }
  }

  lemma UserTrimHeals(limits: Limits, s: State, a: Action)
    requires UsersOk(limits, s.db.users, s.log.users) && a.AddUser?
    ensures var s' := Apply(limits, s, a);
      a.view == Whole && s'.log.users != s.log.users ==>
        s'.db.users.Keys == Kept(s'.log.users.Keys, limits.fixedUsers, limits.maxUsers)
  {
    var s' := Apply(limits, s, a);
    if a.view == Whole && s'.log.users != s.log.users {
      var row, live := s.pending[a.t].account, s.db.users.Keys;
      assert s'.log.users == s.log.users[a.id := row];
      assert s'.db.users == s.db.users[a.id := row] -
               ToDelete(live + {a.id}, limits.fixedUsers, limits.maxUsers);
      WholeInsertIsExact(s.db.users, s.log.users, a.id, row, row, limits.fixedUsers, limits.maxUsers);
    }
  }

  /** One transaction at a time: every trim reads the whole table. */
  predicate Serial(actions: seq<Action>) {
    forall a :: a in actions && (a.RecordPizza? || a.AddUser? || a.AddRating?) ==> a.view == Whole
  }

  /** `live` is the log trimmed once; before the first insert it is the log itself. */
  predicate TrimmedOnce(live: set<int>, log: set<int>, start: set<int>, fixed: int, maximum: int) {
    && start <= log
    && live == if log == start then start else Kept(log, fixed, maximum)
  }

  ghost predicate PizzasTrimmedOnce(limits: Limits, s: State, start: set<int>) {
    TrimmedOnce(s.db.pizzas.Keys, s.log.pizzas.Keys, start, limits.fixedPizzas, limits.maxPizzas)
  }

  ghost predicate UsersTrimmedOnce(limits: Limits, s: State, start: set<int>) {
    TrimmedOnce(s.db.users.Keys, s.log.users.Keys, start, limits.fixedUsers, limits.maxUsers)
  }

  /** Ratings are also deleted by their owners, so what is left of a serial run is a bound. */
  ghost predicate RatingsBounded(limits: Limits, s: State, start: set<int>) {
    s.log.ratings.Keys == start || limits.fixedRatings < 0 || limits.maxRatings <= 0 ||
    |s.db.ratings.Keys| <= limits.fixedRatings + limits.maxRatings
  }

  /** Only `RecordPizza` touches pizzas, and only `AddUser` touches users. */
  lemma OthersLeavePizzas(limits: Limits, s: State, a: Action)
    requires !a.RecordPizza?
    ensures Apply(limits, s, a).db.pizzas == s.db.pizzas && Apply(limits, s, a).log.pizzas == s.log.pizzas
  {
  }

  lemma OthersLeaveUsers(limits: Limits, s: State, a: Action)
    requires !a.AddUser?
    ensures Apply(limits, s, a).db.users == s.db.users && Apply(limits, s, a).log.users == s.log.users
  {
  }

  lemma SerialPizzaStep(limits: Limits, s: State, a: Action, start: set<int>)
    requires PizzasOk(limits, s.db.catalogue, s.db.pizzas, s.db.links, s.log.pizzas)
    requires PizzasTrimmedOnce(limits, s, start) && (a.RecordPizza? ==> a.view == Whole)
    ensures PizzasTrimmedOnce(limits, Apply(limits, s, a), start)
  {
    if a.RecordPizza? {
      PizzaTrimHeals(limits, s, a);
      if Fresh(a.id, s.log.pizzas.Keys) { assert a.id !in start; }
    } else {
      OthersLeavePizzas(limits, s, a);
    }
  }

  lemma SerialUserStep(limits: Limits, s: State, a: Action, start: set<int>)
    requires UsersOk(limits, s.db.users, s.log.users)
    requires UsersTrimmedOnce(limits, s, start) && (a.AddUser? ==> a.view == Whole)
    ensures UsersTrimmedOnce(limits, Apply(limits, s, a), start)
  {
    if a.AddUser? {
      UserTrimHeals(limits, s, a);
      if Fresh(a.id, s.log.users.Keys) { assert a.id !in start; }
    } else {
      OthersLeaveUsers(limits, s, a);
    }
  }

  /** Ratings are added by `AddRating` only. */
  lemma RatingsOnlyShrink(limits: Limits, s: State, a: Action)
    requires Inv(limits, s) && Apply(limits, s, a).log.ratings == s.log.ratings
    ensures Apply(limits, s, a).db.ratings.Keys <= s.db.ratings.Keys
  {
    var s' := Apply(limits, s, a);
    StepRevivesNothing(limits, s, a);
    ApplyKeepsInv(limits, s, a);
    forall r | r in s'.db.ratings.Keys ensures r in s.db.ratings.Keys { assert r in s'.log.ratings; }
  }

  lemma TrimmedTableIsBounded<R>(live: map<int, R>, id: int, row: R, fixed: int, maximum: int)
    requires Positive(live.Keys) && 1 <= id && 0 <= fixed && 0 < maximum
    ensures |(live[id := row] - ToDelete(live.Keys + {id}, fixed, maximum)).Keys| <= fixed + maximum
  {
    var ids := live.Keys + {id};
    assert live[id := row].Keys == ids;
    assert (live[id := row] - ToDelete(ids, fixed, maximum)).Keys == Kept(ids, fixed, maximum);
    KeptSize(ids, fixed, maximum);
  }

  lemma RatingTrimBounds(limits: Limits, s: State, a: Action)
    requires RatingsOk(s.db.users.Keys, s.db.pizzas.Keys, s.db.ratings, s.log.ratings)
    requires a.AddRating? && a.view == Whole
    requires 0 <= limits.fixedRatings && 0 < limits.maxRatings
    requires Apply(limits, s, a).log.ratings != s.log.ratings
    ensures |Apply(limits, s, a).db.ratings.Keys| <= limits.fixedRatings + limits.maxRatings
  {
    var row, live := s.pending[a.t].row, s.db.ratings;
    assert Positive(live.Keys) by { assert forall r :: r in live ==> r in s.log.ratings.Keys; }
    assert Apply(limits, s, a).db.ratings ==
           live[a.id := row] - ToDelete(live.Keys + {a.id}, limits.fixedRatings, limits.maxRatings);
    TrimmedTableIsBounded(live, a.id, row, limits.fixedRatings, limits.maxRatings);
  }

  lemma OthersLeaveRatingLog(limits: Limits, s: State, a: Action)
    requires !a.AddRating?
    ensures Apply(limits, s, a).log.ratings == s.log.ratings
  {
  }

  lemma SerialRatingStep(limits: Limits, s: State, a: Action, start: set<int>)
    requires Inv(limits, s) && RatingsBounded(limits, s, start) && (a.AddRating? ==> a.view == Whole)
    ensures RatingsBounded(limits, Apply(limits, s, a), start)
  {
    if !a.AddRating? { OthersLeaveRatingLog(limits, s, a); }
    if Apply(limits, s, a).log.ratings == s.log.ratings {
      RatingsOnlyShrink(limits, s, a);
      SubsetSize(Apply(limits, s, a).db.ratings.Keys, s.db.ratings.Keys);
    } else if 0 <= limits.fixedRatings && 0 < limits.maxRatings {
      RatingTrimBounds(limits, s, a);
    }
  }

  lemma {:induction false} SerialRun(limits: Limits, s: State, actions: seq<Action>,
                                     pizzas: set<int>, users: set<int>, ratings: set<int>)
    requires Inv(limits, s) && Serial(actions)
    requires PizzasTrimmedOnce(limits, s, pizzas) && UsersTrimmedOnce(limits, s, users)
    requires RatingsBounded(limits, s, ratings)
    ensures PizzasTrimmedOnce(limits, Run(limits, s, actions), pizzas)
    ensures UsersTrimmedOnce(limits, Run(limits, s, actions), users)
    ensures RatingsBounded(limits, Run(limits, s, actions), ratings)
    decreases |actions|
  {
    if actions != [] {
      assert actions[0] in actions && forall a :: a in actions[1..] ==> a in actions;
      SerialPizzaStep(limits, s, actions[0], pizzas);
      SerialUserStep(limits, s, actions[0], users);
      SerialRatingStep(limits, s, actions[0], ratings);
      ApplyKeepsInv(limits, s, actions[0]);
      SerialRun(limits, Apply(limits, s, actions[0]), actions[1..], pizzas, users, ratings);
    }
  }

  /** Trimming after every insert of a serial run leaves exactly what one trim of the whole
      insertion log would leave; the seed is trimmed by the first insert. */
  lemma SerialRunsTrimTheLog(limits: Limits, catalogue: Catalogue, now: int, actions: seq<Action>)
    requires HoldsSeedItems(catalogue) && Serial(actions)
    ensures var seed, s := Seed(catalogue, now), Run(limits, Seed(catalogue, now), actions);
      && PizzasTrimmedOnce(limits, s, seed.log.pizzas.Keys)
      && UsersTrimmedOnce(limits, s, seed.log.users.Keys)
      && RatingsBounded(limits, s, seed.log.ratings.Keys)
  {
    var seed := Seed(catalogue, now);
    SeedInv(limits, catalogue, now);
    assert seed.db.pizzas.Keys == seed.log.pizzas.Keys;
    SerialRun(limits, seed, actions, seed.log.pizzas.Keys, seed.log.users.Keys, seed.log.ratings.Keys);
  }

  /** Once a row was added to it, no table exceeds its fixed + maximum rows. */
  lemma SerialTablesAreBounded(limits: Limits, catalogue: Catalogue, now: int, actions: seq<Action>)
    requires HoldsSeedItems(catalogue) && Serial(actions)
    ensures var seed, s := Seed(catalogue, now), Run(limits, Seed(catalogue, now), actions);
      && (0 <= limits.fixedPizzas && 0 < limits.maxPizzas && s.log.pizzas.Keys != seed.log.pizzas.Keys ==>
            |s.db.pizzas.Keys| <= limits.fixedPizzas + limits.maxPizzas)
      && (0 <= limits.fixedUsers && 0 < limits.maxUsers && s.log.users.Keys != seed.log.users.Keys ==>
            |s.db.users.Keys| <= limits.fixedUsers + limits.maxUsers)
      && (0 <= limits.fixedRatings && 0 < limits.maxRatings && s.log.ratings.Keys != seed.log.ratings.Keys ==>
            |s.db.ratings.Keys| <= limits.fixedRatings + limits.maxRatings)
  {
    var s := Run(limits, Seed(catalogue, now), actions);
    SerialRunsTrimTheLog(limits, catalogue, now, actions);
    assert Positive(s.log.pizzas.Keys) && Positive(s.log.users.Keys) by {
      ReachableInv(limits, catalogue, now, actions);
    }
    if 0 < limits.maxPizzas { KeptSize(s.log.pizzas.Keys, limits.fixedPizzas, limits.maxPizzas); }
    if 0 < limits.maxUsers { KeptSize(s.log.users.Keys, limits.fixedUsers, limits.maxUsers); }
  }

  /** Whether the documented first `fixedPizzas` pizzas are still there after a serial run that
      recorded any. */
  lemma FirstPizzasKeptExactlyWhen(limits: Limits, catalogue: Catalogue, now: int, actions: seq<Action>)
    requires HoldsSeedItems(catalogue) && Serial(actions) && 0 <= limits.fixedPizzas
    requires Run(limits, Seed(catalogue, now), actions).log.pizzas.Keys != SeedPizzas(now).Keys
    ensures var s := Run(limits, Seed(catalogue, now), actions); var ids := s.log.pizzas.Keys;
      Oldest(ids, limits.fixedPizzas) <= s.db.pizzas.Keys <==>
      limits.maxPizzas <= 0 || |High(ids, limits.fixedPizzas)| <= limits.maxPizzas ||
      |Low(ids, limits.fixedPizzas)| == limits.fixedPizzas
  {
    var ids := Run(limits, Seed(catalogue, now), actions).log.pizzas.Keys;
    assert Positive(ids) by { ReachableInv(limits, catalogue, now, actions); }
    SerialRunsTrimTheLog(limits, catalogue, now, actions);
    FirstRowsKeptExactlyWhen(ids, limits.fixedPizzas, limits.maxPizzas);
  }

  /** Two pizzas after an id was lost to a rollback. */
  function PizzasAfterGap(now: int): seq<Action> {
    var row := PizzaRow(now, "A Late Margherita", 1, "Knife");
    [RecordPizza(5, row, [2, 3, 6], Whole), RecordPizza(6, row, [2, 3, 6], Whole)]
  }

  lemma RecordedId(limits: Limits, s: State, a: Action)
    requires a.RecordPizza? && Fresh(a.id, s.log.pizzas.Keys) && CanAddPizza(s.db, a.pizza, a.ingredients)
    ensures Apply(limits, s, a).log.pizzas.Keys == s.log.pizzas.Keys + {a.id}
  {
  }

  lemma GapRun(limits: Limits, s: State, now: int)
    requires HoldsSeedItems(s.db.catalogue) && s.log.pizzas.Keys == {1, 2, 3}
    ensures Run(limits, s, PizzasAfterGap(now)).log.pizzas.Keys == {1, 2, 3, 5, 6}
  {
    var a, b := PizzasAfterGap(now)[0], PizzasAfterGap(now)[1];
    assert PizzasAfterGap(now) == [] + [a, b];
    RunTwo(limits, s, [], a, b);
    RecordedId(limits, s, a);
    StepKeepsCatalogue(limits, s, a);
    RecordedId(limits, Apply(limits, s, a), b);
  }

  lemma GapSizes()
    ensures |High({1, 2, 3, 5, 6}, 4)| == 2 && |Low({1, 2, 3, 5, 6}, 4)| == 3
  {
    assert High({1, 2, 3, 5, 6}, 4) == {5, 6} && Low({1, 2, 3, 5, 6}, 4) == {1, 2, 3};
  }

  /** With four pizzas protected and room for one more, the fourth pizza ever recorded is trimmed. */
  lemma FourthPizzaCanGo(limits: Limits, catalogue: Catalogue, now: int)
    requires HoldsSeedItems(catalogue) && limits.fixedPizzas == 4 && limits.maxPizzas == 1
    ensures var s := Run(limits, Seed(catalogue, now), PizzasAfterGap(now));
      !(Oldest(s.log.pizzas.Keys, limits.fixedPizzas) <= s.db.pizzas.Keys)
  {
    GapRun(limits, Seed(catalogue, now), now);
    GapSizes();
    FirstPizzasKeptExactlyWhen(limits, catalogue, now, PizzasAfterGap(now));
  }

  // ---------- Ratings ----------

  /** A row a trim may delete: unprotected, with `maximum` newer rows issued. */
  predicate Evictable(id: int, issued: set<int>, fixed: int, maximum: int) {
    0 < maximum && fixed < id && maximum <= |Newer(issued, id)|
  }

  lemma TrimmedIsEvictable(id: int, view: View, live: set<int>, issued: set<int>, own: int, fixed: int, maximum: int)
    requires forall i :: i in live ==> i in issued
    requires id in ToDelete(Seen(view, issued, live, own), fixed, maximum)
    ensures Evictable(id, issued + {own}, fixed, maximum)
  {
    forall i | i in live ensures i in issued {}
    SeenAtMost(view, issued, live, own);
    ToDeleteMonotone(Seen(view, issued, live, own), issued + {own}, fixed, maximum);
  }

  /** The step writes the stars that a pending update has for the rating. */
  predicate Writes(s: State, a: Action, r: int) {
    a.WriteStars? && a.t in s.pending && s.pending[a.t].Updating? && s.pending[a.t].rating == r
  }

  predicate WritesForOwner(s: State, a: Action, r: int)
    requires r in s.db.ratings
  {
    Writes(s, a, r) && s.pending[a.t].owner == s.db.ratings[r].userId
  }

  ghost predicate DeletedByOwner(s: State, a: Action, r: int)
    requires r in s.db.ratings
  {
    || (a.DeleteRead? && a.t in s.pending && s.pending[a.t].Deleting? && s.pending[a.t].rating == r &&
        s.pending[a.t].owner == s.db.ratings[r].userId)
    || (a.DeleteAll? && a.caller.id == s.db.ratings[r].userId && MayChange(s, a.caller))
  }

  /** By the trim of a rating, or by the cascade from a trimmed user or pizza. */
  ghost predicate Evicted(limits: Limits, s: State, s': State, a: Action, r: int)
    requires r in s.db.ratings
  {
    var row := s.db.ratings[r];
    || (a.AddRating? && Evictable(r, s'.log.ratings.Keys, limits.fixedRatings, limits.maxRatings))
    || (a.AddUser? && row.userId !in s'.db.users &&
        Evictable(row.userId, s'.log.users.Keys, limits.fixedUsers, limits.maxUsers))
    || (a.RecordPizza? && row.pizzaId !in s'.db.pizzas &&
        Evictable(row.pizzaId, s'.log.pizzas.Keys, limits.fixedPizzas, limits.maxPizzas))
  }

  /** What the step does to the rating `r`: it stays, unless its owner deletes it or it is evicted, and
      it gets other stars by an update of its owner and by nothing else. */
  ghost predicate Accounted(limits: Limits, s: State, s': State, a: Action, r: int)
    requires r in s.db.ratings
  {
    if r in s'.db.ratings then
      && !DeletedByOwner(s, a, r)
      && (Writes(s, a, r) ==> WritesForOwner(s, a, r))
      && s'.db.ratings[r] ==
           if Writes(s, a, r)
           then RatingRow(s.pending[a.t].stars, s.db.ratings[r].userId, s.db.ratings[r].pizzaId)
           else s.db.ratings[r]
    else
      DeletedByOwner(s, a, r) || Evicted(limits, s, s', a, r)
  }

  /** A write changes the stars of its rating and nothing else in any table. */
  lemma WriteChangesOneRating(limits: Limits, s: State, a: Action)
    requires a.WriteStars? && a.t in s.pending && s.pending[a.t].Updating?
    ensures var db, s' := s.db, Apply(limits, s, a); var update := s.pending[a.t];
      && s'.db.ratings == (if update.rating in db.ratings
                           then db.ratings[update.rating := db.ratings[update.rating].(stars := update.stars)]
                           else db.ratings)
      && s'.db == db.(ratings := s'.db.ratings) && s'.log == s.log
  {
  }

  /** The owner's deletion of all ratings leaves exactly those of others. */
  lemma DeleteAllLeavesOthers(limits: Limits, s: State, caller: Caller)
    requires caller in s.callers && caller.username != "default"
    ensures var s' := Apply(limits, s, DeleteAll(caller));
      && (forall r :: r in s'.db.ratings <==> r in s.db.ratings && s.db.ratings[r].userId != caller.id)
      && (forall r :: r in s'.db.ratings ==> s'.db.ratings[r] == s.db.ratings[r])
      && s'.db == s.db.(ratings := s'.db.ratings)
  {
  }

  lemma FateUnderAddRating(limits: Limits, s: State, a: Action, r: int)
    requires RatingsOk(s.db.users.Keys, s.db.pizzas.Keys, s.db.ratings, s.log.ratings)
    requires r in s.db.ratings && a.AddRating?
    ensures Accounted(limits, s, Apply(limits, s, a), a, r)
  {
    var s' := Apply(limits, s, a);
    if r !in s'.db.ratings {
      assert s'.log.ratings.Keys == s.log.ratings.Keys + {a.id};
      TrimmedIsEvictable(r, a.view, s.db.ratings.Keys, s.log.ratings.Keys, a.id,
                         limits.fixedRatings, limits.maxRatings);
    }
  }

  lemma FateUnderAddUser(limits: Limits, s: State, a: Action, r: int)
    requires RatingsOk(s.db.users.Keys, s.db.pizzas.Keys, s.db.ratings, s.log.ratings)
    requires forall u :: u in s.db.users ==> u in s.log.users
    requires r in s.db.ratings && a.AddUser?
    ensures Accounted(limits, s, Apply(limits, s, a), a, r)
  {
    var s' := Apply(limits, s, a);
    if r !in s'.db.ratings {
      assert s'.log.users.Keys == s.log.users.Keys + {a.id};
      TrimmedIsEvictable(s.db.ratings[r].userId, a.view, s.db.users.Keys, s.log.users.Keys, a.id,
                         limits.fixedUsers, limits.maxUsers);
    }
  }

  lemma FateUnderRecordPizza(limits: Limits, s: State, a: Action, r: int)
    requires RatingsOk(s.db.users.Keys, s.db.pizzas.Keys, s.db.ratings, s.log.ratings)
    requires forall p :: p in s.db.pizzas ==> p in s.log.pizzas
    requires r in s.db.ratings && a.RecordPizza?
    ensures Accounted(limits, s, Apply(limits, s, a), a, r)
  {
    var s' := Apply(limits, s, a);
    if r !in s'.db.ratings {
      assert s'.log.pizzas.Keys == s.log.pizzas.Keys + {a.id};
      TrimmedIsEvictable(s.db.ratings[r].pizzaId, a.view, s.db.pizzas.Keys, s.log.pizzas.Keys, a.id,
                         limits.fixedPizzas, limits.maxPizzas);
    }
  }

  lemma FateUnderWriteStars(limits: Limits, s: State, a: Action, r: int)
    requires RatingsOk(s.db.users.Keys, s.db.pizzas.Keys, s.db.ratings, s.log.ratings)
    requires PendingOk(s.pending, s.log.ratings)
    requires r in s.db.ratings && a.WriteStars?
    ensures Accounted(limits, s, Apply(limits, s, a), a, r)
  {
  }

  lemma FateUnderDelete(limits: Limits, s: State, a: Action, r: int)
    requires RatingsOk(s.db.users.Keys, s.db.pizzas.Keys, s.db.ratings, s.log.ratings)
    requires PendingOk(s.pending, s.log.ratings)
    requires r in s.db.ratings && (a.DeleteRead? || a.DeleteAll?)
    ensures Accounted(limits, s, Apply(limits, s, a), a, r)
  {
  }

  lemma OthersLeaveRatings(limits: Limits, s: State, a: Action)
    requires a.Authenticate? || a.CheckPizza? || a.CheckUsername? || a.ReadForUpdate? || a.ReadForDelete?
    ensures Apply(limits, s, a).db == s.db
  {
  }

  /** Everything that can happen to a rating in one step of anybody: nothing, an edit or a deletion
      by its owner, or eviction. */
  lemma RatingFate(limits: Limits, s: State, a: Action, r: int)
    requires Inv(limits, s) && r in s.db.ratings
    ensures Accounted(limits, s, Apply(limits, s, a), a, r)
  {
    match a
    case AddRating(_, _, _) => FateUnderAddRating(limits, s, a, r);
    case AddUser(_, _, _) => FateUnderAddUser(limits, s, a, r);
    case RecordPizza(_, _, _, _) => FateUnderRecordPizza(limits, s, a, r);
    case WriteStars(_) => FateUnderWriteStars(limits, s, a, r);
    case DeleteRead(_) => FateUnderDelete(limits, s, a, r);
    case DeleteAll(_) => FateUnderDelete(limits, s, a, r);
    case _ => OthersLeaveRatings(limits, s, a);
  }

  /** Step `k` writes the stars of `r`, for its owner. */
  ghost predicate WritesAt(limits: Limits, s: State, actions: seq<Action>, k: nat, r: int) {
    && k < |actions| && r in At(limits, s, actions, k).db.ratings
    && WritesForOwner(At(limits, s, actions, k), actions[k], r)
  }

  /** The stars that write asked for. */
  function Written(limits: Limits, s: State, actions: seq<Action>, k: nat): int {
    if k < |actions| && actions[k].WriteStars? && actions[k].t in At(limits, s, actions, k).pending &&
       At(limits, s, actions, k).pending[actions[k].t].Updating?
    then At(limits, s, actions, k).pending[actions[k].t].stars
    else 0
  }

  /** Of the first `n` steps, `k` is the last that wrote `r`. */
  ghost predicate LastWrite(limits: Limits, s: State, actions: seq<Action>, n: nat, k: nat, r: int) {
    && k < n && WritesAt(limits, s, actions, k, r)
    && forall j: nat :: k < j < n ==> !WritesAt(limits, s, actions, j, r)
  }

  /** Step `k` took `r` away: its owner deleted it, or it was evicted. */
  ghost predicate LeftAt(limits: Limits, s: State, actions: seq<Action>, k: nat, r: int) {
    && k < |actions|
    && var before, after := At(limits, s, actions, k), At(limits, s, actions, k + 1);
      && r in before.db.ratings && r !in after.db.ratings
      && (DeletedByOwner(before, actions[k], r) || Evicted(limits, before, after, actions[k], r))
  }

  /** Of the first `n` steps: `r` is there, with the stars its owner's last update asked for, or those it
      had if there was none; or it left at one of the steps, deleted by its owner or evicted. */
  ghost predicate AccountedOver(limits: Limits, s: State, actions: seq<Action>, n: nat, r: int)
    requires r in s.db.ratings && n <= |actions|
  {
    var start, end := s.db.ratings, At(limits, s, actions, n).db.ratings;
    if r in end then
      && SameRating(end[r], start[r])
      && (((forall k: nat :: k < n ==> !WritesAt(limits, s, actions, k, r)) && end[r] == start[r]) ||
          exists k: nat :: LastWrite(limits, s, actions, n, k, r) && end[r].stars == Written(limits, s, actions, k))
    else
      exists k: nat :: k < n && LeftAt(limits, s, actions, k, r)
  }

  lemma OneMoreStep(limits: Limits, s: State, actions: seq<Action>, n: nat, r: int)
    requires r in s.db.ratings && n < |actions| && AccountedOver(limits, s, actions, n, r)
    requires var before, after := At(limits, s, actions, n), At(limits, s, actions, n + 1);
      if r in before.db.ratings then Accounted(limits, before, after, actions[n], r) else r !in after.db.ratings
    ensures AccountedOver(limits, s, actions, n + 1, r)
  {
    var before, after := At(limits, s, actions, n).db.ratings, At(limits, s, actions, n + 1).db.ratings;
    if r !in before {
      var k: nat :| k < n && LeftAt(limits, s, actions, k, r);
    } else if r !in after {
      assert LeftAt(limits, s, actions, n, r);
    } else if WritesAt(limits, s, actions, n, r) {
      assert LastWrite(limits, s, actions, n + 1, n, r);
    } else if k: nat :| LastWrite(limits, s, actions, n, k, r) && before[r].stars == Written(limits, s, actions, k) {
      assert LastWrite(limits, s, actions, n + 1, k, r);
    }
  }

  lemma StepIsAccounted(limits: Limits, s: State, actions: seq<Action>, n: nat, r: int)
    requires Inv(limits, s) && r in s.log.ratings && n < |actions|
    ensures var before, after := At(limits, s, actions, n), At(limits, s, actions, n + 1);
      if r in before.db.ratings then Accounted(limits, before, after, actions[n], r) else r !in after.db.ratings
  {
    var before := At(limits, s, actions, n);
    AtNext(limits, s, actions, n);
    if r in before.db.ratings {
      RunKeepsInv(limits, s, actions[..n]);
      RatingFate(limits, before, actions[n], r);
    } else {
      NeverRevived(limits, s, actions[..n]);
      StepRevivesNothing(limits, before, actions[n]);
    }
  }

  lemma NothingHappenedYet(limits: Limits, s: State, actions: seq<Action>, r: int)
    requires r in s.db.ratings
    ensures AccountedOver(limits, s, actions, 0, r)
  {
    AtStart(limits, s, actions);
  }

  lemma {:induction false} FateOverSteps(limits: Limits, s: State, actions: seq<Action>, n: nat, r: int)
    requires Inv(limits, s) && r in s.db.ratings && n <= |actions|
    ensures AccountedOver(limits, s, actions, n, r)
  {
    if n == 0 {
      NothingHappenedYet(limits, s, actions, r);
    } else {
      FateOverSteps(limits, s, actions, n - 1, r);
      StepIsAccounted(limits, s, actions, n - 1, r);
      OneMoreStep(limits, s, actions, n - 1, r);
    }
  }

  /** The same over whole runs of anybody: what became of a rating, and by whom. */
  lemma RatingFateOverRun(limits: Limits, s: State, actions: seq<Action>, r: int)
    requires Inv(limits, s) && r in s.db.ratings
    ensures var n, start, end := |actions|, s.db.ratings, Run(limits, s, actions).db.ratings;
      if r in end then
        && SameRating(end[r], start[r])
        && (((forall k: nat :: k < n ==> !WritesAt(limits, s, actions, k, r)) && end[r] == start[r]) ||
            exists k: nat :: LastWrite(limits, s, actions, n, k, r) && end[r].stars == Written(limits, s, actions, k))
      else
        exists k: nat :: LeftAt(limits, s, actions, k, r)
  {
    FateOverSteps(limits, s, actions, |actions|, r);
    assert actions[..|actions|] == actions;
  }

  /** No request asks to delete ratings of this user. */
  predicate NoDeletesBy(actions: seq<Action>, user: int) {
    forall a :: a in actions && (a.ReadForDelete? || a.DeleteAll?) ==>
      a.caller.id != user || a.caller.username == GLOBAL_USERNAME
  }

  predicate NoDeletePending(s: State, user: int) {
    forall t :: t in s.pending && s.pending[t].Deleting? ==> s.pending[t].owner != user
  }

  ghost predicate ProtectedRating(limits: Limits, s: State, r: int) {
    && r in s.db.ratings && r <= limits.fixedRatings
    && s.db.ratings[r].userId <= limits.fixedUsers && s.db.ratings[r].pizzaId <= limits.fixedPizzas
  }

  /** The owner is the default user, who cannot delete, or one who does not. */
  ghost predicate OwnerDoesNotDelete(s: State, actions: seq<Action>, user: int) {
    user == 1 || (NoDeletesBy(actions, user) && NoDeletePending(s, user))
  }

  lemma NoDeletePendingStep(limits: Limits, s: State, a: Action, user: int)
    requires NoDeletesBy([a], user) && NoDeletePending(s, user)
    ensures NoDeletePending(Apply(limits, s, a), user)
  {
    assert a in [a];
  }

  lemma ProtectedRatingStep(limits: Limits, s: State, a: Action, r: int)
    requires Inv(limits, s) && ProtectedRating(limits, s, r)
    requires OwnerDoesNotDelete(s, [a], s.db.ratings[r].userId)
    ensures ProtectedRating(limits, Apply(limits, s, a), r)
    ensures SameRating(Apply(limits, s, a).db.ratings[r], s.db.ratings[r])
  {
    assert a in [a];
    RatingFate(limits, s, a, r);
    assert !DeletedByOwner(s, a, r);
  }

  /** A rating in the protected range, of a protected user and pizza, survives every run in which
      its owner does not delete it, through all trims and cascades. */
  lemma {:induction false} ProtectedRatingSurvives(limits: Limits, s: State, actions: seq<Action>, r: int)
    requires Inv(limits, s) && ProtectedRating(limits, s, r)
    requires OwnerDoesNotDelete(s, actions, s.db.ratings[r].userId)
    ensures var s' := Run(limits, s, actions);
      r in s'.db.ratings && SameRating(s'.db.ratings[r], s.db.ratings[r])
    decreases |actions|
  {
    if actions != [] {
      var a, user := actions[0], s.db.ratings[r].userId;
      assert a in actions && forall b :: b in actions[1..] ==> b in actions;
      ProtectedRatingStep(limits, s, a, r);
      if user != 1 { NoDeletePendingStep(limits, s, a, user); }
      ApplyKeepsInv(limits, s, a);
      ProtectedRatingSurvives(limits, Apply(limits, s, a), actions[1..], r);
    }
  }

  lemma DefaultRatingFate(limits: Limits, s: State, a: Action, r: int)
    requires Inv(limits, s) && r in s.db.ratings && s.db.ratings[r].userId == 1
    ensures var s' := Apply(limits, s, a);
      if r in s'.db.ratings then s'.db.ratings[r] == s.db.ratings[r] else Evicted(limits, s, s', a, r)
  {
    RatingFate(limits, s, a, r);
    assert !DeletedByOwner(s, a, r);
  }

  /** The default user's ratings are never edited and leave only by a trim or a cascade: true of
      every step after every run, since who acts was authenticated and keeps the name it had. */
  lemma DefaultRatingsLeaveByEvictionOnly(limits: Limits, catalogue: Catalogue, now: int, actions: seq<Action>,
                                          a: Action, r: int)
    requires HoldsSeedItems(catalogue)
    requires var s := Run(limits, Seed(catalogue, now), actions);
      r in s.db.ratings && s.db.ratings[r].userId == 1
    ensures var s := Run(limits, Seed(catalogue, now), actions); var s' := Apply(limits, s, a);
      if r in s'.db.ratings then s'.db.ratings[r] == s.db.ratings[r] else Evicted(limits, s, s', a, r)
  {
    ReachableInv(limits, catalogue, now, actions);
    DefaultRatingFate(limits, Run(limits, Seed(catalogue, now), actions), a, r);
  }

  lemma {:induction false} ProtectedDefaultRatingStays(limits: Limits, s: State, actions: seq<Action>, r: int)
    requires Inv(limits, s) && ProtectedRating(limits, s, r) && s.db.ratings[r].userId == 1
    ensures var s' := Run(limits, s, actions); r in s'.db.ratings && s'.db.ratings[r] == s.db.ratings[r]
    decreases |actions|
  {
    if actions != [] {
      ProtectedRatingStep(limits, s, actions[0], r);
      DefaultRatingFate(limits, s, actions[0], r);
      ApplyKeepsInv(limits, s, actions[0]);
      ProtectedDefaultRatingStays(limits, Apply(limits, s, actions[0]), actions[1..], r);
    }
  }

  /** With the default settings the seeded ratings are permanent, stars included, whatever anybody does. */
  lemma SeedRatingsArePermanent(limits: Limits, catalogue: Catalogue, now: int, actions: seq<Action>, r: int)
    requires HoldsSeedItems(catalogue)
    requires 3 <= limits.fixedPizzas && 1 <= limits.fixedUsers && 3 <= limits.fixedRatings
    requires 1 <= r <= 3
    ensures var s := Run(limits, Seed(catalogue, now), actions);
      r in s.db.ratings && s.db.ratings[r] == RatingRow(if r == 1 then 5 else 1, 1, r)
  {
    SeedInv(limits, catalogue, now);
    ProtectedDefaultRatingStays(limits, Seed(catalogue, now), actions, r);
  }

  /** And so are the seeded pizzas, with their rows and their ingredients. */
  lemma SeedPizzasArePermanent(limits: Limits, catalogue: Catalogue, now: int, actions: seq<Action>)
    requires HoldsSeedItems(catalogue) && 3 <= limits.fixedPizzas
    ensures var db := Run(limits, Seed(catalogue, now), actions).db;
      && {1, 2, 3} <= db.pizzas.Keys
      && db.pizzas[1] == PizzaRow(now, "A Funny Capricciosa", 1, "Scissors")
      && db.pizzas[2] == PizzaRow(now, "The Database Special", 2, "Knife")
      && db.pizzas[3] == PizzaRow(now, "The Deep Bolognese", 3, "Knife")
      && LinkedTo(db.links, 1) == {2, 5, 6, 18, 24}
      && LinkedTo(db.links, 2) == {3, 5, 7, 22}
      && LinkedTo(db.links, 3) == {3, 6, 9}
  {
    var seed := Seed(catalogue, now);
    var s := Run(limits, seed, actions);
    SeedPizzaColumns(catalogue, now);
    assert forall p :: p in {1, 2, 3} ==> p in s.log.pizzas && s.log.pizzas[p] == seed.log.pizzas[p] by {
      NeverRevived(limits, seed, actions);
    }
    ReachableInv(limits, catalogue, now, actions);
    forall p | p in {1, 2, 3} ensures p in s.db.pizzas {
      assert p in Kept(s.log.pizzas.Keys, limits.fixedPizzas, limits.maxPizzas);
    }
    LivePizzaAsLogged(limits, s, 1);
    LivePizzaAsLogged(limits, s, 2);
    LivePizzaAsLogged(limits, s, 3);
  }

  lemma LivePizzaAsLogged(limits: Limits, s: State, p: int)
    requires PizzasOk(limits, s.db.catalogue, s.db.pizzas, s.db.links, s.log.pizzas) && p in s.db.pizzas
    ensures s.db.pizzas[p] == s.log.pizzas[p].row && LinkedTo(s.db.links, p) == s.log.pizzas[p].ingredients
  {
  }

  lemma SeedPizzaColumns(catalogue: Catalogue, now: int)
    ensures var log := Seed(catalogue, now).log.pizzas;
      && log.Keys == {1, 2, 3}
      && log[1] == LoggedPizza(PizzaRow(now, "A Funny Capricciosa", 1, "Scissors"), {2, 5, 6, 18, 24})
      && log[2] == LoggedPizza(PizzaRow(now, "The Database Special", 2, "Knife"), {3, 5, 7, 22})
      && log[3] == LoggedPizza(PizzaRow(now, "The Deep Bolognese", 3, "Knife"), {3, 6, 9})
  {
  }

  /** The handlers validate stars before they call the store. */
  predicate StarsValidated(actions: seq<Action>) {
    forall a :: a in actions ==>
      && (a.CheckPizza? ==> ValidStars(a.row.stars))
      && (a.ReadForUpdate? ==> ValidStars(a.stars))
  }

  ghost predicate StarsInRange(s: State) {
    && (forall r :: r in s.db.ratings ==> ValidStars(s.db.ratings[r].stars))
    && (forall t :: t in s.pending ==>
          match s.pending[t]
          case Rating(row) => ValidStars(row.stars)
          case Updating(_, _, stars) => ValidStars(stars)
          case _ => true)
  }

  lemma StarsStep(limits: Limits, s: State, a: Action)
    requires StarsInRange(s) && StarsValidated([a])
    ensures StarsInRange(Apply(limits, s, a))
  {
    assert a in [a];
  }

  lemma {:induction false} StarsStayInRange(limits: Limits, s: State, actions: seq<Action>)
    requires StarsInRange(s) && StarsValidated(actions)
    ensures StarsInRange(Run(limits, s, actions))
    decreases |actions|
  {
    if actions != [] {
      assert actions[0] in actions && forall a :: a in actions[1..] ==> a in actions;
      StarsStep(limits, s, actions[0]);
      StarsStayInRange(limits, Apply(limits, s, actions[0]), actions[1..]);
    }
  }

  lemma ReachableStarsInRange(limits: Limits, catalogue: Catalogue, now: int, actions: seq<Action>)
    requires StarsValidated(actions)
    ensures var ratings := Run(limits, Seed(catalogue, now), actions).db.ratings;
      forall r :: r in ratings ==> 1 <= ratings[r].stars <= 5
  {
    StarsStayInRange(limits, Seed(catalogue, now), actions);
  }
}
