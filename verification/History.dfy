/** The list of latest pizzas, read from the trimmed table and from the log that was never trimmed. */
module History {
  import opened Model
  import opened Sets
  import opened TableLimits
  import opened Store
  import opened Interleaving
  import opened Runs

  function CreationTimes(pizzas: map<int, PizzaRow>): map<int, int> {
    map p | p in pizzas :: pizzas[p].createdAt
  }

  function LoggedTimes(log: Log): map<int, int> {
    map p | p in log.pizzas :: log.pizzas[p].row.createdAt
  }

  /** The clock does not run backwards between an id and a later one. */
  ghost predicate ClockOrdered(log: Log) {
    forall p, q :: p in log.pizzas && q in log.pizzas && p < q ==>
      log.pizzas[p].row.createdAt <= log.pizzas[q].row.createdAt
  }

  /** A trim is invisible to `ORDER BY created_at DESC LIMIT n`: rows that have `maximum` newer ones
      are not among the first n, as long as creation times rise with the id. */
  lemma TrimmedTopIsLoggedTop(live: map<int, int>, logged: map<int, int>, limit: nat, fixed: int, maximum: int,
                              top: seq<int>)
    requires Kept(logged.Keys, fixed, maximum) <= live.Keys <= logged.Keys
    requires forall i :: i in live ==> live[i] == logged[i]
    requires RisesWithId(logged) && (maximum <= 0 || limit <= maximum)
    ensures IsTop(live, limit, top) <==> IsTop(logged, limit, top)
  {
    BetweenKeptAndLog(live.Keys, logged.Keys, limit, fixed, maximum);
    TopIsNewest(live, limit, top);
    TopIsNewest(logged, limit, top);
  }

  /** The history over the live table has exactly the answers it has over the log, in every state of
      every interleaving. */
  lemma HistoryIsThatOfTheLog(limits: Limits, s: State, limit: nat, history: seq<int>)
    requires Inv(limits, s) && ClockOrdered(s.log)
    requires limits.maxPizzas <= 0 || limit <= limits.maxPizzas
    ensures IsTop(CreationTimes(s.db.pizzas), limit, history) <==> IsTop(LoggedTimes(s.log), limit, history)
  {
    var live, logged := CreationTimes(s.db.pizzas), LoggedTimes(s.log);
    forall p | p in live.Keys ensures p in logged.Keys {}
    assert live.Keys == s.db.pizzas.Keys && logged.Keys == s.log.pizzas.Keys;
    TrimmedTopIsLoggedTop(live, logged, limit, limits.fixedPizzas, limits.maxPizzas, history);
  }

  // ---------- Without the clock: exactly when ----------

  /** The column as a single trim of the whole log leaves it. */
  function Trimmed(logged: map<int, int>, fixed: int, maximum: int): map<int, int> {
    logged - ToDelete(logged.Keys, fixed, maximum)
  }

  /** The comment's claim that ordering by id keeps what ordering by creation time would, for one
      setting and any log: exactly when the rows latest by time are protected or newest by id. */
  lemma TrimIsInvisibleExactlyWhen(logged: map<int, int>, fixed: int, maximum: nat)
    requires 0 < maximum
    ensures SameTops(Trimmed(logged, fixed, maximum), logged, maximum) <==> LatestAreNewest(logged, fixed, maximum)
  {
    assert Trimmed(logged, fixed, maximum).Keys == Kept(logged.Keys, fixed, maximum);
    SameTopsExactlyWhen(Trimmed(logged, fixed, maximum), logged, maximum);
    TrimKeepsFirstExactlyWhen(logged, fixed, maximum);
  }

  /** And for all settings at once, when nothing is protected: exactly when the clock never ran
      backwards between two ids. */
  lemma ClockOrderedExactlyWhen(log: Log)
    requires Positive(log.pizzas.Keys)
    ensures ClockOrdered(log) <==>
      forall maximum: nat :: 0 < maximum ==> SameTops(Trimmed(LoggedTimes(log), 0, maximum), LoggedTimes(log), maximum)
  {
    var logged := LoggedTimes(log);
    assert logged.Keys == log.pizzas.Keys;
    assert ClockOrdered(log) <==> RisesWithId(logged) by {
      assert forall p :: p in logged ==> logged[p] == log.pizzas[p].row.createdAt;
    }
    RisesExactlyWhen(logged);
    forall maximum: nat | 0 < maximum
      ensures SameTops(Trimmed(logged, 0, maximum), logged, maximum) <==> LatestAreNewest(logged, 0, maximum)
    {
      TrimIsInvisibleExactlyWhen(logged, 0, maximum);
    }
  }

  /** In every interleaving the history is that of the log exactly when the latest `maxPizzas` of
      the log are live, whatever the clock did. */
  lemma HistoryIsThatOfTheLogExactlyWhen(limits: Limits, s: State)
    requires Inv(limits, s) && 0 < limits.maxPizzas
    ensures SameTops(CreationTimes(s.db.pizzas), LoggedTimes(s.log), limits.maxPizzas) <==>
            First(LoggedTimes(s.log), limits.maxPizzas) <= s.db.pizzas.Keys
  {
    var live, logged := CreationTimes(s.db.pizzas), LoggedTimes(s.log);
    forall p | p in live.Keys ensures p in logged.Keys {}
    assert live.Keys == s.db.pizzas.Keys;
    SameTopsExactlyWhen(live, logged, limits.maxPizzas);
  }

  /** In serial runs that condition is one on the log. */
  lemma SerialHistoryExactlyWhen(limits: Limits, catalogue: Catalogue, now: int, actions: seq<Action>)
    requires HoldsSeedItems(catalogue) && Serial(actions) && 0 < limits.maxPizzas
    requires Run(limits, Seed(catalogue, now), actions).log.pizzas.Keys != SeedPizzas(now).Keys
    ensures var s := Run(limits, Seed(catalogue, now), actions);
      SameTops(CreationTimes(s.db.pizzas), LoggedTimes(s.log), limits.maxPizzas) <==>
      LatestAreNewest(LoggedTimes(s.log), limits.fixedPizzas, limits.maxPizzas)
  {
    var s := Run(limits, Seed(catalogue, now), actions);
    assert s.db.pizzas.Keys == Kept(s.log.pizzas.Keys, limits.fixedPizzas, limits.maxPizzas) by {
      SerialRunsTrimTheLog(limits, catalogue, now, actions);
    }
    assert SameTops(CreationTimes(s.db.pizzas), LoggedTimes(s.log), limits.maxPizzas) <==>
           First(LoggedTimes(s.log), limits.maxPizzas) <= s.db.pizzas.Keys by {
      ReachableInv(limits, catalogue, now, actions);
      HistoryIsThatOfTheLogExactlyWhen(limits, s);
    }
    assert LoggedTimes(s.log).Keys == s.log.pizzas.Keys;
    TrimKeepsFirstExactlyWhen(LoggedTimes(s.log), limits.fixedPizzas, limits.maxPizzas);
  }

  /** One pizza recorded by a clock that was set back, into a table limited to one row. */
  function LateClockPizza(now: int): Action {
    RecordPizza(4, PizzaRow(now - 1, "An Early Margherita", 1, "Knife"), [2, 3, 6], Whole)
  }

  lemma LateClockLog(limits: Limits, s: State, now: int)
    requires HoldsSeedItems(s.db.catalogue) && s.log.pizzas.Keys == {1, 2, 3}
    ensures var a := LateClockPizza(now);
      Apply(limits, s, a).log.pizzas == s.log.pizzas[4 := LoggedPizza(a.pizza, set i | i in a.ingredients)]
  {
    assert CanAddPizza(s.db, LateClockPizza(now).pizza, LateClockPizza(now).ingredients);
  }

  lemma LateClockLive(limits: Limits, s: State, now: int)
    requires PizzasOk(limits, s.db.catalogue, s.db.pizzas, s.db.links, s.log.pizzas)
    requires HoldsSeedItems(s.db.catalogue) && s.log.pizzas.Keys == {1, 2, 3}
    requires limits.fixedPizzas == 0 && limits.maxPizzas == 1
    ensures Apply(limits, s, LateClockPizza(now)).db.pizzas.Keys == {4}
  {
    var s' := Apply(limits, s, LateClockPizza(now));
    assert s'.log.pizzas.Keys == {1, 2, 3, 4} && s'.log.pizzas != s.log.pizzas by {
      LateClockLog(limits, s, now);
      assert 4 !in s.log.pizzas.Keys;
    }
    PizzaTrimHeals(limits, s, LateClockPizza(now));
    KeptOne(s'.log.pizzas.Keys, 4);
  }

  lemma LateClockLoggedTop(limits: Limits, s: State, now: int, history: seq<int>)
    requires HoldsSeedItems(s.db.catalogue) && s.log.pizzas.Keys == {1, 2, 3}
    requires forall p :: p in s.log.pizzas ==> s.log.pizzas[p].row.createdAt == now
    ensures IsTop(LoggedTimes(Apply(limits, s, LateClockPizza(now)).log), 1, history) <==> history == [3]
  {
    var logged := LoggedTimes(Apply(limits, s, LateClockPizza(now)).log);
    LateClockLog(limits, s, now);
    assert logged.Keys == {1, 2, 3, 4};
    TopRow(logged, 3, history);
  }

  lemma SeedPizzaLog(catalogue: Catalogue, now: int)
    ensures var log := Seed(catalogue, now).log.pizzas;
      log.Keys == {1, 2, 3} && forall p :: p in log ==> log[p].row.createdAt == now
  {
  }

  /** Creation times must rise with the id: here the store's history is pizza 4, and the latest
      pizza ever recorded, which the trim deleted, is pizza 3. */
  lemma BackwardClockLosesTheLatest(limits: Limits, catalogue: Catalogue, now: int, history: seq<int>)
    requires HoldsSeedItems(catalogue) && limits.fixedPizzas == 0 && limits.maxPizzas == 1
    ensures var s := Run(limits, Seed(catalogue, now), [LateClockPizza(now)]);
      && (IsTop(CreationTimes(s.db.pizzas), 1, history) <==> history == [4])
      && (IsTop(LoggedTimes(s.log), 1, history) <==> history == [3])
  {
    SeedPizzasOk(limits, catalogue, now);
    SeedPizzaLog(catalogue, now);
    RunSingle(limits, Seed(catalogue, now), LateClockPizza(now));
    LateClockLoggedTop(limits, Seed(catalogue, now), now, history);
    LateClockLive(limits, Seed(catalogue, now), now);
    TopRow(CreationTimes(Apply(limits, Seed(catalogue, now), LateClockPizza(now)).db.pizzas), 4, history);
  }

  /** Ordering by id stands in for ordering by creation time: a serial run never evicts a pizza
      created after one it keeps, other than the protected ones. */
  lemma EvictedAreOlder(limits: Limits, catalogue: Catalogue, now: int, actions: seq<Action>, evicted: int, kept: int)
    requires HoldsSeedItems(catalogue) && Serial(actions)
    requires var s := Run(limits, Seed(catalogue, now), actions);
      && ClockOrdered(s.log)
      && evicted in s.log.pizzas && evicted !in s.db.pizzas
      && kept in s.db.pizzas && limits.fixedPizzas < kept
    ensures var s := Run(limits, Seed(catalogue, now), actions);
      && evicted < kept
      && s.log.pizzas[evicted].row.createdAt <= s.db.pizzas[kept].createdAt
  {
    var s := Run(limits, Seed(catalogue, now), actions);
    ReachableInv(limits, catalogue, now, actions);
    SerialRunsTrimTheLog(limits, catalogue, now, actions);
    var ids := s.log.pizzas.Keys;
    assert evicted in ToDelete(ids, limits.fixedPizzas, limits.maxPizzas);
    assert kept in Newest(ids, limits.maxPizzas);
    if kept <= evicted {
      NewestUpClosed(ids, limits.maxPizzas, kept, evicted);
    }
  }
}
