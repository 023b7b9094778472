/** The store under concurrent callers: every operation is split where the code leaves the
    database between a check and the transaction that relies on it, and a run is any
    interleaving of the pieces. */
module Interleaving {
  import opened Model
  import opened Sets
  import opened TableLimits
  import opened Store

  /** What was ever inserted, as it was inserted. It only grows. */
  datatype LoggedPizza = LoggedPizza(row: PizzaRow, ingredients: set<int>)
  datatype Log = Log(users: map<int, UserRow>, pizzas: map<int, LoggedPizza>, ratings: map<int, RatingRow>)

  /** A user as `Authenticate` handed it to a caller, possibly a while ago. */
  datatype Caller = Caller(id: int, username: string)

  /** What an operation has checked or read, and not yet written. */
  datatype Pending =
    | Rating(row: RatingRow)
    | Registering(account: UserRow)
    | Updating(rating: int, owner: int, stars: int)
    | Deleting(rating: int, owner: int)

  /** The tables, what was ever inserted, what the running requests hold, and whom they act for. */
  datatype State = State(db: Db, log: Log, pending: map<int, Pending>, callers: set<Caller>)

  /** What the trimming statement of a transaction reads: the whole table, or any of the rows
      committed so far (also rows deleted since). Its own insert it always reads. */
  datatype View = Whole | Partial(ids: set<int>)

  function Seen(view: View, issued: set<int>, live: set<int>, own: int): set<int> {
    match view
    case Whole => live + {own}
    case Partial(ids) => ids * issued + {own}
  }

  /** `t` names the request that runs an operation of two steps; `id` is the id the database issues. */
  datatype Action =
    | Authenticate(token: string, user: int)
    | RecordPizza(id: int, pizza: PizzaRow, ingredients: seq<int>, view: View)
    | CheckPizza(t: int, row: RatingRow)
    | AddRating(t: int, id: int, view: View)
    | CheckUsername(t: int, username: string, password: string, token: string)
    | AddUser(t: int, id: int, view: View)
    | ReadForUpdate(t: int, caller: Caller, rating: int, stars: int)
    | WriteStars(t: int)
    | ReadForDelete(t: int, caller: Caller, rating: int)
    | DeleteRead(t: int)
    | DeleteAll(caller: Caller)

  predicate Fresh(id: int, issued: set<int>) { 1 <= id && id !in issued }

  predicate OwnedBy(db: Db, rating: int, user: int) {
    rating in db.ratings && db.ratings[rating].userId == user
  }

  /** The caller was answered by `Authenticate`, and is not the default user. */
  predicate MayChange(s: State, caller: Caller) {
    caller in s.callers && caller.username != GLOBAL_USERNAME
  }

  function Close(s: State, t: int): State { s.(pending := s.pending - {t}) }

  function Open(s: State, t: int, p: Pending): State { s.(pending := s.pending[t := p]) }

  // ---------- The steps ----------
  // A step that the code refuses, or that has nothing to continue, changes no table.

  function AfterAuthenticate(s: State, token: string, user: int): State {
    if AuthenticatesAs(s.db, token, user)
    then s.(callers := s.callers + {Caller(user, s.db.users[user].username)})
    else s
  }

  function AfterRecordPizza(limits: Limits, s: State, id: int, row: PizzaRow, ingredients: seq<int>,
                            view: View): State
  {
    if Fresh(id, s.log.pizzas.Keys) then
      match InsertPizza(limits, s.db, id, row, ingredients, Seen(view, s.log.pizzas.Keys, s.db.pizzas.Keys, id))
      case Some(db) =>
        var logged := LoggedPizza(row, set i | i in ingredients);
        s.(db := db, log := s.log.(pizzas := s.log.pizzas[id := logged]))
      case None => s
    else s
  }

  function AfterCheckPizza(s: State, t: int, row: RatingRow): State {
    if row.pizzaId in s.db.pizzas then Open(s, t, Rating(row)) else Close(s, t)
  }

  function AfterAddRating(limits: Limits, s: State, t: int, id: int, view: View): State {
    if t in s.pending && s.pending[t].Rating? && Fresh(id, s.log.ratings.Keys) then
      var row := s.pending[t].row;
      match InsertRating(limits, s.db, id, row, Seen(view, s.log.ratings.Keys, s.db.ratings.Keys, id))
      case Some(db) => Close(s, t).(db := db, log := s.log.(ratings := s.log.ratings[id := row]))
      case None => Close(s, t)
    else s
  }

  function AfterCheckUsername(s: State, t: int, username: string, password: string, token: string): State {
    if password != "" && forall u :: u in s.db.users ==> s.db.users[u].username != username
    then Open(s, t, Registering(UserRow(username, token, HashOf(password), "")))
    else Close(s, t)
  }

  function AfterAddUser(limits: Limits, s: State, t: int, id: int, view: View): State {
    if t in s.pending && s.pending[t].Registering? && Fresh(id, s.log.users.Keys) then
      var row := s.pending[t].account;
      match InsertUser(limits, s.db, id, row, Seen(view, s.log.users.Keys, s.db.users.Keys, id))
      case Some(db) => Close(s, t).(db := db, log := s.log.(users := s.log.users[id := row]))
      case None => Close(s, t)
    else s
  }

  function AfterReadForUpdate(s: State, t: int, caller: Caller, rating: int, stars: int): State {
    if MayChange(s, caller) && OwnedBy(s.db, rating, caller.id)
    then Open(s, t, Updating(rating, caller.id, stars))
    else Close(s, t)
  }

  function AfterWriteStars(s: State, t: int): State {
    if t in s.pending && s.pending[t].Updating?
    then Close(s, t).(db := SetStars(s.db, s.pending[t].rating, s.pending[t].stars))
    else s
  }

  function AfterReadForDelete(s: State, t: int, caller: Caller, rating: int): State {
    if MayChange(s, caller) && OwnedBy(s.db, rating, caller.id)
    then Open(s, t, Deleting(rating, caller.id))
    else Close(s, t)
  }

  function AfterDeleteRead(s: State, t: int): State {
    if t in s.pending && s.pending[t].Deleting?
    then Close(s, t).(db := WithoutRatings(s.db, {s.pending[t].rating}))
    else s
  }

  function AfterDeleteAll(s: State, caller: Caller): State {
    if MayChange(s, caller)
    then s.(db := WithoutRatings(s.db, RatingsOf(s.db, caller.id)))
    else s
  }

  function Apply(limits: Limits, s: State, a: Action): State {
    match a
    case Authenticate(token, user) => AfterAuthenticate(s, token, user)
    case RecordPizza(id, row, ingredients, view) => AfterRecordPizza(limits, s, id, row, ingredients, view)
    case CheckPizza(t, row) => AfterCheckPizza(s, t, row)
    case AddRating(t, id, view) => AfterAddRating(limits, s, t, id, view)
    case CheckUsername(t, username, password, token) => AfterCheckUsername(s, t, username, password, token)
    case AddUser(t, id, view) => AfterAddUser(limits, s, t, id, view)
    case ReadForUpdate(t, caller, rating, stars) => AfterReadForUpdate(s, t, caller, rating, stars)
    case WriteStars(t) => AfterWriteStars(s, t)
    case ReadForDelete(t, caller, rating) => AfterReadForDelete(s, t, caller, rating)
    case DeleteRead(t) => AfterDeleteRead(s, t)
    case DeleteAll(caller) => AfterDeleteAll(s, caller)
  }

  function Run(limits: Limits, s: State, actions: seq<Action>): State
    decreases |actions|
  {
    if actions == [] then s else Run(limits, Apply(limits, s, actions[0]), actions[1..])
  }

  function Seed(catalogue: Catalogue, now: int): State {
    State(SeedDb(catalogue, now),
          Log(SeedUsers(),
              map p | p in SeedPizzas(now) :: LoggedPizza(SeedPizzas(now)[p], SeedIngredients(p)),
              SeedRatings()),
          map[], {})
  }

  // ---------- The invariant, table by table ----------

  predicate Positive(ids: set<int>) { forall i :: i in ids ==> 1 <= i }

  predicate SameRating(a: RatingRow, b: RatingRow) { a.userId == b.userId && a.pizzaId == b.pizzaId }

  /** Live users are as they were registered, no two share a name or a token, the default user was
      among them, and no trim has removed what a single trim of all users ever would keep. */
  ghost predicate UsersOk(limits: Limits, users: map<int, UserRow>, log: map<int, UserRow>) {
    && (forall u :: u in users ==> u in log && users[u] == log[u])
    && UniqueAccounts(users)
    && 1 in log && log[1].username == GLOBAL_USERNAME
    && Positive(log.Keys)
    && Kept(log.Keys, limits.fixedUsers, limits.maxUsers) <= users.Keys
  }

  /** The links of a live pizza are the ingredients it was recorded with. */
  ghost predicate LinksAreLogged(pizzas: set<int>, links: set<Link>, log: map<int, LoggedPizza>) {
    forall p :: p in pizzas && p in log ==> LinkedTo(links, p) == log[p].ingredients
  }

  /** The same of pizzas, whose doughs, tools and ingredients exist. */
  ghost predicate PizzasOk(limits: Limits, catalogue: Catalogue, pizzas: map<int, PizzaRow>, links: set<Link>,
                           log: map<int, LoggedPizza>)
  {
    && (forall p :: p in pizzas ==> p in log && pizzas[p] == log[p].row)
    && PizzaKeysHold(catalogue, pizzas)
    && LinkKeysHold(catalogue, pizzas.Keys, links)
    && LinksAreLogged(pizzas.Keys, links, log)
    && Positive(log.Keys)
    && Kept(log.Keys, limits.fixedPizzas, limits.maxPizzas) <= pizzas.Keys
  }

  /** Live ratings are logged ones up to their stars, of live users and pizzas. */
  ghost predicate RatingsOk(users: set<int>, pizzas: set<int>, ratings: map<int, RatingRow>,
                            log: map<int, RatingRow>)
  {
    && (forall r :: r in ratings ==> r in log && SameRating(ratings[r], log[r]))
    && RatingKeysHold(users, pizzas, ratings)
    && Positive(log.Keys)
  }

  /** What was read for an update or a delete belongs to whoever asked for it, never to user 1. */
  ghost predicate PendingOk(pending: map<int, Pending>, log: map<int, RatingRow>) {
    forall t :: t in pending ==>
      match pending[t]
      case Updating(r, owner, _) => r in log && log[r].userId == owner && owner != 1
      case Deleting(r, owner) => r in log && log[r].userId == owner && owner != 1
      case _ => true
  }

  /** Callers carry the name their id was registered with. */
  ghost predicate CallersOk(callers: set<Caller>, log: map<int, UserRow>) {
    forall c :: c in callers ==> c.id in log && log[c.id].username == c.username
  }

  ghost predicate Inv(limits: Limits, s: State) {
    && UsersOk(limits, s.db.users, s.log.users)
    && PizzasOk(limits, s.db.catalogue, s.db.pizzas, s.db.links, s.log.pizzas)
    && RatingsOk(s.db.users.Keys, s.db.pizzas.Keys, s.db.ratings, s.log.ratings)
    && PendingOk(s.pending, s.log.ratings)
    && CallersOk(s.callers, s.log.users)
  }

  /** What the invariant says of the schema. */
  lemma InvMeansConstraints(limits: Limits, s: State)
    requires Inv(limits, s)
    ensures ForeignKeysHold(s.db) && UniqueAccounts(s.db.users)
  {
  }

  // ---------- The seed ----------

  lemma SeedUsersOk(limits: Limits)
    ensures UsersOk(limits, SeedUsers(), SeedUsers())
  {
  }

  lemma SeedLinks(catalogue: Catalogue, now: int, p: int)
    requires p in {1, 2, 3}
    ensures LinkedTo(SeedDb(catalogue, now).links, p) == SeedIngredients(p)
  {
    var links := SeedDb(catalogue, now).links;
    forall i | i in SeedIngredients(p) ensures i in LinkedTo(links, p) {
      assert Link(p, i) in links;
    }
  }

  lemma SeedKeys(catalogue: Catalogue, now: int)
    requires HoldsSeedItems(catalogue)
    ensures PizzaKeysHold(catalogue, SeedPizzas(now))
    ensures LinkKeysHold(catalogue, SeedPizzas(now).Keys, SeedDb(catalogue, now).links)
  {
    forall l | l in SeedDb(catalogue, now).links
      ensures l.pizzaId in SeedPizzas(now) && l.ingredientId in catalogue.ingredients
    {
      assert l.pizzaId in {1, 2, 3} && l.ingredientId in SeedIngredients(l.pizzaId);
    }
  }

  lemma SeedPizzasOk(limits: Limits, catalogue: Catalogue, now: int)
    requires HoldsSeedItems(catalogue)
    ensures var s := Seed(catalogue, now);
      PizzasOk(limits, catalogue, s.db.pizzas, s.db.links, s.log.pizzas)
  {
    SeedKeys(catalogue, now);
    var s := Seed(catalogue, now);
    forall p | p in s.db.pizzas ensures LinkedTo(s.db.links, p) == s.log.pizzas[p].ingredients {
      SeedLinks(catalogue, now, p);
    }
  }

  lemma SeedRatingsOk(now: int)
    ensures RatingsOk(SeedUsers().Keys, SeedPizzas(now).Keys, SeedRatings(), SeedRatings())
  {
  }

  lemma SeedInv(limits: Limits, catalogue: Catalogue, now: int)
    requires HoldsSeedItems(catalogue)
    ensures Inv(limits, Seed(catalogue, now))
  {
    SeedUsersOk(limits);
    SeedPizzasOk(limits, catalogue, now);
    SeedRatingsOk(now);
  }

  // ---------- What each statement does to its table ----------

  lemma SeenAtMost(view: View, issued: set<int>, live: set<int>, own: int)
    requires live <= issued
    ensures Seen(view, issued, live, own) <= issued + {own}
  {
  }

  /** Whatever the trim of an insert read, the table keeps what one trim of its log would keep. */
  lemma InsertKeepsKept<R, L>(view: View, live: map<int, R>, log: map<int, L>, id: int, row: R, logged: L,
                              fixed: int, maximum: int)
    requires forall i :: i in live ==> i in log
    requires Kept(log.Keys, fixed, maximum) <= live.Keys
    ensures var gone := ToDelete(Seen(view, log.Keys, live.Keys, id), fixed, maximum);
      Kept(log[id := logged].Keys, fixed, maximum) <= (live[id := row] - gone).Keys
  {
    var seen := Seen(view, log.Keys, live.Keys, id);
    forall i | i in live.Keys ensures i in log.Keys {}
    SeenAtMost(view, log.Keys, live.Keys, id);
    PartialTrimKeeps(seen, live.Keys, log.Keys, id, fixed, maximum);
    assert log[id := logged].Keys == log.Keys + {id};
    assert (live[id := row] - ToDelete(seen, fixed, maximum)).Keys == live.Keys + {id} - ToDelete(seen, fixed, maximum);
  }

  lemma AccountsStayUnique(users: map<int, UserRow>, id: int, row: UserRow, gone: set<int>)
    requires UniqueAccounts(users) && AccountFree(users, row.username, row.token)
    ensures UniqueAccounts(users[id := row] - gone)
  {
  }

  lemma UserInserted(limits: Limits, users: map<int, UserRow>, log: map<int, UserRow>, id: int, row: UserRow,
                     view: View)
    requires UsersOk(limits, users, log) && Fresh(id, log.Keys) && AccountFree(users, row.username, row.token)
    ensures var gone := ToDelete(Seen(view, log.Keys, users.Keys, id), limits.fixedUsers, limits.maxUsers);
      UsersOk(limits, users[id := row] - gone, log[id := row])
  {
    var gone := ToDelete(Seen(view, log.Keys, users.Keys, id), limits.fixedUsers, limits.maxUsers);
    InsertKeepsKept(view, users, log, id, row, row, limits.fixedUsers, limits.maxUsers);
    AccountsStayUnique(users, id, row, gone);
    PositiveInsert(log, id, row);
  }

  lemma PositiveInsert<L>(log: map<int, L>, id: int, logged: L)
    requires Positive(log.Keys) && 1 <= id
    ensures Positive(log[id := logged].Keys)
  {
  }

  lemma AddedLinks(links: set<Link>, id: int, ingredients: seq<int>, p: int)
    requires forall l :: l in links ==> l.pizzaId != id
    ensures LinkedTo(links + (set i | i in ingredients :: Link(id, i)), p) ==
            if p == id then (set i | i in ingredients) else LinkedTo(links, p)
  {
    var after := links + (set i | i in ingredients :: Link(id, i));
    forall i
      ensures i in LinkedTo(after, p) <==> i in if p == id then (set i | i in ingredients) else LinkedTo(links, p)
    {
      assert i in LinkedTo(after, p) <==> Link(p, i) in after;
      assert i in LinkedTo(links, p) <==> Link(p, i) in links;
    }
  }

  lemma RemainingLinks(links: set<Link>, gone: set<int>, p: int)
    requires p !in gone
    ensures LinkedTo((set l | l in links && l.pizzaId !in gone), p) == LinkedTo(links, p)
  {
    var after := set l | l in links && l.pizzaId !in gone;
    forall i ensures i in LinkedTo(after, p) <==> i in LinkedTo(links, p) {
      assert i in LinkedTo(links, p) <==> Link(p, i) in links;
      assert i in LinkedTo(after, p) <==> Link(p, i) in after;
    }
  }

  lemma LinksInserted(db: Db, log: map<int, LoggedPizza>, id: int, row: PizzaRow, ingredients: seq<int>,
                      gone: set<int>)
    requires LinkKeysHold(db.catalogue, db.pizzas.Keys, db.links) && id !in db.pizzas
    requires LinksAreLogged(db.pizzas.Keys, db.links, log) && forall p :: p in db.pizzas ==> p in log
    ensures var after := WithoutPizzas(AddPizza(db, id, row, ingredients), gone);
      LinksAreLogged(after.pizzas.Keys, after.links, log[id := LoggedPizza(row, set i | i in ingredients)])
  {
    var after := WithoutPizzas(AddPizza(db, id, row, ingredients), gone);
    forall p | p in after.pizzas.Keys
      ensures LinkedTo(after.links, p) ==
              if p == id then (set i | i in ingredients) else LinkedTo(db.links, p)
    {
      AddedLinks(db.links, id, ingredients, p);
      RemainingLinks(AddPizza(db, id, row, ingredients).links, gone, p);
    }
  }

  lemma PizzaKeysInserted(db: Db, id: int, row: PizzaRow, ingredients: seq<int>, gone: set<int>)
    requires PizzaKeysHold(db.catalogue, db.pizzas) && LinkKeysHold(db.catalogue, db.pizzas.Keys, db.links)
    requires CanAddPizza(db, row, ingredients)
    ensures var after := WithoutPizzas(AddPizza(db, id, row, ingredients), gone);
      PizzaKeysHold(after.catalogue, after.pizzas) && LinkKeysHold(after.catalogue, after.pizzas.Keys, after.links)
  {
  }

  lemma PizzaInserted(limits: Limits, db: Db, log: map<int, LoggedPizza>, id: int, row: PizzaRow,
                      ingredients: seq<int>, view: View)
    requires PizzasOk(limits, db.catalogue, db.pizzas, db.links, log)
    requires Fresh(id, log.Keys) && CanAddPizza(db, row, ingredients)
    ensures var gone := ToDelete(Seen(view, log.Keys, db.pizzas.Keys, id), limits.fixedPizzas, limits.maxPizzas);
      var after := WithoutPizzas(AddPizza(db, id, row, ingredients), gone);
      PizzasOk(limits, after.catalogue, after.pizzas, after.links,
               log[id := LoggedPizza(row, set i | i in ingredients)])
  {
    var gone := ToDelete(Seen(view, log.Keys, db.pizzas.Keys, id), limits.fixedPizzas, limits.maxPizzas);
    var logged := LoggedPizza(row, set i | i in ingredients);
    LinksInserted(db, log, id, row, ingredients, gone);
    PizzaKeysInserted(db, id, row, ingredients, gone);
    InsertKeepsKept(view, db.pizzas, log, id, row, logged, limits.fixedPizzas, limits.maxPizzas);
    PositiveInsert(log, id, logged);
  }

  /** Fewer ratings, each as it was or with other stars, of users and pizzas that are there. */
  lemma RatingsRemain(users: set<int>, pizzas: set<int>, ratings: map<int, RatingRow>, log: map<int, RatingRow>,
                      users': set<int>, pizzas': set<int>, ratings': map<int, RatingRow>)
    requires RatingsOk(users, pizzas, ratings, log)
    requires forall r :: r in ratings' ==> r in ratings && SameRating(ratings'[r], ratings[r])
    requires RatingKeysHold(users', pizzas', ratings')
    ensures RatingsOk(users', pizzas', ratings', log)
  {
  }

  lemma RatingInserted(users: set<int>, pizzas: set<int>, ratings: map<int, RatingRow>, log: map<int, RatingRow>,
                       id: int, row: RatingRow, gone: set<int>)
    requires RatingsOk(users, pizzas, ratings, log) && Fresh(id, log.Keys)
    requires row.userId in users && row.pizzaId in pizzas
    ensures RatingsOk(users, pizzas, ratings[id := row] - gone, log[id := row])
  {
  }

  lemma PendingStaysOk(pending: map<int, Pending>, log: map<int, RatingRow>, t: int, id: int, row: RatingRow)
    requires PendingOk(pending, log) && id !in log
    ensures PendingOk(pending - {t}, log[id := row])
  {
  }

  lemma CallersStayOk(callers: set<Caller>, log: map<int, UserRow>, id: int, row: UserRow)
    requires CallersOk(callers, log) && id !in log
    ensures CallersOk(callers, log[id := row])
  {
  }

  // ---------- Each step keeps the invariant ----------

  lemma AuthenticateKeepsInv(limits: Limits, s: State, a: Action)
    requires Inv(limits, s) && a.Authenticate?
    ensures Inv(limits, Apply(limits, s, a))
  {
  }

  lemma RecordPizzaKeepsInv(limits: Limits, s: State, a: Action)
    requires Inv(limits, s) && a.RecordPizza?
    ensures Inv(limits, Apply(limits, s, a))
  {
    if Fresh(a.id, s.log.pizzas.Keys) && CanAddPizza(s.db, a.pizza, a.ingredients) {
      var after := Apply(limits, s, a);
      PizzaInserted(limits, s.db, s.log.pizzas, a.id, a.pizza, a.ingredients, a.view);
      RatingsRemain(s.db.users.Keys, s.db.pizzas.Keys, s.db.ratings, s.log.ratings,
                    after.db.users.Keys, after.db.pizzas.Keys, after.db.ratings);
    }
  }

  lemma AddRatingKeepsInv(limits: Limits, s: State, a: Action)
    requires Inv(limits, s) && a.AddRating?
    ensures Inv(limits, Apply(limits, s, a))
  {
    if a.t in s.pending && s.pending[a.t].Rating? && Fresh(a.id, s.log.ratings.Keys) &&
       s.pending[a.t].row.userId in s.db.users && s.pending[a.t].row.pizzaId in s.db.pizzas
    {
      var row, seen := s.pending[a.t].row, Seen(a.view, s.log.ratings.Keys, s.db.ratings.Keys, a.id);
      RatingInserted(s.db.users.Keys, s.db.pizzas.Keys, s.db.ratings, s.log.ratings, a.id, row,
                     ToDelete(seen, limits.fixedRatings, limits.maxRatings));
      PendingStaysOk(s.pending, s.log.ratings, a.t, a.id, row);
    }
  }

  lemma AddUserKeepsInv(limits: Limits, s: State, a: Action)
    requires Inv(limits, s) && a.AddUser?
    ensures Inv(limits, Apply(limits, s, a))
  {
    if a.t in s.pending && s.pending[a.t].Registering? && Fresh(a.id, s.log.users.Keys) &&
       AccountFree(s.db.users, s.pending[a.t].account.username, s.pending[a.t].account.token)
    {
      var row, after := s.pending[a.t].account, Apply(limits, s, a);
      UserInserted(limits, s.db.users, s.log.users, a.id, row, a.view);
      RatingsRemain(s.db.users.Keys, s.db.pizzas.Keys, s.db.ratings, s.log.ratings,
                    after.db.users.Keys, after.db.pizzas.Keys, after.db.ratings);
      CallersStayOk(s.callers, s.log.users, a.id, row);
    }
  }

  lemma OnlyPendingChanges(limits: Limits, s: State, s': State)
    requires Inv(limits, s)
    requires s'.db == s.db && s'.log == s.log && s'.callers == s.callers && PendingOk(s'.pending, s.log.ratings)
    ensures Inv(limits, s')
  {
  }

  /** A caller who may change ratings is not user 1: that one carries the default name. */
  lemma ChangingCallerIsNotDefault(limits: Limits, s: State, caller: Caller)
    requires Inv(limits, s) && MayChange(s, caller)
    ensures caller.id != 1
  {
  }

  lemma ReadForUpdateKeepsInv(limits: Limits, s: State, a: Action)
    requires Inv(limits, s) && a.ReadForUpdate?
    ensures Inv(limits, Apply(limits, s, a))
  {
    if MayChange(s, a.caller) { ChangingCallerIsNotDefault(limits, s, a.caller); }
    OnlyPendingChanges(limits, s, Apply(limits, s, a));
  }

  lemma ReadForDeleteKeepsInv(limits: Limits, s: State, a: Action)
    requires Inv(limits, s) && a.ReadForDelete?
    ensures Inv(limits, Apply(limits, s, a))
  {
    if MayChange(s, a.caller) { ChangingCallerIsNotDefault(limits, s, a.caller); }
    OnlyPendingChanges(limits, s, Apply(limits, s, a));
  }

  lemma CheckPizzaKeepsInv(limits: Limits, s: State, a: Action)
    requires Inv(limits, s) && a.CheckPizza?
    ensures Inv(limits, Apply(limits, s, a))
  {
    OnlyPendingChanges(limits, s, Apply(limits, s, a));
  }

  lemma CheckUsernameKeepsInv(limits: Limits, s: State, a: Action)
    requires Inv(limits, s) && a.CheckUsername?
    ensures Inv(limits, Apply(limits, s, a))
  {
    OnlyPendingChanges(limits, s, Apply(limits, s, a));
  }

  /** Ratings may go or get other stars, and requests may end, without harm to the invariant. */
  lemma OnlyRatingsChange(limits: Limits, s: State, s': State)
    requires Inv(limits, s)
    requires s'.db == s.db.(ratings := s'.db.ratings) && s'.log == s.log && s'.callers == s.callers
    requires forall r :: r in s'.db.ratings ==> r in s.db.ratings && SameRating(s'.db.ratings[r], s.db.ratings[r])
    requires forall t :: t in s'.pending ==> t in s.pending && s'.pending[t] == s.pending[t]
    ensures Inv(limits, s')
  {
    RatingsRemain(s.db.users.Keys, s.db.pizzas.Keys, s.db.ratings, s.log.ratings,
                  s.db.users.Keys, s.db.pizzas.Keys, s'.db.ratings);
  }

  lemma WriteStarsKeepsInv(limits: Limits, s: State, a: Action)
    requires Inv(limits, s) && a.WriteStars?
    ensures Inv(limits, Apply(limits, s, a))
  {
    OnlyRatingsChange(limits, s, Apply(limits, s, a));
  }

  lemma DeleteReadKeepsInv(limits: Limits, s: State, a: Action)
    requires Inv(limits, s) && a.DeleteRead?
    ensures Inv(limits, Apply(limits, s, a))
  {
    OnlyRatingsChange(limits, s, Apply(limits, s, a));
  }

  lemma DeleteAllKeepsInv(limits: Limits, s: State, a: Action)
    requires Inv(limits, s) && a.DeleteAll?
    ensures Inv(limits, Apply(limits, s, a))
  {
    OnlyRatingsChange(limits, s, Apply(limits, s, a));
  }

  lemma ApplyKeepsInv(limits: Limits, s: State, a: Action)
    requires Inv(limits, s)
    ensures Inv(limits, Apply(limits, s, a))
  {
    match a
    case Authenticate(_, _) => AuthenticateKeepsInv(limits, s, a);
    case RecordPizza(_, _, _, _) => RecordPizzaKeepsInv(limits, s, a);
    case CheckPizza(_, _) => CheckPizzaKeepsInv(limits, s, a);
    case AddRating(_, _, _) => AddRatingKeepsInv(limits, s, a);
    case CheckUsername(_, _, _, _) => CheckUsernameKeepsInv(limits, s, a);
    case AddUser(_, _, _) => AddUserKeepsInv(limits, s, a);
    case ReadForUpdate(_, _, _, _) => ReadForUpdateKeepsInv(limits, s, a);
    case WriteStars(_) => WriteStarsKeepsInv(limits, s, a);
    case ReadForDelete(_, _, _) => ReadForDeleteKeepsInv(limits, s, a);
    case DeleteRead(_) => DeleteReadKeepsInv(limits, s, a);
    case DeleteAll(_) => DeleteAllKeepsInv(limits, s, a);
  }

  lemma {:induction false} RunKeepsInv(limits: Limits, s: State, actions: seq<Action>)
    requires Inv(limits, s)
    ensures Inv(limits, Run(limits, s, actions))
    decreases |actions|
  {
    if actions != [] {
      ApplyKeepsInv(limits, s, actions[0]);
      RunKeepsInv(limits, Apply(limits, s, actions[0]), actions[1..]);
    }
  }
}
