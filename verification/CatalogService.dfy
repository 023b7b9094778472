/** The catalog service itself: one object whose methods insert, update and delete rows of its
    tables inside transactions. Each method is proved to be a run of the steps of `Interleaving`
    with nothing in between, so everything proved about runs holds for it. */
module CatalogService {
  import opened Model
  import opened Sets
  import opened TableLimits
  import opened Store
  import opened Interleaving
  import opened Runs
  import opened Accounts
  import opened History

  datatype Error = PizzaNotFound | RatingNotFound | NotPermitted | UsernameTaken | EmptyPassword | ConstraintFailed

  datatype Result<T> = Ok(value: T) | Err(error: Error)

  datatype Table = UserTable | PizzaTable | RatingTable

  function IngredientIds(ingredients: seq<Ingredient>): seq<int> {
    seq(|ingredients|, k requires 0 <= k < |ingredients| => ingredients[k].id)
  }

  function RowOf(pizza: Pizza, now: int): PizzaRow {
    PizzaRow(now, pizza.name, pizza.dough.id, pizza.tool)
  }

  /** `pizza` is what the store answers for the id: its row joined with its dough and ingredients. */
  ghost predicate ReadsBack(db: Db, id: int, pizza: Pizza) {
    && id in db.pizzas && db.pizzas[id].doughId in db.catalogue.doughs
    && pizza.name == db.pizzas[id].name
    && pizza.tool == db.pizzas[id].tool
    && pizza.dough == db.catalogue.doughs[db.pizzas[id].doughId]
    && Distinct(pizza.ingredients)
    && (forall i :: i in pizza.ingredients <==>
          exists k :: k in LinkedTo(db.links, id) && k in db.catalogue.ingredients &&
                      db.catalogue.ingredients[k].item == i)
  }

  ghost predicate CountersAhead(log: Log, users: int, pizzas: int, ratings: int) {
    && 0 <= users && 0 <= pizzas && 0 <= ratings
    && (forall u :: u in log.users ==> u <= users)
    && (forall p :: p in log.pizzas ==> p <= pizzas)
    && (forall r :: r in log.ratings ==> r <= ratings)
  }

  ghost predicate NameTaken(db: Db, username: string) {
    exists u :: u in db.users && db.users[u].username == username
  }

  /** Pizza `p` comes before pizza `q` in the history: created later, or at the same time under a
      greater id. */
  predicate Latest(pizzas: map<int, PizzaRow>, p: int, q: int)
    requires p in pizzas && q in pizzas
  {
    pizzas[q].createdAt < pizzas[p].createdAt || (pizzas[p].createdAt == pizzas[q].createdAt && q < p)
  }

  lemma TopIsLatest(pizzas: map<int, PizzaRow>, limit: nat, ids: seq<int>)
    requires IsTop(CreationTimes(pizzas), limit, ids)
    ensures |ids| == Min(limit, |pizzas.Keys|) && forall k :: k in ids ==> k in pizzas
    ensures forall j, k :: 0 <= j < k < |ids| ==> Latest(pizzas, ids[j], ids[k])
    ensures forall k, p :: k in ids && p in pizzas && p !in ids ==> Latest(pizzas, k, p)
  {
    var times := CreationTimes(pizzas);
    assert times.Keys == pizzas.Keys && |times| == |times.Keys|;
    forall k | k in ids ensures k in pizzas { assert k in times; }
    forall j, k | 0 <= j < k < |ids| ensures Latest(pizzas, ids[j], ids[k]) {
      assert Before(times, ids[j], ids[k]);
    }
    forall k, p | k in ids && p in pizzas && p !in ids ensures Latest(pizzas, k, p) {
      assert Before(times, k, p);
    }
  }

  class Catalog {
    const limits: Limits
    const catalogue: Catalogue
    var users: map<int, UserRow>
    var pizzas: map<int, PizzaRow>
    var ratings: map<int, RatingRow>
    var links: set<Link>
    var lastUser: int
    var lastPizza: int
    var lastRating: int
    ghost const start: int
    ghost var actions: seq<Action>

    function Tables(): Db reads this {
      Db(catalogue, users, pizzas, ratings, links)
    }

    /** The state after the steps taken so far, from a seed loaded at `start`. */
    ghost function Abs(): State reads this {
      Run(limits, Seed(catalogue, start), actions)
    }

    /** The tables are those of a run from the seed, one transaction at a time. */
    ghost predicate Valid() reads this {
      && HoldsSeedItems(catalogue) && Serial(actions)
      && Abs().db == Tables() && Abs().pending == map[]
      && CountersAhead(Abs().log, lastUser, lastPizza, lastRating)
    }

    constructor (limits: Limits, catalogue: Catalogue, now: int)
      requires HoldsSeedItems(catalogue)
      ensures Valid() && this.limits == limits && this.catalogue == catalogue && start == now
      ensures actions == []
    {
      this.limits, this.catalogue, start := limits, catalogue, now;
      users, pizzas, ratings := SeedUsers(), SeedPizzas(now), SeedRatings();
      links := SeedDb(catalogue, now).links;
      lastUser, lastPizza, lastRating := 3, 3, 3;
      actions := [];
    }

    /** What every state of the object satisfies: the invariant of all interleavings, and the
        limited tables are the log trimmed once, the ratings within their bound. */
    lemma Guarantees()
      requires Valid()
      ensures Inv(limits, Abs()) && Abs().db == Tables()
      ensures PizzasTrimmedOnce(limits, Abs(), SeedPizzas(start).Keys)
      ensures UsersTrimmedOnce(limits, Abs(), SeedUsers().Keys)
      ensures RatingsBounded(limits, Abs(), SeedRatings().Keys)
    {
      ReachableInv(limits, catalogue, start, actions);
      SerialRunsTrimTheLog(limits, catalogue, start, actions);
      assert Seed(catalogue, start).log.pizzas.Keys == SeedPizzas(start).Keys;
    }

    // ---------- Statements ----------

    method Restore(before: Db)
      requires before.catalogue == catalogue
      modifies this`users, this`pizzas, this`ratings, this`links
      ensures Tables() == before
    {
      users, pizzas, ratings, links := before.users, before.pizzas, before.ratings, before.links;
    }

    /** DELETE of one user, and the ratings the foreign key takes with it. */
    method DeleteUserRow(user: int)
      modifies this`users, this`ratings
      ensures Tables() == WithoutUsers(old(Tables()), {user})
    {
      users := users - {user};
      var rest := ratings.Keys;
      while rest != {}
        invariant rest <= old(ratings).Keys
        invariant users == old(users) - {user}
        invariant ratings ==
          map r | r in old(ratings) && (r in rest || old(ratings)[r].userId != user) :: old(ratings)[r]
        decreases rest
      {
        ghost var w := Pick(rest);
        var r :| r in rest;
        if ratings[r].userId == user {
          ratings := ratings - {r};
        }
        rest := rest - {r};
      }
    }

    /** DELETE of one pizza, with its ratings and its links. */
    method DeletePizzaRow(pizza: int)
      modifies this`pizzas, this`ratings, this`links
      ensures Tables() == WithoutPizzas(old(Tables()), {pizza})
    {
      pizzas := pizzas - {pizza};
      var rest := ratings.Keys;
      while rest != {}
        invariant rest <= old(ratings).Keys
        invariant pizzas == old(pizzas) - {pizza} && links == old(links)
        invariant ratings ==
          map r | r in old(ratings) && (r in rest || old(ratings)[r].pizzaId != pizza) :: old(ratings)[r]
        decreases rest
      {
        ghost var w := Pick(rest);
        var r :| r in rest;
        if ratings[r].pizzaId == pizza {
          ratings := ratings - {r};
        }
        rest := rest - {r};
      }
      label linksLeft:
      var todo := links;
      while todo != {}
        invariant todo <= old(links)
        invariant pizzas == old(pizzas) - {pizza} && ratings == old@linksLeft(ratings)
        invariant links == set l | l in old(links) && (l in todo || l.pizzaId != pizza)
        decreases todo
      {
        var l :| l in todo;
        if l.pizzaId == pizza {
          links := links - {l};
        }
        todo := todo - {l};
      }
    }

    /** The trim that ends every inserting transaction. */
    method EnforceTableSizeLimits(table: Table, fixed: int, maximum: int)
      modifies this`users, this`pizzas, this`ratings, this`links
      ensures Tables() == match table
        case UserTable => WithoutUsers(old(Tables()), ToDelete(old(users).Keys, fixed, maximum))
        case PizzaTable => WithoutPizzas(old(Tables()), ToDelete(old(pizzas).Keys, fixed, maximum))
        case RatingTable => WithoutRatings(old(Tables()), ToDelete(old(ratings).Keys, fixed, maximum))
    {
      match table {
        case UserTable =>
          var rest := Victims(users.Keys, fixed, maximum);
          ghost var all, done := rest, {};
          WithoutNothing(Tables());
          while rest != {}
            invariant done + rest == all
            invariant Tables() == WithoutUsers(old(Tables()), done)
            decreases rest
          {
            ghost var w := Pick(rest);
            var u :| u in rest;
            DeleteUserRow(u);
            OneMoreUser(old(Tables()), done, u);
            rest, done := rest - {u}, done + {u};
          }
        case PizzaTable =>
          var rest := Victims(pizzas.Keys, fixed, maximum);
          ghost var all, done := rest, {};
          WithoutNothing(Tables());
          while rest != {}
            invariant done + rest == all
            invariant Tables() == WithoutPizzas(old(Tables()), done)
            decreases rest
          {
            ghost var w := Pick(rest);
            var p :| p in rest;
            DeletePizzaRow(p);
            OneMorePizza(old(Tables()), done, p);
            rest, done := rest - {p}, done + {p};
          }
        case RatingTable =>
          var rest := Victims(ratings.Keys, fixed, maximum);
          ratings := ratings - rest;
      }
    }

    /** INSERT of one link: refused when a foreign key or the composite primary key would break. */
    method InsertLink(pizza: int, ingredient: int) returns (ok: bool)
      modifies this`links
      ensures ok <==> pizza in pizzas && ingredient in catalogue.ingredients && Link(pizza, ingredient) !in old(links)
      ensures links == if ok then old(links) + {Link(pizza, ingredient)} else old(links)
    {
      ok := pizza in pizzas && ingredient in catalogue.ingredients && Link(pizza, ingredient) !in links;
      if ok {
        links := links + {Link(pizza, ingredient)};
      }
    }

    /** One INSERT per ingredient, up to the first that is refused. */
    method InsertLinks(pizza: int, ingredients: seq<Ingredient>) returns (ok: bool)
      requires pizza in pizzas && forall l :: l in links ==> l.pizzaId != pizza
      modifies this`links
      ensures var ids := IngredientIds(ingredients);
        && (ok <==> Distinct(ids) && forall i :: i in ids ==> i in catalogue.ingredients)
        && (ok ==> links == old(links) + set i | i in ids :: Link(pizza, i))
    {
      var ids := IngredientIds(ingredients);
      for k := 0 to |ingredients|
        invariant links == old(links) + set i | i in ids[..k] :: Link(pizza, i)
        invariant forall i :: i in ids[..k] ==> i in catalogue.ingredients
        invariant Distinct(ids[..k])
      {
        assert ids[..k + 1] == ids[..k] + [ids[k]];
        assert Link(pizza, ids[k]) in links <==> ids[k] in ids[..k];
        ok := InsertLink(pizza, ingredients[k].id);
        if !ok {
          assert ids[k] in ids;
          return;
        }
      }
      assert ids[..|ingredients|] == ids;
      ok := true;
    }

    /** The transaction of `RecordRecommendation`: insert, link, trim, or roll back. */
    method PizzaTransaction(id: int, row: PizzaRow, ingredients: seq<Ingredient>) returns (ok: bool)
      requires ForeignKeysHold(Tables()) && id !in pizzas
      modifies this`users, this`pizzas, this`ratings, this`links
      ensures ok <==> CanAddPizza(old(Tables()), row, IngredientIds(ingredients))
      ensures !ok ==> Tables() == old(Tables())
      ensures ok ==>
        Some(Tables()) ==
          InsertPizza(limits, old(Tables()), id, row, IngredientIds(ingredients), old(pizzas).Keys + {id})
    {
      ghost var ids := IngredientIds(ingredients);
      var before := Tables();
      if row.doughId !in catalogue.doughs || row.tool !in catalogue.tools {
        return false;
      }
      pizzas := pizzas[id := row];
      ok := InsertLinks(id, ingredients);
      if !ok {
        Restore(before);
        return;
      }
      assert Tables() == AddPizza(before, id, row, ids);
      assert pizzas.Keys == before.pizzas.Keys + {id};
      EnforceTableSizeLimits(PizzaTable, limits.fixedPizzas, limits.maxPizzas);
    }

    /** `SELECT ... WHERE username = ?`. */
    method FindUsername(username: string) returns (found: Option<int>)
      ensures found.Some? ==> found.value in users && users[found.value].username == username
      ensures found.Some? <==> NameTaken(Tables(), username)
    {
      var rest := users.Keys;
      while rest != {}
        invariant rest <= users.Keys
        invariant forall u :: u in users && u !in rest ==> users[u].username != username
        decreases rest
      {
        ghost var w := Pick(rest);
        var u :| u in rest;
        if users[u].username == username {
          return Some(u);
        }
        rest := rest - {u};
      }
      found := None;
    }

    /** `SELECT ... WHERE token = ?`. */
    method FindToken(token: string) returns (found: Option<int>)
      ensures found.Some? ==> found.value in users && users[found.value].token == token
      ensures found.Some? <==> TokenKnown(Tables(), token)
    {
      var rest := users.Keys;
      while rest != {}
        invariant rest <= users.Keys
        invariant forall u :: u in users && u !in rest ==> users[u].token != token
        decreases rest
      {
        ghost var w := Pick(rest);
        var u :| u in rest;
        if users[u].token == token {
          return Some(u);
        }
        rest := rest - {u};
      }
      found := None;
    }

    /** The transaction of `RecordRating`. */
    method RatingTransaction(id: int, row: RatingRow) returns (ok: bool)
      modifies this`users, this`pizzas, this`ratings, this`links
      ensures ok <==> row.userId in old(users) && row.pizzaId in old(pizzas)
      ensures !ok ==> Tables() == old(Tables())
      ensures ok ==> Some(Tables()) == InsertRating(limits, old(Tables()), id, row, old(ratings).Keys + {id})
    {
      if row.userId !in users || row.pizzaId !in pizzas {
        return false;
      }
      ratings := ratings[id := row];
      assert ratings.Keys == old(ratings).Keys + {id};
      EnforceTableSizeLimits(RatingTable, limits.fixedRatings, limits.maxRatings);
      ok := true;
    }

    /** The transaction of `RecordUser`: the unique columns are checked again by the insert. */
    method UserTransaction(id: int, row: UserRow) returns (ok: bool)
      modifies this`users, this`pizzas, this`ratings, this`links
      ensures ok <==> AccountFree(old(users), row.username, row.token)
      ensures !ok ==> Tables() == old(Tables())
      ensures ok ==> Some(Tables()) == InsertUser(limits, old(Tables()), id, row, old(users).Keys + {id})
    {
      var sameName := FindUsername(row.username);
      var sameToken := FindToken(row.token);
      if sameName.Some? {
        AccountTaken(users, sameName.value, row.username, row.token);
        return false;
      }
      if sameToken.Some? {
        AccountTaken(users, sameToken.value, row.username, row.token);
        return false;
      }
      users := users[id := row];
      assert users.Keys == old(users).Keys + {id};
      EnforceTableSizeLimits(UserTable, limits.fixedUsers, limits.maxUsers);
      ok := true;
    }

    /** DELETE of every rating of one user. */
    method DeleteRatingsOf(user: int)
      modifies this`ratings
      ensures Tables() == WithoutRatings(old(Tables()), RatingsOf(old(Tables()), user))
    {
      var rest := ratings.Keys;
      while rest != {}
        invariant rest <= old(ratings).Keys
        invariant ratings ==
          map r | r in old(ratings) && (r in rest || old(ratings)[r].userId != user) :: old(ratings)[r]
        decreases rest
      {
        ghost var w := Pick(rest);
        var r :| r in rest;
        if ratings[r].userId == user {
          ratings := ratings - {r};
        }
        rest := rest - {r};
      }
      assert ratings == old(ratings) - RatingsOf(old(Tables()), user);
    }

    // ---------- Read-only tables ----------

    /** The ingredients of one type, in any order. */
    method GetIngredients(kind: string) returns (items: seq<Ingredient>)
      ensures forall i :: i in items <==>
        exists k :: k in catalogue.ingredients && catalogue.ingredients[k] == IngredientRow(i, kind)
      ensures KeyedById(catalogue) ==> Distinct(items)
    {
      items := [];
      var rest := catalogue.ingredients.Keys;
      while rest != {}
        invariant rest <= catalogue.ingredients.Keys
        invariant forall i :: i in items <==>
          exists k :: k in catalogue.ingredients && k !in rest && catalogue.ingredients[k] == IngredientRow(i, kind)
        invariant KeyedById(catalogue) ==> Distinct(items)
        decreases rest
      {
        ghost var w := Pick(rest);
        var k :| k in rest;
        if catalogue.ingredients[k].kind == kind {
          items := items + [catalogue.ingredients[k].item];
        }
        rest := rest - {k};
      }
    }

    method GetDoughs() returns (doughs: seq<Dough>)
      ensures forall d :: d in doughs <==> exists k :: k in catalogue.doughs && catalogue.doughs[k] == d
      ensures KeyedById(catalogue) ==> Distinct(doughs)
    {
      doughs := [];
      var rest := catalogue.doughs.Keys;
      while rest != {}
        invariant rest <= catalogue.doughs.Keys
        invariant forall d :: d in doughs <==>
          exists k :: k in catalogue.doughs && k !in rest && catalogue.doughs[k] == d
        invariant KeyedById(catalogue) ==> Distinct(doughs)
        decreases rest
      {
        ghost var w := Pick(rest);
        var k :| k in rest;
        if KeyedById(catalogue) { DistinctAppend(doughs, catalogue.doughs[k]); }
        doughs := doughs + [catalogue.doughs[k]];
        rest := rest - {k};
      }
    }

    method GetTools() returns (tools: seq<string>)
      ensures Distinct(tools) && forall t :: t in tools <==> t in catalogue.tools
    {
      tools := [];
      var rest := catalogue.tools;
      while rest != {}
        invariant rest <= catalogue.tools
        invariant Distinct(tools) && forall t :: t in tools <==> t in catalogue.tools - rest
        decreases rest
      {
        var t :| t in rest;
        DistinctAppend(tools, t);
        tools := tools + [t];
        rest := rest - {t};
      }
    }

    // ---------- Operations ----------

    /** Records a pizza and its links, or leaves every table as it was: it fails exactly when the
        dough, the tool or an ingredient is unknown, or an ingredient occurs twice. */
    method RecordRecommendation(pizza: Pizza, now: int) returns (id: Option<int>)
      requires Valid()
      modifies this
      ensures Valid()
      ensures id.Some? <==> CanAddPizza(old(Tables()), RowOf(pizza, now), IngredientIds(pizza.ingredients))
      ensures id.None? <==>
        || pizza.dough.id !in catalogue.doughs || pizza.tool !in catalogue.tools
        || (exists i :: i in pizza.ingredients && i.id !in catalogue.ingredients)
        || (exists j, k :: 0 <= j < k < |pizza.ingredients| && pizza.ingredients[j].id == pizza.ingredients[k].id)
      ensures id.None? ==> Tables() == old(Tables()) && actions == old(actions)
      ensures id.Some? ==>
        && (forall p :: p in old(pizzas) ==> p < id.value) && id.value in pizzas
        && pizzas[id.value] == PizzaRow(now, pizza.name, pizza.dough.id, pizza.tool)
        && LinkedTo(links, id.value) == (set i | i in pizza.ingredients :: i.id)
        && pizzas.Keys == Kept(old(pizzas).Keys + {id.value}, limits.fixedPizzas, limits.maxPizzas)
        && (forall p :: p in pizzas && p != id.value ==>
              pizzas[p] == old(pizzas)[p] && LinkedTo(links, p) == LinkedTo(old(links), p))
        && ratings == (map r | r in old(ratings) && old(ratings)[r].pizzaId in pizzas :: old(ratings)[r])
        && users == old(users)
      ensures id.Some? ==>
        && old(lastPizza) < id.value
        && Some(Tables()) == InsertPizza(limits, old(Tables()), id.value, RowOf(pizza, now),
                                         IngredientIds(pizza.ingredients), old(pizzas).Keys + {id.value})
        && actions == old(actions) + [RecordPizza(id.value, RowOf(pizza, now), IngredientIds(pizza.ingredients), Whole)]
    {
      var newId: int :| lastPizza < newId;
      assert ForeignKeysHold(Tables()) && forall p :: p in pizzas ==> p < newId by {
        ReachableInv(limits, catalogue, start, actions);
        InvMeansConstraints(limits, Abs());
      }
      PizzaRefused(Tables(), pizza, now);
      var ok := PizzaTransaction(newId, RowOf(pizza, now), pizza.ingredients);
      if !ok {
        return None;
      }
      NewPizzaRows(limits, old(Tables()), newId, pizza, now);
      ghost var a := RecordPizza(newId, RowOf(pizza, now), IngredientIds(pizza.ingredients), Whole);
      PizzaRecorded(limits, catalogue, start, actions, a, lastUser, lastPizza, lastRating);
      actions := actions + [a];
      lastPizza := newId;
      id := Some(newId);
    }

    /** Rates a pizza: refused when the pizza is gone before the transaction, or the user within it. */
    method RecordRating(row: RatingRow) returns (r: Result<int>)
      requires Valid()
      modifies this
      ensures Valid()
      ensures r == Err(PizzaNotFound) <==> row.pizzaId !in old(pizzas)
      ensures r.Ok? <==> row.pizzaId in old(pizzas) && row.userId in old(users)
      ensures r.Err? ==> Tables() == old(Tables()) && actions == old(actions)
      ensures r.Ok? ==>
        && r.value !in old(ratings) && r.value in ratings
        && ratings.Keys == Kept(old(ratings).Keys + {r.value}, limits.fixedRatings, limits.maxRatings)
        && (forall k :: k in ratings ==> ratings[k] == if k == r.value then row else old(ratings)[k])
        && users == old(users) && pizzas == old(pizzas) && links == old(links)
      ensures r.Ok? ==>
        && old(lastRating) < r.value
        && Some(Tables()) == InsertRating(limits, old(Tables()), r.value, row, old(ratings).Keys + {r.value})
        && actions == old(actions) + [CheckPizza(0, row), AddRating(0, r.value, Whole)]
    {
      if row.pizzaId !in pizzas {
        return Err(PizzaNotFound);
      }
      var newId: int :| lastRating < newId;
      assert newId !in ratings by { ReachableInv(limits, catalogue, start, actions); }
      var ok := RatingTransaction(newId, row);
      if !ok {
        return Err(ConstraintFailed);
      }
      InsertedRatingRows(limits, old(Tables()), newId, row);
      RatingRecorded(limits, catalogue, start, actions, row, newId, lastUser, lastPizza, lastRating);
      actions := actions + [CheckPizza(0, row), AddRating(0, newId, Whole)];
      lastRating := newId;
      r := Ok(newId);
    }

    /** Registers a user. The token is drawn by the caller; the unique columns refuse a name or a
        token that a live user has. */
    method RecordUser(username: string, password: string, token: string) returns (r: Result<int>)
      requires Valid()
      modifies this
      ensures Valid()
      ensures r == Err(EmptyPassword) <==> password == ""
      ensures r == Err(UsernameTaken) <==>
        password != "" && exists u :: u in old(users) && old(users)[u].username == username
      ensures r.Ok? <==>
        && password != ""
        && forall u :: u in old(users) ==> old(users)[u].username != username && old(users)[u].token != token
      ensures r.Err? ==> Tables() == old(Tables()) && actions == old(actions)
      ensures r.Ok? ==>
        && r.value !in old(users) && r.value in users
        && users.Keys == Kept(old(users).Keys + {r.value}, limits.fixedUsers, limits.maxUsers)
        && users[r.value] == UserRow(username, token, HashOf(password), "")
        && (forall u :: u in users && u != r.value ==> users[u] == old(users)[u])
        && ratings == (map k | k in old(ratings) && old(ratings)[k].userId in users :: old(ratings)[k])
        && pizzas == old(pizzas) && links == old(links)
      ensures r.Ok? ==>
        && old(lastUser) < r.value
        && Some(Tables()) == InsertUser(limits, old(Tables()), r.value, UserRow(username, token, HashOf(password), ""),
                                        old(users).Keys + {r.value})
        && actions == old(actions) + [CheckUsername(0, username, password, token), AddUser(0, r.value, Whole)]
    {
      if password == "" {
        return Err(EmptyPassword);
      }
      var taken := FindUsername(username);
      if taken.Some? {
        AccountTaken(users, taken.value, username, token);
        return Err(UsernameTaken);
      }
      var newId: int :| lastUser < newId;
      var ok := UserTransaction(newId, UserRow(username, token, HashOf(password), ""));
      if !ok {
        return Err(ConstraintFailed);
      }
      assert ForeignKeysHold(old(Tables())) && newId !in old(users) by {
        ReachableInv(limits, catalogue, start, actions);
        InvMeansConstraints(limits, Abs());
      }
      InsertedUserRows(limits, old(Tables()), newId, UserRow(username, token, HashOf(password), ""));
      UserRecorded(limits, catalogue, start, actions, username, password, token, newId,
                   lastUser, lastPizza, lastRating);
      actions := actions + [CheckUsername(0, username, password, token), AddUser(0, newId, Whole)];
      lastUser := newId;
      r := Ok(newId);
    }

    /** The user the name and password log in as, or none if there is no such user. */
    method LoginUser(username: string, password: string) returns (found: Option<int>)
      requires UniqueAccounts(users)
      ensures (forall u :: u in users ==> users[u].username != username) ==> found.None?
      ensures forall u :: u in users && users[u].username == username ==>
        found == if (if users[u].passwordPlaintext != "" then password == users[u].passwordPlaintext
                     else username == "default" || users[u].passwordHash == HashOf(password))
                 then Some(u) else None
      ensures forall u :: found == Some(u) <==> LogsInAs(Tables(), username, password, u)
    {
      found := FindUsername(username);
      if found.Some? {
        ghost var owner := found.value;
        assert forall u :: u in users && users[u].username == username ==> u == owner;
        var user := users[found.value];
        if user.passwordPlaintext != "" {
          if password != user.passwordPlaintext {
            found := None;
          }
        } else if user.username != GLOBAL_USERNAME && !CheckPassword(password, user.passwordHash) {
          found := None;
        }
      }
    }

    /** The owner of the token, else user 1, else an error (no row). Whoever it returns may act as
        that user from then on. No table changes. */
    method Authenticate(token: string) returns (found: Option<Caller>)
      requires Valid()
      modifies this`actions
      ensures Valid()
      ensures forall u :: u in users && users[u].token == token ==> found.Some? && found.value.id == u
      ensures (forall u :: u in users ==> users[u].token != token) ==>
        if 1 in users then found.Some? && found.value.id == 1 else found.None?
      ensures forall u :: AuthenticatesAs(Tables(), token, u) <==> found.Some? && found.value.id == u
      ensures found.Some? ==> found.value.id in users && found.value.username == users[found.value.id].username
      ensures found.Some? ==> found.value in Abs().callers
      ensures old(Abs()).callers <= Abs().callers && Abs().log == old(Abs()).log
    {
      ReachableInv(limits, catalogue, start, actions);
      var owner := FindToken(token);
      if owner.Some? {
        assert forall u :: u in users && users[u].token == token ==> u == owner.value;
      } else if 1 in users {
        owner := Some(1);
      }
      if owner.None? {
        return None;
      }
      assert AuthenticatesAs(Tables(), token, owner.value);
      RunOne(limits, Seed(catalogue, start), actions, Interleaving.Authenticate(token, owner.value));
      actions := actions + [Interleaving.Authenticate(token, owner.value)];
      found := Some(Caller(owner.value, users[owner.value].username));
    }

    /** A rating, for the user who gave it and nobody else. */
    method GetRating(caller: Caller, rating: int) returns (found: Option<RatingRow>)
      ensures found == if rating in ratings && ratings[rating].userId == caller.id then Some(ratings[rating]) else None
    {
      if rating in ratings && ratings[rating].userId == caller.id {
        return Some(ratings[rating]);
      }
      found := None;
    }

    method UpdateRating(caller: Caller, rating: int, stars: int) returns (r: Result<RatingRow>)
      requires Valid() && caller in Abs().callers
      modifies this
      ensures Valid()
      ensures r == Err(NotPermitted) <==> caller.username == "default"
      ensures r.Ok? <==>
        caller.username != "default" && rating in old(ratings) && old(ratings)[rating].userId == caller.id
      ensures r.Err? ==> r.error in {NotPermitted, RatingNotFound} && ratings == old(ratings)
      ensures r.Ok? ==>
        && r.value == old(ratings)[rating].(stars := stars)
        && ratings == old(ratings)[rating := old(ratings)[rating].(stars := stars)]
      ensures users == old(users) && pizzas == old(pizzas) && links == old(links)
      ensures actions == old(actions) + [ReadForUpdate(0, caller, rating, stars), WriteStars(0)]
    {
      RatingUpdated(limits, catalogue, start, actions, caller, rating, stars);
      actions := actions + [ReadForUpdate(0, caller, rating, stars), WriteStars(0)];
      if caller.username == GLOBAL_USERNAME {
        return Err(NotPermitted);
      }
      var existing := GetRating(caller, rating);
      if existing.None? {
        return Err(RatingNotFound);
      }
      ratings := ratings[rating := existing.value.(stars := stars)];
      r := Ok(existing.value.(stars := stars));
    }

    method DeleteRating(caller: Caller, rating: int) returns (error: Option<Error>)
      requires Valid() && caller in Abs().callers
      modifies this
      ensures Valid()
      ensures error == Some(NotPermitted) <==> caller.username == "default"
      ensures error.None? <==>
        caller.username != "default" && rating in old(ratings) && old(ratings)[rating].userId == caller.id
      ensures error.Some? ==> error.value in {NotPermitted, RatingNotFound}
      ensures ratings == if error.None? then old(ratings) - {rating} else old(ratings)
      ensures users == old(users) && pizzas == old(pizzas) && links == old(links)
      ensures actions == old(actions) + [ReadForDelete(0, caller, rating), DeleteRead(0)]
    {
      RatingDeleted(limits, catalogue, start, actions, caller, rating);
      actions := actions + [ReadForDelete(0, caller, rating), DeleteRead(0)];
      if caller.username == GLOBAL_USERNAME {
        return Some(NotPermitted);
      }
      var existing := GetRating(caller, rating);
      if existing.None? {
        return Some(RatingNotFound);
      }
      ratings := ratings - {rating};
      error := None;
    }

    /** Deletes the caller's ratings, and no others. */
    method DeleteRatings(caller: Caller) returns (error: Option<Error>)
      requires Valid() && caller in Abs().callers
      modifies this
      ensures Valid()
      ensures error == if caller.username == "default" then Some(NotPermitted) else None
      ensures error.None? ==>
        ratings == map r | r in old(ratings) && old(ratings)[r].userId != caller.id :: old(ratings)[r]
      ensures error.Some? ==> ratings == old(ratings)
      ensures users == old(users) && pizzas == old(pizzas) && links == old(links)
      ensures actions == old(actions) + [DeleteAll(caller)]
    {
      RunOne(limits, Seed(catalogue, start), actions, DeleteAll(caller));
      actions := actions + [DeleteAll(caller)];
      if caller.username == GLOBAL_USERNAME {
        return Some(NotPermitted);
      }
      DeleteRatingsOf(caller.id);
      error := None;
    }

    /** A recorded pizza joined with its dough and its ingredients, or none if the id is not live. */
    method GetRecommendation(id: int) returns (found: Option<Pizza>)
      requires ForeignKeysHold(Tables()) && KeyedById(catalogue)
      ensures found.None? <==> id !in pizzas
      ensures found.Some? ==> ReadsBack(Tables(), id, found.value)
    {
      if id !in pizzas {
        return None;
      }
      var ingredients: seq<Ingredient> := [];
      var rest := links;
      while rest != {}
        invariant rest <= links
        invariant Distinct(ingredients)
        invariant forall i :: i in ingredients <==>
          Link(id, i.id) in links - rest && catalogue.ingredients[i.id].item == i
        decreases rest
      {
        var l :| l in rest;
        if l.pizzaId == id {
          ingredients := ingredients + [catalogue.ingredients[l.ingredientId].item];
        }
        rest := rest - {l};
      }
      forall i ensures i in ingredients <==>
          exists k :: k in LinkedTo(links, id) && k in catalogue.ingredients && catalogue.ingredients[k].item == i {
        assert i.id in LinkedTo(links, id) <==> Link(id, i.id) in links;
      }
      found := Some(Pizza(pizzas[id].name, catalogue.doughs[pizzas[id].doughId], ingredients, pizzas[id].tool));
    }

    /** The latest pizzas, each joined with its dough and ingredients: the same list as if no pizza
        had ever been trimmed. */
    method GetHistory(limit: nat) returns (history: seq<Pizza>, ids: seq<int>)
      requires Valid()
      ensures |ids| == Min(limit, |pizzas.Keys|) && forall k :: k in ids ==> k in pizzas
      ensures forall j, k :: 0 <= j < k < |ids| ==> Latest(pizzas, ids[j], ids[k])
      ensures forall k, p :: k in ids && p in pizzas && p !in ids ==> Latest(pizzas, k, p)
      ensures |history| == |ids| && forall k :: 0 <= k < |ids| ==> ReadsBack(Tables(), ids[k], history[k])
      ensures ClockOrdered(Abs().log) && (limits.maxPizzas <= 0 || limit <= limits.maxPizzas) ==>
        IsTop(LoggedTimes(Abs().log), limit, ids)
    {
      assert ForeignKeysHold(Tables()) by {
        ReachableInv(limits, catalogue, start, actions);
        InvMeansConstraints(limits, Abs());
      }
      ids := SelectTop(CreationTimes(pizzas), limit);
      TopIsLatest(pizzas, limit, ids);
      history := JoinAll(ids);
      HistoryOfTheObject(limit, ids);
    }

    /** The relations of a list of live pizzas. */
    method JoinAll(ids: seq<int>) returns (joined: seq<Pizza>)
      requires ForeignKeysHold(Tables()) && KeyedById(catalogue) && forall k :: k in ids ==> k in pizzas
      ensures |joined| == |ids| && forall k :: 0 <= k < |ids| ==> ReadsBack(Tables(), ids[k], joined[k])
    {
      joined := [];
      for k := 0 to |ids|
        invariant |joined| == k && forall j :: 0 <= j < k ==> ReadsBack(Tables(), ids[j], joined[j])
      {
        var pizza := GetRecommendation(ids[k]);
        joined := joined + [pizza.value];
      }
    }

    lemma HistoryOfTheObject(limit: nat, ids: seq<int>)
      requires Valid() && IsTop(CreationTimes(pizzas), limit, ids)
      ensures ClockOrdered(Abs().log) && (limits.maxPizzas <= 0 || limit <= limits.maxPizzas) ==>
        IsTop(LoggedTimes(Abs().log), limit, ids)
    {
      if ClockOrdered(Abs().log) && (limits.maxPizzas <= 0 || limit <= limits.maxPizzas) {
        ReachableInv(limits, catalogue, start, actions);
        HistoryIsThatOfTheLog(limits, Abs(), limit, ids);
      }
    }
  }

  lemma DistinctIds(ingredients: seq<Ingredient>)
    ensures !Distinct(IngredientIds(ingredients)) <==>
            exists j, k :: 0 <= j < k < |ingredients| && ingredients[j].id == ingredients[k].id
  {
    var ids := IngredientIds(ingredients);
    assert forall k :: 0 <= k < |ids| ==> ids[k] == ingredients[k].id;
    if !Distinct(ids) {
      var j, k :| 0 <= j < k < |ids| && ids[j] == ids[k];
      assert ingredients[j].id == ingredients[k].id;
    }
    if j, k :| 0 <= j < k < |ingredients| && ingredients[j].id == ingredients[k].id {
      assert ids[j] == ids[k];
    }
  }

  lemma KnownIds(ingredients: seq<Ingredient>, known: set<int>)
    ensures (forall id :: id in IngredientIds(ingredients) ==> id in known) <==>
            !exists i :: i in ingredients && i.id !in known
  {
    SameIds(ingredients);
    var ids := set i | i in ingredients :: i.id;
    assert forall id :: id in IngredientIds(ingredients) <==> id in (set i | i in IngredientIds(ingredients));
    assert forall i :: i in ingredients ==> i.id in ids;
  }

  /** What makes the store refuse a pizza, in terms of the pizza. */
  lemma PizzaRefused(db: Db, pizza: Pizza, now: int)
    ensures !CanAddPizza(db, RowOf(pizza, now), IngredientIds(pizza.ingredients)) <==>
      || pizza.dough.id !in db.catalogue.doughs || pizza.tool !in db.catalogue.tools
      || (exists i :: i in pizza.ingredients && i.id !in db.catalogue.ingredients)
      || (exists j, k :: 0 <= j < k < |pizza.ingredients| && pizza.ingredients[j].id == pizza.ingredients[k].id)
  {
    DistinctIds(pizza.ingredients);
    KnownIds(pizza.ingredients, db.catalogue.ingredients.Keys);
  }

  lemma NewPizzaRows(limits: Limits, db: Db, id: int, pizza: Pizza, now: int)
    requires CanAddPizza(db, RowOf(pizza, now), IngredientIds(pizza.ingredients))
    requires ForeignKeysHold(db) && id !in db.pizzas
    ensures var after := InsertPizza(limits, db, id, RowOf(pizza, now), IngredientIds(pizza.ingredients),
                                     db.pizzas.Keys + {id}).value;
      && after.pizzas.Keys == Kept(db.pizzas.Keys + {id}, limits.fixedPizzas, limits.maxPizzas)
      && (id in after.pizzas ==>
            && after.pizzas[id] == PizzaRow(now, pizza.name, pizza.dough.id, pizza.tool)
            && LinkedTo(after.links, id) == (set i | i in pizza.ingredients :: i.id))
      && (forall p :: p in after.pizzas && p != id ==>
            after.pizzas[p] == db.pizzas[p] && LinkedTo(after.links, p) == LinkedTo(db.links, p))
      && after.ratings == (map r | r in db.ratings && db.ratings[r].pizzaId in after.pizzas :: db.ratings[r])
      && after.users == db.users
  {
    var row, ids := RowOf(pizza, now), IngredientIds(pizza.ingredients);
    InsertedPizzaRows(limits, db, id, row, ids);
    InsertedPizzaRatings(limits, db, id, row, ids);
    var after := InsertPizza(limits, db, id, row, ids, db.pizzas.Keys + {id}).value;
    forall p | p in after.pizzas
      ensures LinkedTo(after.links, p) == if p == id then (set i | i in ids) else LinkedTo(db.links, p)
    {
      InsertedPizzaLinks(limits, db, id, row, ids, p);
    }
    SameIds(pizza.ingredients);
  }

  lemma SameIds(ingredients: seq<Ingredient>)
    ensures (set i | i in IngredientIds(ingredients)) == (set i | i in ingredients :: i.id)
  {
    var ids := IngredientIds(ingredients);
    forall i | i in ingredients ensures i.id in ids {
      var k :| 0 <= k < |ingredients| && ingredients[k] == i;
      assert ids[k] == i.id;
    }
    forall id | id in ids ensures exists i :: i in ingredients && i.id == id {
      var k :| 0 <= k < |ids| && ids[k] == id;
      assert ingredients[k] in ingredients;
    }
  }

  lemma UpdateEffect(limits: Limits, s: State, caller: Caller, rating: int, stars: int)
    requires s.pending == map[] && caller in s.callers
    ensures Both(limits, s, ReadForUpdate(0, caller, rating, stars), WriteStars(0)) ==
      if caller.username != GLOBAL_USERNAME && OwnedBy(s.db, rating, caller.id)
      then s.(db := SetStars(s.db, rating, stars)) else s
  {
  }

  lemma DeleteEffect(limits: Limits, s: State, caller: Caller, rating: int)
    requires s.pending == map[] && caller in s.callers
    ensures Both(limits, s, ReadForDelete(0, caller, rating), DeleteRead(0)) ==
      if caller.username != GLOBAL_USERNAME && OwnedBy(s.db, rating, caller.id)
      then s.(db := WithoutRatings(s.db, {rating})) else s
  {
  }

  lemma RatingEffect(limits: Limits, s: State, row: RatingRow, id: int)
    requires s.pending == map[] && 1 <= id && (forall r :: r in s.log.ratings ==> r < id)
    requires RatingsOk(s.db.users.Keys, s.db.pizzas.Keys, s.db.ratings, s.log.ratings)
    requires row.userId in s.db.users && row.pizzaId in s.db.pizzas
    ensures var s' := Both(limits, s, CheckPizza(0, row), AddRating(0, id, Whole));
      && s'.pending == map[] && s'.log == s.log.(ratings := s.log.ratings[id := row])
      && Some(s'.db) == InsertRating(limits, s.db, id, row, s.db.ratings.Keys + {id})
      && id in s'.db.ratings && s'.db.ratings[id] == row
  {
    assert Newer(s.db.ratings.Keys + {id}, id) == {};
    assert map[0 := Rating(row)] - {0} == map[];
  }

  lemma AccountTaken(users: map<int, UserRow>, user: int, username: string, token: string)
    requires user in users && (users[user].username == username || users[user].token == token)
    ensures !AccountFree(users, username, token)
  {
  }

  lemma WithoutNothing(db: Db)
    ensures WithoutUsers(db, {}) == db && WithoutPizzas(db, {}) == db
  {
    assert WithoutUsers(db, {}).ratings == db.ratings && WithoutUsers(db, {}).users == db.users;
    assert WithoutPizzas(db, {}).ratings == db.ratings && WithoutPizzas(db, {}).pizzas == db.pizzas;
    assert WithoutPizzas(db, {}).links == db.links;
  }

  lemma OneMoreUser(db: Db, done: set<int>, u: int)
    ensures WithoutUsers(WithoutUsers(db, done), {u}) == WithoutUsers(db, done + {u})
  {
    var a, b := WithoutUsers(WithoutUsers(db, done), {u}), WithoutUsers(db, done + {u});
    assert a.users == b.users && a.ratings == b.ratings;
  }

  lemma OneMorePizza(db: Db, done: set<int>, p: int)
    ensures WithoutPizzas(WithoutPizzas(db, done), {p}) == WithoutPizzas(db, done + {p})
  {
    var a, b := WithoutPizzas(WithoutPizzas(db, done), {p}), WithoutPizzas(db, done + {p});
    assert a.pizzas == b.pizzas && a.ratings == b.ratings && a.links == b.links;
  }

  // What the operations of the class do to the run that stands for it.

  lemma PizzaRecorded(limits: Limits, catalogue: Catalogue, start: int, actions: seq<Action>, a: Action,
                      lastUser: int, lastPizza: int, lastRating: int)
    requires HoldsSeedItems(catalogue)
    requires CountersAhead(Run(limits, Seed(catalogue, start), actions).log, lastUser, lastPizza, lastRating)
    requires a.RecordPizza? && a.view == Whole && lastPizza < a.id
    requires CanAddPizza(Run(limits, Seed(catalogue, start), actions).db, a.pizza, a.ingredients)
    ensures var s := Run(limits, Seed(catalogue, start), actions);
      var s' := Run(limits, Seed(catalogue, start), actions + [a]);
      && Some(s'.db) == InsertPizza(limits, s.db, a.id, a.pizza, a.ingredients, s.db.pizzas.Keys + {a.id})
      && s'.pending == s.pending
      && CountersAhead(s'.log, lastUser, a.id, lastRating)
      && a.id in s'.db.pizzas
  {
    var s := Run(limits, Seed(catalogue, start), actions);
    ReachableInv(limits, catalogue, start, actions);
    RunOne(limits, Seed(catalogue, start), actions, a);
    assert Newer(s.db.pizzas.Keys + {a.id}, a.id) == {};
  }

  lemma RatingRecorded(limits: Limits, catalogue: Catalogue, start: int, actions: seq<Action>, row: RatingRow,
                       id: int, lastUser: int, lastPizza: int, lastRating: int)
    requires HoldsSeedItems(catalogue)
    requires var s := Run(limits, Seed(catalogue, start), actions);
      && s.pending == map[] && CountersAhead(s.log, lastUser, lastPizza, lastRating)
      && row.userId in s.db.users && row.pizzaId in s.db.pizzas && lastRating < id
    ensures var s := Run(limits, Seed(catalogue, start), actions);
      var s' := Run(limits, Seed(catalogue, start), actions + [CheckPizza(0, row), AddRating(0, id, Whole)]);
      && Some(s'.db) == InsertRating(limits, s.db, id, row, s.db.ratings.Keys + {id})
      && s'.pending == map[]
      && CountersAhead(s'.log, lastUser, lastPizza, id)
      && id in s'.db.ratings && s'.db.ratings[id] == row
  {
    ReachableInv(limits, catalogue, start, actions);
    RunTwo(limits, Seed(catalogue, start), actions, CheckPizza(0, row), AddRating(0, id, Whole));
    RatingEffect(limits, Run(limits, Seed(catalogue, start), actions), row, id);
  }

  lemma NewUserSurvives(limits: Limits, db: Db, id: int, row: UserRow)
    requires AccountFree(db.users, row.username, row.token) && forall u :: u in db.users ==> u < id
    ensures id in InsertUser(limits, db, id, row, db.users.Keys + {id}).value.users
  {
    assert Newer(db.users.Keys + {id}, id) == {};
  }

  lemma UserRecorded(limits: Limits, catalogue: Catalogue, start: int, actions: seq<Action>,
                     username: string, password: string, token: string, id: int,
                     lastUser: int, lastPizza: int, lastRating: int)
    requires HoldsSeedItems(catalogue)
    requires var s := Run(limits, Seed(catalogue, start), actions);
      && s.pending == map[] && CountersAhead(s.log, lastUser, lastPizza, lastRating)
      && password != "" && AccountFree(s.db.users, username, token) && lastUser < id
    ensures var s := Run(limits, Seed(catalogue, start), actions);
      var row := UserRow(username, token, HashOf(password), "");
      var steps := [CheckUsername(0, username, password, token), AddUser(0, id, Whole)];
      var s' := Run(limits, Seed(catalogue, start), actions + steps);
      && Some(s'.db) == InsertUser(limits, s.db, id, row, s.db.users.Keys + {id})
      && s'.pending == map[]
      && CountersAhead(s'.log, id, lastPizza, lastRating)
      && id in s'.db.users
  {
    var s := Run(limits, Seed(catalogue, start), actions);
    assert forall u :: u in s.db.users ==> u in s.log.users by {
      ReachableInv(limits, catalogue, start, actions);
    }
    RunTwo(limits, Seed(catalogue, start), actions, CheckUsername(0, username, password, token), AddUser(0, id, Whole));
    UserEffect(limits, s, username, password, token, id);
    NewUserSurvives(limits, s.db, id, UserRow(username, token, HashOf(password), ""));
  }

  lemma RatingUpdated(limits: Limits, catalogue: Catalogue, start: int, actions: seq<Action>,
                      caller: Caller, rating: int, stars: int)
    requires Run(limits, Seed(catalogue, start), actions).pending == map[]
    requires caller in Run(limits, Seed(catalogue, start), actions).callers
    ensures var s := Run(limits, Seed(catalogue, start), actions);
      Run(limits, Seed(catalogue, start), actions + [ReadForUpdate(0, caller, rating, stars), WriteStars(0)]) ==
        if caller.username != GLOBAL_USERNAME && OwnedBy(s.db, rating, caller.id)
        then s.(db := SetStars(s.db, rating, stars)) else s
  {
    RunTwo(limits, Seed(catalogue, start), actions, ReadForUpdate(0, caller, rating, stars), WriteStars(0));
    UpdateEffect(limits, Run(limits, Seed(catalogue, start), actions), caller, rating, stars);
  }

  lemma RatingDeleted(limits: Limits, catalogue: Catalogue, start: int, actions: seq<Action>,
                      caller: Caller, rating: int)
    requires Run(limits, Seed(catalogue, start), actions).pending == map[]
    requires caller in Run(limits, Seed(catalogue, start), actions).callers
    ensures var s := Run(limits, Seed(catalogue, start), actions);
      Run(limits, Seed(catalogue, start), actions + [ReadForDelete(0, caller, rating), DeleteRead(0)]) ==
        if caller.username != GLOBAL_USERNAME && OwnedBy(s.db, rating, caller.id)
        then s.(db := WithoutRatings(s.db, {rating})) else s
  {
    RunTwo(limits, Seed(catalogue, start), actions, ReadForDelete(0, caller, rating), DeleteRead(0));
    DeleteEffect(limits, Run(limits, Seed(catalogue, start), actions), caller, rating);
  }
}
