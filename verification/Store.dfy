/** The catalog tables, the constraints of their schema, and the transactions that change them. */
module Store {
  import opened Model
  import opened Sets
  import opened TableLimits

  datatype Limits = Limits(fixedPizzas: int, fixedUsers: int, fixedRatings: int,
                           maxPizzas: int, maxUsers: int, maxRatings: int)

  /** The read-only tables. The column `type` stays in the store: it is not sent to clients. */
  datatype IngredientRow = IngredientRow(item: Ingredient, kind: string)
  datatype Catalogue = Catalogue(ingredients: map<int, IngredientRow>, doughs: map<int, Dough>, tools: set<string>)

  /** An ideal password hash: it determines the password, and nothing else matches it. */
  datatype Hash = NoHash | HashOf(password: string)

  datatype UserRow = UserRow(username: string, token: string, passwordHash: Hash, passwordPlaintext: string)
  datatype PizzaRow = PizzaRow(createdAt: int, name: string, doughId: int, tool: string)
  datatype RatingRow = RatingRow(stars: int, userId: int, pizzaId: int)
  datatype Link = Link(pizzaId: int, ingredientId: int)

  datatype Db = Db(catalogue: Catalogue, users: map<int, UserRow>, pizzas: map<int, PizzaRow>,
                   ratings: map<int, RatingRow>, links: set<Link>)

  // ---------- Constraints of the schema ----------

  ghost predicate KeyedById(catalogue: Catalogue) {
    && (forall i :: i in catalogue.ingredients ==> catalogue.ingredients[i].item.id == i)
    && (forall d :: d in catalogue.doughs ==> catalogue.doughs[d].id == d)
  }

  ghost predicate PizzaKeysHold(catalogue: Catalogue, pizzas: map<int, PizzaRow>) {
    forall p :: p in pizzas ==> pizzas[p].doughId in catalogue.doughs && pizzas[p].tool in catalogue.tools
  }

  ghost predicate RatingKeysHold(users: set<int>, pizzas: set<int>, ratings: map<int, RatingRow>) {
    forall r :: r in ratings ==> ratings[r].userId in users && ratings[r].pizzaId in pizzas
  }

  ghost predicate LinkKeysHold(catalogue: Catalogue, pizzas: set<int>, links: set<Link>) {
    forall l :: l in links ==> l.pizzaId in pizzas && l.ingredientId in catalogue.ingredients
  }

  /** Every foreign key points at a row. */
  ghost predicate ForeignKeysHold(db: Db) {
    && PizzaKeysHold(db.catalogue, db.pizzas)
    && RatingKeysHold(db.users.Keys, db.pizzas.Keys, db.ratings)
    && LinkKeysHold(db.catalogue, db.pizzas.Keys, db.links)
  }

  ghost predicate UniqueAccounts(users: map<int, UserRow>) {
    forall u, v :: u in users && v in users && u != v ==>
      users[u].username != users[v].username && users[u].token != users[v].token
  }

  function LinkedTo(links: set<Link>, pizza: int): set<int> {
    set l | l in links && l.pizzaId == pizza :: l.ingredientId
  }

  // ---------- Who a token stands for ----------

  predicate TokenKnown(db: Db, token: string) {
    exists u :: u in db.users && db.users[u].token == token
  }

  /** `Authenticate(token)` returns the user `u`: the owner of the token, or user 1 if it has none. */
  predicate AuthenticatesAs(db: Db, token: string, u: int) {
    && u in db.users
    && if TokenKnown(db, token) then db.users[u].token == token else u == 1
  }

  // ---------- Deletes, with their cascades ----------

  function WithoutUsers(db: Db, gone: set<int>): Db {
    db.(users := db.users - gone,
        ratings := map r | r in db.ratings && db.ratings[r].userId !in gone :: db.ratings[r])
  }

  function WithoutPizzas(db: Db, gone: set<int>): Db {
    db.(pizzas := db.pizzas - gone,
        ratings := map r | r in db.ratings && db.ratings[r].pizzaId !in gone :: db.ratings[r],
        links := set l | l in db.links && l.pizzaId !in gone)
  }

  function WithoutRatings(db: Db, gone: set<int>): Db {
    db.(ratings := db.ratings - gone)
  }

  function RatingsOf(db: Db, user: int): set<int> {
    set r | r in db.ratings && db.ratings[r].userId == user
  }

  // ---------- Transactions ----------
  // `seen` is what the trimming DELETE reads of the table's ids. None is an error and a rollback.

  predicate Distinct<T(==)>(s: seq<T>) {
    forall i, j :: 0 <= i < j < |s| ==> s[i] != s[j]
  }

  lemma DistinctAppend<T>(s: seq<T>, x: T)
    requires Distinct(s) && x !in s
    ensures Distinct(s + [x])
  {
  }

  function AddPizza(db: Db, id: int, row: PizzaRow, ingredients: seq<int>): Db {
    db.(pizzas := db.pizzas[id := row], links := db.links + (set i | i in ingredients :: Link(id, i)))
  }

  predicate CanAddPizza(db: Db, row: PizzaRow, ingredients: seq<int>) {
    && row.doughId in db.catalogue.doughs
    && row.tool in db.catalogue.tools
    && (forall i :: i in ingredients ==> i in db.catalogue.ingredients)
    && Distinct(ingredients)
  }

  function InsertPizza(limits: Limits, db: Db, id: int, row: PizzaRow, ingredients: seq<int>,
                       seen: set<int>): Option<Db>
  {
    if CanAddPizza(db, row, ingredients) then
      Some(WithoutPizzas(AddPizza(db, id, row, ingredients), ToDelete(seen, limits.fixedPizzas, limits.maxPizzas)))
    else
      None
  }

  function InsertRating(limits: Limits, db: Db, id: int, row: RatingRow, seen: set<int>): Option<Db> {
    if row.userId in db.users && row.pizzaId in db.pizzas then
      Some(WithoutRatings(db.(ratings := db.ratings[id := row]),
                          ToDelete(seen, limits.fixedRatings, limits.maxRatings)))
    else
      None
  }

  predicate AccountFree(users: map<int, UserRow>, username: string, token: string) {
    forall u :: u in users ==> users[u].username != username && users[u].token != token
  }

  function InsertUser(limits: Limits, db: Db, id: int, row: UserRow, seen: set<int>): Option<Db> {
    if AccountFree(db.users, row.username, row.token) then
      Some(WithoutUsers(db.(users := db.users[id := row]), ToDelete(seen, limits.fixedUsers, limits.maxUsers)))
    else
      None
  }

  function SetStars(db: Db, rating: int, stars: int): Db {
    if rating in db.ratings then db.(ratings := db.ratings[rating := db.ratings[rating].(stars := stars)]) else db
  }

  // ---------- What a transaction leaves in every table ----------
  // For trims that read the whole table, in terms of the rows themselves.

  lemma InsertedPizzaRows(limits: Limits, db: Db, id: int, row: PizzaRow, ingredients: seq<int>)
    requires CanAddPizza(db, row, ingredients)
    ensures var after := InsertPizza(limits, db, id, row, ingredients, db.pizzas.Keys + {id}).value;
      && after.pizzas.Keys == Kept(db.pizzas.Keys + {id}, limits.fixedPizzas, limits.maxPizzas)
      && (forall p :: p in after.pizzas ==> after.pizzas[p] == if p == id then row else db.pizzas[p])
      && after.users == db.users
  {
  }

  lemma InsertedPizzaLinks(limits: Limits, db: Db, id: int, row: PizzaRow, ingredients: seq<int>, p: int)
    requires CanAddPizza(db, row, ingredients) && forall l :: l in db.links ==> l.pizzaId != id
    requires p in InsertPizza(limits, db, id, row, ingredients, db.pizzas.Keys + {id}).value.pizzas
    ensures var after := InsertPizza(limits, db, id, row, ingredients, db.pizzas.Keys + {id}).value;
      LinkedTo(after.links, p) == if p == id then (set i | i in ingredients) else LinkedTo(db.links, p)
  {
    var after := InsertPizza(limits, db, id, row, ingredients, db.pizzas.Keys + {id}).value;
    forall i
      ensures i in LinkedTo(after.links, p) <==>
              i in if p == id then (set i | i in ingredients) else LinkedTo(db.links, p)
    {
      assert i in LinkedTo(after.links, p) <==> Link(p, i) in after.links;
      assert i in LinkedTo(db.links, p) <==> Link(p, i) in db.links;
    }
  }

  lemma InsertedPizzaRatings(limits: Limits, db: Db, id: int, row: PizzaRow, ingredients: seq<int>)
    requires CanAddPizza(db, row, ingredients) && ForeignKeysHold(db)
    ensures var after := InsertPizza(limits, db, id, row, ingredients, db.pizzas.Keys + {id}).value;
      after.ratings == map r | r in db.ratings && db.ratings[r].pizzaId in after.pizzas :: db.ratings[r]
  {
    var gone := ToDelete(db.pizzas.Keys + {id}, limits.fixedPizzas, limits.maxPizzas);
    var after := InsertPizza(limits, db, id, row, ingredients, db.pizzas.Keys + {id}).value;
    forall r | r in db.ratings ensures db.ratings[r].pizzaId in after.pizzas <==> db.ratings[r].pizzaId !in gone {
      assert db.ratings[r].pizzaId in db.pizzas.Keys;
    }
  }

  lemma InsertedUserRows(limits: Limits, db: Db, id: int, row: UserRow)
    requires AccountFree(db.users, row.username, row.token) && ForeignKeysHold(db)
    ensures var after := InsertUser(limits, db, id, row, db.users.Keys + {id}).value;
      && after.users.Keys == Kept(db.users.Keys + {id}, limits.fixedUsers, limits.maxUsers)
      && (forall u :: u in after.users ==> after.users[u] == if u == id then row else db.users[u])
      && after.ratings == (map r | r in db.ratings && db.ratings[r].userId in after.users :: db.ratings[r])
      && after.pizzas == db.pizzas && after.links == db.links
  {
    var gone := ToDelete(db.users.Keys + {id}, limits.fixedUsers, limits.maxUsers);
    var after := InsertUser(limits, db, id, row, db.users.Keys + {id}).value;
    forall r | r in db.ratings ensures db.ratings[r].userId in after.users <==> db.ratings[r].userId !in gone {
      assert db.ratings[r].userId in db.users.Keys;
    }
  }

  lemma InsertedRatingRows(limits: Limits, db: Db, id: int, row: RatingRow)
    requires row.userId in db.users && row.pizzaId in db.pizzas
    ensures var after := InsertRating(limits, db, id, row, db.ratings.Keys + {id}).value;
      && after.ratings.Keys == Kept(db.ratings.Keys + {id}, limits.fixedRatings, limits.maxRatings)
      && (forall r :: r in after.ratings ==> after.ratings[r] == if r == id then row else db.ratings[r])
      && after.users == db.users && after.pizzas == db.pizzas && after.links == db.links
  {
  }

  // ---------- The seed ----------

  /** The rows of the fixture, over any catalogue that has the ingredients, doughs and tools they name. */
  ghost predicate HoldsSeedItems(catalogue: Catalogue) {
    && KeyedById(catalogue)
    && {1, 2, 3} <= catalogue.doughs.Keys
    && {"Scissors", "Knife"} <= catalogue.tools
    && {2, 3, 5, 6, 7, 9, 18, 22, 24} <= catalogue.ingredients.Keys
  }

  function SeedUsers(): map<int, UserRow> {
    map[1 := UserRow(GLOBAL_USERNAME, "abcdef0123456789", NoHash, ""),
        2 := UserRow("synthetics_multihttp_example", "woSyhhrE3pQVUxMU", NoHash, "synthetics_multihttp_example"),
        3 := UserRow("studio-user", "oBGOPc5tVtk9WAgf", NoHash, "k6studiorocks")]
  }

  function SeedPizzas(now: int): map<int, PizzaRow> {
    map[1 := PizzaRow(now, "A Funny Capricciosa", 1, "Scissors"),
        2 := PizzaRow(now, "The Database Special", 2, "Knife"),
        3 := PizzaRow(now, "The Deep Bolognese", 3, "Knife")]
  }

  function SeedRatings(): map<int, RatingRow> {
    map[1 := RatingRow(5, 1, 1), 2 := RatingRow(1, 1, 2), 3 := RatingRow(1, 1, 3)]
  }

  function SeedIngredients(pizza: int): set<int> {
    if pizza == 1 then {2, 5, 6, 24, 18}
    else if pizza == 2 then {3, 5, 7, 22}
    else {3, 6, 9}
  }

  function SeedDb(catalogue: Catalogue, now: int): Db {
    Db(catalogue, SeedUsers(), SeedPizzas(now), SeedRatings(),
       set p, i | p in {1, 2, 3} && i in SeedIngredients(p) :: Link(p, i))
  }
}
