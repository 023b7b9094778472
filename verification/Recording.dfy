/** Where generator and store meet: a generated pizza is always recorded, and what is read back,
    as long as it is there, is what was reported to the client. */
module Recording {
  import opened Model
  import opened Sets
  import opened Store
  import opened TableLimits
  import opened History
  import opened Interleaving
  import opened Runs
  import opened CatalogService
  import opened Generator

  /** The ingredient is the row of the catalogue that has its id. */
  predicate IsRow(catalogue: Catalogue, i: Ingredient) {
    i.id in catalogue.ingredients && catalogue.ingredients[i.id].item == i
  }

  ghost predicate AllRows(catalogue: Catalogue, list: seq<Ingredient>) {
    forall i :: i in list ==> IsRow(catalogue, i)
  }

  ghost predicate FromCatalogue(catalogue: Catalogue, menu: Menu) {
    && AllRows(catalogue, menu.oils) && AllRows(catalogue, menu.tomatoes)
    && AllRows(catalogue, menu.mozzarellas) && AllRows(catalogue, menu.toppings)
    && (forall t :: t in menu.tools ==> t in catalogue.tools)
    && (forall d :: d in menu.doughs ==> d.id in catalogue.doughs && catalogue.doughs[d.id] == d)
  }

  lemma FilteredRows(catalogue: Catalogue, r: Restrictions, list: seq<Ingredient>, valid: seq<Ingredient>)
    requires AllRows(catalogue, list) && FilteredFrom(r, list, valid)
    ensures AllRows(catalogue, valid)
  {
    forall i | i in valid ensures IsRow(catalogue, i) { FilteredIngredient(r, list, valid, i); }
  }

  lemma FilteredStaysInCatalogue(catalogue: Catalogue, r: Restrictions, all: Menu, valid: Menu)
    requires FromCatalogue(catalogue, all) && FilteredMenu(r, all, valid)
    ensures FromCatalogue(catalogue, valid)
  {
    FilteredRows(catalogue, r, all.oils, valid.oils);
    FilteredRows(catalogue, r, all.tomatoes, valid.tomatoes);
    FilteredRows(catalogue, r, all.mozzarellas, valid.mozzarellas);
    FilteredRows(catalogue, r, all.toppings, valid.toppings);
    forall t | t in valid.tools ensures t in catalogue.tools {
      assert t in multiset(valid.tools);
      assert t in multiset(all.tools);
    }
  }

  /** Everything in a generated pizza comes from the catalogue. */
  lemma GeneratedFromCatalogue(catalogue: Catalogue, menu: Menu, r: Restrictions, p: Pizza)
    requires FromCatalogue(catalogue, menu) && Possible(menu, r, p)
    ensures AllRows(catalogue, p.ingredients) && DistinctNames(p.ingredients)
    ensures p.tool in catalogue.tools && p.dough.id in catalogue.doughs && catalogue.doughs[p.dough.id] == p.dough
  {
    var n, drawn :| MadeFrom(menu, r, n, drawn, p);
    forall i | i in p.ingredients ensures IsRow(catalogue, i) {
      assert LastOfItsName(drawn, i);
      var k :| 0 <= k < |drawn| && drawn[k] == i;
    }
  }

  /** Deduplicating by name is enough for the store, whose links are keyed by id. */
  lemma DistinctNamesGiveDistinctIds(catalogue: Catalogue, ingredients: seq<Ingredient>)
    requires AllRows(catalogue, ingredients) && DistinctNames(ingredients)
    ensures Distinct(IngredientIds(ingredients))
  {
    var ids := IngredientIds(ingredients);
    forall j, k | 0 <= j < k < |ids| ensures ids[j] != ids[k] {
      assert IsRow(catalogue, ingredients[j]) && IsRow(catalogue, ingredients[k]);
    }
  }

  /** Recording a generated pizza never fails: whatever was drawn, no constraint of the store is in
      its way, in any state of the store. */
  lemma GeneratedPizzaRecords(db: Db, menu: Menu, r: Restrictions, p: Pizza, now: int)
    requires FromCatalogue(db.catalogue, menu) && Possible(menu, r, p)
    ensures CanAddPizza(db, RowOf(p, now), IngredientIds(p.ingredients))
  {
    GeneratedFromCatalogue(db.catalogue, menu, r, p);
    DistinctNamesGiveDistinctIds(db.catalogue, p.ingredients);
    forall id | id in IngredientIds(p.ingredients) ensures id in db.catalogue.ingredients {
      var k :| 0 <= k < |p.ingredients| && p.ingredients[k].id == id;
      assert IsRow(db.catalogue, p.ingredients[k]);
    }
  }

  /** `q` is the pizza `p`, its ingredients in any order; so its calories and its flag are those of `p`. */
  predicate SamePizza(q: Pizza, p: Pizza) {
    && q.name == p.name && q.tool == p.tool && q.dough == p.dough
    && multiset(q.ingredients) == multiset(p.ingredients)
    && Calories(q.ingredients) == Calories(p.ingredients)
    && Vegetarian(q.ingredients) == Vegetarian(p.ingredients)
  }

  lemma StoredPizzaReadsBack(db: Db, id: int, p: Pizza, now: int, q: Pizza)
    requires AllRows(db.catalogue, p.ingredients) && Distinct(IngredientIds(p.ingredients))
    requires p.dough.id in db.catalogue.doughs && db.catalogue.doughs[p.dough.id] == p.dough
    requires id in db.pizzas && db.pizzas[id] == RowOf(p, now)
    requires LinkedTo(db.links, id) == set i | i in IngredientIds(p.ingredients)
    requires ReadsBack(db, id, q)
    ensures SamePizza(q, p)
  {
    var ids := IngredientIds(p.ingredients);
    forall i | i in p.ingredients ensures i in q.ingredients {
      var k :| 0 <= k < |p.ingredients| && p.ingredients[k] == i;
      assert ids[k] in LinkedTo(db.links, id) && IsRow(db.catalogue, i);
    }
    forall i | i in q.ingredients ensures i in p.ingredients {
      var key :| key in LinkedTo(db.links, id) && key in db.catalogue.ingredients &&
                 db.catalogue.ingredients[key].item == i;
      var k :| 0 <= k < |ids| && ids[k] == key;
      assert IsRow(db.catalogue, p.ingredients[k]);
    }
    forall j, k | 0 <= j < k < |p.ingredients| ensures p.ingredients[j] != p.ingredients[k] {
      assert ids[j] != ids[k];
    }
    SameSetSameMultiset(q.ingredients, p.ingredients);
    OrderDoesNotMatter(q.ingredients, p.ingredients);
  }

  /** From draw to read-back: a generated pizza is recorded whatever the state and the view of the
      trim, and in every later state, after anything that others did, an answer for its id has the
      name, dough, tool, ingredients, calories and flag that were reported. */
  lemma RecordedPizzaReadsBackAsReported(limits: Limits, s: State, menu: Menu, r: Restrictions, p: Pizza,
                                         id: int, now: int, view: View, actions: seq<Action>, q: Pizza)
    requires Inv(limits, s) && FromCatalogue(s.db.catalogue, menu) && Possible(menu, r, p)
    requires Fresh(id, s.log.pizzas.Keys)
    ensures var recorded := Apply(limits, s, RecordPizza(id, RowOf(p, now), IngredientIds(p.ingredients), view));
      && id in recorded.log.pizzas
      && (ReadsBack(Run(limits, recorded, actions).db, id, q) ==> SamePizza(q, p))
  {
    var a := RecordPizza(id, RowOf(p, now), IngredientIds(p.ingredients), view);
    var recorded := Apply(limits, s, a);
    var later := Run(limits, recorded, actions).db;
    GeneratedPizzaRecords(s.db, menu, r, p, now);
    assert recorded.log.pizzas[id] == LoggedPizza(RowOf(p, now), set i | i in IngredientIds(p.ingredients));
    if ReadsBack(later, id, q) {
      assert later.catalogue == s.db.catalogue by { CatalogueFixed(limits, recorded, actions); }
      assert later.pizzas[id] == RowOf(p, now) &&
             LinkedTo(later.links, id) == set i | i in IngredientIds(p.ingredients) by {
        ApplyKeepsInv(limits, s, a);
        RowsAreStable(limits, recorded, actions);
      }
      assert AllRows(later.catalogue, p.ingredients) && Distinct(IngredientIds(p.ingredients)) &&
             p.dough.id in later.catalogue.doughs && later.catalogue.doughs[p.dough.id] == p.dough by {
        GeneratedFromCatalogue(s.db.catalogue, menu, r, p);
        DistinctNamesGiveDistinctIds(s.db.catalogue, p.ingredients);
      }
      StoredPizzaReadsBack(later, id, p, now, q);
    }
  }

  // ---------- A recording and the history after it ----------

  lemma LatestComesFirst(pizzas: map<int, PizzaRow>, limit: nat, ids: seq<int>, id: int)
    requires 1 <= limit && IsTop(CreationTimes(pizzas), limit, ids) && id in pizzas
    requires forall p :: p in pizzas && p != id ==> p < id && pizzas[p].createdAt <= pizzas[id].createdAt
    ensures ids != [] && ids[0] == id
  {
    TopIsLatest(pizzas, limit, ids);
    SubsetSize({id}, pizzas.Keys);
    forall p | p in pizzas && p != id ensures !Latest(pizzas, p, id) {}
  }

  lemma GreatestIdSurvives(limits: Limits, s: State, id: int, row: PizzaRow, ingredients: seq<int>, view: View)
    requires Fresh(id, s.log.pizzas.Keys) && (forall p :: p in s.log.pizzas ==> p < id)
    requires (forall p :: p in s.db.pizzas ==> p in s.log.pizzas) && CanAddPizza(s.db, row, ingredients)
    ensures var after := Apply(limits, s, RecordPizza(id, row, ingredients, view)).db.pizzas;
      && id in after && after[id] == row
      && forall p :: p in after && p != id ==> p in s.db.pizzas && after[p] == s.db.pizzas[p]
  {
    var seen := Seen(view, s.log.pizzas.Keys, s.db.pizzas.Keys, id);
    assert Newer(seen, id) == {};
  }

  /** Any pizza the store accepts leads the history from the moment it is recorded, if no live pizza has
      a later creation time. */
  lemma RecordingLeadsTheHistory(limits: Limits, s: State, pizza: Pizza, id: int, now: int, view: View,
                                 limit: nat, ids: seq<int>)
    requires Inv(limits, s) && CanAddPizza(s.db, RowOf(pizza, now), IngredientIds(pizza.ingredients))
    requires Fresh(id, s.log.pizzas.Keys) && forall k :: k in s.log.pizzas ==> k < id
    requires forall k :: k in s.db.pizzas ==> s.db.pizzas[k].createdAt <= now
    requires var a := RecordPizza(id, RowOf(pizza, now), IngredientIds(pizza.ingredients), view);
      1 <= limit && IsTop(CreationTimes(Apply(limits, s, a).db.pizzas), limit, ids)
    ensures ids != [] && ids[0] == id
  {
    var a := RecordPizza(id, RowOf(pizza, now), IngredientIds(pizza.ingredients), view);
    GreatestIdSurvives(limits, s, id, a.pizza, a.ingredients, view);
    LatestComesFirst(Apply(limits, s, a).db.pizzas, limit, ids, id);
  }

  /** A generated pizza leads the history from the moment it is recorded, if no live pizza has a later
      creation time: the first of the list is its id, and the answer there is the pizza reported. */
  lemma RecordedPizzaLeadsTheHistory(limits: Limits, s: State, menu: Menu, r: Restrictions, p: Pizza,
                                     id: int, now: int, view: View, limit: nat, ids: seq<int>, q: Pizza)
    requires Inv(limits, s) && FromCatalogue(s.db.catalogue, menu) && Possible(menu, r, p)
    requires Fresh(id, s.log.pizzas.Keys) && forall k :: k in s.log.pizzas ==> k < id
    requires forall k :: k in s.db.pizzas ==> s.db.pizzas[k].createdAt <= now
    requires var after := Apply(limits, s, RecordPizza(id, RowOf(p, now), IngredientIds(p.ingredients), view)).db;
      1 <= limit && IsTop(CreationTimes(after.pizzas), limit, ids) && (ids != [] ==> ReadsBack(after, ids[0], q))
    ensures ids != [] && ids[0] == id && SamePizza(q, p)
  {
    GeneratedPizzaRecords(s.db, menu, r, p, now);
    RecordingLeadsTheHistory(limits, s, p, id, now, view, limit, ids);
    RecordedPizzaReadsBackAsReported(limits, s, menu, r, p, id, now, view, [], q);
  }

  // ---------- The whole request ----------

  /** The list has exactly the ingredients of one type. */
  ghost predicate AllOfKind(catalogue: Catalogue, kind: string, list: seq<Ingredient>) {
    forall i :: i in list <==>
      exists k :: k in catalogue.ingredients && catalogue.ingredients[k] == IngredientRow(i, kind)
  }

  /** The menu is everything the catalogue offers. */
  ghost predicate FullMenu(catalogue: Catalogue, menu: Menu) {
    && AllOfKind(catalogue, "olive_oil", menu.oils) && AllOfKind(catalogue, "tomato", menu.tomatoes)
    && AllOfKind(catalogue, "mozzarella", menu.mozzarellas) && AllOfKind(catalogue, "topping", menu.toppings)
    && (forall t :: t in menu.tools <==> t in catalogue.tools)
    && (forall d :: d in menu.doughs <==> exists k :: k in catalogue.doughs && catalogue.doughs[k] == d)
  }

  method FetchMenu(catalog: Catalog) returns (menu: Menu)
    ensures FullMenu(catalog.catalogue, menu)
  {
    var oils := catalog.GetIngredients("olive_oil");
    var tomatoes := catalog.GetIngredients("tomato");
    var mozzarellas := catalog.GetIngredients("mozzarella");
    var toppings := catalog.GetIngredients("topping");
    var tools := catalog.GetTools();
    var doughs := catalog.GetDoughs();
    menu := Menu(oils, tomatoes, mozzarellas, toppings, tools, doughs);
  }

  lemma KindIsFromCatalogue(catalogue: Catalogue, kind: string, list: seq<Ingredient>)
    requires KeyedById(catalogue) && AllOfKind(catalogue, kind, list)
    ensures AllRows(catalogue, list)
  {
  }

  lemma FullMenuIsFromCatalogue(catalogue: Catalogue, menu: Menu)
    requires KeyedById(catalogue) && FullMenu(catalogue, menu)
    ensures FromCatalogue(catalogue, menu)
  {
    KindIsFromCatalogue(catalogue, "olive_oil", menu.oils);
    KindIsFromCatalogue(catalogue, "tomato", menu.tomatoes);
    KindIsFromCatalogue(catalogue, "mozzarella", menu.mozzarellas);
    KindIsFromCatalogue(catalogue, "topping", menu.toppings);
  }

  /** The name of some ingredient of the type is on the pizza. */
  ghost predicate HasOfKind(catalogue: Catalogue, kind: string, p: Pizza) {
    exists k, i :: k in catalogue.ingredients && catalogue.ingredients[k].kind == kind && i in p.ingredients &&
                   i.name == catalogue.ingredients[k].item.name
  }

  lemma NameOfKind(catalogue: Catalogue, kind: string, list: seq<Ingredient>, p: Pizza)
    requires AllOfKind(catalogue, kind, list) && Names(list) * Names(p.ingredients) != {}
    ensures HasOfKind(catalogue, kind, p)
  {
    var name :| name in Names(list) * Names(p.ingredients);
    var l :| l in list && l.name == name;
    var k :| k in catalogue.ingredients && catalogue.ingredients[k] == IngredientRow(l, kind);
    var i :| i in p.ingredients && i.name == name;
  }

  predicate KindOnMenu(kind: string) {
    kind == "olive_oil" || kind == "tomato" || kind == "mozzarella" || kind == "topping"
  }

  lemma OnTheMenu(catalogue: Catalogue, menu: Menu, i: Ingredient)
    requires FullMenu(catalogue, menu) && i in menu.oils + menu.tomatoes + menu.mozzarellas + menu.toppings
    ensures exists k :: k in catalogue.ingredients && catalogue.ingredients[k].item == i &&
                        KindOnMenu(catalogue.ingredients[k].kind)
  {
  }

  /** The pizza is made of rows of the catalogue: oil, tomato and mozzarella, and otherwise toppings. */
  ghost predicate MadeOfRows(catalogue: Catalogue, p: Pizza) {
    && (forall i :: i in p.ingredients ==>
          exists k :: k in catalogue.ingredients && catalogue.ingredients[k].item == i &&
                      KindOnMenu(catalogue.ingredients[k].kind))
    && HasOfKind(catalogue, "olive_oil", p) && HasOfKind(catalogue, "tomato", p)
    && HasOfKind(catalogue, "mozzarella", p)
    && p.tool in catalogue.tools && (exists d :: d in catalogue.doughs && catalogue.doughs[d] == p.dough)
  }

  lemma AnswerIsMadeOfRows(catalogue: Catalogue, menu: Menu, request: Restrictions, p: Pizza)
    requires FullMenu(catalogue, menu) && Meets(request, menu, p)
    ensures MadeOfRows(catalogue, p)
  {
    forall i | i in p.ingredients
      ensures exists k :: k in catalogue.ingredients && catalogue.ingredients[k].item == i &&
                          KindOnMenu(catalogue.ingredients[k].kind)
    {
      OnTheMenu(catalogue, menu, i);
    }
    NameOfKind(catalogue, "olive_oil", menu.oils, p);
    NameOfKind(catalogue, "tomato", menu.tomatoes, p);
    NameOfKind(catalogue, "mozzarella", menu.mozzarellas, p);
  }

  /** The whole request: fetch everything, filter, generate, record. A pizza is answered whenever every
      draw has something to draw from; it is made of rows of the catalogue, is what the request asked
      for, and is recorded as it is reported. Otherwise the handler may panic, and then nothing has
      changed. */
  method HandlePizzaRequest(catalog: Catalog, request: Restrictions, now: int, luck: seq<Rolls>)
    returns (result: Option<PizzaRecommendation>, id: Option<int>, valid: Menu,
             ghost menu: Menu, ghost attempts: seq<Pizza>)
    requires catalog.Valid() && |luck| == 10
    modifies catalog
    ensures catalog.Valid()
    ensures FullMenu(catalog.catalogue, menu) && FilteredMenu(Effective(request), menu, valid)
    ensures Sufficient(valid, Effective(request)) ==> result.Some?
    ensures result.Some? ==> Recommended(valid, Effective(request), luck, attempts, result.value)
    ensures result.Some? ==>
      && MadeOfRows(catalog.catalogue, result.value.pizza)
      && Meets(request, menu, result.value.pizza) && FirstOfTen(request, attempts, result.value)
    ensures result.Some? <==> id.Some?
    ensures result.None? ==> catalog.Tables() == old(catalog.Tables()) && catalog.actions == old(catalog.actions)
    ensures id.Some? ==> var p := result.value.pizza;
      && id.value in catalog.pizzas && (forall k :: k in old(catalog.pizzas) ==> k < id.value)
      && catalog.pizzas[id.value] == PizzaRow(now, p.name, p.dough.id, p.tool)
      && LinkedTo(catalog.links, id.value) == (set i | i in p.ingredients :: i.id)
      && catalog.actions == old(catalog.actions) +
           [RecordPizza(id.value, RowOf(p, now), IngredientIds(p.ingredients), Whole)]
  {
    var all := FetchMenu(catalog);
    menu := all;
    result, valid, attempts := Recommend(request, all, luck);
    id := None;
    if result.Some? {
      AnswerIsMadeOfRows(catalog.catalogue, menu, request, result.value.pizza);
      ProducedIsPossible(valid, Effective(request), luck[|attempts| - 1], result.value.pizza);
      GeneratedAnswerRecords(catalog.Tables(), menu, request, valid, result.value.pizza, now);
      id := catalog.RecordRecommendation(result.value.pizza, now);
    }
  }

  lemma GeneratedAnswerRecords(db: Db, menu: Menu, request: Restrictions, valid: Menu, p: Pizza, now: int)
    requires KeyedById(db.catalogue) && FullMenu(db.catalogue, menu)
    requires FilteredMenu(Effective(request), menu, valid) && Possible(valid, Effective(request), p)
    ensures CanAddPizza(db, RowOf(p, now), IngredientIds(p.ingredients))
  {
    FullMenuIsFromCatalogue(db.catalogue, menu);
    FilteredStaysInCatalogue(db.catalogue, Effective(request), menu, valid);
    GeneratedPizzaRecords(db, valid, Effective(request), p, now);
  }
}
