/** The pizza generator: filters, topping count, deduplication by name, and up to ten attempts.
    What `rand.Intn(n)` returns is a roll modulo n, for an arbitrary roll, so any value of its range;
    the order of a map is any order. */
module Generator {
  import opened Model
  import opened Sets

  datatype Restrictions = Restrictions(maxCaloriesPerSlice: int, mustBeVegetarian: bool,
                                       excludedIngredients: seq<string>, excludedTools: seq<string>,
                                       maxNumberOfToppings: int, minNumberOfToppings: int, customName: string)
  {
    function WithDefaults(): Restrictions {
      this.(maxCaloriesPerSlice := if maxCaloriesPerSlice == 0 then 1000 else maxCaloriesPerSlice,
            maxNumberOfToppings := if maxNumberOfToppings == 0 then 5 else maxNumberOfToppings,
            minNumberOfToppings := if minNumberOfToppings == 0 then 3 else minNumberOfToppings)
    }
  }

  /** What the generator fetches from the catalog, or is left with after filtering. */
  datatype Menu = Menu(oils: seq<Ingredient>, tomatoes: seq<Ingredient>, mozzarellas: seq<Ingredient>,
                       toppings: seq<Ingredient>, tools: seq<string>, doughs: seq<Dough>)

  datatype PizzaRecommendation = PizzaRecommendation(pizza: Pizza, calories: int, vegetarian: bool)

  /** The rolls of one attempt, and the random name. Toppings beyond the rolls given have roll 0. */
  datatype Rolls = Rolls(name: string, dough: nat, oil: nat, tomato: nat, mozzarella: nat, tool: nat,
                         count: nat, toppings: seq<nat>)

  const ATTEMPTS := 10

  // ---------- What an attempt may produce ----------

  predicate Allowed(r: Restrictions, i: Ingredient) {
    i.name !in r.excludedIngredients && (!r.mustBeVegetarian || i.vegetarian)
  }

  /** `valid` has the allowed ingredients of `list`, each as often as `list` has it, and no others. */
  ghost predicate FilteredFrom(r: Restrictions, list: seq<Ingredient>, valid: seq<Ingredient>) {
    forall i :: multiset(valid)[i] ==
      if i.name !in r.excludedIngredients && (r.mustBeVegetarian ==> i.vegetarian) then multiset(list)[i] else 0
  }

  ghost predicate FilteredMenu(r: Restrictions, all: Menu, valid: Menu) {
    && FilteredFrom(r, all.oils, valid.oils)
    && FilteredFrom(r, all.tomatoes, valid.tomatoes)
    && FilteredFrom(r, all.mozzarellas, valid.mozzarellas)
    && FilteredFrom(r, all.toppings, valid.toppings)
    && (forall t :: multiset(valid.tools)[t] == if t in r.excludedTools then 0 else multiset(all.tools)[t])
    && valid.doughs == all.doughs
  }

  /** The number of toppings that may be drawn, for any signed bounds. */
  predicate MayDraw(r: Restrictions, n: int) {
    if r.minNumberOfToppings < r.maxNumberOfToppings
    then r.minNumberOfToppings <= n <= r.maxNumberOfToppings
    else n == r.maxNumberOfToppings
  }

  predicate Draws(menu: Menu, n: int, drawn: seq<Ingredient>) {
    && |drawn| == 3 + (if 0 < n then n else 0)
    && drawn[0] in menu.oils && drawn[1] in menu.tomatoes && drawn[2] in menu.mozzarellas
    && (forall k :: 3 <= k < |drawn| ==> drawn[k] in menu.toppings)
  }

  predicate LastOfItsName(drawn: seq<Ingredient>, i: Ingredient) {
    exists k :: 0 <= k < |drawn| && drawn[k] == i && forall m :: k < m < |drawn| ==> drawn[m].name != i.name
  }

  function Names(s: seq<Ingredient>): set<string> {
    set i | i in s :: i.name
  }

  predicate DistinctNames(s: seq<Ingredient>) {
    forall i, j :: 0 <= i < j < |s| ==> s[i].name != s[j].name
  }

  /** One ingredient per name drawn, the one drawn last, in any order. */
  ghost predicate Deduplicated(drawn: seq<Ingredient>, unique: seq<Ingredient>) {
    && DistinctNames(unique)
    && Names(unique) == Names(drawn)
    && (forall i :: i in unique ==> LastOfItsName(drawn, i))
  }

  ghost predicate MadeFrom(menu: Menu, r: Restrictions, n: int, drawn: seq<Ingredient>, p: Pizza) {
    && MayDraw(r, n) && Draws(menu, n, drawn) && Deduplicated(drawn, p.ingredients)
    && p.tool in menu.tools && p.dough in menu.doughs
    && (r.customName != "" ==> p.name == r.customName)
  }

  /** A pizza that one attempt may produce from a filtered menu. */
  ghost predicate Possible(menu: Menu, r: Restrictions, p: Pizza) {
    exists n, drawn :: MadeFrom(menu, r, n, drawn, p)
  }

  // ---------- The loops ----------

  method FilterIngredients(r: Restrictions, list: seq<Ingredient>) returns (valid: seq<Ingredient>)
    ensures FilteredFrom(r, list, valid)
  {
    valid := [];
    for k := 0 to |list|
      invariant FilteredFrom(r, list[..k], valid)
    {
      assert list[..k + 1] == list[..k] + [list[k]];
      if list[k].name !in r.excludedIngredients && (!r.mustBeVegetarian || list[k].vegetarian) {
        valid := valid + [list[k]];
      }
    }
    assert list[..|list|] == list;
  }

  method FilterTools(r: Restrictions, list: seq<string>) returns (valid: seq<string>)
    ensures forall t :: multiset(valid)[t] == if t in r.excludedTools then 0 else multiset(list)[t]
  {
    valid := [];
    for k := 0 to |list|
      invariant forall t :: multiset(valid)[t] == if t in r.excludedTools then 0 else multiset(list[..k])[t]
    {
      assert list[..k + 1] == list[..k] + [list[k]];
      if list[k] !in r.excludedTools {
        valid := valid + [list[k]];
      }
    }
    assert list[..|list|] == list;
  }

  method FilterMenu(r: Restrictions, all: Menu) returns (valid: Menu)
    ensures FilteredMenu(r, all, valid)
  {
    var oils := FilterIngredients(r, all.oils);
    var tomatoes := FilterIngredients(r, all.tomatoes);
    var mozzarellas := FilterIngredients(r, all.mozzarellas);
    var toppings := FilterIngredients(r, all.toppings);
    var tools := FilterTools(r, all.tools);
    valid := Menu(oils, tomatoes, mozzarellas, toppings, tools, all.doughs);
  }

  /** A draw from a list; none where `rand.Intn` panics, on an empty one. */
  method Choose<T>(list: seq<T>, roll: nat) returns (x: Option<T>)
    ensures x == if list == [] then None else Some(list[roll % |list|])
  {
    if list == [] {
      return None;
    }
    x := Some(list[roll % |list|]);
  }

  function CountOf(r: Restrictions, roll: nat): int {
    if r.minNumberOfToppings < r.maxNumberOfToppings
    then r.minNumberOfToppings + roll % (r.maxNumberOfToppings - r.minNumberOfToppings + 1)
    else r.maxNumberOfToppings
  }

  /** How many toppings to draw: any number between the bounds, or the maximum if it is not above the
      minimum. */
  method ToppingCount(r: Restrictions, roll: nat) returns (n: int)
    ensures r.minNumberOfToppings < r.maxNumberOfToppings ==>
      n == r.minNumberOfToppings + roll % (r.maxNumberOfToppings - r.minNumberOfToppings + 1)
    ensures r.maxNumberOfToppings <= r.minNumberOfToppings ==> n == r.maxNumberOfToppings
    ensures n == CountOf(r, roll) && MayDraw(r, n)
  {
    var extra := r.maxNumberOfToppings - r.minNumberOfToppings;
    if 0 < extra {
      extra := roll % (extra + 1);
    }
    n := extra + r.minNumberOfToppings;
  }

  /** `byName` holds, under every name drawn, the ingredient drawn last under it. */
  ghost predicate LastByName(drawn: seq<Ingredient>, byName: map<string, Ingredient>) {
    && byName.Keys == Names(drawn)
    && (forall name :: name in byName ==> byName[name].name == name && LastOfItsName(drawn, byName[name]))
  }

  lemma NamesAppend(s: seq<Ingredient>, i: Ingredient)
    ensures Names(s + [i]) == Names(s) + {i.name}
  {
    assert forall j :: j in s + [i] <==> j in s || j == i;
  }

  lemma OneMoreDrawn(drawn: seq<Ingredient>, byName: map<string, Ingredient>, next: Ingredient)
    requires LastByName(drawn, byName)
    ensures LastByName(drawn + [next], byName[next.name := next])
  {
    var longer := drawn + [next];
    NamesAppend(drawn, next);
    forall name | name in byName && name != next.name ensures LastOfItsName(longer, byName[name]) {
      var i := byName[name];
      var k :| 0 <= k < |drawn| && drawn[k] == i && forall m :: k < m < |drawn| ==> drawn[m].name != i.name;
      assert longer[k] == i && forall m :: k < m < |longer| ==> longer[m].name != i.name;
    }
    assert LastOfItsName(longer, next) by { assert longer[|drawn|] == next; }
  }

  /** Fills a map by name, then lists its values in whatever order the map gives them. */
  method Deduplicate(drawn: seq<Ingredient>) returns (unique: seq<Ingredient>)
    ensures Deduplicated(drawn, unique)
    ensures forall j, k :: 0 <= j < k < |unique| ==> unique[j].name != unique[k].name
    ensures forall i :: i in unique <==>
      exists k :: 0 <= k < |drawn| && drawn[k] == i && forall m :: k < m < |drawn| ==> drawn[m].name != i.name
  {
    var byName: map<string, Ingredient> := map[];
    for k := 0 to |drawn|
      invariant LastByName(drawn[..k], byName)
    {
      OneMoreDrawn(drawn[..k], byName, drawn[k]);
      assert drawn[..k + 1] == drawn[..k] + [drawn[k]];
      byName := byName[drawn[k].name := drawn[k]];
    }
    assert drawn[..|drawn|] == drawn;
    unique := ListValues(byName);
    forall i | LastOfItsName(drawn, i) ensures i in unique {
      LastIsChosen(drawn, unique, i);
    }
  }

  lemma LastIsChosen(drawn: seq<Ingredient>, unique: seq<Ingredient>, i: Ingredient)
    requires Deduplicated(drawn, unique) && LastOfItsName(drawn, i)
    ensures i in unique
  {
    var k :| 0 <= k < |drawn| && drawn[k] == i && forall m :: k < m < |drawn| ==> drawn[m].name != i.name;
    assert drawn[k] in drawn && i.name in Names(unique);
    var j :| j in unique && j.name == i.name;
    var l :| 0 <= l < |drawn| && drawn[l] == j && forall m :: l < m < |drawn| ==> drawn[m].name != j.name;
    assert k == l;
  }

  method ListValues(byName: map<string, Ingredient>) returns (unique: seq<Ingredient>)
    requires forall name :: name in byName ==> byName[name].name == name
    ensures DistinctNames(unique) && Names(unique) == byName.Keys
    ensures forall i :: i in unique ==> i.name in byName && byName[i.name] == i
  {
    unique := [];
    var rest := byName.Keys;
    while rest != {}
      invariant rest <= byName.Keys
      invariant Names(unique) == byName.Keys - rest
      invariant forall i :: i in unique ==> i.name in byName && byName[i.name] == i
      invariant DistinctNames(unique)
      decreases rest
    {
      var name :| name in rest;
      assert forall i :: i in unique ==> i.name in Names(unique);
      NamesAppend(unique, byName[name]);
      unique := unique + [byName[name]];
      rest := rest - {name};
    }
  }

  /** Every list that is always drawn from has an element. */
  predicate BaseOffered(menu: Menu) {
    menu.oils != [] && menu.tomatoes != [] && menu.mozzarellas != [] && menu.tools != [] && menu.doughs != []
  }

  /** No draw can be from an empty list. */
  predicate Sufficient(menu: Menu, r: Restrictions) {
    BaseOffered(menu) && (0 < r.maxNumberOfToppings ==> menu.toppings != [])
  }

  function RollAt(rolls: seq<nat>, k: nat): nat {
    if k < |rolls| then rolls[k] else 0
  }

  /** The attempt draws from an empty list. */
  predicate Panics(menu: Menu, r: Restrictions, rolls: Rolls) {
    !BaseOffered(menu) || (0 < CountOf(r, rolls.count) && menu.toppings == [])
  }

  function DrawnTopping(menu: Menu, rolls: Rolls, k: nat): Ingredient
    requires menu.toppings != []
  {
    menu.toppings[RollAt(rolls.toppings, k) % |menu.toppings|]
  }

  /** The draws are those of the rolls. */
  ghost predicate DrawnBy(menu: Menu, r: Restrictions, rolls: Rolls, drawn: seq<Ingredient>) {
    && !Panics(menu, r, rolls)
    && var n := CountOf(r, rolls.count);
    && |drawn| == 3 + (if 0 < n then n else 0)
    && drawn[0] == menu.oils[rolls.oil % |menu.oils|]
    && drawn[1] == menu.tomatoes[rolls.tomato % |menu.tomatoes|]
    && drawn[2] == menu.mozzarellas[rolls.mozzarella % |menu.mozzarellas|]
    && forall k :: 3 <= k < |drawn| ==> drawn[k] == DrawnTopping(menu, rolls, k - 3)
  }

  ghost predicate ProducedBy(menu: Menu, r: Restrictions, rolls: Rolls, p: Pizza) {
    && !Panics(menu, r, rolls)
    && p.dough == menu.doughs[rolls.dough % |menu.doughs|] && p.tool == menu.tools[rolls.tool % |menu.tools|]
    && p.name == (if r.customName != "" then r.customName else rolls.name)
    && exists drawn :: DrawnBy(menu, r, rolls, drawn) && Deduplicated(drawn, p.ingredients)
  }

  /** One attempt: the pizza of the rolls, or none if the handler panics. */
  method Attempt(menu: Menu, r: Restrictions, rolls: Rolls) returns (p: Option<Pizza>)
    ensures p.None? <==> Panics(menu, r, rolls)
    ensures p.Some? ==> ProducedBy(menu, r, rolls, p.value)
  {
    var name := r.customName;
    if name == "" {
      name := rolls.name;
    }
    var dough := Choose(menu.doughs, rolls.dough);
    var oil := Choose(menu.oils, rolls.oil);
    var tomato := Choose(menu.tomatoes, rolls.tomato);
    var mozzarella := Choose(menu.mozzarellas, rolls.mozzarella);
    var tool := Choose(menu.tools, rolls.tool);
    if dough.None? || oil.None? || tomato.None? || mozzarella.None? || tool.None? {
      return None;
    }
    var drawn := [oil.value, tomato.value, mozzarella.value];
    var n := ToppingCount(r, rolls.count);
    var k := 0;
    while k < n
      invariant 0 <= k && (k <= n || n < 0) && |drawn| == 3 + k
      invariant k == 0 || (k <= n && menu.toppings != [])
      invariant drawn[0] == oil.value && drawn[1] == tomato.value && drawn[2] == mozzarella.value
      invariant forall m :: 3 <= m < |drawn| ==> drawn[m] == DrawnTopping(menu, rolls, m - 3)
    {
      var topping := Choose(menu.toppings, RollAt(rolls.toppings, k));
      if topping.None? {
        return None;
      }
      drawn := drawn + [topping.value];
      k := k + 1;
    }
    var unique := Deduplicate(drawn);
    p := Some(Pizza(name, dough.value, unique, tool.value));
    assert DrawnBy(menu, r, rolls, drawn);
  }

  /** The restrictions as the generator uses them: each number that is zero gets its default, the name
      is cut, and nothing else changes. */
  function Effective(r: Restrictions): (e: Restrictions)
    ensures e.maxCaloriesPerSlice == (if r.maxCaloriesPerSlice == 0 then 1000 else r.maxCaloriesPerSlice)
    ensures e.maxNumberOfToppings == (if r.maxNumberOfToppings == 0 then 5 else r.maxNumberOfToppings)
    ensures e.minNumberOfToppings == (if r.minNumberOfToppings == 0 then 3 else r.minNumberOfToppings)
    ensures e.mustBeVegetarian == r.mustBeVegetarian
    ensures e.excludedIngredients == r.excludedIngredients && e.excludedTools == r.excludedTools
    ensures e.customName == if |r.customName| <= 64 then r.customName else r.customName[..64]
  {
    var d := r.WithDefaults();
    if MAX_PIZZA_NAME_LENGTH < |d.customName| then d.(customName := d.customName[..MAX_PIZZA_NAME_LENGTH]) else d
  }

  /** Each pizza is the one its rolls produce. */
  ghost predicate Attempted(valid: Menu, r: Restrictions, luck: seq<Rolls>, attempts: seq<Pizza>) {
    && |attempts| <= |luck|
    && forall k {:trigger ProducedBy(valid, r, luck[k], attempts[k])} ::
         0 <= k < |attempts| ==> ProducedBy(valid, r, luck[k], attempts[k])
  }

  lemma AttemptedOnce(valid: Menu, r: Restrictions, luck: seq<Rolls>, attempts: seq<Pizza>, p: Pizza)
    requires Attempted(valid, r, luck, attempts) && |attempts| < |luck|
    requires ProducedBy(valid, r, luck[|attempts|], p)
    ensures Attempted(valid, r, luck, attempts + [p])
  {
  }

  /** `answer` is the first of at most ten pizzas that the rolls produce which is within the calorie
      limit, or the tenth, and it is reported with its calories and its flag. */
  ghost predicate Recommended(valid: Menu, r: Restrictions, luck: seq<Rolls>, attempts: seq<Pizza>,
                              answer: PizzaRecommendation)
  {
    && 1 <= |attempts| <= ATTEMPTS && answer.pizza == attempts[|attempts| - 1]
    && Attempted(valid, r, luck, attempts)
    && (forall k :: 0 <= k < |attempts| - 1 ==> Calories(attempts[k].ingredients) > r.maxCaloriesPerSlice)
    && (Calories(answer.pizza.ingredients) > r.maxCaloriesPerSlice ==> |attempts| == ATTEMPTS)
    && answer.calories == Calories(answer.pizza.ingredients)
    && answer.vegetarian == Vegetarian(answer.pizza.ingredients)
  }

  /** Of `list`, exactly what the request as it was sent allows. */
  ghost predicate AllowedOf(request: Restrictions, list: seq<Ingredient>, valid: seq<Ingredient>) {
    forall i :: i in valid <==>
      i in list && i.name !in request.excludedIngredients && (request.mustBeVegetarian ==> i.vegetarian)
  }

  /** The pizza is of the menu and of what the request as it was sent asks for: one ingredient a name,
      of every base category, of no other category than toppings, and not more than the maximum. */
  ghost predicate Meets(request: Restrictions, all: Menu, p: Pizza) {
    && (forall i :: i in p.ingredients ==> i in all.oils + all.tomatoes + all.mozzarellas + all.toppings)
    && (forall i :: i in p.ingredients ==> i.name !in request.excludedIngredients)
    && (request.mustBeVegetarian ==> forall i :: i in p.ingredients ==> i.vegetarian)
    && p.tool in all.tools && p.tool !in request.excludedTools && p.dough in all.doughs
    && (request.customName != "" ==>
          p.name == if |request.customName| <= 64 then request.customName else request.customName[..64])
    && (forall j, k :: 0 <= j < k < |p.ingredients| ==> p.ingredients[j].name != p.ingredients[k].name)
    && Names(all.oils) * Names(p.ingredients) != {} && Names(all.tomatoes) * Names(p.ingredients) != {}
    && Names(all.mozzarellas) * Names(p.ingredients) != {}
    && (0 <= request.maxNumberOfToppings ==>
          |p.ingredients| <= 3 + if request.maxNumberOfToppings == 0 then 5 else request.maxNumberOfToppings)
  }

  /** At most ten attempts, until one is within the calorie limit. */
  method FirstWithinLimit(valid: Menu, r: Restrictions, luck: seq<Rolls>)
    returns (result: Option<PizzaRecommendation>, ghost attempts: seq<Pizza>)
    requires |luck| == ATTEMPTS
    ensures result.None? ==> |attempts| < |luck| && Panics(valid, r, luck[|attempts|])
    ensures result.Some? ==> Recommended(valid, r, luck, attempts, result.value)
  {
    var p := Pizza("", Dough(0, "", 0), [], "");
    var calories := 0;
    attempts := [];
    var made := 0;
    while made < ATTEMPTS && (made == 0 || calories > r.maxCaloriesPerSlice)
      invariant made == |attempts| <= ATTEMPTS
      invariant Attempted(valid, r, luck, attempts)
      invariant made > 0 ==> p == attempts[made - 1] && calories == Calories(p.ingredients)
      invariant forall k :: 0 <= k < made - 1 ==> Calories(attempts[k].ingredients) > r.maxCaloriesPerSlice
    {
      var attempt := Attempt(valid, r, luck[made]);
      if attempt.None? {
        return None, attempts;
      }
      AttemptedOnce(valid, r, luck, attempts, attempt.value);
      p := attempt.value;
      attempts := attempts + [p];
      calories := CalculateCalories(p);
      made := made + 1;
    }
    var vegetarian := IsVegetarian(p);
    result := Some(PizzaRecommendation(p, calories, vegetarian));
  }

  /** The answer is the first attempt within the request's calories, or the tenth, and its numbers are
      those of the pizza. */
  ghost predicate FirstOfTen(request: Restrictions, attempts: seq<Pizza>, answer: PizzaRecommendation) {
    var limit := if request.maxCaloriesPerSlice == 0 then 1000 else request.maxCaloriesPerSlice;
    && 1 <= |attempts| <= 10 && attempts[|attempts| - 1] == answer.pizza
    && (forall k :: 0 <= k < |attempts| - 1 ==> limit < Calories(attempts[k].ingredients))
    && (|attempts| < 10 ==> Calories(answer.pizza.ingredients) <= limit)
    && answer.calories == Calories(answer.pizza.ingredients)
    && (answer.vegetarian <==> forall i :: i in answer.pizza.ingredients ==> i.vegetarian)
  }

  /** The body of the handler up to recording, in terms of the request as it was sent: the pizza meets
      it, and is the first of ten attempts within its calories, or the tenth. No answer means that an
      attempt panicked, which never happens when every list it may draw from has an element. */
  method Recommend(request: Restrictions, all: Menu, luck: seq<Rolls>)
    returns (result: Option<PizzaRecommendation>, valid: Menu, ghost attempts: seq<Pizza>)
    requires |luck| == 10
    ensures AllowedOf(request, all.oils, valid.oils) && AllowedOf(request, all.tomatoes, valid.tomatoes)
    ensures AllowedOf(request, all.mozzarellas, valid.mozzarellas) && AllowedOf(request, all.toppings, valid.toppings)
    ensures forall t :: t in valid.tools <==> t in all.tools && t !in request.excludedTools
    ensures valid.doughs == all.doughs
    ensures result.None? ==> |attempts| < 10 && Panics(valid, Effective(request), luck[|attempts|])
    ensures
      && valid.oils != [] && valid.tomatoes != [] && valid.mozzarellas != []
      && valid.tools != [] && valid.doughs != []
      && (0 <= request.maxNumberOfToppings ==> valid.toppings != [])
      ==> result.Some?
    ensures result.Some? ==> var p := result.value.pizza;
      && (forall i :: i in p.ingredients ==> i.name !in request.excludedIngredients)
      && (request.mustBeVegetarian ==> forall i :: i in p.ingredients ==> i.vegetarian)
      && p.tool !in request.excludedTools
      && (request.customName != "" ==>
            p.name == if |request.customName| <= 64 then request.customName else request.customName[..64])
      && Meets(request, all, p) && FirstOfTen(request, attempts, result.value)
    ensures result.Some? ==> var p := result.value.pizza;
      var limit := if request.maxCaloriesPerSlice == 0 then 1000 else request.maxCaloriesPerSlice;
      && 1 <= |attempts| <= 10 && attempts[|attempts| - 1] == p
      && (forall k :: 0 <= k < |attempts| - 1 ==> limit < Calories(attempts[k].ingredients))
      && (|attempts| < 10 ==> Calories(p.ingredients) <= limit)
      && result.value.calories == Calories(p.ingredients)
      && (result.value.vegetarian <==> forall i :: i in p.ingredients ==> i.vegetarian)
    ensures FilteredMenu(Effective(request), all, valid)
    ensures result.Some? ==> Recommended(valid, Effective(request), luck, attempts, result.value)
  {
    var r := Effective(request);
    valid := FilterMenu(r, all);
    FilteredIsAllowed(request, all, valid);
    result, attempts := FirstWithinLimit(valid, r, luck);
    if result.Some? {
      RecommendedMeetsRequest(request, all, valid, luck, attempts, result.value);
    }
  }

  // ---------- What follows for every draw ----------

  lemma FilteredIngredient(r: Restrictions, list: seq<Ingredient>, valid: seq<Ingredient>, i: Ingredient)
    requires FilteredFrom(r, list, valid) && i in valid
    ensures Allowed(r, i) && i in list
  {
    assert i in multiset(valid);
    assert i in multiset(list);
  }

  lemma FilteredListIsAllowed(request: Restrictions, list: seq<Ingredient>, valid: seq<Ingredient>)
    requires FilteredFrom(Effective(request), list, valid)
    ensures AllowedOf(request, list, valid)
  {
    forall i
      ensures i in valid <==>
        i in list && i.name !in request.excludedIngredients && (request.mustBeVegetarian ==> i.vegetarian)
    {
      assert i in valid <==> i in multiset(valid);
      assert i in list <==> i in multiset(list);
    }
  }

  lemma FilteredIsAllowed(request: Restrictions, all: Menu, valid: Menu)
    requires FilteredMenu(Effective(request), all, valid)
    ensures AllowedOf(request, all.oils, valid.oils) && AllowedOf(request, all.tomatoes, valid.tomatoes)
    ensures AllowedOf(request, all.mozzarellas, valid.mozzarellas) && AllowedOf(request, all.toppings, valid.toppings)
    ensures forall t :: t in valid.tools <==> t in all.tools && t !in request.excludedTools
  {
    FilteredListIsAllowed(request, all.oils, valid.oils);
    FilteredListIsAllowed(request, all.tomatoes, valid.tomatoes);
    FilteredListIsAllowed(request, all.mozzarellas, valid.mozzarellas);
    FilteredListIsAllowed(request, all.toppings, valid.toppings);
    forall t ensures t in valid.tools <==> t in all.tools && t !in request.excludedTools {
      assert t in valid.tools <==> t in multiset(valid.tools);
      assert t in all.tools <==> t in multiset(all.tools);
    }
  }

  /** Whatever was drawn from the filtered lists is allowed. */
  lemma DrawnIsAllowed(r: Restrictions, all: Menu, valid: Menu, n: int, drawn: seq<Ingredient>, p: Pizza)
    requires FilteredMenu(r, all, valid) && MadeFrom(valid, r, n, drawn, p)
    ensures forall i :: i in p.ingredients ==>
      Allowed(r, i) && i in all.oils + all.tomatoes + all.mozzarellas + all.toppings
    ensures p.tool in all.tools && p.tool !in r.excludedTools
  {
    forall i | i in p.ingredients
      ensures Allowed(r, i) && i in all.oils + all.tomatoes + all.mozzarellas + all.toppings
    {
      assert LastOfItsName(drawn, i);
      var k :| 0 <= k < |drawn| && drawn[k] == i;
      if k == 0 { FilteredIngredient(r, all.oils, valid.oils, i); }
      else if k == 1 { FilteredIngredient(r, all.tomatoes, valid.tomatoes, i); }
      else if k == 2 { FilteredIngredient(r, all.mozzarellas, valid.mozzarellas, i); }
      else { FilteredIngredient(r, all.toppings, valid.toppings, i); }
    }
    assert p.tool in multiset(valid.tools);
    assert p.tool in multiset(all.tools);
  }

  lemma BaseNameStays(r: Restrictions, list: seq<Ingredient>, valid: seq<Ingredient>, drawn: seq<Ingredient>,
                      k: nat, unique: seq<Ingredient>)
    requires FilteredFrom(r, list, valid) && k < |drawn| && drawn[k] in valid && Deduplicated(drawn, unique)
    ensures Names(list) * Names(unique) != {}
  {
    FilteredIngredient(r, list, valid, drawn[k]);
    assert drawn[k].name in Names(list) && drawn[k] in drawn && drawn[k].name in Names(drawn);
    assert drawn[k].name in Names(list) * Names(unique);
  }

  /** Every pizza possible for a request meets it as it was sent. */
  lemma PossibleMeetsRequest(request: Restrictions, all: Menu, valid: Menu, p: Pizza)
    requires FilteredMenu(Effective(request), all, valid) && Possible(valid, Effective(request), p)
    ensures Meets(request, all, p)
  {
    var r := Effective(request);
    var n, drawn :| MadeFrom(valid, r, n, drawn, p);
    assert p.tool in all.tools && p.tool !in request.excludedTools && forall i :: i in p.ingredients ==>
             Allowed(r, i) && i in all.oils + all.tomatoes + all.mozzarellas + all.toppings by {
      DrawnIsAllowed(r, all, valid, n, drawn, p);
    }
    BaseNameStays(r, all.oils, valid.oils, drawn, 0, p.ingredients);
    BaseNameStays(r, all.tomatoes, valid.tomatoes, drawn, 1, p.ingredients);
    BaseNameStays(r, all.mozzarellas, valid.mozzarellas, drawn, 2, p.ingredients);
    assert |p.ingredients| <= 3 + (if 0 < r.maxNumberOfToppings then r.maxNumberOfToppings else 0) by {
      IngredientsAtMost(valid, r, n, drawn, p);
    }
  }

  lemma RecommendedMeetsRequest(request: Restrictions, all: Menu, valid: Menu, luck: seq<Rolls>,
                                attempts: seq<Pizza>, answer: PizzaRecommendation)
    requires FilteredMenu(Effective(request), all, valid)
    requires Recommended(valid, Effective(request), luck, attempts, answer)
    ensures Meets(request, all, answer.pizza) && FirstOfTen(request, attempts, answer)
  {
    ProducedIsPossible(valid, Effective(request), luck[|attempts| - 1], answer.pizza);
    PossibleMeetsRequest(request, all, valid, answer.pizza);
  }

  // ---------- Every possible pizza has its rolls ----------

  lemma SmallModulo(a: nat, b: nat)
    requires a < b
    ensures a % b == a
  {
  }

  lemma RollFor<T>(list: seq<T>, x: T) returns (roll: nat)
    requires x in list
    ensures list[roll % |list|] == x
  {
    roll :| 0 <= roll < |list| && list[roll] == x;
    SmallModulo(roll, |list|);
  }

  lemma {:induction false} RollsFor(list: seq<Ingredient>, drawn: seq<Ingredient>) returns (rolls: seq<nat>)
    requires list != [] && forall i :: i in drawn ==> i in list
    ensures |rolls| == |drawn|
    ensures forall k :: 0 <= k < |drawn| ==> list[rolls[k] % |list|] == drawn[k]
  {
    rolls := [];
    if drawn != [] {
      var last := |drawn| - 1;
      var front := RollsFor(list, drawn[..last]);
      var roll := RollFor(list, drawn[last]);
      rolls := front + [roll];
    }
  }

  lemma CountFor(r: Restrictions, n: int) returns (roll: nat)
    requires MayDraw(r, n)
    ensures CountOf(r, roll) == n
  {
    roll := 0;
    if r.minNumberOfToppings < r.maxNumberOfToppings {
      roll := n - r.minNumberOfToppings;
      SmallModulo(roll, r.maxNumberOfToppings - r.minNumberOfToppings + 1);
    }
  }

  lemma ProducedIsPossible(menu: Menu, r: Restrictions, rolls: Rolls, p: Pizza)
    requires ProducedBy(menu, r, rolls, p)
    ensures Possible(menu, r, p)
  {
    var drawn :| DrawnBy(menu, r, rolls, drawn) && Deduplicated(drawn, p.ingredients);
    assert MadeFrom(menu, r, CountOf(r, rolls.count), drawn, p);
  }

  lemma PossibleIsProduced(menu: Menu, r: Restrictions, p: Pizza) returns (rolls: Rolls)
    requires Possible(menu, r, p)
    ensures ProducedBy(menu, r, rolls, p)
  {
    var n, drawn :| MadeFrom(menu, r, n, drawn, p);
    var dough := RollFor(menu.doughs, p.dough);
    var tool := RollFor(menu.tools, p.tool);
    var oil := RollFor(menu.oils, drawn[0]);
    var tomato := RollFor(menu.tomatoes, drawn[1]);
    var mozzarella := RollFor(menu.mozzarellas, drawn[2]);
    var count := CountFor(r, n);
    var toppings: seq<nat> := [];
    if 0 < n {
      assert drawn[3] in menu.toppings;
      toppings := RollsFor(menu.toppings, drawn[3..]);
    }
    rolls := Rolls(p.name, dough, oil, tomato, mozzarella, tool, count, toppings);
    forall k | 3 <= k < |drawn| ensures drawn[k] == DrawnTopping(menu, rolls, k - 3) {
      assert drawn[3..][k - 3] == drawn[k];
    }
    assert DrawnBy(menu, r, rolls, drawn);
  }

  /** The possible pizzas are exactly those that some rolls produce: the arithmetic of the draws rules
      none out. */
  lemma PossibleExactlyWhen(menu: Menu, r: Restrictions, p: Pizza)
    ensures Possible(menu, r, p) <==> exists rolls :: ProducedBy(menu, r, rolls, p)
  {
    if Possible(menu, r, p) {
      var rolls := PossibleIsProduced(menu, r, p);
    }
    if rolls :| ProducedBy(menu, r, rolls, p) {
      ProducedIsPossible(menu, r, rolls, p);
    }
  }

  // ---------- What the client sees ----------

  /** The iteration order of the map does not reach the client: the same draws always give the same
      ingredients, calories and vegetarian flag. */
  lemma MapOrderIsInvisible(drawn: seq<Ingredient>, a: seq<Ingredient>, b: seq<Ingredient>)
    requires Deduplicated(drawn, a) && Deduplicated(drawn, b)
    ensures multiset(a) == multiset(b)
    ensures Calories(a) == Calories(b) && Vegetarian(a) == Vegetarian(b)
  {
    forall i ensures i in a <==> i in b {
      if i in a { SameChoice(drawn, a, b, i); }
      if i in b { SameChoice(drawn, b, a, i); }
    }
    SameSetSameMultiset(a, b);
    OrderDoesNotMatter(a, b);
  }

  lemma SameChoice(drawn: seq<Ingredient>, a: seq<Ingredient>, b: seq<Ingredient>, i: Ingredient)
    requires Deduplicated(drawn, a) && Deduplicated(drawn, b) && i in a
    ensures i in b
  {
    assert i.name in Names(b);
    var j :| j in b && j.name == i.name;
    var k :| 0 <= k < |drawn| && drawn[k] == i && forall m :: k < m < |drawn| ==> drawn[m].name != i.name;
    var l :| 0 <= l < |drawn| && drawn[l] == j && forall m :: l < m < |drawn| ==> drawn[m].name != j.name;
    assert k == l;
  }

  /** The draw may be of no topping at all. */
  predicate MayDrawNone(r: Restrictions) {
    if r.minNumberOfToppings < r.maxNumberOfToppings then r.minNumberOfToppings <= 0 else r.maxNumberOfToppings <= 0
  }

  /** For which menus the handler can answer at all, for any bounds. */
  lemma CanAnswerExactlyWhen(menu: Menu, r: Restrictions)
    ensures (exists p :: Possible(menu, r, p)) <==> BaseOffered(menu) && (menu.toppings != [] || MayDrawNone(r))
  {
    forall p | Possible(menu, r, p) ensures BaseOffered(menu) && (menu.toppings != [] || MayDrawNone(r)) {
      var n, drawn :| MadeFrom(menu, r, n, drawn, p);
      if 0 < n { assert drawn[3] in menu.toppings; }
    }
    if BaseOffered(menu) && (menu.toppings != [] || MayDrawNone(r)) {
      var p := SomePizza(menu, r);
    }
  }

  lemma SomePizza(menu: Menu, r: Restrictions) returns (p: Pizza)
    requires BaseOffered(menu) && (menu.toppings != [] || MayDrawNone(r))
    ensures Possible(menu, r, p)
  {
    var n := FewestDrawn(r);
    var toppings := if 0 < n then Copies(menu.toppings[0], n) else [];
    var drawn := [menu.oils[0], menu.tomatoes[0], menu.mozzarellas[0]] + toppings;
    var unique := LastOfEachName(drawn);
    p := Pizza(r.customName, menu.doughs[0], unique, menu.tools[0]);
    assert forall k :: 3 <= k < |drawn| ==> drawn[k] == toppings[k - 3];
    assert Draws(menu, n, drawn);
    assert MadeFrom(menu, r, n, drawn, p);
  }

  /** The least number of toppings that may be drawn. */
  function FewestDrawn(r: Restrictions): (n: int)
    ensures MayDraw(r, n) && forall m :: MayDraw(r, m) ==> n <= m
  {
    if r.minNumberOfToppings < r.maxNumberOfToppings then r.minNumberOfToppings else r.maxNumberOfToppings
  }

  function Copies(topping: Ingredient, n: nat): seq<Ingredient> {
    seq(n, _ => topping)
  }

  lemma {:induction false} LastOfEachName(drawn: seq<Ingredient>) returns (unique: seq<Ingredient>)
    ensures Deduplicated(drawn, unique)
  {
    if drawn == [] {
      unique := [];
    } else {
      var rest := LastOfEachName(drawn[1..]);
      assert drawn == [drawn[0]] + drawn[1..];
      unique := if drawn[0].name in Names(rest) then rest else rest + [drawn[0]];
      EarlierDraw(drawn, rest, unique);
    }
  }

  lemma LastOfTheRest(drawn: seq<Ingredient>, i: Ingredient)
    requires drawn != [] && LastOfItsName(drawn[1..], i)
    ensures LastOfItsName(drawn, i)
  {
    var later := drawn[1..];
    var k :| 0 <= k < |later| && later[k] == i && forall m :: k < m < |later| ==> later[m].name != i.name;
    assert drawn[k + 1] == i;
    forall m | k + 1 < m < |drawn| ensures drawn[m].name != i.name { assert drawn[m] == later[m - 1]; }
  }

  lemma FirstOfItsName(drawn: seq<Ingredient>)
    requires drawn != [] && drawn[0].name !in Names(drawn[1..])
    ensures LastOfItsName(drawn, drawn[0])
  {
    forall m | 0 < m < |drawn| ensures drawn[m].name != drawn[0].name {
      assert drawn[m] == drawn[1..][m - 1];
      assert drawn[1..][m - 1] in drawn[1..];
    }
  }

  lemma NamesPrepend(s: seq<Ingredient>)
    requires s != []
    ensures Names(s) == Names(s[1..]) + {s[0].name}
  {
    assert s == [s[0]] + s[1..];
    assert forall i :: i in s <==> i == s[0] || i in s[1..];
  }

  lemma DistinctAppend(s: seq<Ingredient>, i: Ingredient)
    requires DistinctNames(s) && i.name !in Names(s)
    ensures DistinctNames(s + [i])
  {
    forall k | 0 <= k < |s| ensures s[k].name != i.name {
      assert s[k] in s;
    }
  }

  lemma EarlierDraw(drawn: seq<Ingredient>, rest: seq<Ingredient>, unique: seq<Ingredient>)
    requires drawn != [] && Deduplicated(drawn[1..], rest)
    requires unique == if drawn[0].name in Names(rest) then rest else rest + [drawn[0]]
    ensures Deduplicated(drawn, unique)
  {
    NamesPrepend(drawn);
    forall i | i in rest ensures LastOfItsName(drawn, i) {
      LastOfTheRest(drawn, i);
    }
    if drawn[0].name !in Names(rest) {
      FirstOfItsName(drawn);
      NamesAppend(rest, drawn[0]);
      DistinctAppend(rest, drawn[0]);
      assert forall i :: i in unique ==> i in rest || i == drawn[0];
    }
  }

  /** What the defaults mean for the number drawn: each bound that is missing is filled in on its own. */
  lemma DefaultsFillGaps(r: Restrictions, n: int)
    ensures var most := if r.maxNumberOfToppings == 0 then 5 else r.maxNumberOfToppings;
      var least := if r.minNumberOfToppings == 0 then 3 else r.minNumberOfToppings;
      MayDraw(Effective(r), n) <==> if least < most then least <= n <= most else n == most
    ensures r.maxNumberOfToppings == 0 && r.minNumberOfToppings == 0 ==> (MayDraw(Effective(r), n) <==> 3 <= n <= 5)
    ensures r.maxNumberOfToppings == 2 && r.minNumberOfToppings == 0 ==> (MayDraw(Effective(r), n) <==> n == 2)
    ensures Effective(Effective(r)) == Effective(r)
  {
  }

  lemma {:induction false} NamesSize(s: seq<Ingredient>)
    ensures |Names(s)| <= |s|
    ensures DistinctNames(s) ==> |Names(s)| == |s|
  {
    if s != [] {
      var last := |s| - 1;
      assert s == s[..last] + [s[last]];
      NamesSize(s[..last]);
      NamesAppend(s[..last], s[last]);
    }
  }

  ghost predicate CategoriesDisjoint(menu: Menu) {
    && Names(menu.oils) !! Names(menu.tomatoes) !! Names(menu.mozzarellas) !! Names(menu.toppings)
  }

  function BaseNames(drawn: seq<Ingredient>): set<string>
    requires 3 <= |drawn|
  {
    {drawn[0].name, drawn[1].name, drawn[2].name}
  }

  lemma NamesSplit(menu: Menu, n: int, drawn: seq<Ingredient>)
    requires Draws(menu, n, drawn)
    ensures Names(drawn) == BaseNames(drawn) + Names(drawn[3..]) && Names(drawn[3..]) <= Names(menu.toppings)
  {
    forall name | name in Names(drawn) ensures name in BaseNames(drawn) + Names(drawn[3..]) {
      var k :| 0 <= k < |drawn| && drawn[k].name == name;
      if 3 <= k { assert drawn[3..][k - 3] == drawn[k]; }
    }
  }

  /** How many ingredients a pizza can have at most, for any bounds. */
  lemma IngredientsAtMost(menu: Menu, r: Restrictions, n: int, drawn: seq<Ingredient>, p: Pizza)
    requires MadeFrom(menu, r, n, drawn, p)
    ensures |p.ingredients| == |Names(drawn)|
    ensures |p.ingredients| <= 3 + (if 0 < r.maxNumberOfToppings then r.maxNumberOfToppings else 0)
    ensures |p.ingredients| <= 3 + |Names(menu.toppings)|
  {
    NamesSize(p.ingredients);
    NamesSize(drawn);
    NamesSplit(menu, n, drawn);
    SubsetSize(Names(drawn[3..]), Names(menu.toppings));
    SetUnionSize(BaseNames(drawn), Names(drawn[3..]));
  }

  /** And at least, when no name occurs in two categories. */
  lemma IngredientsAtLeast(menu: Menu, r: Restrictions, n: int, drawn: seq<Ingredient>, p: Pizza)
    requires MadeFrom(menu, r, n, drawn, p) && CategoriesDisjoint(menu)
    ensures 3 + (if 0 < n then 1 else 0) <= |p.ingredients|
  {
    NamesSize(p.ingredients);
    var a, b, c := drawn[0].name, drawn[1].name, drawn[2].name;
    assert a in Names(menu.oils) && b in Names(menu.tomatoes) && c in Names(menu.mozzarellas);
    assert {a, b, c} <= Names(drawn);
    SubsetSize({a, b, c}, Names(drawn));
    assert |{a, b, c}| == 3;
    if 0 < n {
      var d := drawn[3].name;
      assert d in Names(menu.toppings);
      SubsetSize({a, b, c, d}, Names(drawn));
      assert {a, b, c, d} == {a, b, c} + {d};
    }
  }
}
