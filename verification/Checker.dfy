/** The load-test extension's own check of a pizza against the restrictions it was asked for,
    written apart from the generator, and what the two have to do with each other. */
module Checker {
  import opened Model
  import opened Sets
  import opened Generator

  /** The result text, without its wording. */
  datatype CheckMessage =
    | NotVegetarian
    | TooManyCalories(limit: int, got: int)
    | ExcludedIngredient(name: string)
    | ExcludedTool
    | TooManyToppings(limit: int, got: int)
    | TooFewToppings(limit: int, got: int)
    | PizzaIsOk

  predicate VegetarianOk(p: Pizza, r: Restrictions) { r.mustBeVegetarian ==> Vegetarian(p.ingredients) }

  predicate CaloriesOk(p: Pizza, r: Restrictions) { Calories(p.ingredients) <= r.maxCaloriesPerSlice }

  predicate IngredientsOk(p: Pizza, r: Restrictions) {
    forall i :: i in p.ingredients ==> i.name !in r.excludedIngredients
  }

  predicate ToolOk(p: Pizza, r: Restrictions) { p.tool !in r.excludedTools }

  predicate NotTooMany(p: Pizza, r: Restrictions) { |p.ingredients| <= r.maxNumberOfToppings + 3 }

  predicate EnoughToppings(p: Pizza, r: Restrictions) { r.minNumberOfToppings + 3 <= |p.ingredients| }

  predicate Accepts(p: Pizza, r: Restrictions) {
    && VegetarianOk(p, r) && CaloriesOk(p, r) && IngredientsOk(p, r) && ToolOk(p, r)
    && NotTooMany(p, r) && EnoughToppings(p, r)
  }

  predicate FirstExcluded(p: Pizza, r: Restrictions, name: string) {
    name in r.excludedIngredients &&
    exists k :: 0 <= k < |p.ingredients| && p.ingredients[k].name == name &&
                forall m :: 0 <= m < k ==> p.ingredients[m].name !in r.excludedIngredients
  }

  /** The message names the first of the checks that fails, in the order they are made. */
  predicate Explains(message: CheckMessage, p: Pizza, r: Restrictions) {
    match message
    case NotVegetarian => !VegetarianOk(p, r)
    case TooManyCalories(limit, got) =>
      VegetarianOk(p, r) && !CaloriesOk(p, r) && limit == r.maxCaloriesPerSlice && got == Calories(p.ingredients)
    case ExcludedIngredient(name) => VegetarianOk(p, r) && CaloriesOk(p, r) && FirstExcluded(p, r, name)
    case ExcludedTool => VegetarianOk(p, r) && CaloriesOk(p, r) && IngredientsOk(p, r) && !ToolOk(p, r)
    case TooManyToppings(limit, got) =>
      VegetarianOk(p, r) && CaloriesOk(p, r) && IngredientsOk(p, r) && ToolOk(p, r) && !NotTooMany(p, r) &&
      limit == r.maxNumberOfToppings + 3 && got == |p.ingredients|
    case TooFewToppings(limit, got) =>
      VegetarianOk(p, r) && CaloriesOk(p, r) && IngredientsOk(p, r) && ToolOk(p, r) && NotTooMany(p, r) &&
      !EnoughToppings(p, r) && limit == r.minNumberOfToppings + 3 && got == |p.ingredients|
    case PizzaIsOk => Accepts(p, r)
  }

  class Internal {
    var CheckResult: CheckMessage

    /** Accepts or rejects, and leaves the reason in `CheckResult`. */
    method CheckRestrictions(p: Pizza, r: Restrictions) returns (ok: bool)
      modifies this
      ensures ok <==> Accepts(p, r)
      ensures ok <==>
        && (r.mustBeVegetarian ==> forall i :: i in p.ingredients ==> i.vegetarian)
        && Calories(p.ingredients) <= r.maxCaloriesPerSlice
        && (forall i :: i in p.ingredients ==> i.name !in r.excludedIngredients)
        && p.tool !in r.excludedTools
        && r.minNumberOfToppings + 3 <= |p.ingredients| <= r.maxNumberOfToppings + 3
      ensures
        var vegetarian := r.mustBeVegetarian ==> forall i :: i in p.ingredients ==> i.vegetarian;
        var light := Calories(p.ingredients) <= r.maxCaloriesPerSlice;
        var allowed := forall i :: i in p.ingredients ==> i.name !in r.excludedIngredients;
        var rest := vegetarian && light && allowed;
        && (CheckResult.NotVegetarian? <==> !vegetarian)
        && (CheckResult.TooManyCalories? <==> vegetarian && !light)
        && (CheckResult.ExcludedIngredient? <==> vegetarian && light && !allowed)
        && (CheckResult.ExcludedTool? <==> rest && p.tool in r.excludedTools)
        && (CheckResult.TooManyToppings? <==>
              rest && p.tool !in r.excludedTools && r.maxNumberOfToppings + 3 < |p.ingredients|)
        && (CheckResult.PizzaIsOk? <==> ok)
      ensures CheckResult.TooManyCalories? ==>
        CheckResult == TooManyCalories(r.maxCaloriesPerSlice, Calories(p.ingredients))
      ensures CheckResult.TooManyToppings? ==>
        CheckResult == TooManyToppings(r.maxNumberOfToppings + 3, |p.ingredients|)
      ensures CheckResult.TooFewToppings? ==>
        CheckResult == TooFewToppings(r.minNumberOfToppings + 3, |p.ingredients|)
      ensures CheckResult.ExcludedIngredient? ==>
        CheckResult.name in r.excludedIngredients && exists i :: i in p.ingredients && i.name == CheckResult.name
      ensures Explains(CheckResult, p, r)
    {
      if r.mustBeVegetarian {
        var vegetarian := IsVegetarian(p);
        if !vegetarian {
          CheckResult := NotVegetarian;
          return false;
        }
      }
      var calories := CalculateCalories(p);
      if calories > r.maxCaloriesPerSlice {
        CheckResult := TooManyCalories(r.maxCaloriesPerSlice, calories);
        return false;
      }
      for k := 0 to |p.ingredients|
        invariant forall m :: 0 <= m < k ==> p.ingredients[m].name !in r.excludedIngredients
      {
        for e := 0 to |r.excludedIngredients|
          invariant p.ingredients[k].name !in r.excludedIngredients[..e]
        {
          if p.ingredients[k].name == r.excludedIngredients[e] {
            CheckResult := ExcludedIngredient(r.excludedIngredients[e]);
            assert p.ingredients[k] in p.ingredients;
            return false;
          }
          assert r.excludedIngredients[..e + 1] == r.excludedIngredients[..e] + [r.excludedIngredients[e]];
        }
        assert r.excludedIngredients[..|r.excludedIngredients|] == r.excludedIngredients;
      }
      for e := 0 to |r.excludedTools|
        invariant p.tool !in r.excludedTools[..e]
      {
        if p.tool == r.excludedTools[e] {
          CheckResult := ExcludedTool;
          return false;
        }
        assert r.excludedTools[..e + 1] == r.excludedTools[..e] + [r.excludedTools[e]];
      }
      assert r.excludedTools[..|r.excludedTools|] == r.excludedTools;
      if |p.ingredients| > r.maxNumberOfToppings + 3 {
        CheckResult := TooManyToppings(r.maxNumberOfToppings + 3, |p.ingredients|);
        return false;
      }
      if |p.ingredients| < r.minNumberOfToppings + 3 {
        CheckResult := TooFewToppings(r.minNumberOfToppings + 3, |p.ingredients|);
        return false;
      }
      CheckResult := PizzaIsOk;
      ok := true;
    }
  }

  /** The reason is determined: no pizza has two. */
  lemma OneReason(a: CheckMessage, b: CheckMessage, p: Pizza, r: Restrictions)
    requires Explains(a, p, r) && Explains(b, p, r)
    ensures a == b
  {
    if a.ExcludedIngredient? && b.ExcludedIngredient? {
      var k :| 0 <= k < |p.ingredients| && p.ingredients[k].name == a.name &&
               forall m :: 0 <= m < k ==> p.ingredients[m].name !in r.excludedIngredients;
      var l :| 0 <= l < |p.ingredients| && p.ingredients[l].name == b.name &&
               forall m :: 0 <= m < l ==> p.ingredients[m].name !in r.excludedIngredients;
      assert k == l;
    }
  }

  lemma ExcludedIsNotOk(p: Pizza, r: Restrictions)
    ensures forall name :: FirstExcluded(p, r, name) ==> !IngredientsOk(p, r)
  {
    forall name | FirstExcluded(p, r, name) ensures !IngredientsOk(p, r) {
      var k :| 0 <= k < |p.ingredients| && p.ingredients[k].name == name;
      assert p.ingredients[k] in p.ingredients;
    }
  }

  /** The checker can fault a generated pizza for its calories and for too few ingredients, never for
      anything else; and it accepts exactly those with neither fault. */
  lemma GeneratedAgainstChecker(r: Restrictions, all: Menu, valid: Menu, p: Pizza, message: CheckMessage)
    requires FilteredMenu(r, all, valid) && Possible(valid, r, p)
    requires 0 < r.maxNumberOfToppings
    requires Explains(message, p, r)
    ensures message.PizzaIsOk? || message.TooManyCalories? || message.TooFewToppings?
    ensures Accepts(p, r) <==>
            Calories(p.ingredients) <= r.maxCaloriesPerSlice && r.minNumberOfToppings + 3 <= |p.ingredients|
  {
    var n, drawn :| MadeFrom(valid, r, n, drawn, p);
    DrawnIsAllowed(r, all, valid, n, drawn, p);
    IngredientsAtMost(valid, r, n, drawn, p);
    ExcludedIsNotOk(p, r);
  }

  // ---------- The minimum number of toppings ----------

  /** The most toppings that are ever drawn. */
  function MostDrawn(r: Restrictions): int {
    if 0 < r.maxNumberOfToppings then r.maxNumberOfToppings else 0
  }

  /** A maximum below the minimum, or too few names to draw from: every pizza is rejected. */
  lemma ScarceToppingsAreRejected(r: Restrictions, valid: Menu, p: Pizza)
    requires Possible(valid, r, p)
    requires MostDrawn(r) < r.minNumberOfToppings || |Names(valid.toppings)| < r.minNumberOfToppings
    ensures !EnoughToppings(p, r) && !Accepts(p, r)
  {
    var n, drawn :| MadeFrom(valid, r, n, drawn, p);
    IngredientsAtMost(valid, r, n, drawn, p);
  }

  /** One of each category to start from, with distinct names, then `toppings`. */
  function DrawOf(menu: Menu, toppings: seq<Ingredient>): seq<Ingredient>
    requires BaseOffered(menu)
  {
    [menu.oils[0], menu.tomatoes[0], menu.mozzarellas[0]] + toppings
  }

  ghost predicate FromMenu(menu: Menu, toppings: seq<Ingredient>) {
    forall t :: t in toppings ==> t in menu.toppings
  }

  lemma DrawnFromMenu(menu: Menu, n: int, toppings: seq<Ingredient>)
    requires BaseOffered(menu) && FromMenu(menu, toppings) && |toppings| == if 0 < n then n else 0
    ensures Draws(menu, n, DrawOf(menu, toppings))
  {
    var drawn := DrawOf(menu, toppings);
    forall k | 3 <= k < |drawn| ensures drawn[k] in menu.toppings { assert drawn[k] == toppings[k - 3]; }
  }

  lemma DrawnNames(menu: Menu, toppings: seq<Ingredient>)
    requires BaseOffered(menu) && CategoriesDisjoint(menu)
    requires FromMenu(menu, toppings) && DistinctNames(toppings)
    ensures DistinctNames(DrawOf(menu, toppings))
  {
    var drawn := DrawOf(menu, toppings);
    assert menu.oils[0].name in Names(menu.oils) && menu.tomatoes[0].name in Names(menu.tomatoes);
    assert menu.mozzarellas[0].name in Names(menu.mozzarellas);
    forall k | 3 <= k < |drawn| ensures drawn[k].name in Names(menu.toppings) {
      assert drawn[k] == toppings[k - 3] && toppings[k - 3] in toppings;
    }
    forall i, j | 0 <= i < j < |drawn| ensures drawn[i].name != drawn[j].name {
      if 3 <= i { assert drawn[i] == toppings[i - 3] && drawn[j] == toppings[j - 3]; }
    }
  }

  /** Distinct draws lose nothing to deduplication. */
  lemma DistinctDrawsStay(drawn: seq<Ingredient>)
    requires DistinctNames(drawn)
    ensures Deduplicated(drawn, drawn)
  {
    forall i | i in drawn ensures LastOfItsName(drawn, i) {
      var k :| 0 <= k < |drawn| && drawn[k] == i;
    }
  }

  lemma {:induction false} PickDistinct(list: seq<Ingredient>, n: nat) returns (picked: seq<Ingredient>)
    requires n <= |Names(list)|
    ensures |picked| == n && DistinctNames(picked) && forall i :: i in picked ==> i in list
  {
    picked := [];
    if n > 0 {
      picked := PickDistinct(list, n - 1);
      NamesSize(picked);
      var others := Names(list) - Names(picked);
      if others == {} {
        forall name | name in Names(list) ensures name in Names(picked) { assert name !in others; }
        SubsetSize(Names(list), Names(picked));
      }
      var name := Pick(others);
      var next :| next in list && next.name == name;
      assert forall i :: i in picked ==> i.name in Names(picked);
      picked := picked + [next];
    }
  }

  /** Every draw can be of distinct toppings, as far as there are names. */
  lemma DistinctToppings(menu: Menu, r: Restrictions, n: nat) returns (p: Pizza)
    requires BaseOffered(menu) && CategoriesDisjoint(menu)
    requires MayDraw(r, n) && n <= |Names(menu.toppings)|
    ensures Possible(menu, r, p) && |p.ingredients| == 3 + n
  {
    var toppings := PickDistinct(menu.toppings, n);
    var drawn := DrawOf(menu, toppings);
    DrawnFromMenu(menu, n, toppings);
    DrawnNames(menu, toppings);
    DistinctDrawsStay(drawn);
    p := Pizza(r.customName, menu.doughs[0], drawn, menu.tools[0]);
    assert MadeFrom(menu, r, n, drawn, p);
  }

  lemma RepeatsCollapse(base: seq<Ingredient>, topping: Ingredient, n: nat)
    requires 0 < n && DistinctNames(base + [topping])
    ensures Deduplicated(base + Copies(topping, n), base + [topping])
  {
    var drawn, unique := base + Copies(topping, n), base + [topping];
    assert drawn[|base|] == topping;
    assert forall k :: |base| <= k < |drawn| ==> drawn[k] == topping;
    forall name ensures name in Names(drawn) <==> name in Names(unique) {
      if name in Names(drawn) { var k :| 0 <= k < |drawn| && drawn[k].name == name; }
      if name in Names(unique) { var k :| 0 <= k < |unique| && unique[k].name == name; assert drawn[k] == unique[k]; }
    }
    forall i | i in unique ensures LastOfItsName(drawn, i) {
      var k :| 0 <= k < |unique| && unique[k] == i;
      if k < |base| {
        assert drawn[k] == i;
        forall m | k < m < |drawn| ensures drawn[m].name != i.name {
          assert drawn[m] == if m < |base| then unique[m] else unique[|base|];
        }
      } else {
        assert drawn[|drawn| - 1] == i;
      }
    }
  }

  /** And every draw can be of one topping over and over. */
  lemma RepeatedTopping(menu: Menu, r: Restrictions, n: nat) returns (p: Pizza)
    requires BaseOffered(menu) && CategoriesDisjoint(menu)
    requires MayDraw(r, n) && 0 < n && menu.toppings != []
    ensures Possible(menu, r, p) && |p.ingredients| == 4
  {
    var topping := menu.toppings[0];
    var base, drawn := DrawOf(menu, []), DrawOf(menu, Copies(topping, n));
    assert drawn == base + Copies(topping, n) && DrawOf(menu, [topping]) == base + [topping];
    DrawnFromMenu(menu, n, Copies(topping, n));
    DrawnNames(menu, [topping]);
    RepeatsCollapse(base, topping, n);
    p := Pizza(r.customName, menu.doughs[0], base + [topping], menu.tools[0]);
    assert MadeFrom(menu, r, n, drawn, p);
  }

  /** The generator keeps the minimum it was asked for in every pizza it can make exactly when the
      minimum is at most one: any topping may be drawn again and again. */
  lemma MinimumKeptExactlyWhen(r: Restrictions, menu: Menu)
    requires Sufficient(menu, r) && CategoriesDisjoint(menu)
    ensures (forall p :: Possible(menu, r, p) ==> EnoughToppings(p, r)) <==>
            r.minNumberOfToppings <= if 0 < r.maxNumberOfToppings then 1 else 0
  {
    if r.minNumberOfToppings <= if 0 < r.maxNumberOfToppings then 1 else 0 {
      forall p | Possible(menu, r, p) ensures EnoughToppings(p, r) {
        var n, drawn :| MadeFrom(menu, r, n, drawn, p);
        IngredientsAtLeast(menu, r, n, drawn, p);
      }
    } else if 0 < r.maxNumberOfToppings {
      var p := RepeatedTopping(menu, r, FewestDrawn(r));
      assert Possible(menu, r, p) && !EnoughToppings(p, r);
    } else {
      var p := SomePizza(menu, r);
      ScarceToppingsAreRejected(r, menu, p);
    }
  }

  /** And it breaks it in every pizza exactly when the maximum is below the minimum, or there are
      fewer names to draw from. */
  lemma MinimumMissedExactlyWhen(r: Restrictions, menu: Menu)
    requires Sufficient(menu, r) && CategoriesDisjoint(menu)
    ensures (forall p :: Possible(menu, r, p) ==> !EnoughToppings(p, r)) <==>
            MostDrawn(r) < r.minNumberOfToppings || |Names(menu.toppings)| < r.minNumberOfToppings
  {
    if MostDrawn(r) < r.minNumberOfToppings || |Names(menu.toppings)| < r.minNumberOfToppings {
      forall p | Possible(menu, r, p) ensures !EnoughToppings(p, r) { ScarceToppingsAreRejected(r, menu, p); }
    } else {
      var p := EnoughForOnce(r, menu);
    }
  }

  lemma EnoughForOnce(r: Restrictions, menu: Menu) returns (p: Pizza)
    requires Sufficient(menu, r) && CategoriesDisjoint(menu)
    requires r.minNumberOfToppings <= MostDrawn(r) && r.minNumberOfToppings <= |Names(menu.toppings)|
    ensures Possible(menu, r, p) && EnoughToppings(p, r)
  {
    if 0 <= r.minNumberOfToppings && 0 < r.maxNumberOfToppings {
      p := DistinctToppings(menu, r, r.minNumberOfToppings);
    } else {
      p := SomePizza(menu, r);
      var n, drawn :| MadeFrom(menu, r, n, drawn, p);
      IngredientsAtLeast(menu, r, n, drawn, p);
    }
  }

  // ---------- A request without any restriction ----------

  const NO_RESTRICTIONS := Restrictions(0, false, [], [], 0, 0, "")

  const OIL := Ingredient(1, "Extra virgin olive oil", 50, true)
  const TOMATO := Ingredient(3, "San Marzano tomatoes", 50, true)
  const MOZZARELLA := Ingredient(6, "Mozzarella", 100, true)
  const PEPPERONI := Ingredient(9, "Pepperoni", 100, false)
  const THIN := Dough(1, "Thin", 100)

  /** The menu has these rows of the fixture, among any others. */
  predicate HasSeedRows(all: Menu) {
    && OIL in all.oils && TOMATO in all.tomatoes && MOZZARELLA in all.mozzarellas && PEPPERONI in all.toppings
    && "Knife" in all.tools && THIN in all.doughs
  }

  lemma NothingIsExcluded(all: Menu, valid: Menu)
    requires HasSeedRows(all) && FilteredMenu(Effective(NO_RESTRICTIONS), all, valid)
    ensures HasSeedRows(valid)
  {
    var r := Effective(NO_RESTRICTIONS);
    assert multiset(valid.oils)[OIL] == multiset(all.oils)[OIL];
    assert multiset(valid.tomatoes)[TOMATO] == multiset(all.tomatoes)[TOMATO];
    assert multiset(valid.mozzarellas)[MOZZARELLA] == multiset(all.mozzarellas)[MOZZARELLA];
    assert multiset(valid.toppings)[PEPPERONI] == multiset(all.toppings)[PEPPERONI];
    assert multiset(valid.tools)["Knife"] == multiset(all.tools)["Knife"];
  }

  const PEPPERONI_PIZZA := Pizza("A Pepperoni", THIN, [OIL, TOMATO, MOZZARELLA, PEPPERONI], "Knife")

  lemma PepperoniCalories()
    ensures Calories(PEPPERONI_PIZZA.ingredients) == 300
  {
    var all := PEPPERONI_PIZZA.ingredients;
    assert all[..3] == [OIL, TOMATO, MOZZARELLA];
    assert all[..3][..2] == [OIL, TOMATO];
    assert [OIL, TOMATO][..1] == [OIL] && [OIL][..0] == [];
    assert Calories([OIL]) == 50;
    assert Calories([OIL, TOMATO]) == 100;
    assert Calories([OIL, TOMATO, MOZZARELLA]) == 200;
  }

  lemma ShortPizzaIsPossible(r: Restrictions, valid: Menu)
    requires HasSeedRows(valid) && MayDraw(r, 3) && r.customName == ""
    ensures Possible(valid, r, PEPPERONI_PIZZA)
  {
    var base := [OIL, TOMATO, MOZZARELLA];
    var drawn := base + Copies(PEPPERONI, 3);
    assert base + [PEPPERONI] == PEPPERONI_PIZZA.ingredients;
    RepeatsCollapse(base, PEPPERONI, 3);
    assert MadeFrom(valid, r, 3, drawn, PEPPERONI_PIZZA);
  }

  lemma ShortPizzaIsFaulted(r: Restrictions)
    requires r == Effective(NO_RESTRICTIONS)
    ensures Explains(TooFewToppings(6, 4), PEPPERONI_PIZZA, r)
  {
    PepperoniCalories();
  }

  /** Three times the same topping: the defaults ask for at least three and get one. */
  lemma DefaultRequestCanFallShort(all: Menu, valid: Menu)
    requires HasSeedRows(all) && FilteredMenu(Effective(NO_RESTRICTIONS), all, valid)
    ensures var r := Effective(NO_RESTRICTIONS);
      Possible(valid, r, PEPPERONI_PIZZA) && Explains(TooFewToppings(6, 4), PEPPERONI_PIZZA, r)
  {
    NothingIsExcluded(all, valid);
    ShortPizzaIsPossible(Effective(NO_RESTRICTIONS), valid);
    ShortPizzaIsFaulted(Effective(NO_RESTRICTIONS));
  }

  /** Why the maximum must not be negative: the three base ingredients alone are then too many. */
  lemma NegativeMaximumIsRejected(r: Restrictions, valid: Menu, p: Pizza)
    requires Possible(valid, r, p) && CategoriesDisjoint(valid)
    ensures r.maxNumberOfToppings < 0 <==> !NotTooMany(p, r)
    ensures r.maxNumberOfToppings < 0 ==> !Accepts(p, r)
  {
    var n, drawn :| MadeFrom(valid, r, n, drawn, p);
    IngredientsAtMost(valid, r, n, drawn, p);
    IngredientsAtLeast(valid, r, n, drawn, p);
  }
}
