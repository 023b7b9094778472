/** The values the services exchange: ingredients, pizzas, and the checks on users and ratings. */
module Model {
  import opened Sets

  datatype Option<+T> = None | Some(value: T)

  const USER_TOKEN_LENGTH := 16
  const MAX_USERNAME_LENGTH := 32
  const MAX_PIZZA_NAME_LENGTH := 64
  const GLOBAL_USERNAME := "default"

  datatype Ingredient = Ingredient(id: int, name: string, caloriesPerSlice: int, vegetarian: bool)

  datatype Dough = Dough(id: int, name: string, caloriesPerSlice: int)

  /** A pizza before the database gives it an id. */
  datatype Pizza = Pizza(name: string, dough: Dough, ingredients: seq<Ingredient>, tool: string)

  function Calories(ingredients: seq<Ingredient>): int {
    if ingredients == [] then 0
    else Calories(ingredients[..|ingredients| - 1]) + ingredients[|ingredients| - 1].caloriesPerSlice
  }

  predicate Vegetarian(ingredients: seq<Ingredient>) {
    forall i :: i in ingredients ==> i.vegetarian
  }

  method CalculateCalories(p: Pizza) returns (calories: int)
    ensures calories == Calories(p.ingredients)
  {
    calories := 0;
    for i := 0 to |p.ingredients|
      invariant calories == Calories(p.ingredients[..i])
    {
      assert p.ingredients[..i + 1][..i] == p.ingredients[..i];
      calories := calories + p.ingredients[i].caloriesPerSlice;
    }
    assert p.ingredients[..|p.ingredients|] == p.ingredients;
  }

  method IsVegetarian(p: Pizza) returns (v: bool)
    ensures v == Vegetarian(p.ingredients)
    ensures v <==> forall k :: 0 <= k < |p.ingredients| ==> p.ingredients[k].vegetarian
  {
    for i := 0 to |p.ingredients|
      invariant forall j :: 0 <= j < i ==> p.ingredients[j].vegetarian
    {
      if !p.ingredients[i].vegetarian {
        return false;
      }
    }
    return true;
  }

  /** The calories are a sum: nothing for no ingredient, its own for one, and added up for more. */
  lemma {:induction false} CaloriesAddUp(a: seq<Ingredient>, b: seq<Ingredient>, i: Ingredient)
    ensures Calories([]) == 0 && Calories([i]) == i.caloriesPerSlice
    ensures Calories(a + b) == Calories(a) + Calories(b)
    decreases |b|
  {
    assert [i][..0] == [];
    if b == [] {
      assert a + b == a;
    } else {
      var last := |b| - 1;
      assert (a + b)[..|a + b| - 1] == a + b[..last];
      CaloriesAddUp(a, b[..last], i);
    }
  }

  /** Taking one ingredient out, wherever it is, takes out its calories. */
  lemma {:induction false} CaloriesWithout(s: seq<Ingredient>, k: nat)
    requires k < |s|
    ensures Calories(s) == Calories(s[..k] + s[k + 1..]) + s[k].caloriesPerSlice
  {
    var last := |s| - 1;
    if k == last {
      assert s[..k] + s[k + 1..] == s[..last];
    } else {
      CaloriesWithout(s[..last], k);
      var t := s[..k] + s[k + 1..];
      assert t[..|t| - 1] == s[..last][..k] + s[..last][k + 1..];
      assert t[|t| - 1] == s[last];
    }
  }

  lemma WithoutOne(a: seq<Ingredient>, b: seq<Ingredient>, k: nat)
    requires a != [] && multiset(a) == multiset(b) && k < |b| && b[k] == a[|a| - 1]
    ensures multiset(a[..|a| - 1]) == multiset(b[..k] + b[k + 1..])
  {
    var last := |a| - 1;
    TakeOut(a, last);
    TakeOut(b, k);
    assert a[..last] + a[last + 1..] == a[..last];
  }

  lemma {:induction false} SameCalories(a: seq<Ingredient>, b: seq<Ingredient>)
    requires multiset(a) == multiset(b)
    ensures Calories(a) == Calories(b)
    decreases |a|
  {
    SameElements(a, b);
    if a != [] {
      var last := |a| - 1;
      assert a[last] in b;
      var k :| 0 <= k < |b| && b[k] == a[last];
      WithoutOne(a, b, k);
      SameCalories(a[..last], b[..k] + b[k + 1..]);
      CaloriesWithout(b, k);
    }
  }

  /** Neither number reported with a pizza depends on the order of its ingredients. */
  lemma OrderDoesNotMatter(a: seq<Ingredient>, b: seq<Ingredient>)
    requires multiset(a) == multiset(b)
    ensures Calories(a) == Calories(b) && Vegetarian(a) == Vegetarian(b)
  {
    SameElements(a, b);
    SameCalories(a, b);
  }

  /** `User.Validate`, applied to a registration before it reaches the store. */
  predicate ValidRegistration(username: string, password: string) {
    username != "" && |username| <= MAX_USERNAME_LENGTH && username != GLOBAL_USERNAME && password != ""
  }

  /** `Rating.Validate`. */
  predicate ValidStars(stars: int) { 1 <= stars <= 5 }
}
