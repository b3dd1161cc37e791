/** The verdict shown after a scan (SafeView.swift): whether the non-vegan
    items are acceptable for a preference, the detail sheet's "restricted"
    flag, the headline, and the per-type sections of the detail sheet. */
module Safety {
  import opened Wrappers
  import opened Seqs
  import Ingredients
  import Preferences

  type Ingredient = Ingredients.Ingredient
  type IngredientType = Ingredients.IngredientType
  type Preference = Preferences.Preference

  /** `items.filter { $0.ingredientType == t }`: every item of type `t`, as
      often as it occurs in `items` and in the same order, and nothing else. */
  function OfType(items: seq<Ingredient>, t: IngredientType): (r: seq<Ingredient>)
    ensures forall x :: x in r <==> x in items && x.ingredientType == Some(t)
    ensures forall x :: multiset(r)[x] == if x.ingredientType == Some(t) then multiset(items)[x] else 0
    ensures IsSubseq(r, items)
  {
    Filter(items, (x: Ingredient) => x.ingredientType == Some(t))
  }

  /** Some item has type `t`. */
  ghost predicate AnyOfType(items: seq<Ingredient>, t: IngredientType) {
    exists x :: x in items && x.ingredientType == Some(t)
  }

  /** `!items.filter { $0.ingredientType == t }.isEmpty`. */
  function Has(items: seq<Ingredient>, t: IngredientType): (b: bool)
    ensures b <==> AnyOfType(items, t)
  {
    var r := OfType(items, t);
    assert r != [] ==> r[0] in r;
    r != []
  }

  /** `determineIfSafe`: a safe verdict needs a preference with a policy
      and no animal item. */
  function DetermineIfSafe(preference: Preference, nonVegan: seq<Ingredient>): (safe: bool)
    ensures safe ==> preference.HasPolicy()
    ensures safe ==> !AnyOfType(nonVegan, Ingredients.Animal)
  {
    var animal := Has(nonVegan, Ingredients.Animal);
    var pescatarian := Has(nonVegan, Ingredients.Pescatarian);
    var egg := Has(nonVegan, Ingredients.Eggetarian);
    var dairy := Has(nonVegan, Ingredients.Vegetarian);
    match preference
    case Vegan => !animal && !pescatarian && !egg && !dairy
    case Vegetarian => !animal && !pescatarian
    case Eggetarian => !animal && !pescatarian
    case Pescatarian => !animal && !egg
    case Jain => false
  }

  /** `hasRestrictedIngredients` of the detail sheet: never raised for an
      empty list, always raised by an animal item under a policy. */
  function HasRestrictedIngredients(preference: Preference, nonVegan: seq<Ingredient>): (restricted: bool)
    ensures restricted ==> nonVegan != []
    ensures preference.HasPolicy() && AnyOfType(nonVegan, Ingredients.Animal) ==> restricted
  {
    var animal := Has(nonVegan, Ingredients.Animal);
    var pescatarian := Has(nonVegan, Ingredients.Pescatarian);
    var egg := Has(nonVegan, Ingredients.Eggetarian);
    match preference
    case Vegan => nonVegan != []
    case Vegetarian => animal || pescatarian
    case Eggetarian => animal || pescatarian
    case Pescatarian => animal || egg
    case Jain => false
  }

  /** The headline under the verdict image: the title of the preference, or
      one of three warnings, the egg warning only for pescatarian. */
  function Headline(preference: Preference, nonVegan: seq<Ingredient>): (h: string)
    ensures || (preference.HasPolicy() && h == "Suitable for " + preference.Title())
            || h == "Contains Animal Ingredients"
            || h == "Contains Eggs"
            || h == "Contains Non-Suitable Ingredients"
    ensures h == "Contains Eggs" ==> preference == Preferences.Pescatarian
  {
    if DetermineIfSafe(preference, nonVegan) then "Suitable for " + preference.Title()
    else if Has(nonVegan, Ingredients.Animal) then "Contains Animal Ingredients"
    else if preference == Preferences.Pescatarian && Has(nonVegan, Ingredients.Eggetarian) then "Contains Eggs"
    else "Contains Non-Suitable Ingredients"
  }

  /** The four lists of `NonVeganIngredientsSection`. */
  datatype Sections = Sections(
    animal: seq<Ingredient>, seafood: seq<Ingredient>, egg: seq<Ingredient>, dairy: seq<Ingredient>)

  function NonVeganSections(nonVegan: seq<Ingredient>): (s: Sections)
    ensures IsSubseq(s.animal, nonVegan) && IsSubseq(s.seafood, nonVegan)
    ensures IsSubseq(s.egg, nonVegan) && IsSubseq(s.dairy, nonVegan)
  {
    Sections(OfType(nonVegan, Ingredients.Animal), OfType(nonVegan, Ingredients.Pescatarian),
             OfType(nonVegan, Ingredients.Eggetarian), OfType(nonVegan, Ingredients.Vegetarian))
  }

  // ---------------------------------------------------------- truth table

  /** Vegan is satisfied exactly when every non-vegan item is untyped or of
      type vegan or both. */
  lemma VeganVerdict(nonVegan: seq<Ingredient>)
    ensures DetermineIfSafe(Preferences.Vegan, nonVegan) <==>
      forall x :: x in nonVegan ==>
        x.ingredientType.None? || x.ingredientType.value == Ingredients.Vegan || x.ingredientType.value == Ingredients.Both
  {
    if !DetermineIfSafe(Preferences.Vegan, nonVegan) {
      var x :| x in nonVegan && x.ingredientType.Some? &&
        x.ingredientType.value in {Ingredients.Animal, Ingredients.Pescatarian, Ingredients.Eggetarian, Ingredients.Vegetarian};
      assert !(x.ingredientType.None? || x.ingredientType.value == Ingredients.Vegan || x.ingredientType.value == Ingredients.Both);
    }
  }

  /** Vegetarian and eggetarian give the same verdict: no animal and no
      seafood item. */
  lemma VegetarianAndEggetarianVerdict(nonVegan: seq<Ingredient>)
    ensures DetermineIfSafe(Preferences.Vegetarian, nonVegan) == DetermineIfSafe(Preferences.Eggetarian, nonVegan)
    ensures DetermineIfSafe(Preferences.Vegetarian, nonVegan) <==>
      forall x :: x in nonVegan ==>
        x.ingredientType != Some(Ingredients.Animal) && x.ingredientType != Some(Ingredients.Pescatarian)
  {
  }

  /** Pescatarian is satisfied exactly when there is no animal and no egg
      item. */
  lemma PescatarianVerdict(nonVegan: seq<Ingredient>)
    ensures DetermineIfSafe(Preferences.Pescatarian, nonVegan) <==>
      forall x :: x in nonVegan ==>
        x.ingredientType != Some(Ingredients.Animal) && x.ingredientType != Some(Ingredients.Eggetarian)
  {
  }

  /** Jain is never satisfied. */
  lemma JainNeverSafe(nonVegan: seq<Ingredient>)
    ensures !DetermineIfSafe(Preferences.Jain, nonVegan)
  {
  }

  /** An empty non-vegan list satisfies every preference but jain. */
  lemma EmptyIsSafe(preference: Preference)
    requires preference.HasPolicy()
    ensures DetermineIfSafe(preference, [])
  {
    assert !AnyOfType([], Ingredients.Animal);
  }

  /** More non-vegan items never turn an unsafe verdict into a safe one. */
  lemma VerdictMonotone(preference: Preference, fewer: seq<Ingredient>, more: seq<Ingredient>)
    requires forall x :: x in fewer ==> x in more
    requires DetermineIfSafe(preference, more)
    ensures DetermineIfSafe(preference, fewer)
  {
  }

  /** What satisfies vegan satisfies every preference but jain. */
  lemma VeganIsStrictest(preference: Preference, nonVegan: seq<Ingredient>)
    requires preference.HasPolicy()
    requires DetermineIfSafe(Preferences.Vegan, nonVegan)
    ensures DetermineIfSafe(preference, nonVegan)
  {
  }

  // ------------------------------------------------ verdict and detail flag

  /** The detail sheet's flag is the negated verdict for vegetarian,
      pescatarian and eggetarian; for vegan an unsafe verdict always raises
      it. */
  lemma RestrictedAgreesWithVerdict(preference: Preference, nonVegan: seq<Ingredient>)
    ensures preference in {Preferences.Vegetarian, Preferences.Pescatarian, Preferences.Eggetarian} ==>
      HasRestrictedIngredients(preference, nonVegan) == !DetermineIfSafe(preference, nonVegan)
    ensures preference == Preferences.Vegan && !DetermineIfSafe(preference, nonVegan) ==>
      HasRestrictedIngredients(preference, nonVegan)
  {
  }

  /** For vegan, the flag is raised by any non-vegan item at all, so an item
      of type both (or vegan, or untyped) raises it while the verdict stays
      safe. */
  lemma VeganFlagStricterThanVerdict(x: Ingredient)
    requires x.ingredientType == Some(Ingredients.Both)
    ensures DetermineIfSafe(Preferences.Vegan, [x])
    ensures HasRestrictedIngredients(Preferences.Vegan, [x])
  {
    VeganVerdict([x]);
  }

  /** For jain, the verdict is always unsafe but the flag is never raised. */
  lemma JainFlagAndVerdictDisagree(nonVegan: seq<Ingredient>)
    ensures !DetermineIfSafe(Preferences.Jain, nonVegan)
    ensures !HasRestrictedIngredients(Preferences.Jain, nonVegan)
  {
  }

  // ---------------------------------------------------------------- headline

  /** The headline names the verdict: the title when safe, the animal
      warning whenever an animal item is present, the egg warning for a
      pescatarian with eggs and no animal, the generic warning otherwise. */
  lemma HeadlineCases(preference: Preference, nonVegan: seq<Ingredient>)
    ensures DetermineIfSafe(preference, nonVegan) ==>
      preference.HasPolicy() && Headline(preference, nonVegan) == "Suitable for " + preference.Title()
    ensures AnyOfType(nonVegan, Ingredients.Animal) ==>
      Headline(preference, nonVegan) == "Contains Animal Ingredients"
    ensures (preference == Preferences.Pescatarian && !AnyOfType(nonVegan, Ingredients.Animal)
             && AnyOfType(nonVegan, Ingredients.Eggetarian)) ==>
      Headline(preference, nonVegan) == "Contains Eggs"
    ensures Headline(preference, nonVegan) == "Contains Non-Suitable Ingredients" <==>
      !DetermineIfSafe(preference, nonVegan) && !AnyOfType(nonVegan, Ingredients.Animal)
      && !(preference == Preferences.Pescatarian && AnyOfType(nonVegan, Ingredients.Eggetarian))
  {
    if DetermineIfSafe(preference, nonVegan) {
      assert preference.HasPolicy();
      var t := preference.Title();
      assert ("Suitable for " + t)[0] == 'S';
    }
  }

  // ---------------------------------------------------------------- sections

  /** Each section keeps the order of the non-vegan list, the sections share
      no item, and together they hold exactly the items of the four
      non-vegan types. */
  lemma SectionsPartition(nonVegan: seq<Ingredient>)
    ensures var s := NonVeganSections(nonVegan);
      && IsSubseq(s.animal, nonVegan) && IsSubseq(s.seafood, nonVegan)
      && IsSubseq(s.egg, nonVegan) && IsSubseq(s.dairy, nonVegan)
    ensures var s := NonVeganSections(nonVegan);
      forall x :: x in nonVegan ==>
        ((x in s.animal || x in s.seafood || x in s.egg || x in s.dairy) <==>
         x.ingredientType.Some? && x.ingredientType.value !in {Ingredients.Vegan, Ingredients.Both})
    ensures var s := NonVeganSections(nonVegan);
      && (forall x :: x in s.animal ==> x !in s.seafood && x !in s.egg && x !in s.dairy)
      && (forall x :: x in s.seafood ==> x !in s.egg && x !in s.dairy)
      && (forall x :: x in s.egg ==> x !in s.dairy)
  {
    var s := NonVeganSections(nonVegan);
    forall x | x in nonVegan
      ensures (x in s.animal || x in s.seafood || x in s.egg || x in s.dairy) <==>
        x.ingredientType.Some? && x.ingredientType.value !in {Ingredients.Vegan, Ingredients.Both}
    {
      if x.ingredientType.Some? {
        match x.ingredientType.value
        case Animal => assert x in s.animal;
        case Pescatarian => assert x in s.seafood;
        case Eggetarian => assert x in s.egg;
        case Vegetarian => assert x in s.dairy;
        case _ =>
      }
    }
  }

  /** The verdict read off the sections: vegan needs all four empty,
      vegetarian and eggetarian need no animal and no seafood section,
      pescatarian no animal and no egg section. */
  lemma VerdictFromSections(preference: Preference, nonVegan: seq<Ingredient>)
    ensures var s := NonVeganSections(nonVegan);
      DetermineIfSafe(preference, nonVegan) ==
        match preference
        case Vegan => s.animal == [] && s.seafood == [] && s.egg == [] && s.dairy == []
        case Vegetarian => s.animal == [] && s.seafood == []
        case Eggetarian => s.animal == [] && s.seafood == []
        case Pescatarian => s.animal == [] && s.egg == []
        case Jain => false
  {
  }

  // ----------------------------------------- verdict against the blacklists

  /** The food group whose blacklisting rules out an item of type `t`. */
  function RejectingGroup(t: IngredientType): Option<string> {
    match t
    case Animal => Some("Animal foods")
    case Pescatarian => Some("Aquatic foods")
    case Eggetarian => Some("Eggs")
    case Vegetarian => Some("Milk and milk products")
    case _ => None
  }

  /** The preference blacklists the food group of items of type `t`. */
  predicate Rejects(preference: Preference, t: IngredientType)
    requires preference.HasPolicy()
  {
    var g := RejectingGroup(t);
    g.Some? && g.value in preference.BlacklistedIngredientGroups()
  }

  /** The verdict with vegetarian also ruling out eggs, as the vegetarian
      blacklist and the "(Not Allowed)" egg section of the detail sheet say. */
  function IntendedSafe(preference: Preference, nonVegan: seq<Ingredient>): bool {
    var animal := Has(nonVegan, Ingredients.Animal);
    var pescatarian := Has(nonVegan, Ingredients.Pescatarian);
    var egg := Has(nonVegan, Ingredients.Eggetarian);
    var dairy := Has(nonVegan, Ingredients.Vegetarian);
    match preference
    case Vegan => !animal && !pescatarian && !egg && !dairy
    case Vegetarian => !animal && !pescatarian && !egg
    case Eggetarian => !animal && !pescatarian
    case Pescatarian => !animal && !egg
    case Jain => false
  }

  /** Which item types each preference's blacklist rules out. */
  lemma RejectsTable(preference: Preference)
    requires preference.HasPolicy()
    ensures Rejects(preference, Ingredients.Animal)
    ensures Rejects(preference, Ingredients.Pescatarian) <==> preference != Preferences.Pescatarian
    ensures Rejects(preference, Ingredients.Eggetarian) <==> preference != Preferences.Eggetarian
    ensures Rejects(preference, Ingredients.Vegetarian) <==> preference == Preferences.Vegan
    ensures !Rejects(preference, Ingredients.Vegan) && !Rejects(preference, Ingredients.Both)
  {
  }

  /** One item of a blacklisted group makes the corrected verdict unsafe. */
  lemma RejectedItemIsUnsafe(preference: Preference, nonVegan: seq<Ingredient>, x: Ingredient)
    requires preference.HasPolicy()
    requires x in nonVegan && x.ingredientType.Some? && Rejects(preference, x.ingredientType.value)
    ensures !IntendedSafe(preference, nonVegan)
  {
    RejectsTable(preference);
    var t := x.ingredientType.value;
    assert AnyOfType(nonVegan, t);
    match t
    case Animal =>
    case Pescatarian => assert preference != Preferences.Pescatarian;
    case Eggetarian => assert preference != Preferences.Eggetarian;
    case Vegetarian => assert preference == Preferences.Vegan;
    case _ => assert false;
  }

  /** An unsafe corrected verdict has an item of a blacklisted group. */
  lemma UnsafeHasRejectedItem(preference: Preference, nonVegan: seq<Ingredient>)
    requires preference.HasPolicy()
    requires !IntendedSafe(preference, nonVegan)
    ensures exists x :: x in nonVegan && x.ingredientType.Some? && Rejects(preference, x.ingredientType.value)
  {
    RejectsTable(preference);
    var t: IngredientType;
    if Has(nonVegan, Ingredients.Animal) {
      t := Ingredients.Animal;
    } else if Rejects(preference, Ingredients.Pescatarian) && Has(nonVegan, Ingredients.Pescatarian) {
      t := Ingredients.Pescatarian;
    } else if Rejects(preference, Ingredients.Eggetarian) && Has(nonVegan, Ingredients.Eggetarian) {
      t := Ingredients.Eggetarian;
    } else {
      t := Ingredients.Vegetarian;
    }
    assert Rejects(preference, t) && Has(nonVegan, t);
    var x :| x in nonVegan && x.ingredientType == Some(t);
    assert x.ingredientType.Some? && Rejects(preference, x.ingredientType.value);
  }

  /** The corrected verdict is safe exactly when no non-vegan item belongs to
      a food group the preference blacklists. */
  lemma IntendedSafeFollowsBlacklist(preference: Preference, nonVegan: seq<Ingredient>)
    requires preference.HasPolicy()
    ensures IntendedSafe(preference, nonVegan) <==>
      forall x :: x in nonVegan && x.ingredientType.Some? ==> !Rejects(preference, x.ingredientType.value)
  {
    forall x | x in nonVegan && x.ingredientType.Some? && Rejects(preference, x.ingredientType.value)
      ensures !IntendedSafe(preference, nonVegan)
    {
      RejectedItemIsUnsafe(preference, nonVegan, x);
    }
    if !IntendedSafe(preference, nonVegan) {
      UnsafeHasRejectedItem(preference, nonVegan);
    }
  }

  /** The verdict as written agrees with the corrected one for every
      preference but vegetarian. */
  lemma VerdictMatchesBlacklistButVegetarian(preference: Preference, nonVegan: seq<Ingredient>)
    requires preference != Preferences.Vegetarian
    ensures DetermineIfSafe(preference, nonVegan) == IntendedSafe(preference, nonVegan)
  {
  }

  /** A single egg item: vegetarian blacklists eggs, yet the verdict as
      written calls the product safe for vegetarian. */
  lemma VegetarianAcceptsBlacklistedEggs(x: Ingredient)
    requires x.ingredientType == Some(Ingredients.Eggetarian)
    ensures Rejects(Preferences.Vegetarian, Ingredients.Eggetarian)
    ensures DetermineIfSafe(Preferences.Vegetarian, [x])
    ensures !IntendedSafe(Preferences.Vegetarian, [x])
  {
    assert x in [x];
  }
}
