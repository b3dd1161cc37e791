/** The dietary preferences and their constant policy tables
    (PreferenceView.swift), and the stored-preference decoding of SafeView. */
module Preferences {
  import opened Wrappers

  /** The union of the preference cases the verdict code distinguishes.
      `Jain` exists only in the verdict code; the policy table (title, raw
      value, blacklisted and unsure groups) covers the other four. */
  datatype Preference = Vegan | Vegetarian | Pescatarian | Eggetarian | Jain {

    /** The case has an entry in the policy table. */
    predicate HasPolicy() {
      !Jain?
    }

    /** The `String` raw value of the case. */
    function RawValue(): string
      requires HasPolicy()
    {
      match this
      case Vegan => "vegan"
      case Vegetarian => "vegetarian"
      case Pescatarian => "pescatarian"
      case Eggetarian => "eggetarian"
    }

    /** The display title. */
    function Title(): string
      requires HasPolicy()
    {
      match this
      case Vegan => "Vegan"
      case Vegetarian => "Vegetarian"
      case Pescatarian => "Pescatarian"
      case Eggetarian => "Eggetarian"
    }

    /** The food groups whose records this preference rejects. */
    function BlacklistedIngredientGroups(): seq<string>
      requires HasPolicy()
    {
      match this
      case Vegan => ["Milk and milk products", "Animal foods", "Aquatic foods", "Eggs"]
      case Vegetarian => ["Animal foods", "Aquatic foods", "Eggs"]
      case Pescatarian => ["Animal foods", "Eggs"]
      case Eggetarian => ["Animal foods", "Aquatic foods"]
    }

    /** The food groups this preference is unsure about. */
    function UnsureIngredients(): seq<string>
      requires HasPolicy()
    {
      match this
      case Vegan => ["Animal & Plant Derived"]
      case _ => []
    }
  }

  /** `Preference(rawValue:)`: the case whose raw value is `raw`, if any. */
  function FromRawValue(raw: string): (r: Option<Preference>)
    ensures r.Some? ==> r.value.HasPolicy() && r.value.RawValue() == raw
  {
    if raw == "vegan" then Some(Vegan)
    else if raw == "vegetarian" then Some(Vegetarian)
    else if raw == "pescatarian" then Some(Pescatarian)
    else if raw == "eggetarian" then Some(Eggetarian)
    else None
  }

  /** The preference `SafeView` works with: the stored string decoded, with
      vegan for a missing or unknown string. */
  function StoredPreference(stored: Option<string>): (p: Preference)
    ensures p.HasPolicy()
  {
    FromRawValue(stored.GetOr("")).GetOr(Vegan)
  }

  /** Decoding a case's raw value gives the case back. */
  lemma RawValueRoundTrip(p: Preference)
    requires p.HasPolicy()
    ensures FromRawValue(p.RawValue()) == Some(p)
    ensures StoredPreference(Some(p.RawValue())) == p
  {
  }

  /** A missing string, or one that is no case's raw value, means vegan. */
  lemma StoredPreferenceFallback(stored: Option<string>)
    requires stored.None? || forall p: Preference :: p.HasPolicy() ==> p.RawValue() != stored.value
    ensures StoredPreference(stored) == Vegan
  {
    if stored.Some? {
      assert FromRawValue(stored.value).None?;
    }
  }

  /** Distinct cases have distinct titles and distinct raw values. */
  lemma TitlesAndRawValuesDistinct(p: Preference, q: Preference)
    requires p.HasPolicy() && q.HasPolicy() && p != q
    ensures p.Title() != q.Title()
    ensures p.RawValue() != q.RawValue()
  {
  }

  /** Every preference rejects "Animal foods". */
  lemma AnimalFoodsAlwaysBlacklisted(p: Preference)
    requires p.HasPolicy()
    ensures "Animal foods" in p.BlacklistedIngredientGroups()
  {
  }

  /** Vegan rejects every group any preference rejects. */
  lemma VeganBlacklistIsLargest(p: Preference, group: string)
    requires p.HasPolicy()
    requires group in p.BlacklistedIngredientGroups()
    ensures group in Vegan.BlacklistedIngredientGroups()
  {
  }

  /** The one group each preference treats differently from the others:
      only vegan rejects dairy, only pescatarian allows aquatic foods, only
      eggetarian allows eggs. */
  lemma BlacklistExceptions(p: Preference)
    requires p.HasPolicy()
    ensures "Milk and milk products" in p.BlacklistedIngredientGroups() <==> p == Vegan
    ensures "Aquatic foods" !in p.BlacklistedIngredientGroups() <==> p == Pescatarian
    ensures "Eggs" !in p.BlacklistedIngredientGroups() <==> p == Eggetarian
  {
  }

  /** Only vegan has an unsure group, "Animal & Plant Derived". */
  lemma UnsureOnlyForVegan(p: Preference)
    requires p.HasPolicy()
    ensures p.UnsureIngredients() == (if p == Vegan then ["Animal & Plant Derived"] else [])
  {
  }
}
