/** The reference records, the name index built over them, and the
    partition of scanned items into whitelisted, blacklisted and unclassified
    (IngredientStore.swift). */
module Ingredients {
  import opened Wrappers
  import opened Text
  import opened Seqs
  import Preferences

  /** The dietary type a record may carry. */
  datatype IngredientType = Vegan | Vegetarian | Animal | Both | Eggetarian | Pescatarian

  /** One reference record, with every field of the decoded data set. */
  datatype Ingredient = Ingredient(
    id: int,
    name: string,
    nameScientific: Option<string>,
    description: Option<string>,
    itisId: Option<string>,
    wikipediaId: Option<string>,
    foodGroup: Option<string>,
    foodSubgroup: Option<string>,
    foodType: string,
    category: Option<string>,
    ncbiTaxonomyId: Option<int>,
    publicId: string,
    ingredientType: Option<IngredientType>)

  // ------------------------------------------------------------ name index

  /** The index `setup` builds: each record's lower-cased name maps to its
      offset, a later record overwriting an earlier one with the same name. */
  function Index(records: seq<Ingredient>): (m: map<string, nat>)
    ensures forall k :: k in m ==> m[k] < |records| && Lower(records[m[k]].name) == k
    decreases |records|
  {
    if records == [] then map[]
    else
      var n := |records| - 1;
      Index(records[..n])[Lower(records[n].name) := n]
  }

  /** Reference search: the offset of the last record whose lower-cased name
      is `key`, if there is one. */
  function LastOffsetOf(records: seq<Ingredient>, key: string): (r: Option<nat>)
    ensures r.Some? ==> r.value < |records| && Lower(records[r.value].name) == key
    ensures r.Some? ==> forall j :: r.value < j < |records| ==> Lower(records[j].name) != key
    ensures r.None? ==> forall j :: 0 <= j < |records| ==> Lower(records[j].name) != key
    decreases |records|
  {
    if records == [] then None
    else
      var n := |records| - 1;
      if Lower(records[n].name) == key then Some(n) else LastOffsetOf(records[..n], key)
  }

  /** The index holds exactly the names of the records, each with the offset
      of the last record of that name. */
  lemma {:induction false} IndexIsLastWrite(records: seq<Ingredient>)
    ensures forall k :: k in Index(records) <==> LastOffsetOf(records, k).Some?
    ensures forall k :: k in Index(records) ==> Index(records)[k] == LastOffsetOf(records, k).value
    decreases |records|
  {
    if records != [] {
      var n := |records| - 1;
      IndexIsLastWrite(records[..n]);
      forall k ensures LastOffsetOf(records, k) == (if Lower(records[n].name) == k then Some(n) else LastOffsetOf(records[..n], k)) {
      }
    }
  }

  /** Every record's lower-cased name is a key, and its entry is that
      record's offset or a later one with the same name. */
  lemma EveryNameIsAKey(records: seq<Ingredient>, j: nat)
    requires j < |records|
    ensures var key := Lower(records[j].name);
      key in Index(records) && j <= Index(records)[key] && Lower(records[Index(records)[key]].name) == key
  {
    IndexIsLastWrite(records);
  }

  /** Every offset in the index is an offset into the records. */
  predicate OffsetsValid(index: map<string, nat>, records: seq<Ingredient>) {
    forall k :: k in index ==> index[k] < |records|
  }

  // ---------------------------------------------------------------- routing

  /** `map[key] ?? map[singularize(key)]`, `key` being the lower-cased item. */
  function Lookup(index: map<string, nat>, singularize: string -> string, item: string): (r: Option<nat>)
    ensures r.Some? ==> r.value in index.Values
    ensures r.None? <==> Lower(item) !in index && singularize(Lower(item)) !in index
  {
    var key := Lower(item);
    if key in index then Some(index[key])
    else if singularize(key) in index then Some(index[singularize(key)])
    else None
  }

  /** The food group a record is judged by (`foodGroup ?? ""`). */
  function GroupName(ingredient: Ingredient): string {
    ingredient.foodGroup.GetOr("")
  }

  /** Where one scanned item goes. */
  datatype Bucket = Whitelisted(ingredient: Ingredient) | Blacklisted(ingredient: Ingredient) | Unclassified(item: string)

  function Route(index: map<string, nat>, records: seq<Ingredient>, singularize: string -> string,
                 preference: Preferences.Preference, item: string): (b: Bucket)
    requires OffsetsValid(index, records) && preference.HasPolicy()
    ensures b.Unclassified? <==> Lookup(index, singularize, item).None?
    ensures b.Unclassified? ==> b.item == item
    ensures !b.Unclassified? ==>
      && b.ingredient in records
      && (b.Blacklisted? <==> GroupName(b.ingredient) in preference.BlacklistedIngredientGroups())
  {
    match Lookup(index, singularize, item)
    case None => Unclassified(item)
    case Some(offset) =>
      var ingredient := records[offset];
      if GroupName(ingredient) in preference.BlacklistedIngredientGroups() then Blacklisted(ingredient)
      else Whitelisted(ingredient)
  }

  /** The three lists `getIngredients` returns. */
  datatype Classification = Classification(
    whitelisted: seq<Ingredient>, blacklisted: seq<Ingredient>, unclassified: seq<string>)

  /** `c` with the routed record or item appended to the list it names. */
  function Add(c: Classification, bucket: Bucket): Classification {
    match bucket
    case Whitelisted(ingredient) => c.(whitelisted := c.whitelisted + [ingredient])
    case Blacklisted(ingredient) => c.(blacklisted := c.blacklisted + [ingredient])
    case Unclassified(item) => c.(unclassified := c.unclassified + [item])
  }

  /** The lists produced by visiting the items in the order `order`, each item
      appended to the list its route names. */
  function Classify(index: map<string, nat>, records: seq<Ingredient>, singularize: string -> string,
                    preference: Preferences.Preference, order: seq<string>): Classification
    requires OffsetsValid(index, records) && preference.HasPolicy()
    decreases |order|
  {
    if order == [] then Classification([], [], [])
    else
      Add(Classify(index, records, singularize, preference, order[..|order| - 1]),
          Route(index, records, singularize, preference, order[|order| - 1]))
  }

  /** Visiting one more item appends its route. */
  lemma ClassifyAppend(index: map<string, nat>, records: seq<Ingredient>, singularize: string -> string,
                       preference: Preferences.Preference, order: seq<string>, item: string)
    requires OffsetsValid(index, records) && preference.HasPolicy()
    ensures Classify(index, records, singularize, preference, order + [item])
         == Add(Classify(index, records, singularize, preference, order),
                Route(index, records, singularize, preference, item))
  {
    assert (order + [item])[..|order|] == order;
  }

  // ------------------------------------------------------ partition lemmas

  /** Every visited item lands in exactly one list. */
  lemma {:induction false} ClassifySizes(index: map<string, nat>, records: seq<Ingredient>, singularize: string -> string,
                                         preference: Preferences.Preference, order: seq<string>)
    requires OffsetsValid(index, records) && preference.HasPolicy()
    ensures var c := Classify(index, records, singularize, preference, order);
      |c.whitelisted| + |c.blacklisted| + |c.unclassified| == |order|
    decreases |order|
  {
    if order != [] {
      ClassifySizes(index, records, singularize, preference, order[..|order| - 1]);
    }
  }

  lemma RouteUnclassified(index: map<string, nat>, records: seq<Ingredient>, singularize: string -> string,
                          preference: Preferences.Preference, item: string)
    requires OffsetsValid(index, records) && preference.HasPolicy()
    ensures var bucket := Route(index, records, singularize, preference, item);
      (bucket.Unclassified? <==> Lookup(index, singularize, item).None?)
      && (bucket.Unclassified? ==> bucket.item == item)
  {
  }

  lemma AddUnclassified(c: Classification, bucket: Bucket)
    ensures Add(c, bucket).unclassified == c.unclassified + (if bucket.Unclassified? then [bucket.item] else [])
  {
  }

  lemma UnclassifiedStep(index: map<string, nat>, records: seq<Ingredient>, singularize: string -> string,
                         preference: Preferences.Preference, order: seq<string>)
    requires OffsetsValid(index, records) && preference.HasPolicy() && order != []
    ensures var last := order[|order| - 1];
      Classify(index, records, singularize, preference, order).unclassified
        == Classify(index, records, singularize, preference, order[..|order| - 1]).unclassified
           + (if Lookup(index, singularize, last).None? then [last] else [])
  {
    var c := Classify(index, records, singularize, preference, order[..|order| - 1]);
    var last := order[|order| - 1];
    var bucket := Route(index, records, singularize, preference, last);
    assert Classify(index, records, singularize, preference, order) == Add(c, bucket);
    RouteUnclassified(index, records, singularize, preference, last);
    AddUnclassified(c, bucket);
  }

  /** The unclassified list holds exactly the visited items that neither the
      lower-cased nor the singularised key finds, in visiting order. */
  lemma {:induction false} ClassifyUnclassified(index: map<string, nat>, records: seq<Ingredient>, singularize: string -> string,
                                                preference: Preferences.Preference, order: seq<string>)
    requires OffsetsValid(index, records) && preference.HasPolicy()
    ensures var c := Classify(index, records, singularize, preference, order);
      forall x :: x in c.unclassified <==> x in order && Lookup(index, singularize, x).None?
    ensures IsSubseq(Classify(index, records, singularize, preference, order).unclassified, order)
    decreases |order|
  {
    if order != [] {
      var init, last := order[..|order| - 1], order[|order| - 1];
      ClassifyUnclassified(index, records, singularize, preference, init);
      UnclassifiedStep(index, records, singularize, preference, order);
      assert order == init + [last];
      var u := Classify(index, records, singularize, preference, init).unclassified;
      if Lookup(index, singularize, last).None? {
        SubseqAppendBoth(u, init, last);
      } else {
        SubseqExtend(u, init, last);
      }
    }
  }

  /** Whitelisted records are records of the table whose group the preference
      allows; blacklisted ones are records whose group it rejects. */
  lemma {:induction false} ClassifyRecords(index: map<string, nat>, records: seq<Ingredient>, singularize: string -> string,
                                           preference: Preferences.Preference, order: seq<string>)
    requires OffsetsValid(index, records) && preference.HasPolicy()
    ensures var c := Classify(index, records, singularize, preference, order);
      && (forall r :: r in c.whitelisted ==> r in records && GroupName(r) !in preference.BlacklistedIngredientGroups())
      && (forall r :: r in c.blacklisted ==> r in records && GroupName(r) in preference.BlacklistedIngredientGroups())
    decreases |order|
  {
    if order != [] {
      ClassifyRecords(index, records, singularize, preference, order[..|order| - 1]);
    }
  }

  /** No record is both whitelisted and blacklisted. */
  lemma WhitelistedAndBlacklistedDisjoint(index: map<string, nat>, records: seq<Ingredient>, singularize: string -> string,
                                          preference: Preferences.Preference, order: seq<string>)
    requires OffsetsValid(index, records) && preference.HasPolicy()
    ensures var c := Classify(index, records, singularize, preference, order);
      forall r :: r in c.whitelisted ==> r !in c.blacklisted
  {
    ClassifyRecords(index, records, singularize, preference, order);
  }

  /** Every visited item that the index finds contributes its record, to the
      blacklist exactly when the record's group is rejected. */
  lemma {:induction false} ClassifyFound(index: map<string, nat>, records: seq<Ingredient>, singularize: string -> string,
                                         preference: Preferences.Preference, order: seq<string>)
    requires OffsetsValid(index, records) && preference.HasPolicy()
    ensures var c := Classify(index, records, singularize, preference, order);
      forall x :: x in order && Lookup(index, singularize, x).Some? ==>
        var r := records[Lookup(index, singularize, x).value];
        if GroupName(r) in preference.BlacklistedIngredientGroups() then r in c.blacklisted else r in c.whitelisted
    decreases |order|
  {
    if order != [] {
      var init := order[..|order| - 1];
      ClassifyFound(index, records, singularize, preference, init);
      assert order == init + [order[|order| - 1]];
    }
  }

  /** Classifying the distinct items in any order that lists each once: the
      sizes add up to the number of distinct items, the unclassified list is
      exactly the items not found, and every found item's record is in the
      list its group selects. */
  lemma PartitionOfItems(index: map<string, nat>, records: seq<Ingredient>, singularize: string -> string,
                         preference: Preferences.Preference, items: seq<string>, order: seq<string>)
    requires OffsetsValid(index, records) && preference.HasPolicy()
    requires Elems(order) == Elems(items) && |order| == |Elems(items)|
    ensures var c := Classify(index, records, singularize, preference, order);
      && |c.whitelisted| + |c.blacklisted| + |c.unclassified| == |Elems(items)|
      && (forall x :: x in c.unclassified <==> x in items && Lookup(index, singularize, x).None?)
      && (forall r :: r in c.whitelisted ==> r in records && GroupName(r) !in preference.BlacklistedIngredientGroups())
      && (forall r :: r in c.blacklisted ==> r in records && GroupName(r) in preference.BlacklistedIngredientGroups())
      && (forall x :: x in items && Lookup(index, singularize, x).Some? ==>
            var r := records[Lookup(index, singularize, x).value];
            if GroupName(r) in preference.BlacklistedIngredientGroups() then r in c.blacklisted else r in c.whitelisted)
  {
    ClassifySizes(index, records, singularize, preference, order);
    ClassifyUnclassified(index, records, singularize, preference, order);
    ClassifyRecords(index, records, singularize, preference, order);
    ClassifyFound(index, records, singularize, preference, order);
    assert forall x :: x in items <==> x in Elems(order);
  }

  /** Over the built index, lookup is a search of the records by name: the
      last record named like the lower-cased item wins; only when there is
      none does the singularised form count; when neither names a record the
      item is not found. */
  lemma RouteByName(records: seq<Ingredient>, singularize: string -> string, item: string)
    ensures var key := Lower(item);
      Lookup(Index(records), singularize, item) ==
        if LastOffsetOf(records, key).Some? then LastOffsetOf(records, key)
        else LastOffsetOf(records, singularize(key))
  {
    IndexIsLastWrite(records);
  }

  /** An item is unclassified exactly when no record's lower-cased name is
      the lower-cased item or its singular form. */
  lemma NotFoundIffNoSuchName(records: seq<Ingredient>, singularize: string -> string, item: string)
    ensures var key := Lower(item);
      Lookup(Index(records), singularize, item).None? <==>
        forall j :: 0 <= j < |records| ==> Lower(records[j].name) != key && Lower(records[j].name) != singularize(key)
  {
    RouteByName(records, singularize, item);
    var key := Lower(item);
    var a, b := LastOffsetOf(records, key), LastOffsetOf(records, singularize(key));
    if a.Some? {
      assert Lower(records[a.value].name) == key;
    } else if b.Some? {
      assert Lower(records[b.value].name) == singularize(key);
    }
  }

  // ------------------------------------------------------------------ store

  /** `IngredientStore`: the records and their name index, fixed once built. */
  class IngredientStore {
    /** Lower-cased name to record offset (the source's `map`). */
    var index: map<string, nat>
    var ingredients: seq<Ingredient>
    /** The lemmatiser `singularizeWord`, taken as given. */
    const singularize: string -> string

    ghost predicate Valid()
      reads this
    {
      index == Index(ingredients)
    }

    /** `setup`, with the decoded records handed in. */
    constructor (records: seq<Ingredient>, singularize: string -> string)
      ensures Valid()
      ensures ingredients == records && this.singularize == singularize
    {
      this.singularize := singularize;
      ingredients := records;
      var m: map<string, nat> := map[];
      for offset := 0 to |records|
        invariant m == Index(records[..offset])
      {
        assert records[..offset + 1][..offset] == records[..offset];
        m := m[Lower(records[offset].name) := offset];
      }
      assert records[..|records|] == records;
      index := m;
    }

    /** The body of the loop in `getIngredients(from:for:)`: looks one item
        up and appends the record or the item to the list it belongs to. */
    method RouteItem(item: string, preference: Preferences.Preference,
                     whitelisted: seq<Ingredient>, blacklisted: seq<Ingredient>, unclassified: seq<string>)
      returns (whitelisted': seq<Ingredient>, blacklisted': seq<Ingredient>, unclassified': seq<string>)
      requires OffsetsValid(index, ingredients) && preference.HasPolicy()
      ensures Classification(whitelisted', blacklisted', unclassified')
           == Add(Classification(whitelisted, blacklisted, unclassified),
                  Route(index, ingredients, singularize, preference, item))
    {
      // The source declares these beside the accumulators and never appends
      // to them, so the guards below always pass.
      var addedIds: seq<int> := [];
      var addedItems: seq<string> := [];
      whitelisted', blacklisted', unclassified' := whitelisted, blacklisted, unclassified;
      var lowercasedItem := Lower(item);
      var found: Option<nat> :=
        if lowercasedItem in index then Some(index[lowercasedItem])
        else if singularize(lowercasedItem) in index then Some(index[singularize(lowercasedItem)])
        else None;
      if found.Some? {
        var ingredient := ingredients[found.value];
        if ingredient.id !in addedIds {
          if GroupName(ingredient) in preference.BlacklistedIngredientGroups() {
            blacklisted' := blacklisted + [ingredient];
          } else {
            whitelisted' := whitelisted + [ingredient];
          }
        }
      } else if item !in addedItems {
        unclassified' := unclassified + [item];
      }
    }

    /** `getIngredients(from:for:)`: visits each distinct item once, in an
        order the set chooses (recorded in `order`), and sorts it into the
        whitelist, the blacklist or the unclassified list. */
    method GetIngredients(items: seq<string>, preference: Preferences.Preference)
      returns (whitelisted: seq<Ingredient>, blacklisted: seq<Ingredient>, unclassified: seq<string>,
               ghost order: seq<string>)
      requires Valid() && preference.HasPolicy()
      ensures Distinct(order) && Elems(order) == Elems(items) && |order| == |Elems(items)|
      ensures Classification(whitelisted, blacklisted, unclassified)
           == Classify(index, ingredients, singularize, preference, order)
      ensures |whitelisted| + |blacklisted| + |unclassified| == |Elems(items)|
      ensures forall x :: x in unclassified <==> x in items && Lookup(index, singularize, x).None?
      ensures forall r :: r in whitelisted ==> r in ingredients && GroupName(r) !in preference.BlacklistedIngredientGroups()
      ensures forall r :: r in blacklisted ==> r in ingredients && GroupName(r) in preference.BlacklistedIngredientGroups()
      ensures forall x :: x in items && Lookup(index, singularize, x).Some? ==>
        var r := ingredients[Lookup(index, singularize, x).value];
        if GroupName(r) in preference.BlacklistedIngredientGroups() then r in blacklisted else r in whitelisted
    {
      assert OffsetsValid(index, ingredients);
      whitelisted, blacklisted, unclassified := [], [], [];
      var remaining := Elems(items);
      order := [];
      while remaining != {}
        invariant IsPartialVisit(Elems(items), remaining, order)
        invariant Classification(whitelisted, blacklisted, unclassified)
               == Classify(index, ingredients, singularize, preference, order)
        decreases |remaining|
      {
        var item :| item in remaining;
        ClassifyAppend(index, ingredients, singularize, preference, order, item);
        VisitOne(Elems(items), remaining, order, item);
        whitelisted, blacklisted, unclassified := RouteItem(item, preference, whitelisted, blacklisted, unclassified);
        remaining := remaining - {item};
        order := order + [item];
      }
      VisitDone(Elems(items), order);
      PartitionOfItems(index, ingredients, singularize, preference, items, order);
    }
  }
}
