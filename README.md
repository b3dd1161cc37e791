# BarcodeTextScanner verdict pipeline, in Dafny

BarcodeTextScanner reads the ingredient list on a food package and tells the
user whether the product suits their diet. Once the text has been recognised,
the decision is made by a small deterministic pipeline, and this project
models it in four parts:

1. **Tokenizer** (`LiveTextDecoder.analyse`). The recognised transcript is cut
   at commas and line feeds (U+000A only; a carriage return or U+2028 stays
   inside the fragment). Each fragment is trimmed and gets its hyphens
   rewritten to spaces. It is then cut again at brackets, at `" and "` and at
   `" & "`, and the pieces are trimmed. A piece is dropped as noise when its
   lower-cased form contains any of `www`, `.com`, `alamy`, `image`, `id`,
   `suitable for`, `vegetarian`, `eet`, `ohh`, `rgot` or `sar`, or matches
   `^\d+$` or `^e\d+$`. Because the test is on substrings, it also drops real
   ingredient names such as "Citric acid", "Sweetener" and "Beetroot". Tokens
   equal up to case are reduced to the first spelling seen. Module `LiveText` covers this stage, on top of the string
   operations of module `Text` and the collection operations of module `Seqs`.
2. **Reference store** (`IngredientStore`). Module `Ingredients` models it as a
   class. The constructor builds a lower-case name → record offset index over
   the records, and a later record overwrites an earlier one of the same name.
   `GetIngredients` looks up each distinct scanned item, first by its
   lower-cased form and then by its singular form. A found record goes to the
   blacklist if its food group is one the preference rejects, and to the
   whitelist otherwise. An item that is not found becomes unclassified.
3. **Preference policy** (`Preference`). Module `Preferences` holds the closed
   set of diets with their titles, raw values, rejected food groups and
   "unsure" groups. It also holds the decoding of the stored preference
   string, which falls back to vegan.
4. **Verdict** (`SafeView`). Module `Safety` holds:
   - the safe/unsafe decision over the types of the non-vegan items;
   - the detail sheet's "restricted" flag;
   - the headline text;
   - the four per-type sections of the detail sheet.

Each operation is stated against a specification function:
- `Analyse` returns `Dedup(Candidates(transcript))`.
- `GetIngredients` returns `Classify(...)` over the order it visited the items in.
- The store's `Valid()` ties its index to `Index(ingredients)`.

The lemmas then prove what the code promises: what every token avoids, the
dedup order, partition completeness and disjointness, the exact-before-singular
lookup order, and the verdict's truth table.

The four source files come from different revisions. The verdict code uses two
cases, `pescatorian` and `jain`, that the preference enum does not have. The
model uses one `Preference` datatype holding the union of the cases:
`pescatorian` is `Pescatarian`, and `Jain` exists only for the verdict
functions. The policy table (title, raw value, groups) requires
`HasPolicy()`, since it has no jain entry. The verdict code also reads
`result.vegan` and `result.nonVegan` from a `getIngredients` result that has
only three lists, so the verdict functions take the non-vegan list as a
parameter. The model follows the code in these files. It has no
ingredient-marker search, no tag-based vegan/non-vegan buckets and no fuzzy
matching, because none of them appears in this code.

## Model

| member | source | states |
|---|---|---|
| LiveText.Analyse | BarcodeTextScanner/LiveTextView.swift:50-114 | the tokens are the case-insensitive dedup of the candidate list; an empty transcript gives no tokens; every token is clean (non-empty, trimmed, free of `,` newline `()[]-`, of `" and "`/`" & "`, not noise); no two tokens are equal up to case; the tokens are a subsequence of the candidates with the same case keys |
| LiveText.RemoveDuplicates | BarcodeTextScanner/LiveTextView.swift:105-112 | the `seen`-set loop keeps exactly the tokens whose lower-cased form was not seen before; the result has no case duplicates, keeps the input order and covers every input key |
| LiveText.Candidates | BarcodeTextScanner/LiveTextView.swift:58-103 | the split, clean and filter chain before dedup; CandidatesAreClean and EmptyTranscriptHasNoCandidates state what it yields |
| LiveText.IsNoise | BarcodeTextScanner/LiveTextView.swift:76-98 | the denylist test on the lower-cased token; NoiseDropsCitricAcid, NoiseDropsSweetener, NoiseDropsBeetroot, LowerKeepsDigits and CandidatesAreClean state its consequences |
| LiveText.NoiseDropsCitricAcid | BarcodeTextScanner/LiveTextView.swift:90 | the substring denylist classes the ingredient "Citric acid" as noise, through "id" |
| LiveText.NoiseDropsSweetener | BarcodeTextScanner/LiveTextView.swift:93 | the substring denylist classes the ingredient "Sweetener" as noise, through "eet" |
| LiveText.NoiseDropsBeetroot | BarcodeTextScanner/LiveTextView.swift:93 | the substring denylist classes the ingredient "Beetroot" as noise, through "eet" |
| LiveText.Dedup | BarcodeTextScanner/LiveTextView.swift:105-112 | keep a token exactly when no earlier token has its lower-cased form; DedupKeys, DedupNoCaseDuplicates, DedupSubseq, DedupOnlyFirstOccurrences and DedupKeepsFirstOccurrences state its meaning |
| LiveText.CleanFragment | BarcodeTextScanner/LiveTextView.swift:62-66 | one comma/line-feed fragment trimmed, then `" - "`, `"-"` and `"  "` each replaced by one space, in that order; CleanFragmentAvoids states that no comma, line feed or hyphen is left |
| LiveText.SubTokens | BarcodeTextScanner/LiveTextView.swift:69-73 | a cleaned fragment cut at `()[]`, then at `" and "`, then at `" & "`, each piece trimmed and the empty ones dropped; SubTokensAreClean states what every sub-token avoids |
| LiveText.FragmentTokens | BarcodeTextScanner/LiveTextView.swift:60-101 | the sub-tokens of one cleaned fragment that are not noise, in order; CandidatesAreClean states what every one of them satisfies |
| LiveText.CandidatesAreClean | BarcodeTextScanner/LiveTextView.swift:58-103 | every token that survives splitting, cleaning and the noise filter is non-empty and trimmed, contains none of `,` newline `(` `)` `[` `]` `-`, contains neither `" and "` nor `" & "`, and is not noise by the denylist of substrings, all-digit and `e`+digits forms |
| LiveText.EmptyTranscriptHasNoCandidates | BarcodeTextScanner/LiveTextView.swift:58-103 | the split-and-filter chain finds no token in an empty transcript |
| LiveText.CleanFragmentAvoids | BarcodeTextScanner/LiveTextView.swift:62-66 | a fragment without commas and newlines, after trimming and the three replacements, contains no comma, no newline and no hyphen |
| LiveText.SubTokensAreClean | BarcodeTextScanner/LiveTextView.swift:69-73 | every piece of a cleaned fragment after the bracket, `" and "` and `" & "` splits and trimming is non-empty, trimmed, and free of the separators and of hyphens |
| LiveText.DedupKeys | BarcodeTextScanner/LiveTextView.swift:106-112 | every token before dedup has a token equal up to case after it, and the output holds no other key |
| LiveText.DedupNoCaseDuplicates | BarcodeTextScanner/LiveTextView.swift:106-112 | no two output tokens are equal up to case |
| LiveText.DedupSubseq | BarcodeTextScanner/LiveTextView.swift:106-112 | the output keeps the relative order of the input (is a subsequence of it) |
| LiveText.DedupOnlyFirstOccurrences | BarcodeTextScanner/LiveTextView.swift:106-112 | every output token is the first token of the input with its lower-cased form |
| LiveText.DedupIndices | BarcodeTextScanner/LiveTextView.swift:106-112 | each output token is the input token at a first-of-its-form position, and those positions increase along the output |
| LiveText.DedupKeepsFirstOrder | BarcodeTextScanner/LiveTextView.swift:106-112 | of two output tokens the earlier one is the earlier first occurrence in the input, so the output lists the first occurrences in input order |
| LiveText.DedupKeepsFirstOccurrences | BarcodeTextScanner/LiveTextView.swift:106-112 | every first occurrence of a lower-cased form in the input is in the output |
| Text.Lower | BarcodeTextScanner/LiveTextView.swift:77 | lower-casing keeps the length, leaves no upper-case ASCII letter, keeps every other character in place, and turns each upper-case letter into its lower-case partner |
| Text.LowerIdempotent | BarcodeTextScanner/LiveTextView.swift:77 | lower-casing a lower-cased string changes nothing |
| Text.LowerFixesLowerCase | BarcodeTextScanner/LiveTextView.swift:77 | a string is its own lower-cased form exactly when it has no upper-case letter |
| LiveText.LowerKeepsDigits | BarcodeTextScanner/LiveTextView.swift:97 | the `^\d+$` test on the lower-cased token holds exactly when it holds on the token itself |
| Text.Trim | BarcodeTextScanner/LiveTextView.swift:63 | the result is the input with whitespace removed at its two ends and nothing else: it is the infix between a whitespace-only prefix and a whitespace-only suffix, neither of its ends is whitespace, and it is empty exactly when the input is all whitespace |
| Text.IsWhitespace | BarcodeTextScanner/LiveTextView.swift:63 | the members of `.whitespacesAndNewlines`: the controls U+0009 to U+000D, U+0085 and the Unicode space, line and paragraph separators; the Trim contract and TrimEmptyIff state what trimming removes with it |
| Text.Contains | BarcodeTextScanner/LiveTextView.swift:86-96 | `contains` on strings: the query occurs at some offset; ContainsTransitive, InfixLacks and CutIsInfix state how it composes |
| Text.Split | BarcodeTextScanner/LiveTextView.swift:70-71 | `components(separatedBy:)` with a string: at least one piece, the first a prefix of the input; JoinSplit, SplitPiecesLackSeparator and SplitPiecesAreInfixes state that the pieces rejoin to the input, lack the separator and are infixes |
| Text.SplitOnAny | BarcodeTextScanner/LiveTextView.swift:59 | `components(separatedBy:)` with a character set (also used at LiveTextView.swift:69): at least one piece, the first a prefix; SplitOnAnyRejoin and SplitOnAnyPieces state the rejoin and that every piece avoids the set |
| Text.Replace | BarcodeTextScanner/LiveTextView.swift:64-66 | `replacingOccurrences(of:with:)`, left to right and non-overlapping; ReplaceIsJoinOfSplit, ReplaceAvoids and ReplaceRemovesChar state its meaning |
| Text.JoinSplit | BarcodeTextScanner/LiveTextView.swift:70-71 | joining the pieces of `components(separatedBy:)` with the separator gives back the input |
| Text.SplitPiecesLackSeparator | BarcodeTextScanner/LiveTextView.swift:70-71 | no piece of a split on a string contains that string |
| Text.SplitPiecesAreInfixes | BarcodeTextScanner/LiveTextView.swift:70-71 | every piece of a split on a string is an infix of the input |
| Text.SplitOnAnyRejoin | BarcodeTextScanner/LiveTextView.swift:59 | splitting on a character set gives one more piece than there are separator characters, and interleaving the pieces with those characters gives back the input |
| Text.SplitOnAnyPieces | BarcodeTextScanner/LiveTextView.swift:69 | every piece of a split on a character set avoids the set and is an infix of the input |
| Text.ReplaceIsJoinOfSplit | BarcodeTextScanner/LiveTextView.swift:64-66 | `replacingOccurrences` is splitting at the pattern and joining with the replacement |
| Text.ReplaceRemovesChar | BarcodeTextScanner/LiveTextView.swift:65 | replacing a character with text that lacks it leaves no occurrence of that character |
| Ingredients.Index | BarcodeTextScanner/IngredientStore.swift:57-62 | every key of the index is an offset into the records whose record has that lower-cased name |
| Ingredients.LastOffsetOf | BarcodeTextScanner/IngredientStore.swift:59-61 | reference search: the offset found has the key as its name and no later record has it; no offset means no record has the name |
| Ingredients.IndexIsLastWrite | BarcodeTextScanner/IngredientStore.swift:57-62 | the keys of the index are exactly the records' lower-cased names, and each maps to the last record of that name |
| Ingredients.EveryNameIsAKey | BarcodeTextScanner/IngredientStore.swift:57-62 | every record's lower-cased name is a key whose entry is that record's offset or a later one with the same name |
| Ingredients.GroupName | BarcodeTextScanner/IngredientStore.swift:89 | `foodGroup ?? ""`, the group a record is judged by; Route, ClassifyRecords and ClassifyFound state which list it selects |
| Ingredients.Lookup | BarcodeTextScanner/IngredientStore.swift:84-85 | an offset is found exactly when the lower-cased item or its singular form is a key, and it is one of the index's entries; RouteByName states which key wins |
| Ingredients.Route | BarcodeTextScanner/IngredientStore.swift:85-97 | an item is unclassified exactly when the lookup fails and is then kept as written; otherwise its bucket holds a table record, blacklisted exactly when the record's group is one the preference rejects |
| Ingredients.Classify | BarcodeTextScanner/IngredientStore.swift:83-98 | the lists after visiting the items in a given order; ClassifyAppend, ClassifySizes, ClassifyUnclassified, ClassifyRecords, ClassifyFound and WhitelistedAndBlacklistedDisjoint state its meaning |
| Ingredients.IngredientStore.constructor | BarcodeTextScanner/IngredientStore.swift:45-62 | the store holds the given records and its index is the last-write-wins index over them |
| Ingredients.IngredientStore.RouteItem | BarcodeTextScanner/IngredientStore.swift:84-97 | one item is appended to the list its route names: the blacklist or whitelist for a record found by lower-cased or singular name, by food group, else the unclassified list |
| Ingredients.IngredientStore.GetIngredients | BarcodeTextScanner/IngredientStore.swift:68-101 | visits every distinct item exactly once, in some order, and the three lists are the classification of the items in that order; the sizes add up to the number of distinct items; an item is unclassified exactly when neither key finds it; each list holds only table records of the right group, and every found item's record is in the list its group selects; the store is not changed |
| Ingredients.PartitionOfItems | BarcodeTextScanner/IngredientStore.swift:77-98 | for any order listing each distinct item once, the classification partitions the items: sizes add up, unclassified means not found, found records go to the list their group selects |
| Ingredients.ClassifyAppend | BarcodeTextScanner/IngredientStore.swift:83-98 | visiting one more item appends only that item's route |
| Ingredients.ClassifySizes | BarcodeTextScanner/IngredientStore.swift:77-98 | each visited item lands in exactly one list: the three sizes sum to the number of distinct items |
| Ingredients.ClassifyUnclassified | BarcodeTextScanner/IngredientStore.swift:85-96 | the unclassified list holds exactly the visited items that neither the lower-cased nor the singular key finds, in visiting order |
| Ingredients.ClassifyRecords | BarcodeTextScanner/IngredientStore.swift:87-93 | every whitelisted record is a record of the table whose group the preference allows; every blacklisted one is a record whose group it rejects (a missing group counts as `""`) |
| Ingredients.ClassifyFound | BarcodeTextScanner/IngredientStore.swift:85-93 | every visited item that is found contributes its record: to the blacklist exactly when its group is rejected, else to the whitelist |
| Ingredients.WhitelistedAndBlacklistedDisjoint | BarcodeTextScanner/IngredientStore.swift:89-93 | no record is both whitelisted and blacklisted |
| Ingredients.RouteByName | BarcodeTextScanner/IngredientStore.swift:85 | over the built index, the last record named like the lower-cased item wins, and only when there is none is the singular form looked up |
| Ingredients.NotFoundIffNoSuchName | BarcodeTextScanner/IngredientStore.swift:85-96 | an item is not found exactly when no record's lower-cased name is the lower-cased item or its singular form |
| Preferences.Preference.RawValue | BarcodeTextScanner/PreferenceView.swift:10-14 | the enum's raw value, the lower-case case name; RawValueRoundTrip and TitlesAndRawValuesDistinct state that it decodes back and is injective |
| Preferences.Preference.Title | BarcodeTextScanner/PreferenceView.swift:16-27 | the display title of each case; TitlesAndRawValuesDistinct states that distinct cases have distinct titles |
| Preferences.Preference.BlacklistedIngredientGroups | BarcodeTextScanner/PreferenceView.swift:30-41 | the food groups each case rejects, as listed in the source; AnimalFoodsAlwaysBlacklisted, VeganBlacklistIsLargest, BlacklistExceptions and Safety.RejectsTable state its shape |
| Preferences.Preference.UnsureIngredients | BarcodeTextScanner/PreferenceView.swift:43-50 | the food groups each case is unsure about; UnsureOnlyForVegan states the table |
| Preferences.FromRawValue | BarcodeTextScanner/PreferenceView.swift:10-14 | a decoded case is one with a policy entry whose raw value is the string |
| Preferences.StoredPreference | BarcodeTextScanner/SafeView.swift:36 | the preference the verdict uses always has a policy entry |
| Preferences.RawValueRoundTrip | BarcodeTextScanner/PreferenceView.swift:10-14 | decoding a case's raw value, directly or as the stored string, gives the case back |
| Preferences.StoredPreferenceFallback | BarcodeTextScanner/SafeView.swift:36 | a missing stored string, or one that is no raw value, decodes to vegan |
| Preferences.TitlesAndRawValuesDistinct | BarcodeTextScanner/PreferenceView.swift:16-27 | distinct cases have distinct titles and distinct raw values |
| Preferences.AnimalFoodsAlwaysBlacklisted | BarcodeTextScanner/PreferenceView.swift:30-41 | every preference rejects "Animal foods" |
| Preferences.VeganBlacklistIsLargest | BarcodeTextScanner/PreferenceView.swift:33-39 | every group any preference rejects is rejected by vegan |
| Preferences.BlacklistExceptions | BarcodeTextScanner/PreferenceView.swift:33-39 | only vegan rejects "Milk and milk products", only pescatarian allows "Aquatic foods", only eggetarian allows "Eggs" |
| Preferences.UnsureOnlyForVegan | BarcodeTextScanner/PreferenceView.swift:43-50 | the unsure groups are "Animal & Plant Derived" for vegan and none for the others |
| Safety.OfType | BarcodeTextScanner/SafeView.swift:289-303 | the type filter keeps exactly the items of that type, each as often as in the input and in input order, and nothing else |
| Safety.Has | BarcodeTextScanner/SafeView.swift:41-44 | a filter is non-empty exactly when some item has the type |
| Safety.DetermineIfSafe | BarcodeTextScanner/SafeView.swift:40-58 | a safe verdict needs a preference with a policy and no animal item; the truth table is VeganVerdict, VegetarianAndEggetarianVerdict, PescatarianVerdict and JainNeverSafe |
| Safety.HasRestrictedIngredients | BarcodeTextScanner/SafeView.swift:208-225 | the flag is never raised for an empty list and always raised by an animal item under a policy; RestrictedAgreesWithVerdict relates it to the verdict |
| Safety.Headline | BarcodeTextScanner/SafeView.swift:79-85 | the headline is the preference's title or one of three warnings, and the egg warning appears only for pescatarian; HeadlineCases says which one appears when |
| Safety.NonVeganSections | BarcodeTextScanner/SafeView.swift:289-303 | each of the four sections keeps the order of the non-vegan list; SectionsPartition states that they partition its typed items |
| Safety.VeganVerdict | BarcodeTextScanner/SafeView.swift:41-48 | vegan is safe exactly when every non-vegan item is untyped or of type vegan or both |
| Safety.VegetarianAndEggetarianVerdict | BarcodeTextScanner/SafeView.swift:49-52 | vegetarian and eggetarian give the same verdict: safe exactly when no item is animal or pescatarian |
| Safety.PescatarianVerdict | BarcodeTextScanner/SafeView.swift:53-54 | pescatarian is safe exactly when no item is animal or eggetarian |
| Safety.JainNeverSafe | BarcodeTextScanner/SafeView.swift:55-56 | jain is never safe |
| Safety.EmptyIsSafe | BarcodeTextScanner/SafeView.swift:40-54 | with no non-vegan item, every preference except jain is safe |
| Safety.VerdictMonotone | BarcodeTextScanner/SafeView.swift:41-57 | removing items never turns a safe verdict unsafe, so adding items never turns unsafe into safe |
| Safety.VeganIsStrictest | BarcodeTextScanner/SafeView.swift:46-54 | what is safe for vegan is safe for every preference except jain |
| Safety.RestrictedAgreesWithVerdict | BarcodeTextScanner/SafeView.swift:208-225 | for vegetarian, pescatarian and eggetarian the restricted flag is the negated verdict; for vegan an unsafe verdict raises the flag |
| Safety.VeganFlagStricterThanVerdict | BarcodeTextScanner/SafeView.swift:213-215 | for vegan, one item of type both is safe by the verdict yet raises the restricted flag |
| Safety.JainFlagAndVerdictDisagree | BarcodeTextScanner/SafeView.swift:222-223 | for jain the verdict is always unsafe while the flag is never raised |
| Safety.HeadlineCases | BarcodeTextScanner/SafeView.swift:79-85 | safe gives "Suitable for" and the title; any animal item gives "Contains Animal Ingredients" whatever the preference; pescatarian with eggs and no animal gives "Contains Eggs"; the generic warning appears exactly in the remaining unsafe cases |
| Safety.SectionsPartition | BarcodeTextScanner/SafeView.swift:289-303 | each section is a subsequence of the non-vegan list, the four sections are pairwise disjoint, and together they hold exactly the items of type animal, pescatarian, eggetarian or vegetarian |
| Safety.VerdictFromSections | BarcodeTextScanner/SafeView.swift:289-303 | the verdict is read off the sections: vegan needs all four empty, vegetarian and eggetarian need the animal and seafood sections empty, pescatarian the animal and egg sections |
| Safety.IntendedSafe | BarcodeTextScanner/SafeView.swift:40-58 | the corrected verdict, which also rules out eggs for vegetarian; IntendedSafeFollowsBlacklist states that it is safe exactly when no item's group is blacklisted, and VerdictMatchesBlacklistButVegetarian that it differs from the code only for vegetarian |
| Safety.RejectsTable | BarcodeTextScanner/PreferenceView.swift:30-41 | read through the type-to-group mapping, every preference rejects animal items, all but pescatarian reject seafood, all but eggetarian reject eggs, only vegan rejects dairy |
| Safety.VerdictMatchesBlacklistButVegetarian | BarcodeTextScanner/SafeView.swift:40-58 | for every preference but vegetarian the verdict as written is the blacklist-based verdict |
| Safety.VegetarianAcceptsBlacklistedEggs | BarcodeTextScanner/SafeView.swift:49-50 | one egg item: vegetarian blacklists eggs, yet the verdict as written is safe for vegetarian, and the blacklist-based verdict is not |
| Safety.RejectedItemIsUnsafe | BarcodeTextScanner/PreferenceView.swift:30-41 | one item of a blacklisted group makes the blacklist-based verdict unsafe |
| Safety.UnsafeHasRejectedItem | BarcodeTextScanner/PreferenceView.swift:30-41 | an unsafe blacklist-based verdict has an item of a blacklisted group |
| Safety.IntendedSafeFollowsBlacklist | BarcodeTextScanner/PreferenceView.swift:30-41 | the blacklist-based verdict is safe exactly when no non-vegan item belongs to a group the preference blacklists |

## Left out

- Text recognition: the `ImageAnalyzer` call and the interaction set-up (LiveTextView.swift:42-56) are platform I/O; the transcript string is the input of `Analyse`.
- Loading the record list from the bundled JSON file (IngredientStore.swift:46-56) is file I/O and decoding; the decoded records are the constructor's argument, and the error path (`assertionFailure`) is not modelled.
- `singularizeWord` (IngredientStore.swift:103-120) calls the platform lemmatiser; it is the store's `singularize` function, given to the constructor and otherwise unknown.
- Text.Lower: lower-cases ASCII letters only, where `lowercased`/`localizedLowercase` apply full Unicode case mapping.
- LiveText.IsNoise: `\d` is the ASCII digits only, where the regular-expression engine also accepts other Unicode decimal digits.
- Strings compare as sequences of Unicode scalars everywhere (token equality, the `seen` set, `Set(items)`, the index keys), where Swift's `String ==`, `Set<String>` and `[String: Int]` compare by canonical equivalence.
- Ingredients.IngredientStore.constructor: the index keys come from `localizedLowercase` (IngredientStore.swift:60) and the lookup from `lowercased()` (IngredientStore.swift:84); the model uses one `Lower` for both, so a locale where the two differ is not modelled.
- Text.Trim: treats each Unicode scalar as one character; grapheme clusters of the source's `String` are not modelled.
- Ingredients.IngredientStore.GetIngredients: the order in which `Set(items)` is enumerated is unspecified, so the method picks any remaining item and returns the order it used as a ghost value; the lists are specified relative to that order, not as one fixed sequence.
- Ingredients.IngredientStore.RouteItem: the loop body of `getIngredients` is a separate method so that each proof stays small; `addedIds` and `addedItems` are kept as empty lists with their guards, since the source never appends to them.
- The shared singleton (`IngredientStore.shared`) and the `@State`/`onAppear` wiring of SafeView.swift (170-184) are UI plumbing.
- The random classifiers (LiveTextView.swift:23-32, IngredientClassifier.swift, CoreDataManager.swift) are nondeterministic placeholders; Core Data persistence is a foreign framework.
- All view bodies are out of scope: backgrounds, icons and section titles of the detail sheet (SafeView.swift:305-350), list formatting, Lottie, video and onboarding. The egg section's "(Not Allowed)" title for vegetarian is one of the two places behind the finding below.
- The "Contains …" detail lines under the headline (SafeView.swift:90-127) are shown per ingredient type (animal products, seafood, eggs, dairy), whatever the preference; they repeat the section filters and are presentation only.

## Findings

| source | as written | input that shows it | evidently intended | confidence | as-written member | corrected member |
|---|---|---|---|---|---|---|
| BarcodeTextScanner/SafeView.swift:49-50 | the vegetarian verdict checks only for animal and seafood items | one non-vegan item of type eggetarian with the vegetarian preference: the verdict is "safe" | vegetarian also rules out eggs: its blacklist holds "Eggs" (PreferenceView.swift:34-35) and the detail sheet titles the egg section "(Not Allowed)" for every preference but eggetarian (SafeView.swift:331) | medium, not executed | Safety.VegetarianAcceptsBlacklistedEggs | Safety.IntendedSafeFollowsBlacklist |

The corrected verdict is `Safety.IntendedSafe`. For every other preference it agrees with the code (`Safety.VerdictMatchesBlacklistButVegetarian`). The headline and detail-flag models keep the verdict as written, since they describe what the screen shows. The detail flag `hasRestrictedIngredients` (SafeView.swift:216-217) has the same gap for vegetarian.
