/** The token pipeline of `LiveTextDecoder.analyse`: from the OCR transcript
    (taken as given) to the ordered, case-insensitively de-duplicated list of
    candidate ingredient tokens. */
module LiveText {
  import opened Text
  import opened Seqs

  /** The first cut is at commas and line feeds. */
  const LineSeparators: set<char> := {',', '\n'}

  /** Cleaned fragments are cut again at brackets. */
  const BracketSeparators: set<char> := {'(', ')', '[', ']'}

  /** A token whose lower-cased form contains one of these is dropped as noise. */
  const NoiseSubstrings: seq<string> :=
    ["www", ".com", "alamy", "image", "id", "suitable for", "vegetarian", "eet", "ohh", "rgot", "sar"]

  /** Characters no output token holds: the cut characters and the hyphen. */
  const ForbiddenChars: set<char> := {',', '\n', '(', ')', '[', ']', '-'}

  /** A comma/line fragment, trimmed, with hyphens rewritten as spaces. */
  function CleanFragment(fragment: string): string {
    Replace(Replace(Replace(Trim(fragment), " - ", " "), "-", " "), "  ", " ")
  }

  function SplitAnd(s: string): seq<string> {
    Split(s, " and ")
  }

  function SplitAmpersand(s: string): seq<string> {
    Split(s, " & ")
  }

  predicate NonEmpty(s: string) {
    s != []
  }

  /** The sub-tokens of a cleaned fragment: cut at brackets, at " and " and at
      " & ", each trimmed, the empty ones dropped. */
  function SubTokens(cleaned: string): seq<string> {
    var pieces := SplitOnAny(cleaned, BracketSeparators);
    var byAnd := FlatMap(pieces, SplitAnd);
    var byAmpersand := FlatMap(byAnd, SplitAmpersand);
    Filter(Map(byAmpersand, Trim), NonEmpty)
  }

  /** The pattern `^\d+$`. */
  predicate AllDigits(s: string) {
    |s| > 0 && forall i :: 0 <= i < |s| ==> IsDigit(s[i])
  }

  /** The pattern `^e\d+$` (a bare additive code such as "e150"). */
  predicate IsAdditiveCode(s: string) {
    |s| > 1 && s[0] == 'e' && AllDigits(s[1..])
  }

  /** The noise filter, applied to the lower-cased token. */
  predicate IsNoise(token: string) {
    var lowercased := Lower(token);
    || (exists w :: w in NoiseSubstrings && Contains(lowercased, w))
    || AllDigits(lowercased)
    || IsAdditiveCode(lowercased)
  }

  /** Lower-casing neither makes nor unmakes an all-digit token, so the
      `^\d+$` test sees the token as written. */
  lemma LowerKeepsDigits(t: string)
    ensures AllDigits(Lower(t)) <==> AllDigits(t)
  {
    if AllDigits(t) {
      assert forall i :: 0 <= i < |t| ==> Lower(t)[i] == t[i];
    }
    if AllDigits(Lower(t)) {
      forall i | 0 <= i < |t| ensures IsDigit(t[i]) {
        assert IsDigit(Lower(t)[i]);
      }
    }
  }

  /** A token whose lower-cased form holds a denylisted word is noise. */
  lemma DenylistedWordIsNoise(token: string, lowercased: string, w: nat, k: int)
    requires lowercased == Lower(token)
    requires w < |NoiseSubstrings| && OccursAt(lowercased, NoiseSubstrings[w], k)
    ensures IsNoise(token)
  {
    assert Contains(lowercased, NoiseSubstrings[w]);
  }

  /** The substring denylist drops real ingredient names: "id" is in
      "Citric acid". */
  lemma NoiseDropsCitricAcid()
    ensures IsNoise("Citric acid")
  {
    assert Lower("Citric acid") == "citric acid";
    DenylistedWordIsNoise("Citric acid", "citric acid", 4, 9);
  }

  /** "eet" is in "Sweetener". */
  lemma NoiseDropsSweetener()
    ensures IsNoise("Sweetener")
  {
    assert Lower("Sweetener") == "sweetener";
    DenylistedWordIsNoise("Sweetener", "sweetener", 7, 2);
  }

  /** "eet" is in "Beetroot". */
  lemma NoiseDropsBeetroot()
    ensures IsNoise("Beetroot")
  {
    assert Lower("Beetroot") == "beetroot";
    DenylistedWordIsNoise("Beetroot", "beetroot", 7, 1);
  }

  predicate IsKept(token: string) {
    !IsNoise(token)
  }

  /** The tokens one comma/line fragment contributes. */
  function FragmentTokens(fragment: string): seq<string> {
    Filter(SubTokens(CleanFragment(fragment)), IsKept)
  }

  /** All tokens of the transcript, in order, before de-duplication. */
  function Candidates(transcript: string): seq<string> {
    Filter(FlatMap(SplitOnAny(transcript, LineSeparators), FragmentTokens), NonEmpty)
  }

  /** What every token the pipeline emits satisfies. */
  predicate IsCleanToken(t: string) {
    && t != []
    && IsTrimmed(t)
    && Avoids(t, ForbiddenChars)
    && !Contains(t, " and ")
    && !Contains(t, " & ")
    && !IsNoise(t)
  }

  // ------------------------------------------------------------ de-duplication

  /** The lower-cased forms of the tokens of `s`. */
  function CaseKeys(s: seq<string>): set<string> {
    set t | t in s :: Lower(t)
  }

  /** Keeps a token exactly when no earlier token has the same lower-cased
      form, so the first spelling seen wins. */
  function Dedup(s: seq<string>): seq<string>
    decreases |s|
  {
    if s == [] then []
    else
      var init, last := s[..|s| - 1], s[|s| - 1];
      if Lower(last) in CaseKeys(init) then Dedup(init) else Dedup(init) + [last]
  }

  /** No two tokens are equal up to case. */
  predicate NoCaseDuplicates(s: seq<string>) {
    forall i, j :: 0 <= i < j < |s| ==> Lower(s[i]) != Lower(s[j])
  }

  /** `s[j]` is the first token of `s` with its lower-cased form. */
  predicate FirstOfKey(s: seq<string>, j: int) {
    0 <= j < |s| && forall i :: 0 <= i < j ==> Lower(s[i]) != Lower(s[j])
  }

  lemma CaseKeysAppend(s: seq<string>, x: string)
    ensures CaseKeys(s + [x]) == CaseKeys(s) + {Lower(x)}
  {
    assert forall t :: t in s + [x] <==> t in s || t == x;
  }

  /** Every token before de-duplication has a case-insensitive match after it,
      and nothing else is there. */
  lemma {:induction false} DedupKeys(s: seq<string>)
    ensures CaseKeys(Dedup(s)) == CaseKeys(s)
    decreases |s|
  {
    if s != [] {
      var init, last := s[..|s| - 1], s[|s| - 1];
      DedupKeys(init);
      assert s == init + [last];
      CaseKeysAppend(init, last);
      if Lower(last) !in CaseKeys(init) {
        CaseKeysAppend(Dedup(init), last);
      }
    }
  }

  /** The output has no two tokens equal up to case. */
  lemma {:induction false} DedupNoCaseDuplicates(s: seq<string>)
    ensures NoCaseDuplicates(Dedup(s))
    decreases |s|
  {
    if s != [] {
      var init, last := s[..|s| - 1], s[|s| - 1];
      DedupNoCaseDuplicates(init);
      DedupKeys(init);
      var d := Dedup(init);
      if Lower(last) !in CaseKeys(init) {
        forall i | 0 <= i < |d| ensures Lower(d[i]) != Lower(last) {
          assert Lower(d[i]) in CaseKeys(d);
        }
      }
    }
  }

  /** The output keeps the relative order of the input. */
  lemma {:induction false} DedupSubseq(s: seq<string>)
    ensures IsSubseq(Dedup(s), s)
    decreases |s|
  {
    if s != [] {
      var init, last := s[..|s| - 1], s[|s| - 1];
      DedupSubseq(init);
      assert s == init + [last];
      if Lower(last) in CaseKeys(init) {
        SubseqExtend(Dedup(init), init, last);
      } else {
        SubseqAppendBoth(Dedup(init), init, last);
      }
    }
  }

  /** A token whose lower-cased form no earlier token has is the first of
      its form. */
  lemma NewKeyIsFirstOfKey(s: seq<string>)
    requires s != [] && Lower(s[|s| - 1]) !in CaseKeys(s[..|s| - 1])
    ensures FirstOfKey(s, |s| - 1)
  {
    var n := |s| - 1;
    forall i | 0 <= i < n ensures Lower(s[i]) != Lower(s[n]) {
      assert s[..n][i] == s[i];
      assert Lower(s[..n][i]) in CaseKeys(s[..n]);
    }
  }

  /** Every output token is the first token of the input with its
      lower-cased form. */
  lemma {:induction false} DedupOnlyFirstOccurrences(s: seq<string>)
    ensures forall u :: u in Dedup(s) ==> exists j :: FirstOfKey(s, j) && s[j] == u
    decreases |s|
  {
    if s != [] {
      var init, last := s[..|s| - 1], s[|s| - 1];
      DedupOnlyFirstOccurrences(init);
      var n := |s| - 1;
      forall u | u in Dedup(s) ensures exists j :: FirstOfKey(s, j) && s[j] == u {
        if u in Dedup(init) {
          var j :| FirstOfKey(init, j) && init[j] == u;
          FirstOfKeyInPrefix(s, n, j);
          assert s[j] == init[j];
          assert FirstOfKey(s, j) && s[j] == u;
        } else {
          assert Dedup(s) == Dedup(init) + [last];
          assert u == last;
          NewKeyIsFirstOfKey(s);
          assert FirstOfKey(s, n) && s[n] == u;
        }
      }
    }
  }

  /** Every first occurrence of a lower-cased form is kept. */
  lemma {:induction false} DedupKeepsFirstOccurrences(s: seq<string>)
    ensures forall j :: FirstOfKey(s, j) ==> s[j] in Dedup(s)
    decreases |s|
  {
    if s != [] {
      var init, last := s[..|s| - 1], s[|s| - 1];
      DedupKeepsFirstOccurrences(init);
      var n := |s| - 1;
      forall j | FirstOfKey(s, j) ensures s[j] in Dedup(s) {
        if j < n {
          FirstOfKeyInPrefix(s, n, j);
        } else {
          forall t | t in init ensures Lower(t) != Lower(last) {
            var i :| 0 <= i < n && init[i] == t;
            assert s[i] == t;
          }
        }
      }
    }
  }

  /** The output tokens sit at increasing input positions, each the first
      of its lower-cased form. */
  lemma {:induction false} DedupIndices(s: seq<string>) returns (idx: seq<int>)
    ensures |idx| == |Dedup(s)|
    ensures forall a :: 0 <= a < |idx| ==> FirstOfKey(s, idx[a]) && s[idx[a]] == Dedup(s)[a]
    ensures forall a, b :: 0 <= a < b < |idx| ==> idx[a] < idx[b]
    decreases |s|
  {
    if s == [] {
      idx := [];
    } else {
      var init, last := s[..|s| - 1], s[|s| - 1];
      var n := |s| - 1;
      idx := DedupIndices(init);
      forall a | 0 <= a < |idx| ensures FirstOfKey(s, idx[a]) && s[idx[a]] == Dedup(init)[a] {
        FirstOfKeyInPrefix(s, n, idx[a]);
      }
      if Lower(last) !in CaseKeys(init) {
        NewKeyIsFirstOfKey(s);
        idx := idx + [n];
      }
    }
  }

  /** Of two output tokens, the earlier one is the earlier first occurrence
      in the input: de-duplication keeps the order of first occurrences. */
  lemma DedupKeepsFirstOrder(s: seq<string>, a: int, b: int)
    requires 0 <= a < b < |Dedup(s)|
    ensures exists i, j :: 0 <= i < j < |s| && FirstOfKey(s, i) && FirstOfKey(s, j)
                           && s[i] == Dedup(s)[a] && s[j] == Dedup(s)[b]
  {
    var idx := DedupIndices(s);
    assert FirstOfKey(s, idx[a]) && FirstOfKey(s, idx[b]);
  }

  /** Being the first of its form does not depend on what comes later. */
  lemma FirstOfKeyInPrefix(s: seq<string>, n: nat, j: int)
    requires n <= |s| && 0 <= j < n
    ensures FirstOfKey(s[..n], j) <==> FirstOfKey(s, j)
  {
    assert forall i :: 0 <= i < n ==> s[..n][i] == s[i];
  }

  // ------------------------------------------------------- token properties

  /** The three replacements of a cleaning step remove every hyphen and add
      no comma or line feed. */
  lemma ReplacementsAvoid(t0: string)
    requires Avoids(t0, LineSeparators)
    ensures Avoids(Replace(Replace(Replace(t0, " - ", " "), "-", " "), "  ", " "), LineSeparators + {'-'})
  {
    var bad := LineSeparators + {'-'};
    var t1 := Replace(t0, " - ", " ");
    ReplaceAvoids(t0, " - ", " ", LineSeparators);
    var t2 := Replace(t1, "-", " ");
    ReplaceAvoids(t1, "-", " ", LineSeparators);
    ReplaceRemovesChar(t1, '-', " ");
    ReplaceAvoids(t2, "  ", " ", bad);
  }

  lemma CleanFragmentAvoids(fragment: string)
    requires Avoids(fragment, LineSeparators)
    ensures Avoids(CleanFragment(fragment), LineSeparators + {'-'})
  {
    var t0 := Trim(fragment);
    ContainsAvoids(fragment, t0, LineSeparators);
    ReplacementsAvoid(t0);
  }

  /** One sub-token, followed back through the stages that produced it. */
  lemma SubTokenIsClean(cleaned: string, p: string, a: string, b: string)
    requires Avoids(cleaned, LineSeparators + {'-'})
    requires p in SplitOnAny(cleaned, BracketSeparators)
    requires a in SplitAnd(p) && b in SplitAmpersand(a)
    ensures IsTrimmed(Trim(b)) && Avoids(Trim(b), ForbiddenChars)
    ensures !Contains(Trim(b), " and ") && !Contains(Trim(b), " & ")
  {
    SplitOnAnyPieces(cleaned, BracketSeparators);
    ContainsAvoids(cleaned, p, LineSeparators + {'-'});
    SplitPiecesAreInfixes(p, " and ");
    SplitPiecesLackSeparator(p, " and ");
    ContainsAvoids(p, a, ForbiddenChars);
    SplitPiecesAreInfixes(a, " & ");
    SplitPiecesLackSeparator(a, " & ");
    ContainsAvoids(a, b, ForbiddenChars);
    InfixLacks(a, b, " and ");
    var t := Trim(b);
    ContainsAvoids(b, t, ForbiddenChars);
    InfixLacks(b, t, " and ");
    InfixLacks(b, t, " & ");
  }

  /** A piece after the three splits is clean once trimmed. */
  lemma SplitPieceIsClean(cleaned: string, b: string)
    requires Avoids(cleaned, LineSeparators + {'-'})
    requires b in FlatMap(FlatMap(SplitOnAny(cleaned, BracketSeparators), SplitAnd), SplitAmpersand)
    ensures IsTrimmed(Trim(b)) && Avoids(Trim(b), ForbiddenChars)
    ensures !Contains(Trim(b), " and ") && !Contains(Trim(b), " & ")
  {
    var pieces := SplitOnAny(cleaned, BracketSeparators);
    var byAnd := FlatMap(pieces, SplitAnd);
    var a :| a in byAnd && b in SplitAmpersand(a);
    var p :| p in pieces && a in SplitAnd(p);
    SubTokenIsClean(cleaned, p, a, b);
  }

  /** Every sub-token of a cleaned fragment is non-empty, trimmed, free of
      the cut characters and hyphens, and holds no " and " or " & ". */
  lemma SubTokensAreClean(cleaned: string)
    requires Avoids(cleaned, LineSeparators + {'-'})
    ensures forall t :: t in SubTokens(cleaned) ==>
      t != [] && IsTrimmed(t) && Avoids(t, ForbiddenChars) && !Contains(t, " and ") && !Contains(t, " & ")
  {
    var byAmpersand := FlatMap(FlatMap(SplitOnAny(cleaned, BracketSeparators), SplitAnd), SplitAmpersand);
    var trimmed := Map(byAmpersand, Trim);
    assert SubTokens(cleaned) == Filter(trimmed, NonEmpty);
    forall t | t in Filter(trimmed, NonEmpty)
      ensures t != [] && IsTrimmed(t) && Avoids(t, ForbiddenChars)
      ensures !Contains(t, " and ") && !Contains(t, " & ")
    {
      var i :| 0 <= i < |trimmed| && trimmed[i] == t;
      assert byAmpersand[i] in byAmpersand;
      SplitPieceIsClean(cleaned, byAmpersand[i]);
    }
  }

  /** Every candidate token is non-empty, trimmed, free of the cut characters
      and hyphens, holds no " and " or " & ", and is not noise. */
  lemma CandidatesAreClean(transcript: string)
    ensures forall t :: t in Candidates(transcript) ==> IsCleanToken(t)
  {
    var fragments := SplitOnAny(transcript, LineSeparators);
    SplitOnAnyPieces(transcript, LineSeparators);
    forall t | t in Candidates(transcript) ensures IsCleanToken(t) {
      var f :| f in fragments && t in FragmentTokens(f);
      CleanFragmentAvoids(f);
      SubTokensAreClean(CleanFragment(f));
    }
  }

  /** An empty transcript gives no tokens even without the early return. */
  lemma EmptyTranscriptHasNoCandidates()
    ensures Candidates("") == []
  {
    assert SplitOnAny("", LineSeparators) == [""];
    assert Trim("") == "";
    assert CleanFragment("") == "";
    assert SplitOnAny("", BracketSeparators) == [""];
    assert FlatMap([""], SplitAnd) == [""];
    assert FlatMap([""], SplitAmpersand) == [""];
    assert Map([""], Trim) == [""];
    assert SubTokens("") == [];
    assert FragmentTokens("") == [];
  }

  // --------------------------------------------------------------- analyse

  /** The `seen`-set filter that ends `analyse`: keeps each token whose
      lower-cased form has not been seen before. */
  method RemoveDuplicates(tokens: seq<string>) returns (unique: seq<string>)
    ensures unique == Dedup(tokens)
    ensures NoCaseDuplicates(unique)
    ensures IsSubseq(unique, tokens)
    ensures CaseKeys(unique) == CaseKeys(tokens)
  {
    var seen: set<string> := {};
    unique := [];
    var i := 0;
    while i < |tokens|
      invariant 0 <= i <= |tokens|
      invariant seen == CaseKeys(tokens[..i])
      invariant unique == Dedup(tokens[..i])
    {
      var token := tokens[i];
      var lowercased := Lower(token);
      var isNew := lowercased !in seen;
      seen := seen + {lowercased};
      if isNew {
        unique := unique + [token];
      }
      assert tokens[..i + 1] == tokens[..i] + [token];
      CaseKeysAppend(tokens[..i], token);
      i := i + 1;
    }
    assert tokens[..i] == tokens;
    DedupNoCaseDuplicates(tokens);
    DedupSubseq(tokens);
    DedupKeys(tokens);
  }

  /** `LiveTextDecoder.analyse` once the transcript is known: the clean tokens
      of the transcript, each case-insensitive form once, first spelling and
      relative order kept. */
  method Analyse(transcript: string) returns (tokens: seq<string>)
    ensures tokens == Dedup(Candidates(transcript))
    ensures transcript == [] ==> tokens == []
    ensures forall t :: t in tokens ==> IsCleanToken(t)
    ensures NoCaseDuplicates(tokens)
    ensures IsSubseq(tokens, Candidates(transcript))
    ensures CaseKeys(tokens) == CaseKeys(Candidates(transcript))
  {
    if transcript == [] {
      EmptyTranscriptHasNoCandidates();
      return [];
    }
    var candidates := Candidates(transcript);
    tokens := RemoveDuplicates(candidates);
    CandidatesAreClean(transcript);
    SubseqElems(tokens, candidates);
  }
}
