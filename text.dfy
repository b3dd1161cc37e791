/** The Foundation string operations the transcript tokenizer relies on,
    written over `string` (a sequence of Unicode scalar values). */
module Text {

  /** Membership in `CharacterSet.whitespacesAndNewlines`: U+0009 to U+000D,
      U+0085, and the Unicode space, line and paragraph separators. */
  predicate IsWhitespace(c: char) {
    || ('\t' <= c <= '\r')
    || c == ' ' || c == '\U{85}' || c == '\U{A0}' || c == '\U{1680}'
    || ('\U{2000}' <= c <= '\U{200A}')
    || c == '\U{2028}' || c == '\U{2029}' || c == '\U{202F}' || c == '\U{205F}'
    || c == '\U{3000}'
  }

  /** An ASCII decimal digit (the `\d` of the noise patterns). */
  predicate IsDigit(c: char) {
    '0' <= c <= '9'
  }

  /** An ASCII upper-case letter. */
  predicate IsUpper(c: char) {
    'A' <= c <= 'Z'
  }

  /** ASCII lower-casing of one character. */
  function LowerChar(c: char): char {
    if IsUpper(c) then (c as int + 32) as char else c
  }

  /** `lowercased()`, restricted to ASCII letters: no upper-case letter is
      left, every other character stays as it is, and each upper-case letter
      becomes its lower-case partner. */
  function Lower(s: string): (r: string)
    ensures |r| == |s|
    ensures forall i :: 0 <= i < |s| ==> !IsUpper(r[i])
    ensures forall i :: 0 <= i < |s| ==> !IsUpper(s[i]) ==> r[i] == s[i]
    ensures forall i :: 0 <= i < |s| ==> IsUpper(s[i]) ==> 'a' <= r[i] <= 'z' && r[i] as int - s[i] as int == 'a' as int - 'A' as int
  {
    seq(|s|, i requires 0 <= i < |s| => LowerChar(s[i]))
  }

  /** Lower-casing twice is lower-casing once. */
  lemma LowerIdempotent(s: string)
    ensures Lower(Lower(s)) == Lower(s)
  {
  }

  /** A string without upper-case letters is its own lower-cased form. */
  lemma LowerFixesLowerCase(s: string)
    ensures Lower(s) == s <==> forall i :: 0 <= i < |s| ==> !IsUpper(s[i])
  {
    if forall i :: 0 <= i < |s| ==> !IsUpper(s[i]) {
      assert forall i :: 0 <= i < |s| ==> Lower(s)[i] == s[i];
    }
  }

  /** No character of `s` belongs to `bad`. */
  predicate Avoids(s: string, bad: set<char>) {
    forall i :: 0 <= i < |s| ==> s[i] !in bad
  }

  /** `q` occurs in `s` at offset `k`. */
  predicate OccursAt(s: string, q: string, k: int) {
    0 <= k <= |s| - |q| && s[k..k + |q|] == q
  }

  /** `s.contains(q)`: `q` occurs somewhere in `s`. Also read as "`q` is an
      infix of `s`". */
  predicate Contains(s: string, q: string) {
    exists k :: 0 <= k <= |s| - |q| && OccursAt(s, q, k)
  }

  /** Neither end of `s` is whitespace. */
  predicate IsTrimmed(s: string) {
    s == [] || (!IsWhitespace(s[0]) && !IsWhitespace(s[|s| - 1]))
  }

  lemma ContainsTransitive(s: string, t: string, q: string)
    requires Contains(s, t) && Contains(t, q)
    ensures Contains(s, q)
  {
    var i :| 0 <= i <= |s| - |t| && OccursAt(s, t, i);
    var j :| 0 <= j <= |t| - |q| && OccursAt(t, q, j);
    forall m | 0 <= m < |q| ensures s[i + j + m] == q[m] {
      assert q[m] == t[j + m];
    }
    assert s[i + j..i + j + |q|] == q;
    assert OccursAt(s, q, i + j);
  }

  lemma ContainsAvoids(s: string, t: string, bad: set<char>)
    requires Contains(s, t) && Avoids(s, bad)
    ensures Avoids(t, bad)
  {
    var i :| 0 <= i <= |s| - |t| && OccursAt(s, t, i);
    forall k | 0 <= k < |t| ensures t[k] !in bad {
      assert t[k] == s[i + k];
    }
  }

  /** An infix of a string that lacks `q` lacks `q` too. */
  lemma InfixLacks(s: string, t: string, q: string)
    requires Contains(s, t) && !Contains(s, q)
    ensures !Contains(t, q)
  {
    if Contains(t, q) {
      ContainsTransitive(s, t, q);
    }
  }

  lemma PrefixIsInfix(s: string, t: string)
    requires t <= s
    ensures Contains(s, t)
  {
    assert OccursAt(s, t, 0);
  }

  lemma SuffixIsInfix(s: string, k: nat)
    requires k <= |s|
    ensures Contains(s, s[k..])
  {
    assert OccursAt(s, s[k..], k);
  }

  // ---------------------------------------------------------------- trimming

  /** Drops leading whitespace: the result is a suffix of `s`, does not start
      with whitespace, and everything dropped is whitespace. */
  function TrimStart(s: string): (r: string)
    ensures |r| <= |s| && r == s[|s| - |r|..]
    ensures r == [] || !IsWhitespace(r[0])
    ensures forall i :: 0 <= i < |s| - |r| ==> IsWhitespace(s[i])
    decreases |s|
  {
    if s != [] && IsWhitespace(s[0]) then TrimStart(s[1..]) else s
  }

  /** Drops trailing whitespace: the result is a prefix of `s`, does not end
      with whitespace, and everything dropped is whitespace. */
  function TrimEnd(s: string): (r: string)
    ensures r <= s
    ensures r == [] || !IsWhitespace(r[|r| - 1])
    ensures forall i :: |r| <= i < |s| ==> IsWhitespace(s[i])
    decreases |s|
  {
    if s != [] && IsWhitespace(s[|s| - 1]) then TrimEnd(s[..|s| - 1]) else s
  }

  /** Trimming both ends leaves nothing exactly when `s` is all whitespace. */
  lemma TrimEmptyIff(s: string)
    ensures TrimEnd(TrimStart(s)) == [] <==> forall i :: 0 <= i < |s| ==> IsWhitespace(s[i])
  {
    var t := TrimStart(s);
    var r := TrimEnd(t);
    if r != [] {
      assert r[0] == t[0] && s[|s| - |t|] == t[0];
    }
  }

  /** Trimming both ends leaves no whitespace at either end. */
  lemma TrimBothEnds(s: string)
    ensures IsTrimmed(TrimEnd(TrimStart(s)))
  {
    var t := TrimStart(s);
    var r := TrimEnd(t);
    if r != [] {
      assert r[0] == t[0];
    }
  }

  /** `r` is `s` with exactly the whitespace before offset `i` and after
      offset `i + |r|` removed. */
  predicate IsCutOf(s: string, r: string, i: int) {
    && 0 <= i <= |s| - |r|
    && s[i..i + |r|] == r
    && (forall k :: 0 <= k < i ==> IsWhitespace(s[k]))
    && (forall k :: i + |r| <= k < |s| ==> IsWhitespace(s[k]))
  }

  /** Dropping a whitespace prefix and then a whitespace suffix leaves a cut. */
  lemma CutOfSuffixPrefix(s: string, t: string, r: string)
    requires |t| <= |s| && t == s[|s| - |t|..]
    requires forall i :: 0 <= i < |s| - |t| ==> IsWhitespace(s[i])
    requires r <= t
    requires forall i :: |r| <= i < |t| ==> IsWhitespace(t[i])
    ensures IsCutOf(s, r, |s| - |t|)
  {
    var d := |s| - |t|;
    assert s[d..d + |r|] == t[..|r|];
    forall k | d + |r| <= k < |s| ensures IsWhitespace(s[k]) {
      assert s[k] == t[k - d];
    }
  }

  /** What trimming leaves is `s` with whitespace removed at the two ends
      only. */
  lemma TrimCutsEnds(s: string)
    ensures IsCutOf(s, TrimEnd(TrimStart(s)), |s| - |TrimStart(s)|)
  {
    CutOfSuffixPrefix(s, TrimStart(s), TrimEnd(TrimStart(s)));
  }

  /** A cut of `s` is an infix of `s`. */
  lemma CutIsInfix(s: string, r: string, i: int)
    requires IsCutOf(s, r, i)
    ensures Contains(s, r)
  {
    assert OccursAt(s, r, i);
  }

  /** `trimmingCharacters(in: .whitespacesAndNewlines)`: `s` with the
      whitespace at its two ends removed and nothing else, so that neither
      end of the result is whitespace; empty exactly when `s` is all
      whitespace. */
  function Trim(s: string): (r: string)
    ensures IsTrimmed(r)
    ensures exists i :: IsCutOf(s, r, i)
    ensures Contains(s, r)
    ensures r == [] <==> forall i :: 0 <= i < |s| ==> IsWhitespace(s[i])
  {
    TrimBothEnds(s);
    TrimCutsEnds(s);
    TrimEmptyIff(s);
    var r := TrimEnd(TrimStart(s));
    CutIsInfix(s, r, |s| - |TrimStart(s)|);
    r
  }

  // ------------------------------------------- splitting on a separator string

  /** `components(separatedBy: sep)`: cuts `s` at every occurrence of `sep`,
      scanning left to right without overlap. */
  function Split(s: string, sep: string): (r: seq<string>)
    requires sep != []
    ensures |r| >= 1 && r[0] <= s
    decreases |s|
  {
    if |s| < |sep| then [s]
    else if s[..|sep|] == sep then [""] + Split(s[|sep|..], sep)
    else
      var rest := Split(s[1..], sep);
      [[s[0]] + rest[0]] + rest[1..]
  }

  /** `joined(separator: sep)`. */
  function Join(pieces: seq<string>, sep: string): string
    decreases |pieces|
  {
    if pieces == [] then ""
    else if |pieces| == 1 then pieces[0]
    else pieces[0] + sep + Join(pieces[1..], sep)
  }

  lemma JoinConsFirst(c: char, r: seq<string>, sep: string)
    requires |r| >= 1
    ensures Join([[c] + r[0]] + r[1..], sep) == [c] + Join(r, sep)
  {
    var p := [[c] + r[0]] + r[1..];
    assert p[1..] == r[1..];
  }

  /** Joining the pieces with the separator gives back the string. */
  lemma {:induction false} JoinSplit(s: string, sep: string)
    requires sep != []
    ensures Join(Split(s, sep), sep) == s
    decreases |s|
  {
    if |s| < |sep| {
    } else if s[..|sep|] == sep {
      JoinSplit(s[|sep|..], sep);
      var rest := Split(s[|sep|..], sep);
      assert Split(s, sep) == [""] + rest;
      assert ([""] + rest)[1..] == rest;
      assert Join([""] + rest, sep) == "" + sep + Join(rest, sep);
      assert s == sep + s[|sep|..];
    } else {
      JoinSplit(s[1..], sep);
      var rest := Split(s[1..], sep);
      assert Split(s, sep) == [[s[0]] + rest[0]] + rest[1..];
      JoinConsFirst(s[0], rest, sep);
      assert s == [s[0]] + s[1..];
    }
  }

  /** No piece contains the separator. */
  lemma {:induction false} SplitPiecesLackSeparator(s: string, sep: string)
    requires sep != []
    ensures forall t :: t in Split(s, sep) ==> !Contains(t, sep)
    decreases |s|
  {
    if |s| < |sep| {
    } else if s[..|sep|] == sep {
      SplitPiecesLackSeparator(s[|sep|..], sep);
      assert !Contains("", sep);
    } else {
      SplitPiecesLackSeparator(s[1..], sep);
      var rest := Split(s[1..], sep);
      var first := [s[0]] + rest[0];
      assert !Contains(rest[0], sep);
      forall k | 0 <= k <= |first| - |sep| ensures !OccursAt(first, sep, k) {
        if k == 0 {
          assert first[..|sep|] == s[..|sep|];
        } else {
          assert first[k..k + |sep|] == rest[0][k - 1..k - 1 + |sep|];
          assert !OccursAt(rest[0], sep, k - 1);
        }
      }
    }
  }

  /** Every piece is an infix of the string. */
  lemma {:induction false} SplitPiecesAreInfixes(s: string, sep: string)
    requires sep != []
    ensures forall t :: t in Split(s, sep) ==> Contains(s, t)
    decreases |s|
  {
    if |s| < |sep| {
      PrefixIsInfix(s, s);
    } else if s[..|sep|] == sep {
      SplitPiecesAreInfixes(s[|sep|..], sep);
      SuffixIsInfix(s, |sep|);
      PrefixIsInfix(s, "");
      forall t | t in Split(s[|sep|..], sep) ensures Contains(s, t) {
        ContainsTransitive(s, s[|sep|..], t);
      }
    } else {
      SplitPiecesAreInfixes(s[1..], sep);
      var rest := Split(s[1..], sep);
      SuffixIsInfix(s, 1);
      PrefixIsInfix(s, [s[0]] + rest[0]);
      forall t | t in rest[1..] ensures Contains(s, t) {
        ContainsTransitive(s, s[1..], t);
      }
    }
  }

  // --------------------------------------------- splitting on a character set

  /** `components(separatedBy: CharacterSet(charactersIn: ...))`: cuts `s` at
      every character of `seps`. */
  function SplitOnAny(s: string, seps: set<char>): (r: seq<string>)
    ensures |r| >= 1 && r[0] <= s
    decreases |s|
  {
    if s == [] then [""]
    else
      var rest := SplitOnAny(s[1..], seps);
      if s[0] in seps then [""] + rest else [[s[0]] + rest[0]] + rest[1..]
  }

  /** The characters of `s` that belong to `seps`, in order. */
  function SeparatorsIn(s: string, seps: set<char>): string
    decreases |s|
  {
    if s == [] then ""
    else (if s[0] in seps then [s[0]] else []) + SeparatorsIn(s[1..], seps)
  }

  /** Puts `ds[k]` between `pieces[k]` and `pieces[k + 1]`. */
  function Interleave(pieces: seq<string>, ds: string): string
    requires |pieces| == |ds| + 1
    decreases |ds|
  {
    if ds == [] then pieces[0] else pieces[0] + [ds[0]] + Interleave(pieces[1..], ds[1..])
  }

  /** Putting the separators back between the pieces gives back the string. */
  lemma {:induction false} SplitOnAnyRejoin(s: string, seps: set<char>)
    ensures |SplitOnAny(s, seps)| == |SeparatorsIn(s, seps)| + 1
    ensures Interleave(SplitOnAny(s, seps), SeparatorsIn(s, seps)) == s
    decreases |s|
  {
    if s != [] {
      SplitOnAnyRejoin(s[1..], seps);
      var rest := SplitOnAny(s[1..], seps);
      var ds := SeparatorsIn(s[1..], seps);
      if s[0] in seps {
        assert ([""] + rest)[1..] == rest;
        assert s == [s[0]] + s[1..];
      } else {
        var p := [[s[0]] + rest[0]] + rest[1..];
        assert p[1..] == rest[1..];
        assert SeparatorsIn(s, seps) == ds;
        if ds != [] {
          calc {
            Interleave(p, ds);
            p[0] + [ds[0]] + Interleave(p[1..], ds[1..]);
            [s[0]] + (rest[0] + [ds[0]] + Interleave(rest[1..], ds[1..]));
            [s[0]] + Interleave(rest, ds);
          }
        }
        assert s == [s[0]] + s[1..];
      }
    }
  }

  /** Every piece is an infix of the string and holds no separator. */
  lemma {:induction false} SplitOnAnyPieces(s: string, seps: set<char>)
    ensures forall t :: t in SplitOnAny(s, seps) ==> Avoids(t, seps) && Contains(s, t)
    decreases |s|
  {
    if s == [] {
      PrefixIsInfix(s, s);
    } else {
      SplitOnAnyPieces(s[1..], seps);
      var rest := SplitOnAny(s[1..], seps);
      SuffixIsInfix(s, 1);
      PrefixIsInfix(s, "");
      forall t | t in rest ensures Contains(s, t) {
        ContainsTransitive(s, s[1..], t);
      }
      if s[0] !in seps {
        var first := [s[0]] + rest[0];
        PrefixIsInfix(s, first);
        assert Avoids(rest[0], seps);
        assert forall k :: 1 <= k < |first| ==> first[k] == rest[0][k - 1];
      }
    }
  }

  // -------------------------------------------------------------- replacing

  /** `replacingOccurrences(of: pat, with: rep)`: every occurrence of `pat`,
      found left to right without overlap, is replaced by `rep`. */
  function Replace(s: string, pat: string, rep: string): string
    requires pat != []
    decreases |s|
  {
    if |s| < |pat| then s
    else if s[..|pat|] == pat then rep + Replace(s[|pat|..], pat, rep)
    else [s[0]] + Replace(s[1..], pat, rep)
  }

  /** Replacing is splitting at the pattern and joining with the replacement. */
  lemma {:induction false} ReplaceIsJoinOfSplit(s: string, pat: string, rep: string)
    requires pat != []
    ensures Replace(s, pat, rep) == Join(Split(s, pat), rep)
    decreases |s|
  {
    if |s| < |pat| {
    } else if s[..|pat|] == pat {
      ReplaceIsJoinOfSplit(s[|pat|..], pat, rep);
      var rest := Split(s[|pat|..], pat);
      assert ([""] + rest)[1..] == rest;
    } else {
      ReplaceIsJoinOfSplit(s[1..], pat, rep);
      JoinConsFirst(s[0], Split(s[1..], pat), rep);
    }
  }

  /** Replacing brings in no character that neither the string nor the
      replacement has. */
  lemma {:induction false} ReplaceAvoids(s: string, pat: string, rep: string, bad: set<char>)
    requires pat != []
    requires Avoids(s, bad) && Avoids(rep, bad)
    ensures Avoids(Replace(s, pat, rep), bad)
    decreases |s|
  {
    if |s| < |pat| {
    } else if s[..|pat|] == pat {
      ReplaceAvoids(s[|pat|..], pat, rep, bad);
    } else {
      ReplaceAvoids(s[1..], pat, rep, bad);
    }
  }

  /** Replacing a single character by a string without it removes that
      character altogether. */
  lemma {:induction false} ReplaceRemovesChar(s: string, c: char, rep: string)
    requires c !in rep
    ensures Avoids(Replace(s, [c], rep), {c})
    decreases |s|
  {
    if |s| >= 1 {
      ReplaceRemovesChar(s[1..], c, rep);
    }
  }
}
