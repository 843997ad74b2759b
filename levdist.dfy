/**
 * Friends networks under Levenshtein distance one. Two words are friends when one
 * edit turns one into the other; the network of a word is the word, its friends,
 * their friends, and so on, within a corpus.
 */
module LevDist {
  import opened Closure

  /** The letters of string.ascii_lowercase: 'a' to 'z'. */
  predicate IsLetter(c: char)
  {
    'a' <= c <= 'z'
  }

  /** The k-th letter of string.ascii_lowercase, counting from 0. */
  function Letter(k: nat): (c: char)
    requires k < 26
    ensures IsLetter(c) && c as int - 'a' as int == k
  {
    ('a' as int + k) as char
  }

  /** Lower-casing of one character: 'A' to 'Z' become 'a' to 'z', everything else is kept. */
  function LowerChar(c: char): (r: char)
    ensures 'A' <= c <= 'Z' ==> IsLetter(r) && r as int - 'a' as int == c as int - 'A' as int
    ensures !('A' <= c <= 'Z') ==> r == c
    ensures IsLetter(r) <==> IsLetter(c) || 'A' <= c <= 'Z'
  {
    if 'A' <= c <= 'Z' then (c as int + 32) as char else c
  }

  /** Lower-casing of a word, character by character. */
  function Lower(s: string): (r: string)
    ensures |r| == |s| && forall i :: 0 <= i < |s| ==> r[i] == LowerChar(s[i])
  {
    seq(|s|, i requires 0 <= i < |s| => LowerChar(s[i]))
  }

  /** Lower-casing an already lower-cased word changes nothing. */
  lemma LowerIdempotent(s: string)
    ensures Lower(Lower(s)) == Lower(s)
  {
    var once := Lower(s);
    forall i | 0 <= i < |s|
      ensures Lower(once)[i] == once[i]
    {
      assert once[i] == LowerChar(s[i]);
    }
  }

  /** The number of characters of `s` that are not letters a to z. */
  function NonLetters(s: string): nat
  {
    if s == [] then 0 else (if IsLetter(s[0]) then 0 else 1) + NonLetters(s[1..])
  }

  /** A word has no character outside a to z exactly when NonLetters counts none. */
  lemma {:induction false} NoNonLetters(s: string)
    ensures NonLetters(s) == 0 <==> forall k :: 0 <= k < |s| ==> IsLetter(s[k])
  {
    if s != [] {
      NoNonLetters(s[1..]);
      assert forall k :: 1 <= k < |s| ==> s[k] == s[1..][k - 1];
    }
  }

  /** The word with the letter at position i replaced by c. */
  function Substitute(w: string, i: nat, c: char): (r: string)
    requires i < |w|
    ensures |r| == |w| && r[i] == c
    ensures forall j :: 0 <= j < |w| && j != i ==> r[j] == w[j]
  {
    w[..i] + [c] + w[i + 1..]
  }

  /** The word with c inserted before position i (after the last letter when i == |w|). */
  function InsertAt(w: string, i: nat, c: char): (r: string)
    requires i <= |w|
    ensures |r| == |w| + 1 && r[i] == c
    ensures r[..i] == w[..i] && r[i + 1..] == w[i..]
  {
    w[..i] + [c] + w[i..]
  }

  /** The word with the letter at position i removed. */
  function DeleteAt(w: string, i: nat): (r: string)
    requires i < |w|
    ensures |r| + 1 == |w|
    ensures r[..i] == w[..i] && r[i..] == w[i + 1..]
  {
    w[..i] + w[i + 1..]
  }

  /** `s` is `w` with one letter replaced by a different letter of the alphabet. */
  ghost predicate IsSubstitution(w: string, s: string)
  {
    exists i: nat, c :: i < |w| && IsLetter(c) && c != w[i] && s == Substitute(w, i, c)
  }

  /** `s` is `w` with one letter of the alphabet inserted somewhere. */
  ghost predicate IsInsertion(w: string, s: string)
  {
    exists i: nat, c :: i <= |w| && IsLetter(c) && s == InsertAt(w, i, c)
  }

  /** `s` is `w` with one letter removed. */
  ghost predicate IsDeletion(w: string, s: string)
  {
    exists i: nat :: i < |w| && s == DeleteAt(w, i)
  }

  /** `s` is at Levenshtein distance one from `w`, over the alphabet a to z. */
  ghost predicate IsOneEdit(w: string, s: string)
  {
    IsSubstitution(w, s) || IsInsertion(w, s) || IsDeletion(w, s)
  }

  /** An edit always changes the word. */
  lemma OneEditChanges(w: string, s: string)
    requires IsOneEdit(w, s)
    ensures s != w
  {
    if IsSubstitution(w, s) {
      var i: nat, c :| i < |w| && IsLetter(c) && c != w[i] && s == Substitute(w, i, c);
      assert s[i] != w[i];
    }
  }

  /**
   * The inner loop at position i, from the letter Letter(k) on: for each letter
   * other than w[i], the substitution at i and then the insertion before i.
   */
  function LetterVariants(w: string, i: nat, k: nat): seq<string>
    requires i < |w| && k <= 26
    decreases 26 - k
  {
    if k == 26 then []
    else
      var c := Letter(k);
      (if c != w[i] then [Substitute(w, i, c), InsertAt(w, i, c)] else []) + LetterVariants(w, i, k + 1)
  }

  /** Two strings for every letter from Letter(k) on, except for the letter w[i] itself. */
  lemma {:induction false} LetterVariantsCount(w: string, i: nat, k: nat)
    requires i < |w| && k <= 26
    ensures |LetterVariants(w, i, k)| ==
      2 * (26 - k) - (if IsLetter(w[i]) && 'a' as int + k <= w[i] as int then 2 else 0)
    decreases 26 - k
  {
    if k < 26 {
      LetterVariantsCount(w, i, k + 1);
    }
  }

  /**
   * Each string of the inner loop is the substitution at i, or the insertion before i,
   * of a letter that differs from w[i]; so it is a substitution or an insertion.
   */
  lemma {:induction false} LetterVariantsSound(w: string, i: nat, k: nat)
    requires i < |w| && k <= 26
    ensures forall s :: s in LetterVariants(w, i, k) ==>
      exists c: char :: IsLetter(c) && c != w[i] &&
        (s == Substitute(w, i, c) || s == InsertAt(w, i, c))
    ensures forall s :: s in LetterVariants(w, i, k) ==> IsSubstitution(w, s) || IsInsertion(w, s)
    decreases 26 - k
  {
    if k < 26 {
      LetterVariantsSound(w, i, k + 1);
      var c := Letter(k);
      if c != w[i] {
        assert IsSubstitution(w, Substitute(w, i, c));
        assert IsInsertion(w, InsertAt(w, i, c));
      }
    }
  }

  /** The inner loop substitutes and inserts every letter from Letter(k) on other than w[i]. */
  lemma {:induction false} LetterVariantsComplete(w: string, i: nat, k: nat, c: char)
    requires i < |w| && k <= 26 && IsLetter(c) && 'a' as int + k <= c as int && c != w[i]
    ensures Substitute(w, i, c) in LetterVariants(w, i, k) && InsertAt(w, i, c) in LetterVariants(w, i, k)
    decreases 26 - k
  {
    if c != Letter(k) {
      LetterVariantsComplete(w, i, k + 1, c);
    }
  }

  /**
   * The outer loop from position i on: the letter variants at each position
   * followed by the deletion of that position.
   */
  function PositionVariants(w: string, i: nat): seq<string>
    requires i <= |w|
    decreases |w| - i
  {
    if i == |w| then []
    else LetterVariants(w, i, 0) + [DeleteAt(w, i)] + PositionVariants(w, i + 1)
  }

  /** 51 strings per position from i on, and two more per position holding a non-letter. */
  lemma {:induction false} PositionVariantsCount(w: string, i: nat)
    requires i <= |w|
    ensures |PositionVariants(w, i)| == 51 * (|w| - i) + 2 * NonLetters(w[i..])
    decreases |w| - i
  {
    if i < |w| {
      LetterVariantsCount(w, i, 0);
      PositionVariantsCount(w, i + 1);
      assert w[i..][1..] == w[i + 1..];
    }
  }

  /** Each string of the outer loop is a single edit. */
  lemma {:induction false} PositionVariantsSound(w: string, i: nat)
    requires i <= |w|
    ensures forall s :: s in PositionVariants(w, i) ==> IsOneEdit(w, s)
    decreases |w| - i
  {
    if i < |w| {
      LetterVariantsSound(w, i, 0);
      PositionVariantsSound(w, i + 1);
      assert IsDeletion(w, DeleteAt(w, i));
    }
  }

  /** From position i on, every substitution and every insertion before a different letter is generated. */
  lemma {:induction false} PositionVariantsComplete(w: string, i: nat, j: nat, c: char)
    requires i <= j < |w| && IsLetter(c) && c != w[j]
    ensures Substitute(w, j, c) in PositionVariants(w, i) && InsertAt(w, j, c) in PositionVariants(w, i)
    decreases j - i
  {
    var here, rest := LetterVariants(w, i, 0) + [DeleteAt(w, i)], PositionVariants(w, i + 1);
    assert PositionVariants(w, i) == here + rest;
    var sub, ins := Substitute(w, j, c), InsertAt(w, j, c);
    if i == j {
      LetterVariantsComplete(w, j, 0, c);
      assert sub in here && ins in here;
    } else {
      PositionVariantsComplete(w, i + 1, j, c);
      assert sub in rest && ins in rest;
    }
  }

  /** From position i on, every deletion is generated. */
  lemma {:induction false} DeletionsGenerated(w: string, i: nat, j: nat)
    requires i <= j < |w|
    ensures DeleteAt(w, j) in PositionVariants(w, i)
    decreases j - i
  {
    if i < j {
      DeletionsGenerated(w, i + 1, j);
    }
  }

  /** The final loop, from the letter Letter(k) on: the word followed by each letter. */
  function AppendVariants(w: string, k: nat): seq<string>
    requires k <= 26
    decreases 26 - k
  {
    if k == 26 then [] else [w + [Letter(k)]] + AppendVariants(w, k + 1)
  }

  /** One string per letter from Letter(k) on: the j-th is the word followed by Letter(k + j). */
  lemma {:induction false} AppendVariantsSound(w: string, k: nat)
    requires k <= 26
    ensures |AppendVariants(w, k)| == 26 - k
    ensures forall j :: 0 <= j < 26 - k ==> AppendVariants(w, k)[j] == w + [Letter(k + j)]
    ensures forall s :: s in AppendVariants(w, k) ==> IsInsertion(w, s)
    decreases 26 - k
  {
    if k < 26 {
      AppendVariantsSound(w, k + 1);
      assert InsertAt(w, |w|, Letter(k)) == w + [Letter(k)];
    }
  }

  /** The final loop appends every letter from Letter(k) on. */
  lemma {:induction false} AppendVariantsComplete(w: string, k: nat, c: char)
    requires k <= 26 && IsLetter(c) && 'a' as int + k <= c as int
    ensures w + [c] in AppendVariants(w, k)
    decreases 26 - k
  {
    if c != Letter(k) {
      AppendVariantsComplete(w, k + 1, c);
    }
  }

  /** Every string the generator yields for `inputWord`, in order and with repetitions. */
  function DistOneWordVariants(inputWord: string): seq<string>
  {
    var word := Lower(inputWord);
    PositionVariants(word, 0) + AppendVariants(word, 0)
  }

  /** The generator yields 51 strings per character, two more per non-letter, and 26 appends. */
  lemma VariantCount(inputWord: string)
    ensures |DistOneWordVariants(inputWord)| == 51 * |inputWord| + 26 + 2 * NonLetters(Lower(inputWord))
  {
    var word := Lower(inputWord);
    PositionVariantsCount(word, 0);
    AppendVariantsSound(word, 0);
    assert word[0..] == word;
  }

  /** A word whose characters all lower-case to letters a to z has no non-letter after lower-casing. */
  lemma LowerAllLetters(inputWord: string)
    requires forall k :: 0 <= k < |inputWord| ==> IsLetter(LowerChar(inputWord[k]))
    ensures NonLetters(Lower(inputWord)) == 0
  {
    var word := Lower(inputWord);
    NoNonLetters(word);
    forall k | 0 <= k < |word|
      ensures IsLetter(word[k])
    {
      assert word[k] == LowerChar(inputWord[k]);
    }
  }

  /**
   * For a word of n letters (a to z or A to Z) the generator yields 51 * n + 26
   * strings: per position 25 substitutions, 25 insertions and one deletion, then
   * 26 letters appended at the end.
   */
  lemma VariantCountLetters(inputWord: string)
    requires forall k :: 0 <= k < |inputWord| ==> IsLetter(LowerChar(inputWord[k]))
    ensures |DistOneWordVariants(inputWord)| == 51 * |inputWord| + 26
  {
    LowerAllLetters(inputWord);
    VariantCount(inputWord);
  }

  /** Soundness: every yielded string is a single edit of the lower-cased word. */
  lemma VariantsSound(inputWord: string)
    ensures forall s :: s in DistOneWordVariants(inputWord) ==> IsOneEdit(Lower(inputWord), s)
  {
    var word := Lower(inputWord);
    PositionVariantsSound(word, 0);
    AppendVariantsSound(word, 0);
  }

  /** A yielded string is one character shorter than, as long as, or one longer than the input. */
  lemma VariantLength(inputWord: string, s: string)
    requires s in DistOneWordVariants(inputWord)
    ensures |s| == |inputWord| - 1 || |s| == |inputWord| || |s| == |inputWord| + 1
  {
    var w := Lower(inputWord);
    VariantsSound(inputWord);
    if IsSubstitution(w, s) {
      var i: nat, c :| i < |w| && IsLetter(c) && c != w[i] && s == Substitute(w, i, c);
    } else if IsInsertion(w, s) {
      var i: nat, c :| i <= |w| && IsLetter(c) && s == InsertAt(w, i, c);
    } else {
      var i: nat :| i < |w| && s == DeleteAt(w, i);
    }
  }

  /**
   * Inserting a letter anywhere is generated: before a different letter by the
   * outer loop, or, sliding right past equal letters (which gives the same word),
   * by the final loop at the end.
   */
  lemma {:induction false} InsertionGenerated(w: string, i: nat, c: char)
    requires i <= |w| && IsLetter(c)
    ensures InsertAt(w, i, c) in PositionVariants(w, 0) + AppendVariants(w, 0)
    decreases |w| - i
  {
    if i == |w| {
      assert InsertAt(w, i, c) == w + [c];
      AppendVariantsComplete(w, 0, c);
    } else if c != w[i] {
      PositionVariantsComplete(w, 0, i, c);
    } else {
      assert InsertAt(w, i, c) == InsertAt(w, i + 1, c) by {
        assert w[..i + 1] == w[..i] + [c];
        assert w[i..] == [c] + w[i + 1..];
      }
      InsertionGenerated(w, i + 1, c);
    }
  }

  /** Every single edit of `w` is among the strings generated from `w`. */
  lemma OneEditGenerated(w: string, s: string)
    requires IsOneEdit(w, s)
    ensures s in PositionVariants(w, 0) + AppendVariants(w, 0)
  {
    if IsInsertion(w, s) {
      var i: nat, c :| i <= |w| && IsLetter(c) && s == InsertAt(w, i, c);
      InsertionGenerated(w, i, c);
    } else if IsSubstitution(w, s) {
      var i: nat, c :| i < |w| && IsLetter(c) && c != w[i] && s == Substitute(w, i, c);
      PositionVariantsComplete(w, 0, i, c);
    } else {
      var i: nat :| i < |w| && s == DeleteAt(w, i);
      DeletionsGenerated(w, 0, i);
    }
  }

  /** Completeness: every single edit of the lower-cased word is yielded. */
  lemma VariantsComplete(inputWord: string, s: string)
    requires IsOneEdit(Lower(inputWord), s)
    ensures s in DistOneWordVariants(inputWord)
  {
    OneEditGenerated(Lower(inputWord), s);
  }

  /** Exactly the single edits of the lower-cased word are yielded. */
  lemma VariantsExact(inputWord: string, s: string)
    ensures s in DistOneWordVariants(inputWord) <==> IsOneEdit(Lower(inputWord), s)
  {
    VariantsSound(inputWord);
    if IsOneEdit(Lower(inputWord), s) {
      VariantsComplete(inputWord, s);
    }
  }

  /** The friends network of `testWord` in `corpus`: its component under the generated variants. */
  ghost function FriendsNetwork(testWord: string, corpus: set<string>): (r: set<string>)
    ensures testWord in r && r <= corpus + {testWord}
    ensures ClosedIn(DistOneWordVariants, corpus, r)
  {
    ComponentClosed(DistOneWordVariants, corpus, testWord);
    Component(DistOneWordVariants, corpus, testWord)
  }

  /** One round's matches: the words of `reduced` generated from some word of `component`. */
  function RoundMatches(component: set<string>, reduced: set<string>): (r: set<string>)
    ensures r <= reduced
    ensures forall w, v :: w in component && Step(DistOneWordVariants, reduced, w, v) ==> v in r
    ensures forall v :: v in r ==> exists w :: w in component && Step(DistOneWordVariants, reduced, w, v)
  {
    set word, matchedWord | word in component && matchedWord in DistOneWordVariants(word)
                          && matchedWord in reduced :: matchedWord
  }

  /** A round started inside the friends network, on a part of the corpus, stays inside it. */
  lemma RoundStaysInNetwork(testWord: string, corpus: set<string>, component: set<string>, reduced: set<string>)
    requires component <= FriendsNetwork(testWord, corpus) && reduced <= corpus
    ensures component + RoundMatches(component, reduced) <= FriendsNetwork(testWord, corpus)
  {
    ComponentClosed(DistOneWordVariants, corpus, testWord);
    forall v | v in RoundMatches(component, reduced)
      ensures v in FriendsNetwork(testWord, corpus)
    {
      var w :| w in component && Step(DistOneWordVariants, reduced, w, v);
      assert Step(DistOneWordVariants, corpus, w, v);
    }
  }

  /** A round that finds nothing leaves a component closed within the corpus. */
  lemma EmptyRoundClosed(corpus: set<string>, component: set<string>, reduced: set<string>)
    requires corpus - reduced <= component
    requires RoundMatches(component, reduced) == {}
    ensures ClosedIn(DistOneWordVariants, corpus, component)
  {
    forall w, v | w in component && Step(DistOneWordVariants, corpus, w, v)
      ensures v in component
    {
      assert v !in RoundMatches(component, reduced);
      assert !Step(DistOneWordVariants, reduced, w, v);
    }
  }

  /**
   * Grows the component of `testWord` round by round: each round collects the
   * variants of component words still in the shrinking corpus copy, removes them
   * from the copy and adds them to the component, until a round finds none.
   */
  method Network(testWord: string, corpus: set<string>) returns (component: set<string>)
    ensures component == FriendsNetwork(testWord, corpus)
    ensures testWord in component && component <= corpus + {testWord}
    ensures ClosedIn(DistOneWordVariants, corpus, component)
  {
    component := {testWord};
    var matches := {testWord};
    var reducedCorpus := corpus;
    while |matches| > 0
      invariant testWord in component
      invariant reducedCorpus <= corpus && corpus - reducedCorpus <= component
      invariant component <= FriendsNetwork(testWord, corpus)
      invariant matches == {} ==> RoundMatches(component, reducedCorpus) == {}
      decreases |reducedCorpus| + |matches|
    {
      RoundStaysInNetwork(testWord, corpus, component, reducedCorpus);
      matches := RoundMatches(component, reducedCorpus);
      RemoveSubsetCardinality(reducedCorpus, matches);
      reducedCorpus := reducedCorpus - matches;
      component := component + matches;
    }
    EmptyRoundClosed(corpus, component, reducedCorpus);
    ComponentLeast(DistOneWordVariants, corpus, testWord, component);
  }

  /** The number of words in the friends network of `testWord`. */
  method NetworkSize(testWord: string, corpus: set<string>) returns (size: nat)
    ensures size == |FriendsNetwork(testWord, corpus)|
  {
    var component := Network(testWord, corpus);
    size := |component|;
  }
}
