// The one-pass search as a function of the text: at every end position take the
// longest configured word ending there and keep the best start seen so far.
// AhoCorasick.Matcher.Find is proved to compute it; the lemmas here say what it
// is worth, with no assumption on how lower-casing changes byte lengths.
module Scan {
  import opened Words

  // start is computed from the length of the configured spelling, so it may be
  // negative when a spelling is longer than its lowered form.
  datatype Best = Best(start: int, word: Word)

  const NO_HIT := Best(-1, [])

  // The spelling of the longest suffix of x that is a configured word.
  function LongestEnding(words: seq<Word>, lower: Lowering, x: Word): (w: Word)
  {
    if Spelling(words, lower, x) != [] then Spelling(words, lower, x)
    else if x == [] then []
    else LongestEnding(words, lower, x[1..])
  }

  function Improve(b: Best, w: Word, end: nat): Best
  {
    if w != [] && (b.start < 0 || end - |w| <= b.start) then Best(end - |w|, w) else b
  }

  function ScanText(words: seq<Word>, lower: Lowering, t: Word): Best
  {
    if t == [] then NO_HIT
    else Improve(ScanText(words, lower, t[..|t| - 1]), LongestEnding(words, lower, t), |t|)
  }

  lemma ScanExtend(words: seq<Word>, lower: Lowering, x: Word, c: Byte)
    ensures ScanText(words, lower, x + [c]) ==
            Improve(ScanText(words, lower, x), LongestEnding(words, lower, x + [c]), |x| + 1)
  {
    assert (x + [c])[..|x|] == x;
  }

  // What Find returns for a best hit: the word, and whether its start is known.
  function Answer(b: Best): (Word, bool) { (b.word, b.start >= 0) }

  // LongestEnding looks the suffixes of x up from the longest to the shortest.
  lemma {:induction false} LongestEndingIsSuffix(words: seq<Word>, lower: Lowering, x: Word) returns (k: nat)
    requires NonErasing(words, lower)
    ensures k <= |x|
    ensures LongestEnding(words, lower, x) == Spelling(words, lower, x[k..])
    ensures forall j | 0 <= j < k :: Spelling(words, lower, x[j..]) == []
    ensures LongestEnding(words, lower, x) == [] <==> k == |x|
  {
    assert x[0..] == x;
    if x == [] {
      k := 0;
      SpellingIsFirstListed(words, lower, []);
    } else if Spelling(words, lower, x) != [] {
      k := 0;
    } else {
      var k' := LongestEndingIsSuffix(words, lower, x[1..]);
      k := k' + 1;
      assert x[1..][k'..] == x[k..];
      forall j | 0 <= j < k ensures Spelling(words, lower, x[j..]) == [] {
        if j > 0 { assert x[1..][j - 1..] == x[j..]; }
      }
    }
  }

  lemma KeepsLengthIsNonErasing(words: seq<Word>, lower: Lowering)
    requires KeepsLength(words, lower)
    ensures NonErasing(words, lower)
  {
    forall i | 0 <= i < |words| && words[i] != [] ensures lower(words[i]) != [] {
      assert |lower(words[i])| == |words[i]|;
    }
  }

  // ---- Hits ----

  // Some configured word ends at e; the scan takes the longest that does.
  ghost predicate Hit(words: seq<Word>, lower: Lowering, t: Word, e: int)
  {
    0 < e <= |t| && LongestEnding(words, lower, t[..e]) != []
  }

  // Where the scan believes the hit at e to start: it subtracts the length of
  // the spelling. The true start lies before by what lowering has added.
  ghost function Computed(words: seq<Word>, lower: Lowering, t: Word, e: int): int
    requires 0 <= e <= |t|
  {
    e - |LongestEnding(words, lower, t[..e])|
  }

  // The longest word ending at e is an occurrence, and no other one ending there
  // starts earlier.
  lemma HitIsOccurrence(words: seq<Word>, lower: Lowering, t: Word, e: int) returns (s: nat)
    requires NonErasing(words, lower) && Hit(words, lower, t, e)
    ensures Occurs(words, lower, t, s, e)
    ensures LongestEnding(words, lower, t[..e]) == Spelling(words, lower, t[s..e])
    ensures forall s' | Occurs(words, lower, t, s', e) :: s <= s'
  {
    s := LongestEndingIsSuffix(words, lower, t[..e]);
    assert t[..e][s..] == t[s..e];
    forall s' | Occurs(words, lower, t, s', e) ensures s <= s' {
      assert t[..e][s'..] == t[s'..e];
    }
  }

  lemma OccurrenceIsHit(words: seq<Word>, lower: Lowering, t: Word, s: int, e: int)
    requires NonErasing(words, lower) && Occurs(words, lower, t, s, e)
    ensures Hit(words, lower, t, e)
  {
    var k := LongestEndingIsSuffix(words, lower, t[..e]);
    assert t[..e][s..] == t[s..e];
  }

  // ---- Which hit is reported ----

  // A hit beats the later ones that do not seem to start after it, and the
  // earlier ones that seem to start before it unless a negative start has wiped
  // them out in between.
  ghost predicate Survives(words: seq<Word>, lower: Lowering, t: Word, e: int)
  {
    && Hit(words, lower, t, e) && Computed(words, lower, t, e) >= 0
    && (forall l | e < l <= |t| && Hit(words, lower, t, l) ::
          Computed(words, lower, t, l) > Computed(words, lower, t, e))
    && (forall d | 0 < d < e && Hit(words, lower, t, d)
                   && 0 <= Computed(words, lower, t, d) < Computed(words, lower, t, e) ::
          WipedOut(words, lower, t, d, e))
  }

  ghost predicate WipedOut(words: seq<Word>, lower: Lowering, t: Word, d: int, e: int)
    requires 0 <= d < e <= |t|
  {
    exists n | d < n < e :: Hit(words, lower, t, n) && Computed(words, lower, t, n) < 0
  }

  ghost predicate LastHit(words: seq<Word>, lower: Lowering, t: Word, l: int)
  {
    Hit(words, lower, t, l) && forall e | l < e <= |t| :: !Hit(words, lower, t, e)
  }

  // b is what is left after t: a surviving hit; or nothing, because there is no
  // hit or the last one seems to start before the text.
  ghost predicate Outcome(words: seq<Word>, lower: Lowering, t: Word, b: Best)
  {
    if b.start >= 0
    then exists e :: Survives(words, lower, t, e) && IsHitAt(words, lower, t, b, e)
    else (forall e :: !Hit(words, lower, t, e))
         || exists l :: LastHit(words, lower, t, l) && Computed(words, lower, t, l) < 0
  }

  ghost predicate IsHitAt(words: seq<Word>, lower: Lowering, t: Word, b: Best, e: int)
  {
    0 < e <= |t| && b == Best(Computed(words, lower, t, e), LongestEnding(words, lower, t[..e]))
  }

  // Hits before the last byte do not depend on it.
  lemma HitsOfPrefix(words: seq<Word>, lower: Lowering, t: Word, e: int)
    requires t != [] && e < |t|
    ensures Hit(words, lower, t[..|t| - 1], e) == Hit(words, lower, t, e)
    ensures e >= 0 ==> Computed(words, lower, t[..|t| - 1], e) == Computed(words, lower, t, e)
    ensures e > 0 ==> forall b :: IsHitAt(words, lower, t[..|t| - 1], b, e) == IsHitAt(words, lower, t, b, e)
  {
    if e >= 0 { assert t[..|t| - 1][..e] == t[..e]; }
  }

  // The last hit of a longer text: the old survivor stays.
  lemma StillSurvives(words: seq<Word>, lower: Lowering, t: Word, e: int)
    requires t != [] && Survives(words, lower, t[..|t| - 1], e)
    requires Hit(words, lower, t, |t|) ==> Computed(words, lower, t, |t|) > Computed(words, lower, t[..|t| - 1], e)
    ensures Survives(words, lower, t, e)
  {
    var n, t' := |t|, t[..|t| - 1];
    forall d | d < n ensures Hit(words, lower, t', d) == Hit(words, lower, t, d) { HitsOfPrefix(words, lower, t, d); }
    HitsOfPrefix(words, lower, t, e);
    forall l | e < l <= n && Hit(words, lower, t, l)
      ensures Computed(words, lower, t, l) > Computed(words, lower, t, e)
    {
      if l < n { HitsOfPrefix(words, lower, t, l); }
    }
    forall d | 0 < d < e && Hit(words, lower, t, d) && 0 <= Computed(words, lower, t, d) < Computed(words, lower, t, e)
      ensures WipedOut(words, lower, t, d, e)
    {
      HitsOfPrefix(words, lower, t, d);
      WipedOutOfPrefix(words, lower, t, d, e);
    }
  }

  lemma WipedOutOfPrefix(words: seq<Word>, lower: Lowering, t: Word, d: int, e: int)
    requires 0 <= d < e < |t|
    ensures WipedOut(words, lower, t[..|t| - 1], d, e) ==> WipedOut(words, lower, t, d, e)
  {
    var t' := t[..|t| - 1];
    if WipedOut(words, lower, t', d, e) {
      var n :| d < n < e && Hit(words, lower, t', n) && Computed(words, lower, t', n) < 0;
      HitsOfPrefix(words, lower, t, n);
    }
  }

  // A hit at the end that takes over from a survivor survives.
  lemma TakesOver(words: seq<Word>, lower: Lowering, t: Word, e: int)
    requires t != [] && Survives(words, lower, t[..|t| - 1], e) && Hit(words, lower, t, |t|)
    requires 0 <= Computed(words, lower, t, |t|) <= Computed(words, lower, t[..|t| - 1], e)
    ensures Survives(words, lower, t, |t|)
  {
    var n, t' := |t|, t[..|t| - 1];
    forall d | 0 < d < n && Hit(words, lower, t, d) && 0 <= Computed(words, lower, t, d) < Computed(words, lower, t, n)
      ensures WipedOut(words, lower, t, d, n)
    {
      HitsOfPrefix(words, lower, t, d);
      assert d < e && WipedOut(words, lower, t', d, e);
      var k :| d < k < e && Hit(words, lower, t', k) && Computed(words, lower, t', k) < 0;
      HitsOfPrefix(words, lower, t, k);
    }
  }

  // So does one at the end when nothing is left of the hits before it.
  lemma StartsAnew(words: seq<Word>, lower: Lowering, t: Word, b: Best)
    requires t != [] && Outcome(words, lower, t[..|t| - 1], b) && b.start < 0
    requires Hit(words, lower, t, |t|) && Computed(words, lower, t, |t|) >= 0
    ensures Survives(words, lower, t, |t|)
  {
    var n, t' := |t|, t[..|t| - 1];
    forall d | 0 < d < n && Hit(words, lower, t, d) && 0 <= Computed(words, lower, t, d) < Computed(words, lower, t, n)
      ensures WipedOut(words, lower, t, d, n)
    {
      HitsOfPrefix(words, lower, t, d);
      var l :| LastHit(words, lower, t', l) && Computed(words, lower, t', l) < 0;
      HitsOfPrefix(words, lower, t, l);
    }
  }

  lemma NothingLeft(words: seq<Word>, lower: Lowering, t: Word, b: Best)
    requires t != [] && Outcome(words, lower, t[..|t| - 1], b) && b.start < 0 && !Hit(words, lower, t, |t|)
    ensures Outcome(words, lower, t, b)
  {
    var n, t' := |t|, t[..|t| - 1];
    forall e | e < n ensures Hit(words, lower, t', e) == Hit(words, lower, t, e) { HitsOfPrefix(words, lower, t, e); }
    if l :| LastHit(words, lower, t', l) && Computed(words, lower, t', l) < 0 {
      HitsOfPrefix(words, lower, t, l);
      assert LastHit(words, lower, t, l);
    }
  }

  lemma StepToOutcome(words: seq<Word>, lower: Lowering, t: Word, b: Best)
    requires t != [] && Outcome(words, lower, t[..|t| - 1], b)
    ensures Outcome(words, lower, t, Improve(b, LongestEnding(words, lower, t), |t|))
  {
    var n := |t|;
    var w := LongestEnding(words, lower, t);
    assert t[..n] == t;
    assert Hit(words, lower, t, n) <==> w != [];
    assert Computed(words, lower, t, n) == n - |w|;
    if b.start < 0 {
      if w == [] {
        NothingLeft(words, lower, t, b);
      } else if n - |w| >= 0 {
        StartsAnew(words, lower, t, b);
        assert IsHitAt(words, lower, t, Best(n - |w|, w), n);
      } else {
        assert LastHit(words, lower, t, n);
      }
    } else {
      var e :| Survives(words, lower, t[..n - 1], e) && IsHitAt(words, lower, t[..n - 1], b, e);
      HitsOfPrefix(words, lower, t, e);
      if w == [] || n - |w| > b.start {
        StillSurvives(words, lower, t, e);
      } else if n - |w| >= 0 {
        TakesOver(words, lower, t, e);
        assert IsHitAt(words, lower, t, Best(n - |w|, w), n);
      } else {
        assert LastHit(words, lower, t, n);
      }
    }
  }

  // What the scan ends with, for every word list and text.
  lemma {:induction false} ScanOutcome(words: seq<Word>, lower: Lowering, t: Word)
    ensures Outcome(words, lower, t, ScanText(words, lower, t))
  {
    if t != [] {
      ScanOutcome(words, lower, t[..|t| - 1]);
      StepToOutcome(words, lower, t, ScanText(words, lower, t[..|t| - 1]));
    }
  }

  lemma OneSurvivor(words: seq<Word>, lower: Lowering, t: Word, d: int, e: int)
    requires Survives(words, lower, t, d) && Survives(words, lower, t, e)
    ensures d == e
  {
  }

  // The scan reports the surviving hit, and finds nothing when none survives.
  lemma ScanReportsSurvivor(words: seq<Word>, lower: Lowering, t: Word)
    ensures ScanText(words, lower, t).start >= 0 <==> exists e :: Survives(words, lower, t, e)
    ensures forall e | Survives(words, lower, t, e) :: IsHitAt(words, lower, t, ScanText(words, lower, t), e)
  {
    ScanOutcome(words, lower, t);
    var b := ScanText(words, lower, t);
    if b.start >= 0 {
      var d :| Survives(words, lower, t, d) && IsHitAt(words, lower, t, b, d);
      forall e | Survives(words, lower, t, e) ensures e == d { OneSurvivor(words, lower, t, d, e); }
    } else {
      forall e ensures !Survives(words, lower, t, e) {
        if l :| LastHit(words, lower, t, l) && Computed(words, lower, t, l) < 0 {
          assert e < l ==> !(Survives(words, lower, t, e));
        }
      }
    }
  }

  // ---- When the answer is right ----

  ghost predicate SomethingOccurs(words: seq<Word>, lower: Lowering, t: Word)
  {
    exists s, e :: Occurs(words, lower, t, s, e)
  }

  lemma {:induction false} LeftmostExists(words: seq<Word>, lower: Lowering, t: Word, s0: nat, e0: nat)
    returns (s: nat, e: nat)
    requires Occurs(words, lower, t, s0, e0)
    ensures LeftmostLongest(words, lower, t, s, e)
    decreases s0, |t| - e0
  {
    if a: nat, b: nat :| Occurs(words, lower, t, a, b) && (a < s0 || (a == s0 && b > e0)) {
      s, e := LeftmostExists(words, lower, t, a, b);
    } else {
      s, e := s0, e0;
    }
  }

  // The found flag of any text: set exactly when there is a hit and the last one
  // does not seem to start before the text.
  lemma FoundIffLastHitFits(words: seq<Word>, lower: Lowering, t: Word)
    ensures ScanText(words, lower, t).start >= 0 <==>
            exists l :: LastHit(words, lower, t, l) && Computed(words, lower, t, l) >= 0
  {
    ScanOutcome(words, lower, t);
    if ScanText(words, lower, t).start >= 0 {
      var e :| Survives(words, lower, t, e);
      var l := LastHitExists(words, lower, t, e);
    }
  }

  lemma LastHitExists(words: seq<Word>, lower: Lowering, t: Word, e: int) returns (l: int)
    requires Hit(words, lower, t, e)
    ensures LastHit(words, lower, t, l) && e <= l
    decreases |t| - e
  {
    if d :| e < d <= |t| && Hit(words, lower, t, d) {
      l := LastHitExists(words, lower, t, d);
    } else {
      l := e;
    }
  }

  // The word of the leftmost-longest occurrence survives, there or further on.
  ghost predicate LeftmostWordSurvives(words: seq<Word>, lower: Lowering, t: Word)
  {
    forall s, e | LeftmostLongest(words, lower, t, s, e) :: WordSurvives(words, lower, t, s, e)
  }

  ghost predicate WordSurvives(words: seq<Word>, lower: Lowering, t: Word, s: int, e: int)
    requires 0 <= s <= e <= |t|
  {
    exists d :: Survives(words, lower, t, d) &&
                LongestEnding(words, lower, t[..d]) == Spelling(words, lower, t[s..e])
  }

  // The exact condition, for every word list and text: the answer is the plain
  // search's if and only if a hit with the word of the leftmost-longest
  // occurrence survives, should there be an occurrence.
  lemma AnswerIsRightIff(words: seq<Word>, lower: Lowering, t: Word)
    requires NonErasing(words, lower)
    ensures Answer(ScanText(words, lower, t)) == NaiveFind(words, lower, t) <==> LeftmostWordSurvives(words, lower, t)
  {
    ScanReportsSurvivor(words, lower, t);
    ScanOutcome(words, lower, t);
    if SomethingOccurs(words, lower, t) {
      var s0, e0 :| Occurs(words, lower, t, s0, e0);
      var s, e := LeftmostExists(words, lower, t, s0, e0);
      NaiveFinds(words, lower, t, s, e);
      forall a, b | LeftmostLongest(words, lower, t, a, b) ensures a == s && b == e {}
    } else {
      NaiveMisses(words, lower, t);
      forall e ensures !Hit(words, lower, t, e) {
        if Hit(words, lower, t, e) { var s := HitIsOccurrence(words, lower, t, e); }
      }
      assert ScanText(words, lower, t).start < 0;
      NothingScanned(words, lower, t);
    }
  }

  lemma {:induction false} NothingScanned(words: seq<Word>, lower: Lowering, t: Word)
    requires forall e :: !Hit(words, lower, t, e)
    ensures ScanText(words, lower, t) == NO_HIT
  {
    if t != [] {
      var t' := t[..|t| - 1];
      forall e ensures !Hit(words, lower, t', e) {
        if e < |t| { HitsOfPrefix(words, lower, t, e); }
      }
      NothingScanned(words, lower, t');
      assert t[..|t|] == t;
      assert !Hit(words, lower, t, |t|);
    }
  }

  // ---- When no word shrinks ----

  // No reported spelling is longer than the lowered word it stands for.
  ghost predicate NoneShrinks(words: seq<Word>, lower: Lowering)
  {
    forall p :: |Spelling(words, lower, p)| <= |p|
  }

  // A hit other than e that seems to start before it, or with it and ends later.
  ghost predicate Rival(words: seq<Word>, lower: Lowering, t: Word, e: int, d: int)
    requires 0 <= e <= |t|
  {
    && Hit(words, lower, t, d) && d != e
    && (Computed(words, lower, t, d) < Computed(words, lower, t, e)
        || (Computed(words, lower, t, d) == Computed(words, lower, t, e) && d > e))
  }

  lemma ComputedFits(words: seq<Word>, lower: Lowering, t: Word, e: int)
    requires NonErasing(words, lower) && NoneShrinks(words, lower) && Hit(words, lower, t, e)
    ensures Computed(words, lower, t, e) >= 0
  {
    var s := HitIsOccurrence(words, lower, t, e);
    assert |Spelling(words, lower, t[s..e])| <= |t[s..e]|;
  }

  lemma SurvivesUnrivalled(words: seq<Word>, lower: Lowering, t: Word, e: int)
    requires NonErasing(words, lower) && NoneShrinks(words, lower) && Hit(words, lower, t, e)
    ensures Survives(words, lower, t, e) <==> forall d :: !Rival(words, lower, t, e, d)
  {
    forall d | Hit(words, lower, t, d) ensures Computed(words, lower, t, d) >= 0 { ComputedFits(words, lower, t, d); }
    assert forall d | 0 < d < e :: !WipedOut(words, lower, t, d, e);
    if forall d :: !Rival(words, lower, t, e, d) {
      forall d | Hit(words, lower, t, d) && d != e
        ensures Computed(words, lower, t, e) <= Computed(words, lower, t, d)
        ensures d > e ==> Computed(words, lower, t, e) < Computed(words, lower, t, d)
      {
        assert !Rival(words, lower, t, e, d);
      }
    }
  }

  // The words reported for two hits differ unless the lowered words are the same.
  lemma SameWordSameText(words: seq<Word>, lower: Lowering, p: Word, q: Word)
    requires Spelling(words, lower, p) == Spelling(words, lower, q) != []
    ensures p == q
  {
    SpellingIsFirstListed(words, lower, p);
    SpellingIsFirstListed(words, lower, q);
  }

  // The hit of the leftmost-longest occurrence is that occurrence, and another
  // hit with the same word seems to start later.
  lemma LeftmostHit(words: seq<Word>, lower: Lowering, t: Word, s: int, e: int)
    requires NonErasing(words, lower) && LeftmostLongest(words, lower, t, s, e)
    ensures Hit(words, lower, t, e) && LongestEnding(words, lower, t[..e]) == Spelling(words, lower, t[s..e])
    ensures forall d | Hit(words, lower, t, d) && d != e
                       && LongestEnding(words, lower, t[..d]) == Spelling(words, lower, t[s..e]) ::
              d > e && Computed(words, lower, t, d) > Computed(words, lower, t, e)
  {
    OccurrenceIsHit(words, lower, t, s, e);
    var k := HitIsOccurrence(words, lower, t, e);
    forall d | Hit(words, lower, t, d) && d != e
               && LongestEnding(words, lower, t[..d]) == Spelling(words, lower, t[s..e])
      ensures d > e && Computed(words, lower, t, d) > Computed(words, lower, t, e)
    {
      var a := HitIsOccurrence(words, lower, t, d);
      SameWordSameText(words, lower, t[a..d], t[s..e]);
      assert |t[a..d]| == d - a && |t[s..e]| == e - s;
    }
  }

  // When no word shrinks, the answer is the plain search's if and only if the
  // leftmost-longest occurrence has no rival.
  lemma RightIffUnrivalled(words: seq<Word>, lower: Lowering, t: Word)
    requires NonErasing(words, lower) && NoneShrinks(words, lower)
    ensures Answer(ScanText(words, lower, t)) == NaiveFind(words, lower, t) <==>
            forall s, e, d | LeftmostLongest(words, lower, t, s, e) :: !Rival(words, lower, t, e, d)
  {
    AnswerIsRightIff(words, lower, t);
    forall s, e | LeftmostLongest(words, lower, t, s, e)
      ensures WordSurvives(words, lower, t, s, e) <==> forall d :: !Rival(words, lower, t, e, d)
    {
      LeftmostSurvives(words, lower, t, s, e);
    }
  }

  lemma LeftmostSurvives(words: seq<Word>, lower: Lowering, t: Word, s: int, e: int)
    requires NonErasing(words, lower) && NoneShrinks(words, lower) && LeftmostLongest(words, lower, t, s, e)
    ensures WordSurvives(words, lower, t, s, e) <==> forall d :: !Rival(words, lower, t, e, d)
  {
    LeftmostHit(words, lower, t, s, e);
    SurvivesUnrivalled(words, lower, t, e);
    forall d | Survives(words, lower, t, d) && LongestEnding(words, lower, t[..d]) == Spelling(words, lower, t[s..e])
      ensures d == e
    {
      if d != e {
        SurvivesUnrivalled(words, lower, t, d);
        assert Rival(words, lower, t, d, e);
      }
    }
  }

  // In particular when lowering preserves all lengths.
  lemma ScanIsNaive(words: seq<Word>, lower: Lowering, t: Word)
    requires KeepsLength(words, lower)
    ensures Answer(ScanText(words, lower, t)) == NaiveFind(words, lower, t)
  {
    KeepsLengthIsNonErasing(words, lower);
    forall p ensures |Spelling(words, lower, p)| <= |p| { SpellingIsFirstListed(words, lower, p); }
    RightIffUnrivalled(words, lower, t);
    forall s, e, d | LeftmostLongest(words, lower, t, s, e) ensures !Rival(words, lower, t, e, d) {
      if Hit(words, lower, t, d) {
        OccurrenceIsHit(words, lower, t, s, e);
        ExactStart(words, lower, t, d);
        ExactStart(words, lower, t, e);
      }
    }
  }

  lemma ExactStart(words: seq<Word>, lower: Lowering, t: Word, e: int)
    requires KeepsLength(words, lower) && NonErasing(words, lower) && Hit(words, lower, t, e)
    ensures var s := Computed(words, lower, t, e);
            Occurs(words, lower, t, s, e) && forall s' | Occurs(words, lower, t, s', e) :: s <= s'
  {
    var s := HitIsOccurrence(words, lower, t, e);
    SpellingIsFirstListed(words, lower, t[s..e]);
  }

  // A text that ends with a spelling longer than its lowered form is answered
  // "not found", whatever was found before.
  lemma MissesShrunkWord(words: seq<Word>, lower: Lowering, p: Word)
    requires NonErasing(words, lower)
    requires |Spelling(words, lower, p)| > |p|
    ensures ScanText(words, lower, p).start < 0
    ensures SomethingOccurs(words, lower, p)
  {
    SpellingIsFirstListed(words, lower, p);
    assert p[0..|p|] == p;
    assert Occurs(words, lower, p, 0, |p|);
  }

  // The exact condition on a word list: the found flag is right on every text if
  // and only if no reported spelling is longer than its lowered form.
  lemma FoundFlagIsExact(words: seq<Word>, lower: Lowering)
    requires NonErasing(words, lower)
    ensures NoneShrinks(words, lower) <==>
            forall text :: ScanText(words, lower, lower(text)).start >= 0 <==>
                           SomethingOccurs(words, lower, lower(text))
  {
    if NoneShrinks(words, lower) {
      forall text ensures ScanText(words, lower, lower(text)).start >= 0 <==>
                          SomethingOccurs(words, lower, lower(text)) {
        FoundWhenNoneShrinks(words, lower, lower(text));
      }
    } else {
      var p :| |Spelling(words, lower, p)| > |p|;
      SpellingIsFirstListed(words, lower, p);
      MissesShrunkWord(words, lower, p);
      var text := Spelling(words, lower, p);
      assert lower(text) == p;
    }
  }

  lemma FoundWhenNoneShrinks(words: seq<Word>, lower: Lowering, t: Word)
    requires NonErasing(words, lower) && NoneShrinks(words, lower)
    ensures ScanText(words, lower, t).start >= 0 <==> SomethingOccurs(words, lower, t)
  {
    FoundIffLastHitFits(words, lower, t);
    if l :| LastHit(words, lower, t, l) {
      ComputedFits(words, lower, t, l);
      var s := HitIsOccurrence(words, lower, t, l);
    } else if s, e :| Occurs(words, lower, t, s, e) {
      OccurrenceIsHit(words, lower, t, s, e);
      var l := LastHitExists(words, lower, t, e);
    }
  }

  // ---- Two inputs on which the answer is wrong ----

  // A lowering that shrinks the three bytes of the Kelvin sign to "k" and
  // leaves every other string alone.
  const KELVIN: Word := [0xE2, 0x84, 0xAA]

  function KelvinLower(w: Word): Word { if w == KELVIN then [0x6B] else w }

  // The text "k" contains the listed word, and the scan answers "not found".
  lemma KelvinIsMissed()
    ensures SomethingOccurs([KELVIN], KelvinLower, KelvinLower(KELVIN))
    ensures Answer(ScanText([KELVIN], KelvinLower, KelvinLower(KELVIN))) == (KELVIN, false)
  {
    var words := [KELVIN];
    var k: Word := [0x6B];
    assert words[..0] == [];
    assert Spelling(words, KelvinLower, k) == KELVIN;
    MissesShrunkWord(words, KelvinLower, k);
    assert k[..0] == [];
    assert ScanText(words, KelvinLower, []) == NO_HIT;
  }

  // U+2C65 and two of U+023A, of two bytes each, which lower to two of U+2C65.
  const A_STROKE: Word := [0xE2, 0xB1, 0xA5]
  const TWO_CAPITALS: Word := [0xC8, 0xBA, 0xC8, 0xBA]
  const STROKES: seq<Word> := [A_STROKE, TWO_CAPITALS]

  // Lower-casing as far as the example goes.
  function StrokeLower(w: Word): Word { if w == TWO_CAPITALS then A_STROKE + A_STROKE else w }

  lemma StrokeSpelling(p: Word)
    ensures Spelling(STROKES, StrokeLower, p) ==
            if p == A_STROKE then A_STROKE else if p == A_STROKE + A_STROKE then TWO_CAPITALS else []
  {
    var first := STROKES[..1];
    assert first == [A_STROKE] && first[..0] == [];
    assert Spelling(first, StrokeLower, p) == if p == A_STROKE then A_STROKE else [];
  }

  lemma {:induction false} NoStrokeEnding(x: Word)
    requires x == [] || x[|x| - 1] != 0xA5
    ensures LongestEnding(STROKES, StrokeLower, x) == []
  {
    StrokeSpelling(x);
    if x != [] { NoStrokeEnding(x[1..]); }
  }

  lemma ScanStrokes(x: Word)
    requires x == A_STROKE + A_STROKE
    ensures ScanText(STROKES, StrokeLower, x) == Best(0, A_STROKE)
  {
    assert x[..6] == x && x[..3] == A_STROKE;
    StrokeSpelling(x);
    StrokeSpelling(A_STROKE);
    NoStrokeEnding(x[..1]);
    NoStrokeEnding(x[..2]);
    NoStrokeEnding(x[..4]);
    NoStrokeEnding(x[..5]);
    assert forall n | 0 <= n < 6 :: x[..n + 1][..n] == x[..n];
    assert ScanText(STROKES, StrokeLower, x[..0]) == NO_HIT;
    assert ScanText(STROKES, StrokeLower, x[..1]) == NO_HIT;
    assert ScanText(STROKES, StrokeLower, x[..2]) == NO_HIT;
    assert ScanText(STROKES, StrokeLower, x[..3]) == Best(0, A_STROKE);
    assert ScanText(STROKES, StrokeLower, x[..4]) == Best(0, A_STROKE);
    assert ScanText(STROKES, StrokeLower, x[..5]) == Best(0, A_STROKE);
  }

  // The flag can be right and the word still wrong: of the two words starting
  // with the text the longer one is passed over, because its start is taken to
  // be two bytes late.
  lemma LengthenedWordIsPassedOver(text: Word)
    requires text == A_STROKE + A_STROKE
    ensures NoneShrinks(STROKES, StrokeLower) && StrokeLower(text) == text
    ensures NaiveFind(STROKES, StrokeLower, text) == (TWO_CAPITALS, true)
    ensures Answer(ScanText(STROKES, StrokeLower, text)) == (A_STROKE, true)
  {
    forall p ensures |Spelling(STROKES, StrokeLower, p)| <= |p| { StrokeSpelling(p); }
    ScanStrokes(text);
    StrokeSpelling(text);
    assert text[..6] == text;
  }
}
