// Byte strings, word lists and the plain search that the automaton of
// AhoCorasick.dfy has to agree with. Nothing here mentions the automaton.
module Words {

  type Byte = b: int | 0 <= b < 256

  type Word = seq<Byte>

  // Lower-casing is the standard library's and is left abstract.
  type Lowering = Word -> Word

  predicate IsSuffix(a: Word, b: Word)
  {
    |a| <= |b| && a == b[|b| - |a|..]
  }

  // The configured spelling under which the lowered word p is reported: the
  // first non-empty entry that lowers to p; empty when p is not configured.
  function Spelling(words: seq<Word>, lower: Lowering, p: Word): (w: Word)
  {
    if words == [] then []
    else
      var n := |words| - 1;
      var earlier := Spelling(words[..n], lower, p);
      if earlier != [] then earlier
      else if words[n] != [] && lower(words[n]) == p then words[n]
      else []
  }

  // Spelling is the first-listed one, and it is missing only if no entry fits.
  lemma {:induction false} SpellingIsFirstListed(words: seq<Word>, lower: Lowering, p: Word)
    ensures Spelling(words, lower, p) == [] <==>
            forall i | 0 <= i < |words| && words[i] != [] :: lower(words[i]) != p
    ensures Spelling(words, lower, p) != [] ==>
              exists i | 0 <= i < |words| ::
                && words[i] == Spelling(words, lower, p) && words[i] != [] && lower(words[i]) == p
                && forall j | 0 <= j < i && words[j] != [] :: lower(words[j]) != p
  {
    if words != [] {
      var n := |words| - 1;
      SpellingIsFirstListed(words[..n], lower, p);
      if Spelling(words[..n], lower, p) != [] {
        var i :| 0 <= i < n && words[..n][i] == Spelling(words[..n], lower, p)
                 && words[..n][i] != [] && lower(words[..n][i]) == p
                 && forall j | 0 <= j < i && words[..n][j] != [] :: lower(words[..n][j]) != p;
        assert words[i] == words[..n][i];
        assert forall j | 0 <= j < i :: words[j] == words[..n][j];
      } else {
        assert forall i | 0 <= i < n :: words[i] == words[..n][i];
      }
    }
  }

  // Lowering never turns a non-empty entry into the empty string.
  ghost predicate NonErasing(words: seq<Word>, lower: Lowering)
  {
    forall i | 0 <= i < |words| && words[i] != [] :: lower(words[i]) != []
  }

  // Lowering keeps the byte length of every entry.
  ghost predicate KeepsLength(words: seq<Word>, lower: Lowering)
  {
    forall i | 0 <= i < |words| :: |lower(words[i])| == |words[i]|
  }

  // Some configured word, lowered, is exactly t[s..e].
  ghost predicate Occurs(words: seq<Word>, lower: Lowering, t: Word, s: int, e: int)
  {
    0 <= s < e <= |t| && Spelling(words, lower, t[s..e]) != []
  }

  // The longest configured word that is a prefix of t and at most n long.
  function LongestAt(words: seq<Word>, lower: Lowering, t: Word, n: nat): (w: Word)
    requires n <= |t|
  {
    if n == 0 then []
    else if Spelling(words, lower, t[..n]) != [] then Spelling(words, lower, t[..n])
    else LongestAt(words, lower, t, n - 1)
  }

  // The plain search: try the start positions from the left and, at the first
  // one where a word begins, report the longest word beginning there.
  function NaiveFind(words: seq<Word>, lower: Lowering, t: Word): (r: (Word, bool))
  {
    if t == [] then ([], false)
    else
      var w := LongestAt(words, lower, t, |t|);
      if w != [] then (w, true) else NaiveFind(words, lower, t[1..])
  }

  // (s, e) is the leftmost occurrence and the longest one starting there.
  ghost predicate LeftmostLongest(words: seq<Word>, lower: Lowering, t: Word, s: int, e: int)
  {
    && Occurs(words, lower, t, s, e)
    && forall s', e' | Occurs(words, lower, t, s', e') :: s < s' || (s == s' && e' <= e)
  }

  lemma {:induction false} LongestAtIsLongest(words: seq<Word>, lower: Lowering, t: Word, n: nat, e: nat)
    requires 0 < e <= n <= |t|
    requires Spelling(words, lower, t[..e]) != []
    requires forall e' | e < e' <= n :: Spelling(words, lower, t[..e']) == []
    ensures LongestAt(words, lower, t, n) == Spelling(words, lower, t[..e])
  {
    if e < n {
      LongestAtIsLongest(words, lower, t, n - 1, e);
    }
  }

  lemma {:induction false} LongestAtMisses(words: seq<Word>, lower: Lowering, t: Word, n: nat)
    requires n <= |t|
    requires forall e | 0 < e <= n :: Spelling(words, lower, t[..e]) == []
    ensures LongestAt(words, lower, t, n) == []
  {
    if n > 0 {
      LongestAtMisses(words, lower, t, n - 1);
    }
  }

  // The plain search reports the leftmost-longest occurrence in its
  // first-listed spelling ...
  lemma {:induction false} NaiveFinds(words: seq<Word>, lower: Lowering, t: Word, s: nat, e: nat)
    requires LeftmostLongest(words, lower, t, s, e)
    ensures NaiveFind(words, lower, t) == (Spelling(words, lower, t[s..e]), true)
  {
    if s == 0 {
      forall e' | e < e' <= |t| ensures Spelling(words, lower, t[..e']) == [] {
        assert t[0..e'] == t[..e'];
        assert !Occurs(words, lower, t, 0, e');
      }
      assert t[0..e] == t[..e];
      LongestAtIsLongest(words, lower, t, |t|, e);
    } else {
      forall e' | 0 < e' <= |t| ensures Spelling(words, lower, t[..e']) == [] {
        assert t[0..e'] == t[..e'];
        assert !Occurs(words, lower, t, 0, e');
      }
      LongestAtMisses(words, lower, t, |t|);
      assert t[1..][s - 1..e - 1] == t[s..e];
      forall s', e' | Occurs(words, lower, t[1..], s', e') ensures s - 1 < s' || (s - 1 == s' && e' <= e - 1) {
        assert t[1..][s'..e'] == t[s' + 1..e' + 1];
        assert Occurs(words, lower, t, s' + 1, e' + 1);
      }
      NaiveFinds(words, lower, t[1..], s - 1, e - 1);
    }
  }

  // ... and a miss exactly when nothing occurs.
  lemma {:induction false} NaiveMisses(words: seq<Word>, lower: Lowering, t: Word)
    requires forall s, e :: !Occurs(words, lower, t, s, e)
    ensures NaiveFind(words, lower, t) == ([], false)
  {
    if t != [] {
      forall e | 0 < e <= |t| ensures Spelling(words, lower, t[..e]) == [] {
        assert t[0..e] == t[..e];
        assert !Occurs(words, lower, t, 0, e);
      }
      LongestAtMisses(words, lower, t, |t|);
      forall s, e ensures !Occurs(words, lower, t[1..], s, e) {
        if 0 <= s < e <= |t| - 1 {
          assert t[1..][s..e] == t[s + 1..e + 1];
          assert !Occurs(words, lower, t, s + 1, e + 1);
        }
      }
      NaiveMisses(words, lower, t[1..]);
    }
  }
}
