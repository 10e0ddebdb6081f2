// Why the documented bound on the time of Find fails: without links from word
// to word, a walk passes every node on its chain of fail pointers.
module SearchCost {
  import opened Words
  import opened Trie
  import opened Hops
  import opened AhoCorasick

  function Repeat(a: Byte, n: nat): Word
  {
    seq(n, _ => a)
  }

  lemma RepeatShorter(a: Byte, n: nat)
    requires n > 0
    ensures Init(Repeat(a, n)) == Repeat(a, n - 1) == Repeat(a, n)[1..]
  {
  }

  // The trie of the one word w spells the prefixes of lower(w), and only the
  // last of them carries a word.
  lemma OneWord(w: Word, lower: Lowering, p: Word)
    requires w != []
    ensures TriePaths([w], lower) == Prefixes(lower(w), |lower(w)|)
    ensures p != lower(w) ==> Spelling([w], lower, p) == []
  {
    assert [w][..0] == [] && TriePaths([], lower) == {[]};
    PrefixesContain(lower(w), |lower(w)|, 0);
  }

  lemma MemberIsLongest(x: Word, s: set<Word>)
    requires [] in s && x in s
    ensures LongestSuffix(x, s) == x
  {
  }

  lemma OneMoreVisit(words: seq<Word>, lower: Lowering, p: Word, s: set<Word>)
    requires [] in s && p != [] && Spelling(words, lower, p) == []
    ensures ChainVisits(words, lower, p, s) == 1 + ChainVisits(words, lower, LongestSuffix(p[1..], s), s)
  {
  }

  // On a chain of prefixes of a^n with no word among them, every node is passed.
  lemma {:induction false} WholeChainIsWalked(words: seq<Word>, lower: Lowering, s: set<Word>, a: Byte, i: nat)
    requires [] in s && forall k: nat | k <= i :: Repeat(a, k) in s && Spelling(words, lower, Repeat(a, k)) == []
    ensures LongestSuffix(Repeat(a, i), s) == Repeat(a, i)
    ensures ChainVisits(words, lower, Repeat(a, i), s) == i + 1
  {
    hide LongestSuffix;
    MemberIsLongest(Repeat(a, i), s);
    if i > 0 {
      WholeChainIsWalked(words, lower, s, a, i - 1);
      RepeatShorter(a, i);
      OneMoreVisit(words, lower, Repeat(a, i), s);
    }
  }

  lemma NextTriangle(n: nat)
    requires n > 0
    ensures n * (n + 3) == (n - 1) * (n + 2) + 2 * (n + 1)
  {
  }

  lemma {:induction false} WalksAddUp(words: seq<Word>, lower: Lowering, s: set<Word>, a: Byte, n: nat)
    requires [] in s && forall k: nat | k <= n :: Repeat(a, k) in s && Spelling(words, lower, Repeat(a, k)) == []
    ensures 2 * TextVisits(words, lower, Repeat(a, n), s) == n * (n + 3)
  {
    hide LongestSuffix, ChainVisits;
    if n > 0 {
      WalksAddUp(words, lower, s, a, n - 1);
      WholeChainIsWalked(words, lower, s, a, n);
      RepeatShorter(a, n);
      NextTriangle(n);
    }
  }

  // With the one word a^n b, the search of the text a^n looks at n(n+3)/2 nodes.
  lemma SearchIsQuadratic(lower: Lowering, a: Byte, b: Byte, n: nat)
    requires var w := Repeat(a, n) + [b]; lower(w) == w && lower(Repeat(a, n)) == Repeat(a, n)
    ensures 2 * SearchVisits([Repeat(a, n) + [b]], lower, Repeat(a, n)) == n * (n + 3)
  {
    var text, w := Repeat(a, n), Repeat(a, n) + [b];
    var s := TriePaths([w], lower);
    forall k: nat | k <= n ensures Repeat(a, k) in s && Spelling([w], lower, Repeat(a, k)) == [] {
      OneWord(w, lower, Repeat(a, k));
      PrefixesContain(w, n + 1, k);
      assert w[..k] == Repeat(a, k);
    }
    if n > 0 { assert Repeat(a, 1) in s && Repeat(a, 1) != []; }
    WalksAddUp([w], lower, s, a, n);
  }

  lemma QuadraticExceeds(k: nat, n: nat)
    requires n == 4 * k + 1
    ensures 2 * (k * (2 * n + 1)) < n * (n + 3)
  {
    assert k * (2 * n + 1) == 8 * (k * k) + 3 * k;
    assert n * (n + 3) == 16 * (k * k) + 20 * k + 4;
  }

  lemma LengthOfOne(w: Word, lower: Lowering)
    requires w != []
    ensures TotalLength([w], lower) == |lower(w)|
  {
    var none: seq<Word> := [w][..0];
    assert none == [];
  }

  function Same(w: Word): Word { w }

  // So no constant will do: whatever k, some search looks at more than k nodes
  // for each byte of the text and of the words together.
  lemma NoLinearBound(k: nat)
    ensures exists words: seq<Word>, text: Word ::
              NonErasing(words, Same) &&
              SearchVisits(words, Same, text) > k * (|text| + TotalLength(words, Same))
  {
    hide SearchVisits, TotalLength;
    var n := 4 * k + 1;
    var text, w := Repeat(0x61, n), Repeat(0x61, n) + [0x62];
    SearchIsQuadratic(Same, 0x61, 0x62, n);
    LengthOfOne(w, Same);
    QuadraticExceeds(k, n);
    assert |text| + TotalLength([w], Same) == 2 * n + 1;
    assert NonErasing([w], Same);
  }
}
