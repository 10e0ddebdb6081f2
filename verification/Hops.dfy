// The cost of computing fail pointers: how far the walk along fail pointers
// goes for one node, and why all the walks together are linear.
module Hops {
  import opened Words
  import opened Trie

  // Length of the string the fail pointer of p leads to.
  ghost function FailDepth(p: Word, s: set<Word>): nat
    requires [] in s
  {
    if p == [] then 0 else |LongestProperSuffix(p, s)|
  }

  // What linking p may cost. Nodes right below the root cost nothing.
  ghost function Work(p: Word, s: set<Word>): int
    requires [] in s
  {
    if |p| < 2 then 0 else FailDepth(Init(p), s) + 1 - FailDepth(p, s)
  }

  lemma WorkOfChild(p: Word, c: Byte, s: set<Word>)
    requires [] in s && p != []
    ensures Work(p + [c], s) == FailDepth(p, s) + 1 - |LongestProperSuffix(p + [c], s)|
  {
    Snoc(p, c);
  }

  // Dropping the last byte of x shortens its longest suffix by one byte at most.
  lemma LongestSuffixOfInit(x: Word, c: Byte, s: set<Word>)
    requires PrefixClosed(s)
    ensures |LongestSuffix(x + [c], s)| <= |LongestSuffix(x, s)| + 1
  {
    var z := LongestSuffix(x + [c], s);
    if z != [] {
      SuffixOfExtension(x, c, z, s);
      assert |Init(z)| <= |LongestSuffix(x, s)|;
    }
  }

  lemma WorkIsNonNegative(p: Word, s: set<Word>)
    requires PrefixClosed(s)
    ensures Work(p, s) >= 0
  {
    if |p| >= 2 {
      assert p[1..] == Init(p)[1..] + [Last(p)];
      LongestSuffixOfInit(Init(p)[1..], Last(p), s);
    }
  }

  ghost function TotalWork(ps: set<Word>, s: set<Word>): int
    requires [] in s
  {
    if ps == {} then 0 else
      var p :| p in ps;
      Work(p, s) + TotalWork(ps - {p}, s)
  }

  lemma {:induction false} TotalWorkRemove(ps: set<Word>, s: set<Word>, p: Word)
    requires [] in s && p in ps
    ensures TotalWork(ps, s) == Work(p, s) + TotalWork(ps - {p}, s)
    decreases |ps|
  {
    var q :| q in ps && TotalWork(ps, s) == Work(q, s) + TotalWork(ps - {q}, s);
    if q != p {
      TotalWorkRemove(ps - {q}, s, p);
      TotalWorkRemove(ps - {p}, s, q);
      assert ps - {q} - {p} == ps - {p} - {q};
    }
  }

  lemma TotalWorkAdd(ps: set<Word>, s: set<Word>, p: Word)
    requires [] in s && p !in ps
    ensures TotalWork(ps + {p}, s) == Work(p, s) + TotalWork(ps, s)
  {
    TotalWorkRemove(ps + {p}, s, p);
    assert ps + {p} - {p} == ps;
  }

  lemma {:induction false} TotalWorkMonotone(ps: set<Word>, qs: set<Word>, s: set<Word>)
    requires PrefixClosed(s) && ps <= qs
    ensures TotalWork(ps, s) <= TotalWork(qs, s)
    decreases |qs - ps|
  {
    if qs - ps == {} {
      assert ps == qs;
    } else {
      var q :| q in qs - ps;
      TotalWorkAdd(ps, s, q);
      WorkIsNonNegative(q, s);
      assert qs - (ps + {q}) < qs - ps;
      TotalWorkMonotone(ps + {q}, qs, s);
    }
  }

  // The prefixes of w of length at most n.
  ghost function Prefixes(w: Word, n: nat): set<Word>
    requires n <= |w|
  {
    if n == 0 then {[]} else Prefixes(w, n - 1) + {w[..n]}
  }

  lemma {:induction false} PrefixesContain(w: Word, n: nat, k: nat)
    requires k <= n <= |w|
    ensures w[..k] in Prefixes(w, n)
  {
    if n > k { PrefixesContain(w, n - 1, k); }
  }

  // Along one word the work telescopes: what is saved on a deep fail pointer is
  // paid back when it falls. Paths already counted come for free.
  lemma {:induction false} WorkAlongWord(ps: set<Word>, s: set<Word>, w: Word, n: nat)
    requires PrefixClosed(s) && n <= |w|
    ensures TotalWork(ps + Prefixes(w, n), s) <= TotalWork(ps, s) + n - FailDepth(w[..n], s)
  {
    if n == 0 {
      if [] in ps { assert ps + {[]} == ps; } else { TotalWorkAdd(ps, s, []); }
    } else {
      WorkAlongWord(ps, s, w, n - 1);
      var sofar := ps + Prefixes(w, n - 1);
      assert ps + Prefixes(w, n) == sofar + {w[..n]};
      assert Init(w[..n]) == w[..n - 1];
      WorkIsNonNegative(w[..n], s);
      assert n >= 2 ==> Work(w[..n], s) == FailDepth(w[..n - 1], s) + 1 - FailDepth(w[..n], s);
      assert n == 1 ==> FailDepth(w[..n], s) == 0;
      if w[..n] in sofar { assert sofar + {w[..n]} == sofar; } else { TotalWorkAdd(sofar, s, w[..n]); }
    }
  }

  // ---- Looking for words ----

  // How many nodes the walk for a word looks at from the node with path p: it
  // ends at the first one that carries a word, or at the root.
  ghost function ChainVisits(words: seq<Word>, lower: Lowering, p: Word, s: set<Word>): nat
    requires [] in s
    decreases |p|
  {
    if p == [] || Spelling(words, lower, p) != [] then 1
    else 1 + ChainVisits(words, lower, LongestProperSuffix(p, s), s)
  }

  // One walk for every position of t.
  ghost function TextVisits(words: seq<Word>, lower: Lowering, t: Word, s: set<Word>): nat
    requires [] in s
  {
    if t == [] then 0
    else TextVisits(words, lower, Init(t), s) + ChainVisits(words, lower, LongestSuffix(t, s), s)
  }

  lemma {:induction false} WalkIsShort(words: seq<Word>, lower: Lowering, p: Word, s: set<Word>)
    requires [] in s
    ensures ChainVisits(words, lower, p, s) <= |p| + 1
    decreases |p|
  {
    if p != [] && Spelling(words, lower, p) == [] {
      WalkIsShort(words, lower, LongestProperSuffix(p, s), s);
    }
  }

  // No walk is longer than the deepest node.
  lemma {:induction false} WalksAreShort(words: seq<Word>, lower: Lowering, t: Word, s: set<Word>, depth: nat)
    requires [] in s && forall p | p in s :: |p| <= depth
    ensures TextVisits(words, lower, t, s) <= |t| * (depth + 1)
  {
    hide ChainVisits, LongestSuffix;
    if t != [] {
      WalksAreShort(words, lower, Init(t), s, depth);
      WalkIsShort(words, lower, LongestSuffix(t, s), s);
      assert |t| * (depth + 1) == (|t| - 1) * (depth + 1) + (depth + 1);
    }
  }

  lemma TextVisitsStep(words: seq<Word>, lower: Lowering, x: Word, c: Byte, s: set<Word>)
    requires [] in s
    ensures TextVisits(words, lower, x + [c], s) ==
            TextVisits(words, lower, x, s) + ChainVisits(words, lower, LongestSuffix(x + [c], s), s)
  {
    Snoc(x, c);
  }

  lemma {:induction false} PrefixesAreShort(w: Word, n: nat, p: Word)
    requires n <= |w| && p in Prefixes(w, n)
    ensures |p| <= n
  {
    if n > 0 && p != w[..n] { PrefixesAreShort(w, n - 1, p); }
  }
}
