// The automaton as an arena of nodes. A node's path is the byte string spelled
// from the root to it; paths are ghost data that tie the arena to a set of
// strings, and every property of the automaton is stated on that set.
module Trie {
  import opened Options
  import opened Words

  datatype Node = Node(children: map<Byte, nat>, fail: Option<nat>, word: Word)

  const ROOT: nat := 0

  // All but the last byte.
  function Init(p: Word): (q: Word)
  {
    if p == [] then [] else p[..|p| - 1]
  }

  function Last(p: Word): Byte
    requires p != []
  {
    p[|p| - 1]
  }

  lemma Snoc(p: Word, c: Byte)
    ensures Init(p + [c]) == p && Last(p + [c]) == c
  {
  }

  ghost predicate PrefixClosed(s: set<Word>)
  {
    [] in s && forall p {:trigger Init(p)} | p in s :: Init(p) in s
  }

  // path lists the strings of a prefix-closed set once each, at finds them back.
  ghost predicate Indexed(path: seq<Word>, at: map<Word, nat>)
  {
    && |path| > 0 && path[ROOT] == []
    && PrefixClosed(at.Keys)
    && (forall n | 0 <= n < |path| :: path[n] in at && at[path[n]] == n)
    && (forall p | p in at :: at[p] < |path| && path[at[p]] == p)
  }

  // The edges out of a node with path p lead to the one-byte extensions of p.
  ghost predicate EdgesOf(children: map<Byte, nat>, p: Word, at: map<Word, nat>)
  {
    forall c: Byte ::
      && (c in children <==> p + [c] in at)
      && (c in children ==> children[c] == at[p + [c]])
  }

  // The arena spells exactly the strings in at.
  ghost predicate IsTrie(nodes: seq<Node>, path: seq<Word>, at: map<Word, nat>)
  {
    && |nodes| == |path|
    && Indexed(path, at)
    && forall n {:trigger nodes[n]} | 0 <= n < |nodes| :: EdgesOf(nodes[n].children, path[n], at)
  }

  // ---- Longest suffixes in a set of strings ----

  ghost function LongestSuffix(x: Word, s: set<Word>): (r: Word)
    requires [] in s
    ensures r in s && IsSuffix(r, x)
    ensures forall y | y in s && IsSuffix(y, x) :: |y| <= |r|
  {
    if x in s then x
    else
      assert x != [];
      assert forall y | y in s && IsSuffix(y, x) :: |y| < |x| && IsSuffix(y, x[1..]);
      LongestSuffix(x[1..], s)
  }

  // The longest proper suffix of x in s.
  ghost function LongestProperSuffix(x: Word, s: set<Word>): (r: Word)
    requires [] in s && x != []
  {
    LongestSuffix(x[1..], s)
  }

  lemma LongestSuffixIsUnique(x: Word, s: set<Word>, r: Word)
    requires [] in s && r in s && IsSuffix(r, x)
    requires forall y | y in s && IsSuffix(y, x) :: |y| <= |r|
    ensures r == LongestSuffix(x, s)
  {
    var z := LongestSuffix(x, s);
    assert |z| == |r|;
    assert z == x[|x| - |z|..] && r == x[|x| - |r|..];
  }

  lemma SuffixOfSuffix(a: Word, b: Word, x: Word)
    requires IsSuffix(a, x) && IsSuffix(b, x) && |a| <= |b|
    ensures IsSuffix(a, b)
  {
  }

  lemma SuffixTransitive(a: Word, b: Word, x: Word)
    requires IsSuffix(a, b) && IsSuffix(b, x)
    ensures IsSuffix(a, x)
  {
  }

  // The suffixes of x + [c] in a prefix-closed set are [] and y + [c] for
  // suffixes y of x in the set.
  lemma SuffixOfExtension(x: Word, c: Byte, z: Word, s: set<Word>)
    requires PrefixClosed(s) && z in s && IsSuffix(z, x + [c]) && z != []
    ensures Init(z) in s && IsSuffix(Init(z), x) && z == Init(z) + [c]
  {
  }

  // No suffix y of x longer than k can be extended by c within s.
  ghost predicate Extends(x: Word, c: Byte, s: set<Word>, k: int)
  {
    forall y | IsSuffix(y, x) && y + [c] in s :: |y| <= k
  }

  // If q is the longest suffix of x that c could extend, and c does not extend
  // it, the next candidate is q's longest proper suffix in s.
  lemma NextCandidate(x: Word, c: Byte, s: set<Word>, q: Word)
    requires PrefixClosed(s) && q in s && q != [] && IsSuffix(q, x)
    requires Extends(x, c, s, |q|) && q + [c] !in s
    ensures var r := LongestProperSuffix(q, s);
            r in s && IsSuffix(r, x) && |r| < |q| && Extends(x, c, s, |r|)
  {
    hide LongestSuffix, IsSuffix;
    var r := LongestProperSuffix(q, s);
    ProperSuffix(r, q, x);
    forall y | IsSuffix(y, x) && y + [c] in s ensures |y| <= |r| {
      InitOf(y, c, s);
      SuffixBelow(y, q, x);
    }
  }

  lemma InitOf(y: Word, c: Byte, s: set<Word>)
    requires PrefixClosed(s) && y + [c] in s
    ensures y in s
  {
    Snoc(y, c);
  }

  lemma ProperSuffix(r: Word, q: Word, x: Word)
    requires q != [] && IsSuffix(r, q[1..]) && IsSuffix(q, x)
    ensures IsSuffix(r, x) && |r| < |q|
  {
    SuffixTransitive(r, q[1..], x);
  }

  lemma SuffixBelow(y: Word, q: Word, x: Word)
    requires q != [] && IsSuffix(y, x) && IsSuffix(q, x) && |y| <= |q|
    ensures y == q || IsSuffix(y, q[1..])
  {
    SuffixOfSuffix(y, q, x);
  }

  // If c extends the longest candidate q, the result is the longest suffix of x + [c].
  lemma ExtendedCandidate(x: Word, c: Byte, s: set<Word>, q: Word)
    requires PrefixClosed(s) && IsSuffix(q, x) && q + [c] in s && Extends(x, c, s, |q|)
    ensures q + [c] == LongestSuffix(x + [c], s)
  {
    forall z | z in s && IsSuffix(z, x + [c]) ensures |z| <= |q| + 1 {
      if z != [] { SuffixOfExtension(x, c, z, s); }
    }
    assert IsSuffix(q + [c], x + [c]);
    LongestSuffixIsUnique(x + [c], s, q + [c]);
  }

  // If no candidate is left, the longest suffix of x + [c] is the empty one.
  lemma NoCandidate(x: Word, c: Byte, s: set<Word>)
    requires PrefixClosed(s) && Extends(x, c, s, -1)
    ensures LongestSuffix(x + [c], s) == []
  {
    forall z | z in s && IsSuffix(z, x + [c]) ensures z == [] {
      if z != [] { SuffixOfExtension(x, c, z, s); }
    }
  }

  // ---- Fail pointers ----

  // The fail pointer of a node, when set, leads to the node spelling the longest
  // proper suffix of its path; the root never has one.
  ghost predicate FailIsLongestProperSuffix(nodes: seq<Node>, path: seq<Word>, at: map<Word, nat>, n: nat)
    requires n < |nodes| == |path| && [] in at
  {
    nodes[n].fail.Some? ==>
      && n != ROOT && path[n] != []
      && var r := LongestProperSuffix(path[n], at.Keys); nodes[n].fail.value == at[r]
  }

  ghost predicate FailsLinked(nodes: seq<Node>, path: seq<Word>, at: map<Word, nat>)
    requires IsTrie(nodes, path, at)
  {
    && nodes[ROOT].fail == None
    && forall n | 0 < n < |nodes| :: nodes[n].fail.Some? && FailIsLongestProperSuffix(nodes, path, at, n)
  }

  // Two arenas that differ in fail pointers only.
  ghost predicate SameTrie(a: seq<Node>, b: seq<Node>)
  {
    && |a| == |b|
    && forall n | 0 <= n < |a| :: a[n].children == b[n].children && a[n].word == b[n].word
  }

  lemma SameTrieIsTrie(a: seq<Node>, b: seq<Node>, path: seq<Word>, at: map<Word, nat>)
    requires IsTrie(a, path, at) && SameTrie(a, b)
    ensures IsTrie(b, path, at)
  {
  }
}
