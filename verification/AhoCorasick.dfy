// The matcher: Build follows New (insert every word, then compute the fail
// pointers breadth first) and Find follows Find.
module AhoCorasick {
  import opened Options
  import opened Words
  import opened Scan
  import opened Trie
  import opened Hops

  // The strings the trie spells: the empty one and every prefix of a lowered word.
  ghost function TriePaths(words: seq<Word>, lower: Lowering): (s: set<Word>)
    ensures [] in s
  {
    if words == [] then {[]}
    else
      var n := |words| - 1;
      TriePaths(words[..n], lower) + if words[n] == [] then {} else Prefixes(lower(words[n]), |lower(words[n])|)
  }

  lemma {:induction false} SpelledPathsAreInTrie(words: seq<Word>, lower: Lowering, p: Word)
    requires Spelling(words, lower, p) != []
    ensures p in TriePaths(words, lower)
  {
    var n := |words| - 1;
    if Spelling(words[..n], lower, p) != [] {
      SpelledPathsAreInTrie(words[..n], lower, p);
    } else {
      assert p == lower(words[n])[..|p|];
      PrefixesContain(p, |p|, |p|);
    }
  }

  lemma TriePathsGrow(words: seq<Word>, lower: Lowering, w: Word)
    requires w != []
    ensures TriePaths(words + [w], lower) == TriePaths(words, lower) + Prefixes(lower(w), |lower(w)|)
  {
    assert (words + [w])[..|words|] == words;
  }

  // Every node carries the spelling of its path.
  ghost predicate Labelled(nodes: seq<Node>, path: seq<Word>, words: seq<Word>, lower: Lowering)
  {
    && |nodes| == |path|
    && forall n {:trigger nodes[n]} | 0 <= n < |nodes| :: nodes[n].word == Spelling(words, lower, path[n])
  }

  ghost predicate NoFails(nodes: seq<Node>)
  {
    forall n | 0 <= n < |nodes| :: nodes[n].fail == None
  }

  // ---- Breadth-first search ----

  ghost function Parent(path: seq<Word>, at: map<Word, nat>, n: nat): nat
    requires n < |path|
  {
    if Init(path[n]) in at then at[Init(path[n])] else ROOT
  }

  function Depth(path: seq<Word>, n: nat): nat
  {
    if n < |path| then |path[n]| else 0
  }

  // While the children of cur are being linked: the queue holds nodes that are
  // not expanded yet, sorted by depth and spanning at most two levels.
  ghost predicate QueueOrdered(path: seq<Word>, queue: seq<nat>, expanded: set<nat>, cur: nat)
  {
    && cur < |path| && cur !in expanded && cur !in queue && ROOT !in queue
    && (cur != ROOT ==> ROOT in expanded)
    && (forall n | n in expanded :: n < |path|)
    && (forall n | n in queue ::
          n < |path| && n !in expanded && Depth(path, cur) <= Depth(path, n) <= Depth(path, cur) + 1)
    && (forall i, j | 0 <= i < j < |queue| :: queue[i] != queue[j])
    && (forall i, j | 0 <= i < j < |queue| :: Depth(path, queue[i]) <= Depth(path, queue[j]))
  }

  // A node is linked once its parent is expanded, or is cur with the node's
  // edge not among those still to come; linked nodes are queued until expanded.
  ghost predicate LinkedSoFar(nodes: seq<Node>, path: seq<Word>, at: map<Word, nat>,
                              queue: seq<nat>, expanded: set<nat>, cur: nat, todo: set<Byte>)
    requires |nodes| == |path| > 0
  {
    && nodes[ROOT].fail == None
    && (forall n | 0 < n < |nodes| :: nodes[n].fail.Some? <==> n in queue || n in expanded || n == cur)
    && (forall n | 0 < n < |nodes| ::
          path[n] != [] &&
          (nodes[n].fail.Some? <==>
             Parent(path, at, n) in expanded
             || (Parent(path, at, n) == cur && Last(path[n]) !in todo)))
  }

  ghost predicate Linking(nodes: seq<Node>, path: seq<Word>, at: map<Word, nat>,
                          queue: seq<nat>, expanded: set<nat>, cur: nat, todo: set<Byte>)
    requires |nodes| == |path| > 0 && [] in at
  {
    && QueueOrdered(path, queue, expanded, cur)
    && LinkedSoFar(nodes, path, at, queue, expanded, cur, todo)
    && forall n | 0 <= n < |nodes| :: FailIsLongestProperSuffix(nodes, path, at, n)
  }

  lemma ParentIsShallower(nodes: seq<Node>, path: seq<Word>, at: map<Word, nat>, n: nat)
    requires IsTrie(nodes, path, at) && 0 < n < |nodes|
    ensures path[n] != []
    ensures var m := Parent(path, at, n);
            m < |nodes| && |path[m]| < |path[n]| && path[m] == Init(path[n])
  {
    assert path[n] != [] by { assert at[path[n]] == n && at[path[ROOT]] == ROOT; }
  }

  lemma ChildHasParent(nodes: seq<Node>, path: seq<Word>, at: map<Word, nat>, n: nat, c: Byte)
    requires IsTrie(nodes, path, at) && n < |nodes| && c in nodes[n].children
    ensures var m := nodes[n].children[c];
            0 < m < |nodes| && path[m] == path[n] + [c] && Parent(path, at, m) == n
  {
    var m := nodes[n].children[c];
    assert path[m] == path[n] + [c];
    assert Init(path[m]) == path[n];
  }

  // Siblings are told apart by their edge.
  lemma SameParentSameEdge(nodes: seq<Node>, path: seq<Word>, at: map<Word, nat>, n: nat, m: nat)
    requires IsTrie(nodes, path, at) && 0 < n < |nodes| && 0 < m < |nodes|
    requires path[n] != [] && path[m] != []
    requires Parent(path, at, n) == Parent(path, at, m) && Last(path[n]) == Last(path[m])
    ensures n == m
  {
    ParentIsShallower(nodes, path, at, n);
    ParentIsShallower(nodes, path, at, m);
    assert path[n] == Init(path[n]) + [Last(path[n])];
    assert path[m] == Init(path[m]) + [Last(path[m])];
  }

  // Every node no deeper than cur is linked ...
  lemma {:induction false} ShallowNodesAreLinked(nodes: seq<Node>, path: seq<Word>, at: map<Word, nat>,
      queue: seq<nat>, expanded: set<nat>, cur: nat, todo: set<Byte>, n: nat)
    requires IsTrie(nodes, path, at) && Linking(nodes, path, at, queue, expanded, cur, todo)
    requires 0 < n < |nodes| && |path[n]| <= |path[cur]|
    ensures nodes[n].fail.Some?
    decreases |path[n]|
  {
    ParentIsShallower(nodes, path, at, n);
    var m := Parent(path, at, n);
    if m != ROOT {
      ShallowNodesAreLinked(nodes, path, at, queue, expanded, cur, todo, m);
    }
  }

  // ... and when the queue has run empty, every node.
  lemma {:induction false} AllNodesAreLinked(nodes: seq<Node>, path: seq<Word>, at: map<Word, nat>,
      expanded: set<nat>, cur: nat, n: nat)
    requires IsTrie(nodes, path, at) && Linking(nodes, path, at, [], expanded, cur, {})
    requires 0 < n < |nodes|
    ensures nodes[n].fail.Some?
    decreases |path[n]|
  {
    ParentIsShallower(nodes, path, at, n);
    var m := Parent(path, at, n);
    if m != ROOT {
      AllNodesAreLinked(nodes, path, at, expanded, cur, m);
    }
  }

  lemma Enqueue(path: seq<Word>, queue: seq<nat>, expanded: set<nat>, cur: nat, child: nat)
    requires QueueOrdered(path, queue, expanded, cur)
    requires 0 < child < |path| && child !in expanded && child != cur && child !in queue
    requires |path[child]| == |path[cur]| + 1
    ensures QueueOrdered(path, queue + [child], expanded, cur)
  {
    var queue' := queue + [child];
    forall i, j | 0 <= i < j < |queue'| ensures Depth(path, queue'[i]) <= Depth(path, queue'[j]) {
      assert queue'[i] in queue;
      if j < |queue| { assert queue'[j] == queue[j]; }
    }
    forall i, j | 0 <= i < j < |queue'| ensures queue'[i] != queue'[j] {
      assert queue'[i] in queue;
      if j < |queue| { assert queue'[j] == queue[j]; }
    }
  }

  lemma Dequeue(path: seq<Word>, queue: seq<nat>, expanded: set<nat>, cur: nat)
    requires QueueOrdered(path, queue, expanded, cur) && queue != []
    ensures QueueOrdered(path, queue[1..], expanded + {cur}, queue[0])
    ensures forall n :: n in queue <==> n == queue[0] || n in queue[1..]
  {
    RestOfQueue(path, queue);
  }

  lemma RestOfQueue(path: seq<Word>, queue: seq<nat>)
    requires queue != []
    requires forall i, j | 0 <= i < j < |queue| :: queue[i] != queue[j]
    requires forall i, j | 0 <= i < j < |queue| :: Depth(path, queue[i]) <= Depth(path, queue[j])
    ensures queue[0] in queue && queue[0] !in queue[1..]
    ensures forall n :: n in queue <==> n == queue[0] || n in queue[1..]
    ensures forall n | n in queue[1..] :: Depth(path, queue[0]) <= Depth(path, n)
    ensures var rest := queue[1..];
            && (forall i, j | 0 <= i < j < |rest| :: rest[i] != rest[j])
            && (forall i, j | 0 <= i < j < |rest| :: Depth(path, rest[i]) <= Depth(path, rest[j]))
  {
    hide Depth;
    var rest := queue[1..];
    assert queue == [queue[0]] + rest;
    forall n | n in rest ensures n in queue && n != queue[0] && Depth(path, queue[0]) <= Depth(path, n) {
      var i :| 0 <= i < |rest| && rest[i] == n;
      assert queue[i + 1] == n;
    }
    forall i, j | 0 <= i < j < |rest| ensures rest[i] != rest[j] && Depth(path, rest[i]) <= Depth(path, rest[j]) {
      assert rest[i] == queue[i + 1] && rest[j] == queue[j + 1];
    }
  }

  // Linking one more child of cur: it leaves the edges still to come and joins
  // the queue; no other node is affected.
  lemma LinkedSoFarGrows(nodes: seq<Node>, path: seq<Word>, at: map<Word, nat>,
      queue: seq<nat>, expanded: set<nat>, cur: nat, todo: set<Byte>, c: Byte, child: nat, f: nat)
    requires |nodes| == |path| && 0 < child < |nodes|
    requires LinkedSoFar(nodes, path, at, queue, expanded, cur, todo)
    requires cur !in expanded
    requires Parent(path, at, child) == cur && Last(path[child]) == c
    requires forall n | 0 < n < |nodes| && Parent(path, at, n) == cur && n != child ::
               Last(path[n]) != c
    ensures LinkedSoFar(nodes[child := nodes[child].(fail := Some(f))], path, at,
                        queue + [child], expanded, cur, todo - {c})
  {
    assert forall n :: n in queue + [child] <==> n in queue || n == child;
  }

  // cur's child over c is its only child over c.
  lemma OnlyChild(nodes: seq<Node>, path: seq<Word>, at: map<Word, nat>, cur: nat, c: Byte)
    requires IsTrie(nodes, path, at) && cur < |nodes| && c in nodes[cur].children
    ensures var child := nodes[cur].children[c];
            && 0 < child < |nodes| && path[child] == path[cur] + [c] && Parent(path, at, child) == cur
            && forall n | 0 < n < |nodes| && Parent(path, at, n) == cur && n != child ::
                 path[n] != [] && Last(path[n]) != c
  {
    var child := nodes[cur].children[c];
    ChildHasParent(nodes, path, at, cur, c);
    forall n | 0 < n < |nodes| && n != child && Parent(path, at, n) == cur
      ensures path[n] != [] && Last(path[n]) != c
    {
      ParentIsShallower(nodes, path, at, n);
      if Last(path[n]) == c { SameParentSameEdge(nodes, path, at, n, child); }
    }
  }

  lemma FailsStayRight(nodes: seq<Node>, path: seq<Word>, at: map<Word, nat>, child: nat, f: nat)
    requires 0 < child < |nodes| == |path| && [] in at && path[child] != []
    requires forall n | 0 <= n < |nodes| :: FailIsLongestProperSuffix(nodes, path, at, n)
    requires var r := LongestProperSuffix(path[child], at.Keys); f == at[r]
    ensures var nodes' := nodes[child := nodes[child].(fail := Some(f))];
            forall n | 0 <= n < |nodes'| :: FailIsLongestProperSuffix(nodes', path, at, n)
  {
    var nodes' := nodes[child := nodes[child].(fail := Some(f))];
    forall n | 0 <= n < |nodes'| ensures FailIsLongestProperSuffix(nodes', path, at, n) {
      assert FailIsLongestProperSuffix(nodes, path, at, n);
    }
  }

  lemma LinkChild(nodes: seq<Node>, path: seq<Word>, at: map<Word, nat>,
      queue: seq<nat>, expanded: set<nat>, cur: nat, todo: set<Byte>, c: Byte, child: nat, f: nat)
    requires 0 < child < |nodes| == |path| && [] in at && cur < |path|
    requires Linking(nodes, path, at, queue, expanded, cur, todo) && c in todo
    requires path[child] == path[cur] + [c] && Parent(path, at, child) == cur && child != cur
    requires forall n | 0 < n < |nodes| && Parent(path, at, n) == cur && n != child ::
               path[n] != [] && Last(path[n]) != c
    requires var r := LongestProperSuffix(path[cur] + [c], at.Keys); f == at[r]
    ensures nodes[child].fail == None
    ensures Linking(nodes[child := nodes[child].(fail := Some(f))], path, at,
                    queue + [child], expanded, cur, todo - {c})
  {
    assert Last(path[child]) == c;
    LinkedSoFarGrows(nodes, path, at, queue, expanded, cur, todo, c, child, f);
    FailsStayRight(nodes, path, at, child, f);
    Enqueue(path, queue, expanded, cur, child);
  }

  // The next node of the queue is taken; all its children are still to come.
  lemma LinkedSoFarMovesOn(nodes: seq<Node>, path: seq<Word>, at: map<Word, nat>,
      queue: seq<nat>, expanded: set<nat>, cur: nat, next: nat, rest: seq<nat>, todo: set<Byte>)
    requires |nodes| == |path| > 0 && next != ROOT
    requires LinkedSoFar(nodes, path, at, queue, expanded, cur, {})
    requires forall n :: n in queue <==> n == next || n in rest
    requires next !in expanded && next != cur
    requires forall n | 0 < n < |nodes| && Parent(path, at, n) == next :: Last(path[n]) in todo
    ensures LinkedSoFar(nodes, path, at, rest, expanded + {cur}, next, todo)
  {
  }

  lemma EdgesToChildren(nodes: seq<Node>, path: seq<Word>, at: map<Word, nat>, next: nat)
    requires IsTrie(nodes, path, at) && next < |nodes|
    ensures forall n | 0 < n < |nodes| && Parent(path, at, n) == next ::
              path[n] != [] && Last(path[n]) in nodes[next].children.Keys
  {
    forall n | 0 < n < |nodes| && Parent(path, at, n) == next
      ensures path[n] != [] && Last(path[n]) in nodes[next].children.Keys
    {
      ParentIsShallower(nodes, path, at, n);
      assert path[next] + [Last(path[n])] == path[n];
      assert path[n] in at;
    }
  }

  lemma TakeNext(nodes: seq<Node>, path: seq<Word>, at: map<Word, nat>,
      queue: seq<nat>, expanded: set<nat>, cur: nat)
    requires IsTrie(nodes, path, at) && Linking(nodes, path, at, queue, expanded, cur, {}) && queue != []
    ensures 0 < queue[0] < |nodes|
    ensures Linking(nodes, path, at, queue[1..], expanded + {cur}, queue[0], nodes[queue[0]].children.Keys)
  {
    var next := queue[0];
    assert next in queue;
    Dequeue(path, queue, expanded, cur);
    EdgesToChildren(nodes, path, at, next);
    LinkedSoFarMovesOn(nodes, path, at, queue, expanded, cur, next, queue[1..], nodes[next].children.Keys);
  }

  // ---- New: the trie ----

  lemma LeafIndexed(path: seq<Word>, at: map<Word, nat>, cur: nat, c: Byte)
    requires Indexed(path, at) && cur < |path| && path[cur] + [c] !in at
    ensures Indexed(path + [path[cur] + [c]], at[path[cur] + [c] := |path|])
  {
    var p := path[cur] + [c];
    Snoc(path[cur], c);
  }

  lemma LeafEdgesOf(children: map<Byte, nat>, q: Word, at: map<Word, nat>, p: Word, leaf: nat)
    requires EdgesOf(children, q, at) && p != [] && p !in at && q != Init(p)
    ensures EdgesOf(children, q, at[p := leaf])
  {
    forall d: Byte ensures q + [d] != p {
      Snoc(q, d);
    }
  }

  // A fresh leaf below cur, reached over c.
  lemma AddLeaf(nodes: seq<Node>, path: seq<Word>, at: map<Word, nat>, cur: nat, c: Byte)
    requires IsTrie(nodes, path, at) && cur < |nodes| && c !in nodes[cur].children
    ensures path[cur] + [c] !in at
    ensures IsTrie(nodes[cur := nodes[cur].(children := nodes[cur].children[c := |nodes|])] + [Node(map[], None, [])],
                   path + [path[cur] + [c]], at[path[cur] + [c] := |nodes|])
  {
    var p, leaf := path[cur] + [c], |nodes|;
    var nodes' := nodes[cur := nodes[cur].(children := nodes[cur].children[c := leaf])] + [Node(map[], None, [])];
    var path', at' := path + [p], at[p := leaf];
    assert EdgesOf(nodes[cur].children, path[cur], at);
    assert p !in at;
    LeafIndexed(path, at, cur, c);
    Snoc(path[cur], c);
    forall n | 0 <= n < |nodes'| ensures EdgesOf(nodes'[n].children, path'[n], at') {
      if n == leaf {
        forall d: Byte ensures p + [d] !in at' {
          Snoc(p, d);
        }
      } else if n == cur {
        assert forall d: Byte | d != c :: path[cur] + [d] != p by {
          assert forall d: Byte :: (path[cur] + [d])[|path[cur]|] == d;
        }
      } else {
        assert at[path[n]] == n;
        assert EdgesOf(nodes[n].children, path[n], at);
        LeafEdgesOf(nodes[n].children, path[n], at, p, leaf);
      }
    }
  }

  // The trie while words are being added: fail pointers are not computed yet.
  ghost predicate Growing(nodes: seq<Node>, path: seq<Word>, at: map<Word, nat>,
                          words: seq<Word>, lower: Lowering)
  {
    && IsTrie(nodes, path, at) && TriePaths(words, lower) <= at.Keys
    && Labelled(nodes, path, words, lower) && NoFails(nodes)
  }

  lemma LeafIsLabelled(nodes: seq<Node>, path: seq<Word>, words: seq<Word>, lower: Lowering,
                       cur: nat, children: map<Byte, nat>, p: Word)
    requires Labelled(nodes, path, words, lower) && NoFails(nodes) && cur < |nodes|
    requires Spelling(words, lower, p) == []
    ensures var nodes' := nodes[cur := nodes[cur].(children := children)] + [Node(map[], None, [])];
            Labelled(nodes', path + [p], words, lower) && NoFails(nodes')
  {
  }

  // One step down the trie, adding the child if it is missing.
  method Descend(nodes0: seq<Node>, cur: nat, c: Byte, ghost words: seq<Word>, ghost lower: Lowering,
                 ghost path0: seq<Word>, ghost at0: map<Word, nat>)
    returns (nodes: seq<Node>, next: nat, ghost path: seq<Word>, ghost at: map<Word, nat>)
    requires Growing(nodes0, path0, at0, words, lower) && cur < |nodes0|
    ensures Growing(nodes, path, at, words, lower) && at.Keys == at0.Keys + {path0[cur] + [c]}
    ensures next < |nodes| && path[next] == path0[cur] + [c]
  {
    nodes, path, at := nodes0, path0, at0;
    assert EdgesOf(nodes[cur].children, path[cur], at);
    if c in nodes[cur].children {
      next := nodes[cur].children[c];
    } else {
      AddLeaf(nodes, path, at, cur, c);
      ghost var p := path[cur] + [c];
      if Spelling(words, lower, p) != [] { SpelledPathsAreInTrie(words, lower, p); }
      next := |nodes|;
      LeafIsLabelled(nodes, path, words, lower, cur, nodes[cur].children[c := next], p);
      nodes := nodes[cur := nodes[cur].(children := nodes[cur].children[c := next])] + [Node(map[], None, [])];
      path, at := path + [p], at[p := next];
    }
  }

  lemma LastWordLabelled(nodes: seq<Node>, path: seq<Word>, at: map<Word, nat>,
                         words: seq<Word>, lower: Lowering, w: Word, cur: nat)
    requires Labelled(nodes, path, words, lower) && IsTrie(nodes, path, at) && NoFails(nodes)
    requires w != [] && cur < |nodes| && path[cur] == lower(w)
    ensures var nodes' := if nodes[cur].word == [] then nodes[cur := nodes[cur].(word := w)] else nodes;
            Labelled(nodes', path, words + [w], lower) && IsTrie(nodes', path, at) && NoFails(nodes')
  {
    assert (words + [w])[..|words|] == words;
    forall n | 0 <= n < |path| && path[n] == lower(w) ensures n == cur {
      assert at[path[n]] == n && at[path[cur]] == cur;
    }
    var nodes' := if nodes[cur].word == [] then nodes[cur := nodes[cur].(word := w)] else nodes;
    forall n | 0 <= n < |nodes'| ensures EdgesOf(nodes'[n].children, path[n], at) {
      assert EdgesOf(nodes[n].children, path[n], at);
    }
  }

  lemma PrefixesStep(keys: set<Word>, keys0: set<Word>, w: Word, n: nat)
    requires n < |w| && keys == keys0 + Prefixes(w, n)
    ensures keys + {w[..n + 1]} == keys0 + Prefixes(w, n + 1)
  {
  }

  lemma NextPrefix(t: Word, i: nat)
    requires i < |t|
    ensures t[..i + 1] == t[..i] + [t[i]]
  {
  }

  lemma WholePrefix(t: Word)
    ensures t[..|t|] == t
  {
  }

  // The path of a lowered word, added below the root; end is its last node.
  method AddPath(nodes0: seq<Node>, lowered: Word, ghost words: seq<Word>, ghost lower: Lowering,
                 ghost path0: seq<Word>, ghost at0: map<Word, nat>)
    returns (nodes: seq<Node>, end: nat, ghost path: seq<Word>, ghost at: map<Word, nat>)
    requires Growing(nodes0, path0, at0, words, lower)
    ensures Growing(nodes, path, at, words, lower)
    ensures at.Keys == at0.Keys + Prefixes(lowered, |lowered|)
    ensures end < |nodes| == |path| && path[end] == lowered
  {
    nodes, path, at, end := nodes0, path0, at0, ROOT;
    for i := 0 to |lowered|
      invariant Growing(nodes, path, at, words, lower)
      invariant end < |nodes| == |path| && path[end] == lowered[..i]
      invariant at.Keys == at0.Keys + Prefixes(lowered, i)
    {
      NextPrefix(lowered, i);
      ghost var keys := at.Keys;
      nodes, end, path, at := Descend(nodes, end, lowered[i], words, lower, path, at);
      assert at.Keys == keys + {lowered[..i + 1]};
      PrefixesStep(keys, at0.Keys, lowered, i);
    }
    WholePrefix(lowered);
  }

  method AddWord(nodes0: seq<Node>, w: Word, lower: Lowering,
                 ghost words: seq<Word>, ghost path0: seq<Word>, ghost at0: map<Word, nat>)
    returns (nodes: seq<Node>, ghost path: seq<Word>, ghost at: map<Word, nat>)
    requires Growing(nodes0, path0, at0, words, lower) && at0.Keys == TriePaths(words, lower)
    requires w != []
    ensures Growing(nodes, path, at, words + [w], lower) && at.Keys == TriePaths(words + [w], lower)
  {
    var end;
    nodes, end, path, at := AddPath(nodes0, lower(w), words, lower, path0, at0);
    TriePathsGrow(words, lower, w);
    LastWordLabelled(nodes, path, at, words, lower, w, end);
    if nodes[end].word == [] {
      nodes := nodes[end := nodes[end].(word := w)];
    }
  }

  // ---- New: the fail pointers ----

  // Every node no deeper than d has its fail pointer.
  ghost predicate LinkedDownTo(nodes: seq<Node>, path: seq<Word>, at: map<Word, nat>, d: nat)
    requires |nodes| == |path| > 0 && [] in at
  {
    && nodes[ROOT].fail == None
    && forall n {:trigger nodes[n]} | 0 < n < |nodes| && |path[n]| <= d ::
         nodes[n].fail.Some? && FailIsLongestProperSuffix(nodes, path, at, n)
  }

  // f leads to the longest suffix of x that c could still extend; a missing
  // pointer means that there is none.
  ghost predicate Candidate(path: seq<Word>, at: map<Word, nat>, x: Word, c: Byte, f: Option<nat>)
  {
    match f
    case Some(n) => n < |path| && IsSuffix(path[n], x) && Extends(x, c, at.Keys, |path[n]|)
    case None => Extends(x, c, at.Keys, -1)
  }

  // Length of a candidate plus one; 0 when there is none.
  ghost function Height(path: seq<Word>, f: Option<nat>): nat
  {
    if f.Some? then Depth(path, f.value) + 1 else 0
  }

  lemma CandidateExtended(nodes: seq<Node>, path: seq<Word>, at: map<Word, nat>, x: Word, c: Byte, n: nat)
    requires IsTrie(nodes, path, at) && Candidate(path, at, x, c, Some(n))
    requires c in nodes[n].children
    ensures var m := nodes[n].children[c];
            && m < |path| && path[m] == path[n] + [c] && path[m] == LongestSuffix(x + [c], at.Keys)
            && m == at[path[m]]
  {
    assert EdgesOf(nodes[n].children, path[n], at);
    ExtendedCandidate(x, c, at.Keys, path[n]);
  }

  // A candidate that c does not extend: its fail pointer is the next candidate.
  lemma CandidateFails(nodes: seq<Node>, path: seq<Word>, at: map<Word, nat>, x: Word, c: Byte, n: nat, d: nat)
    requires IsTrie(nodes, path, at) && LinkedDownTo(nodes, path, at, d)
    requires Candidate(path, at, x, c, Some(n)) && |path[n]| <= d
    requires c !in nodes[n].children
    ensures Candidate(path, at, x, c, nodes[n].fail)
    ensures Height(path, nodes[n].fail) < Height(path, Some(n))
    ensures nodes[n].fail.Some? <==> n != ROOT
  {
    assert EdgesOf(nodes[n].children, path[n], at);
    assert path[n] + [c] !in at;
    if n == ROOT {
      assert forall y: Word | |y| == 0 :: y + [c] == path[n] + [c];
    } else {
      assert path[n] != [] by { assert at[path[n]] == n; }
      NextCandidate(x, c, at.Keys, path[n]);
    }
  }

  // The longest proper suffix of p is the first candidate for extending p by c.
  lemma FirstCandidate(nodes: seq<Node>, path: seq<Word>, at: map<Word, nat>, cur: nat, c: Byte)
    requires IsTrie(nodes, path, at) && 0 < cur < |nodes|
    requires LinkedDownTo(nodes, path, at, |path[cur]|)
    ensures path[cur] != [] && (path[cur] + [c])[1..] == path[cur][1..] + [c]
    ensures nodes[cur].fail.Some? && Candidate(path, at, path[cur][1..], c, nodes[cur].fail)
    ensures Height(path, nodes[cur].fail) == FailDepth(path[cur], at.Keys) + 1 <= |path[cur]|
  {
    assert path[cur] != [] by { assert at[path[cur]] == cur; }
    var s, p := at.Keys, path[cur];
    forall y | IsSuffix(y, p[1..]) && y + [c] in s ensures |y| <= |LongestProperSuffix(p, s)| {
      Snoc(y, c);
    }
  }

  // The fail pointer of cur's child over c.
  method FailTarget(nodes: seq<Node>, cur: nat, c: Byte, ghost path: seq<Word>, ghost at: map<Word, nat>)
    returns (target: nat, ghost hops: nat)
    requires IsTrie(nodes, path, at) && 0 < cur < |nodes|
    requires LinkedDownTo(nodes, path, at, |path[cur]|)
    ensures path[cur] != []
    ensures target == at[LongestProperSuffix(path[cur] + [c], at.Keys)]
    ensures hops <= FailDepth(path[cur], at.Keys) + 1 - |LongestProperSuffix(path[cur] + [c], at.Keys)|
  {
    FirstCandidate(nodes, path, at, cur, c);
    ghost var x := path[cur][1..];
    var f := nodes[cur].fail;
    hops := 0;
    while f.Some?
      invariant Candidate(path, at, x, c, f) && Height(path, f) <= |path[cur]|
      invariant hops + Height(path, f) <= FailDepth(path[cur], at.Keys) + 1
      decreases Height(path, f)
    {
      if c in nodes[f.value].children {
        CandidateExtended(nodes, path, at, x, c, f.value);
        target := nodes[f.value].children[c];
        return;
      }
      CandidateFails(nodes, path, at, x, c, f.value, |path[cur]|);
      f := nodes[f.value].fail;
      hops := hops + 1;
    }
    NoCandidate(x, c, at.Keys);
    target := ROOT;
  }

  lemma FailWritten(nodes: seq<Node>, child: nat, f: nat, path: seq<Word>, at: map<Word, nat>)
    requires child < |nodes| && IsTrie(nodes, path, at)
    ensures var nodes' := nodes[child := nodes[child].(fail := Some(f))];
            IsTrie(nodes', path, at) && SameTrie(nodes, nodes')
  {
    SameTrieIsTrie(nodes, nodes[child := nodes[child].(fail := Some(f))], path, at);
  }

  // The strings whose fail pointer was found by walking, with the hops so far.
  ghost predicate Paid(nodes: seq<Node>, at: map<Word, nat>, walked: set<Word>, hops: int)
  {
    && [] in at && hops <= TotalWork(walked, at.Keys)
    && forall p | p in walked :: p in at && at[p] < |nodes| && nodes[at[p]].fail.Some?
  }

  lemma PayForChild(nodes: seq<Node>, path: seq<Word>, at: map<Word, nat>, walked: set<Word>, hops: int,
                    cur: nat, c: Byte, child: nat, f: nat, more: int)
    requires Indexed(path, at) && |nodes| == |path| && Paid(nodes, at, walked, hops)
    requires cur < |nodes| && path[cur] != [] && 0 < child < |nodes| && path[child] == path[cur] + [c]
    requires nodes[child].fail == None
    requires more <= FailDepth(path[cur], at.Keys) + 1 - |LongestProperSuffix(path[cur] + [c], at.Keys)|
    ensures Paid(nodes[child := nodes[child].(fail := Some(f))], at, walked + {path[child]}, hops + more)
  {
    var p := path[child];
    assert at[p] == child;
    assert p !in walked;
    WorkOfChild(path[cur], c, at.Keys);
    TotalWorkAdd(walked, at.Keys, p);
  }

  // The root's children fail to the root.
  method LinkRootChildren(nodes0: seq<Node>, ghost path: seq<Word>, ghost at: map<Word, nat>)
    returns (nodes: seq<Node>, queue: seq<nat>)
    requires IsTrie(nodes0, path, at) && NoFails(nodes0)
    ensures IsTrie(nodes, path, at) && SameTrie(nodes0, nodes)
    ensures Linking(nodes, path, at, queue, {}, ROOT, {})
  {
    nodes, queue := nodes0, [];
    var todo := nodes[ROOT].children.Keys;
    StartLinking(nodes, path, at);
    while todo != {}
      invariant IsTrie(nodes, path, at) && SameTrie(nodes0, nodes)
      invariant todo <= nodes[ROOT].children.Keys
      invariant Linking(nodes, path, at, queue, {}, ROOT, todo)
      decreases todo
    {
      var c :| c in todo;
      var child := nodes[ROOT].children[c];
      OnlyChild(nodes, path, at, ROOT, c);
      assert LongestProperSuffix(path[ROOT] + [c], at.Keys) == [];
      LinkChild(nodes, path, at, queue, {}, ROOT, todo, c, child, ROOT);
      FailWritten(nodes, child, ROOT, path, at);
      nodes := nodes[child := nodes[child].(fail := Some(ROOT))];
      queue := queue + [child];
      todo := todo - {c};
    }
  }

  lemma StartLinking(nodes: seq<Node>, path: seq<Word>, at: map<Word, nat>)
    requires IsTrie(nodes, path, at) && NoFails(nodes)
    ensures Linking(nodes, path, at, [], {}, ROOT, nodes[ROOT].children.Keys)
  {
    EdgesToChildren(nodes, path, at, ROOT);
    var todo := nodes[ROOT].children.Keys;
    forall n | 0 < n < |nodes|
      ensures path[n] != [] && nodes[n].fail == None
      ensures !(Parent(path, at, n) == ROOT && Last(path[n]) !in todo)
    {
      ParentIsShallower(nodes, path, at, n);
    }
    assert nodes[ROOT].fail == None;
    assert LinkedSoFar(nodes, path, at, [], {}, ROOT, todo);
  }

  lemma LinkedAbove(nodes: seq<Node>, path: seq<Word>, at: map<Word, nat>,
                    queue: seq<nat>, expanded: set<nat>, cur: nat, todo: set<Byte>)
    requires IsTrie(nodes, path, at) && Linking(nodes, path, at, queue, expanded, cur, todo)
    ensures LinkedDownTo(nodes, path, at, |path[cur]|)
  {
    forall n | 0 < n < |nodes| && |path[n]| <= |path[cur]|
      ensures nodes[n].fail.Some? && FailIsLongestProperSuffix(nodes, path, at, n)
    {
      ShallowNodesAreLinked(nodes, path, at, queue, expanded, cur, todo, n);
    }
  }

  // The children of a node taken from the queue, in any order.
  method LinkChildren(nodes0: seq<Node>, cur: nat, queue0: seq<nat>, ghost expanded: set<nat>,
                      ghost path: seq<Word>, ghost at: map<Word, nat>, ghost walked0: set<Word>, ghost hops0: nat)
    returns (nodes: seq<Node>, queue: seq<nat>, ghost walked: set<Word>, ghost hops: nat)
    requires IsTrie(nodes0, path, at) && 0 < cur < |nodes0|
    requires Linking(nodes0, path, at, queue0, expanded, cur, nodes0[cur].children.Keys)
    requires Paid(nodes0, at, walked0, hops0)
    ensures IsTrie(nodes, path, at) && SameTrie(nodes0, nodes)
    ensures Linking(nodes, path, at, queue, expanded, cur, {})
    ensures Paid(nodes, at, walked, hops)
  {
    nodes, queue, walked, hops := nodes0, queue0, walked0, hops0;
    var todo := nodes[cur].children.Keys;
    while todo != {}
      invariant IsTrie(nodes, path, at) && SameTrie(nodes0, nodes)
      invariant todo <= nodes[cur].children.Keys
      invariant Linking(nodes, path, at, queue, expanded, cur, todo)
      invariant Paid(nodes, at, walked, hops)
      decreases todo
    {
      var c :| c in todo;
      var child := nodes[cur].children[c];
      LinkedAbove(nodes, path, at, queue, expanded, cur, todo);
      ghost var more;
      var f;
      f, more := FailTarget(nodes, cur, c, path, at);
      OnlyChild(nodes, path, at, cur, c);
      LinkChild(nodes, path, at, queue, expanded, cur, todo, c, child, f);
      PayForChild(nodes, path, at, walked, hops, cur, c, child, f, more);
      FailWritten(nodes, child, f, path, at);
      walked, hops := walked + {path[child]}, hops + more;
      nodes := nodes[child := nodes[child].(fail := Some(f))];
      queue := queue + [child];
      todo := todo - {c};
    }
  }

  lemma DoneLinking(nodes: seq<Node>, path: seq<Word>, at: map<Word, nat>, expanded: set<nat>, cur: nat)
    requires IsTrie(nodes, path, at) && Linking(nodes, path, at, [], expanded, cur, {})
    ensures FailsLinked(nodes, path, at)
  {
    forall n | 0 < n < |nodes| ensures nodes[n].fail.Some? {
      AllNodesAreLinked(nodes, path, at, expanded, cur, n);
    }
  }

  // All fail pointers, breadth first; the walks make no more hops than the
  // total work of the trie.
  method LinkFails(nodes0: seq<Node>, ghost path: seq<Word>, ghost at: map<Word, nat>)
    returns (nodes: seq<Node>, ghost hops: nat)
    requires IsTrie(nodes0, path, at) && NoFails(nodes0)
    ensures IsTrie(nodes, path, at) && SameTrie(nodes0, nodes)
    ensures FailsLinked(nodes, path, at)
    ensures hops <= TotalWork(at.Keys, at.Keys)
  {
    var queue;
    nodes, queue := LinkRootChildren(nodes0, path, at);
    hops := 0;
    ghost var expanded: set<nat>, last: nat, walked: set<Word> := {}, ROOT, {};
    ghost var all := at.Values;
    while |queue| > 0
      invariant IsTrie(nodes, path, at) && SameTrie(nodes0, nodes)
      invariant Linking(nodes, path, at, queue, expanded, last, {})
      invariant Paid(nodes, at, walked, hops)
      decreases all - expanded
    {
      var cur := queue[0];
      TakeNext(nodes, path, at, queue, expanded, last);
      assert at[path[last]] == last;
      assert last in all && last !in expanded;
      queue := queue[1..];
      expanded, last := expanded + {last}, cur;
      nodes, queue, walked, hops := LinkChildren(nodes, cur, queue, expanded, path, at, walked, hops);
    }
    DoneLinking(nodes, path, at, expanded, last);
    TotalWorkMonotone(walked, at.Keys, at.Keys);
  }

  // Total length of the lowered word list.
  ghost function TotalLength(words: seq<Word>, lower: Lowering): nat
  {
    if words == [] then 0
    else
      var n := |words| - 1;
      TotalLength(words[..n], lower) + if words[n] == [] then 0 else |lower(words[n])|
  }

  lemma {:induction false} WorkIsLinear(words: seq<Word>, lower: Lowering, s: set<Word>)
    requires PrefixClosed(s)
    ensures TotalWork(TriePaths(words, lower), s) <= TotalLength(words, lower)
  {
    if words == [] {
      WorkAlongWord({}, s, [], 0);
      assert {} + Prefixes([], 0) == {[]};
    } else {
      var n := |words| - 1;
      WorkIsLinear(words[..n], lower, s);
      if words[n] != [] {
        WorkAlongWord(TriePaths(words[..n], lower), s, lower(words[n]), |lower(words[n])|);
      } else {
        assert TriePaths(words, lower) == TriePaths(words[..n], lower);
      }
    }
  }

  // Length of the longest lowered word.
  ghost function LongestWord(words: seq<Word>, lower: Lowering): nat
  {
    if words == [] then 0
    else
      var n := |words| - 1;
      var m := LongestWord(words[..n], lower);
      if words[n] != [] && |lower(words[n])| > m then |lower(words[n])| else m
  }

  lemma {:induction false} PathsAreShort(words: seq<Word>, lower: Lowering, p: Word)
    requires p in TriePaths(words, lower)
    ensures |p| <= LongestWord(words, lower)
  {
    if words != [] {
      var n := |words| - 1;
      if p in TriePaths(words[..n], lower) {
        PathsAreShort(words[..n], lower, p);
      } else {
        PrefixesAreShort(lower(words[n]), |lower(words[n])|, p);
      }
    }
  }

  // ---- Find: one text position ----

  // What the trie says about x: its longest suffix in the trie ends with every
  // configured word that x ends with.
  lemma {:induction false} EndingInTrie(words: seq<Word>, lower: Lowering, x: Word, s: set<Word>)
    requires [] in s && TriePaths(words, lower) <= s
    ensures LongestEnding(words, lower, x) == LongestEnding(words, lower, LongestSuffix(x, s))
  {
    if x !in s {
      if Spelling(words, lower, x) != [] { SpelledPathsAreInTrie(words, lower, x); }
      EndingInTrie(words, lower, x[1..], s);
    }
  }

  // The transition on c: fall back until c extends the candidate or the root is
  // reached. A fall never climbs.
  method Advance(nodes: seq<Node>, from: nat, c: Byte, ghost t: Word,
                 ghost path: seq<Word>, ghost at: map<Word, nat>)
    returns (cur: nat, ghost hops: nat)
    requires IsTrie(nodes, path, at) && FailsLinked(nodes, path, at)
    requires from < |nodes| && path[from] == LongestSuffix(t, at.Keys)
    ensures cur < |nodes| && path[cur] == LongestSuffix(t + [c], at.Keys)
    ensures hops + |path[cur]| <= |path[from]| + 1
  {
    cur, hops := from, 0;
    forall y | IsSuffix(y, t) && y + [c] in at.Keys ensures |y| <= |path[from]| { Snoc(y, c); }
    while cur != ROOT && c !in nodes[cur].children
      invariant Candidate(path, at, t, c, Some(cur))
      invariant cur < |nodes| && hops + |path[cur]| <= |path[from]|
      decreases |path[cur]|
    {
      CandidateFails(nodes, path, at, t, c, cur, |path[cur]|);
      cur := nodes[cur].fail.value;
      hops := hops + 1;
    }
    if c in nodes[cur].children {
      CandidateExtended(nodes, path, at, t, c, cur);
      cur := nodes[cur].children[c];
    } else {
      CandidateFails(nodes, path, at, t, c, cur, |path[cur]|);
      NoCandidate(t, c, at.Keys);
    }
  }

  // The first labelled node on cur's chain of fail pointers; visits counts the
  // nodes looked at.
  method FirstWordOnChain(nodes: seq<Node>, cur: nat, ghost words: seq<Word>, ghost lower: Lowering,
                          ghost path: seq<Word>, ghost at: map<Word, nat>)
    returns (word: Word, ghost visits: nat)
    requires IsTrie(nodes, path, at) && FailsLinked(nodes, path, at)
    requires Labelled(nodes, path, words, lower) && TriePaths(words, lower) <= at.Keys
    requires cur < |nodes|
    ensures word == LongestEnding(words, lower, path[cur])
    ensures visits == ChainVisits(words, lower, path[cur], at.Keys) <= |path[cur]| + 1
  {
    WalkIsShort(words, lower, path[cur], at.Keys);
    var n: Option<nat> := Some(cur);
    visits := 0;
    word := [];
    while n.Some?
      invariant n.Some? ==>
        && n.value < |nodes|
        && LongestEnding(words, lower, path[cur]) == LongestEnding(words, lower, path[n.value])
        && ChainVisits(words, lower, path[cur], at.Keys) ==
           visits + ChainVisits(words, lower, path[n.value], at.Keys)
      invariant n == None ==>
        && LongestEnding(words, lower, path[cur]) == []
        && ChainVisits(words, lower, path[cur], at.Keys) == visits
      decreases Height(path, n)
    {
      visits := visits + 1;
      if nodes[n.value].word != [] {
        word := nodes[n.value].word;
        return;
      }
      if n.value != ROOT {
        assert path[n.value] != [] by { assert at[path[n.value]] == n.value; }
        EndingInTrie(words, lower, path[n.value][1..], at.Keys);
        assert FailIsLongestProperSuffix(nodes, path, at, n.value);
      }
      n := nodes[n.value].fail;
    }
  }

  lemma NoOneByteString(nodes: seq<Node>, path: seq<Word>, at: map<Word, nat>, q: Word)
    requires IsTrie(nodes, path, at) && nodes[ROOT].children == map[]
    ensures q in at.Keys ==> |q| != 1
  {
    if |q| == 1 {
      assert q == [] + [q[0]];
      assert EdgesOf(nodes[ROOT].children, path[ROOT], at);
    }
  }

  // A trie with nothing below the root recognises nothing.
  lemma {:induction false} EmptyTrieFindsNothing(nodes: seq<Node>, path: seq<Word>, at: map<Word, nat>,
                                                 words: seq<Word>, lower: Lowering, t: Word)
    requires IsTrie(nodes, path, at) && nodes[ROOT].children == map[]
    requires TriePaths(words, lower) <= at.Keys && NonErasing(words, lower)
    ensures ScanText(words, lower, t) == NO_HIT
  {
    forall q | q in at.Keys ensures |q| != 1 { NoOneByteString(nodes, path, at, q); }
    NothingButRoot(words, lower, t, at.Keys);
  }

  lemma {:induction false} NothingButRoot(words: seq<Word>, lower: Lowering, t: Word, s: set<Word>)
    requires PrefixClosed(s) && [] in s && forall q | q in s :: |q| != 1
    requires TriePaths(words, lower) <= s && NonErasing(words, lower)
    ensures ScanText(words, lower, t) == NO_HIT
  {
    if t != [] {
      NothingButRoot(words, lower, t[..|t| - 1], s);
      EndingInTrie(words, lower, t, s);
      SpellingIsFirstListed(words, lower, []);
      OnlyRoot(s, LongestSuffix(t, s));
    }
  }

  // A prefix-closed set without one-byte strings is { [] }.
  lemma {:induction false} OnlyRoot(s: set<Word>, p: Word)
    requires PrefixClosed(s) && p in s
    requires forall q | q in s :: |q| != 1
    ensures p == []
  {
    if |p| > 1 {
      OnlyRoot(s, Init(p));
    }
  }

  lemma RootIsAll(nodes: seq<Node>, path: seq<Word>, at: map<Word, nat>)
    requires IsTrie(nodes, path, at)
    ensures nodes[ROOT].children == map[] <==> at.Keys == {[]}
  {
    if nodes[ROOT].children == map[] {
      forall q | q in at.Keys ensures |q| != 1 { NoOneByteString(nodes, path, at, q); }
      forall p | p in at.Keys ensures p == [] { OnlyRoot(at.Keys, p); }
    } else {
      var c :| c in nodes[ROOT].children;
      assert EdgesOf(nodes[ROOT].children, path[ROOT], at);
    }
  }

  // The nodes that the walks for words of one search look at.
  ghost function SearchVisits(words: seq<Word>, lower: Lowering, text: Word): nat
  {
    var s := TriePaths(words, lower);
    if s == {[]} then 0 else TextVisits(words, lower, lower(text), s)
  }

  // They are bounded by the length of the text times that of the longest word.
  lemma SearchIsBounded(words: seq<Word>, lower: Lowering, text: Word)
    ensures SearchVisits(words, lower, text) <= |lower(text)| * (LongestWord(words, lower) + 1)
  {
    hide TriePaths, TextVisits, LongestWord;
    forall p | p in TriePaths(words, lower) ensures |p| <= LongestWord(words, lower) {
      PathsAreShort(words, lower, p);
    }
    WalksAreShort(words, lower, lower(text), TriePaths(words, lower), LongestWord(words, lower));
  }

  // One text position of the scan, read off the trie.
  lemma ScanStep(words: seq<Word>, lower: Lowering, x: Word, c: Byte, s: set<Word>)
    requires [] in s && TriePaths(words, lower) <= s
    ensures ScanText(words, lower, x + [c]) ==
            Improve(ScanText(words, lower, x), LongestEnding(words, lower, LongestSuffix(x + [c], s)), |x| + 1)
  {
    ScanExtend(words, lower, x, c);
    EndingInTrie(words, lower, x + [c], s);
  }

  lemma EmptyTrie(words: seq<Word>, lower: Lowering)
    requires words == []
    ensures Growing([Node(map[], None, [])], [[]], map[[] := ROOT], words, lower)
    ensures (map[[] := ROOT]).Keys == TriePaths(words, lower)
  {
    assert EdgesOf(map[], [], map[[] := ROOT]);
  }

  // Read-only once built.
  class Matcher {
    const lower: Lowering
    const nodes: seq<Node>
    ghost const words: seq<Word>
    ghost const path: seq<Word>
    ghost const at: map<Word, nat>
    ghost const hops: nat  // steps along fail pointers made by New

    ghost predicate Valid()
    {
      && IsTrie(nodes, path, at) && at.Keys == TriePaths(words, lower)
      && Labelled(nodes, path, words, lower)
      && FailsLinked(nodes, path, at)
    }

    constructor New(words: seq<Word>, lower: Lowering)
      ensures Valid() && this.words == words && this.lower == lower
      ensures hops <= TotalLength(words, lower)
    {
      var ns: seq<Node> := [Node(map[], None, [])];
      ghost var ps: seq<Word>, idx: map<Word, nat> := [[]], map[[] := ROOT];
      EmptyTrie([], lower);
      for i := 0 to |words|
        invariant Growing(ns, ps, idx, words[..i], lower)
        invariant idx.Keys == TriePaths(words[..i], lower)
      {
        if words[i] == [] {
          SkipEmptyWord(ns, ps, idx, words, lower, i);
          continue;
        }
        assert words[..i] + [words[i]] == words[..i + 1];
        ns, ps, idx := AddWord(ns, words[i], lower, words[..i], ps, idx);
      }
      assert words[..|words|] == words;
      var linked;
      ghost var steps;
      linked, steps := LinkFails(ns, ps, idx);
      WorkIsLinear(words, lower, idx.Keys);
      this.lower, this.nodes := lower, linked;
      this.words, this.path, this.at, this.hops := words, ps, idx, steps;
    }

    // One text position: the next node and the word that ends there.
    method TakeByte(t: Word, i: nat, from: nat)
      returns (cur: nat, word: Word, ghost hops: nat, ghost visits: nat)
      requires Valid() && i < |t| && from < |nodes| && path[from] == LongestSuffix(t[..i], at.Keys)
      ensures cur < |nodes| && path[cur] == LongestSuffix(t[..i + 1], at.Keys)
      ensures ScanText(words, lower, t[..i + 1]) == Improve(ScanText(words, lower, t[..i]), word, i + 1)
      ensures hops + |path[cur]| <= |path[from]| + 1
      ensures TextVisits(words, lower, t[..i + 1], at.Keys) == TextVisits(words, lower, t[..i], at.Keys) + visits
    {
      NextPrefix(t, i);
      cur, hops := Advance(nodes, from, t[i], t[..i], path, at);
      word, visits := FirstWordOnChain(nodes, cur, words, lower, path, at);
      ScanStep(words, lower, t[..i], t[i], at.Keys);
      TextVisitsStep(words, lower, t[..i], t[i], at.Keys);
    }

    // The scan of Scan.dfy in one pass over the lowered text. The transitions
    // make at most as many hops as the text is long, whatever the words; the
    // walks for words look at exactly so many nodes.
    method Find(text: Word) returns (word: Word, ok: bool, ghost hops: nat, ghost visits: nat)
      requires Valid() && NonErasing(words, lower)
      ensures (word, ok) == Answer(ScanText(words, lower, lower(text)))
      ensures hops <= |lower(text)|
      ensures visits == SearchVisits(words, lower, text) <= |lower(text)| * (LongestWord(words, lower) + 1)
    {
      RootIsAll(nodes, path, at);
      SearchIsBounded(words, lower, text);
      if nodes[ROOT].children == map[] {
        EmptyTrieFindsNothing(nodes, path, at, words, lower, lower(text));
        return [], false, 0, 0;
      }
      word, ok, hops, visits := ScanBytes(lower(text));
    }

    method ScanBytes(t: Word) returns (word: Word, ok: bool, ghost hops: nat, ghost visits: nat)
      requires Valid()
      ensures (word, ok) == Answer(ScanText(words, lower, t))
      ensures hops <= |t|
      ensures visits == TextVisits(words, lower, t, at.Keys)
    {
      hops, visits := 0, 0;
      var cur: nat, bestStart: int, bestWord: Word := ROOT, -1, [];
      for i := 0 to |t|
        invariant cur < |nodes| && path[cur] == LongestSuffix(t[..i], at.Keys)
        invariant Best(bestStart, bestWord) == ScanText(words, lower, t[..i])
        invariant hops + |path[cur]| <= i
        invariant visits == TextVisits(words, lower, t[..i], at.Keys)
      {
        ghost var more, looked;
        var w;
        cur, w, more, looked := TakeByte(t, i, cur);
        hops, visits := hops + more, visits + looked;
        if w != [] {
          var start := i - |w| + 1;
          if bestStart < 0 || start <= bestStart {
            bestStart, bestWord := start, w;
          }
        }
      }
      WholePrefix(t);
      return bestWord, bestStart >= 0, hops, visits;
    }
  }

  // In a built automaton the fail pointer of a node leads to the longest string
  // of the trie that is a proper suffix of the node's path, in whatever order
  // New visited the children.
  lemma FailPointerMeaning(m: Matcher, n: nat)
    requires m.Valid() && 0 < n < |m.nodes|
    ensures m.nodes[n].fail.Some? && m.nodes[n].fail.value < |m.nodes|
    ensures var q := m.path[m.nodes[n].fail.value];
            && |q| < |m.path[n]| && IsSuffix(q, m.path[n])
            && forall y | y in TriePaths(m.words, m.lower) && |y| < |m.path[n]| && IsSuffix(y, m.path[n]) ::
                 IsSuffix(y, q)
  {
    var p := m.path[n];
    assert p != [] by { assert m.at[p] == n; }
    assert FailIsLongestProperSuffix(m.nodes, m.path, m.at, n);
    var q := LongestProperSuffix(p, m.at.Keys);
    SuffixTransitive(q, p[1..], p);
    forall y | y in m.at.Keys && |y| < |p| && IsSuffix(y, p) ensures IsSuffix(y, q) {
      assert IsSuffix(y, p[1..]);
      SuffixOfSuffix(y, q, p[1..]);
    }
  }

  lemma SkipEmptyWord(nodes: seq<Node>, path: seq<Word>, at: map<Word, nat>,
                      words: seq<Word>, lower: Lowering, i: nat)
    requires i < |words| && words[i] == []
    requires Growing(nodes, path, at, words[..i], lower)
    ensures Growing(nodes, path, at, words[..i + 1], lower)
    ensures TriePaths(words[..i + 1], lower) == TriePaths(words[..i], lower)
  {
    assert words[..i + 1][..i] == words[..i];
  }

  // The automaton answers what the plain search answers, exactly when the word of
  // the leftmost-longest occurrence survives the scan; always, when lowering
  // keeps the lengths of the words.
  method FindLeftmostLongest(words: seq<Word>, lower: Lowering, text: Word) returns (word: Word, ok: bool)
    requires NonErasing(words, lower)
    ensures (word, ok) == NaiveFind(words, lower, lower(text)) <==> LeftmostWordSurvives(words, lower, lower(text))
    ensures KeepsLength(words, lower) ==> (word, ok) == NaiveFind(words, lower, lower(text))
  {
    var m := new Matcher.New(words, lower);
    AnswerIsRightIff(words, lower, lower(text));
    if KeepsLength(words, lower) { ScanIsNaive(words, lower, lower(text)); }
    ghost var hops, visits;
    word, ok, hops, visits := m.Find(text);
  }
}
