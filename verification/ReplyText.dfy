// What is left of a model reply once the "[...]:" tags at its front are taken off.
module ReplyText {
  import opened Words

  const OPEN: Byte := 0x5B   // [
  const CLOSE: Byte := 0x5D  // ]
  const COLON: Byte := 0x3A  // :
  const SPACE: Byte := 0x20

  // "[", anything without "]", "]:".
  predicate IsTag(p: Word)
  {
    && |p| >= 3 && p[0] == OPEN && p[|p| - 2] == CLOSE && p[|p| - 1] == COLON
    && forall i | 0 <= i < |p| - 2 :: p[i] != CLOSE
  }

  ghost predicate StartsWithTag(s: Word)
  {
    exists n | 0 <= n <= |s| :: IsTag(s[..n])
  }

  function Concat(parts: seq<Word>): Word
  {
    if parts == [] then [] else parts[0] + Concat(parts[1..])
  }

  // s is a run of tags followed by r, which starts with none.
  ghost predicate IsStripping(s: Word, tags: seq<Word>, r: Word)
  {
    s == Concat(tags) + r && (forall k | 0 <= k < |tags| :: IsTag(tags[k])) && !StartsWithTag(r)
  }

  // Two tags in front of the same text are the same tag.
  lemma TagIsUnique(p: Word, x: Word, q: Word, y: Word)
    requires IsTag(p) && IsTag(q) && p + x == q + y
    ensures p == q && x == y
  {
    var s := p + x;
    assert forall i | 0 <= i < |p| :: s[i] == p[i];
    assert forall i | 0 <= i < |q| :: s[i] == q[i];
    assert s[|p| - 2] == CLOSE && s[|q| - 2] == CLOSE;
    assert p == s[..|p|] && q == s[..|q|];
    assert x == s[|p|..] && y == s[|q|..];
  }

  lemma ConcatSplit(tags: seq<Word>, r: Word)
    requires tags != []
    ensures Concat(tags) + r == tags[0] + (Concat(tags[1..]) + r)
  {
  }

  // There is only one way to strip a text.
  lemma {:induction false} StrippingIsUnique(s: Word, ps: seq<Word>, x: Word, qs: seq<Word>, y: Word)
    requires IsStripping(s, ps, x) && IsStripping(s, qs, y)
    ensures ps == qs && x == y
    decreases |ps|
  {
    assert (ps == [] ==> s == x) && (qs == [] ==> s == y);
    if ps != [] && qs != [] {
      ConcatSplit(ps, x);
      ConcatSplit(qs, y);
      TagIsUnique(ps[0], Concat(ps[1..]) + x, qs[0], Concat(qs[1..]) + y);
      StrippingIsUnique(Concat(ps[1..]) + x, ps[1..], x, qs[1..], y);
      assert ps == [ps[0]] + ps[1..] && qs == [qs[0]] + qs[1..];
    } else if ps != [] {
      TagInFront(ps, x);
    } else if qs != [] {
      TagInFront(qs, y);
    }
  }

  lemma TagInFront(tags: seq<Word>, r: Word)
    requires tags != [] && IsTag(tags[0])
    ensures StartsWithTag(Concat(tags) + r)
  {
    ConcatSplit(tags, r);
    assert (Concat(tags) + r)[..|tags[0]|] == tags[0];
  }

  // The test the code makes before each cut.
  predicate TagAhead(s: Word)
  {
    var n := FirstClose(s, 0);
    s != [] && s[0] == OPEN && n + 1 < |s| && s[n + 1] == COLON
  }

  // The text without its tags.
  function Stripped(s: Word): (r: Word)
    ensures |r| <= |s|
  {
    if TagAhead(s) then Stripped(s[FirstClose(s, 0) + 2..]) else s
  }

  // Where the first "]" is, from i on; the length of s when there is none.
  function FirstClose(s: Word, i: nat): (n: nat)
    requires i <= |s|
    ensures i <= n <= |s|
    ensures forall k | i <= k < n :: s[k] != CLOSE
    ensures n < |s| ==> s[n] == CLOSE
    decreases |s| - i
  {
    if i == |s| || s[i] == CLOSE then i else FirstClose(s, i + 1)
  }

  lemma TagAheadIsTag(s: Word)
    requires TagAhead(s)
    ensures IsTag(s[..FirstClose(s, 0) + 2])
  {
  }

  lemma TagAheadIff(s: Word)
    ensures TagAhead(s) <==> StartsWithTag(s)
  {
    if TagAhead(s) {
      TagAheadIsTag(s);
    } else {
      forall n | 0 <= n <= |s| ensures !IsTag(s[..n]) {
        if IsTag(s[..n]) {
          assert s[..n][n - 2] == s[n - 2] && s[..n][n - 1] == s[n - 1];
          assert forall i | 0 <= i < n - 2 :: s[i] == s[..n][i];
        }
      }
    }
  }

  // Taking the tags off, one by one.
  method StripTags(reply: Word) returns (r: Word, ghost tags: seq<Word>)
    ensures IsStripping(reply, tags, r)
    ensures r == Stripped(reply)
  {
    r, tags := reply, [];
    assert Concat([]) + reply == reply;
    while true
      invariant reply == Concat(tags) + r && Stripped(r) == Stripped(reply)
      invariant forall k | 0 <= k < |tags| :: IsTag(tags[k])
      decreases |r|
    {
      var end := IndexClose(r);
      if r == [] || r[0] != OPEN || end < 0 || end + 1 >= |r| || r[end + 1] != COLON {
        TagAheadIff(r);
        return;
      }
      TagAheadIsTag(r);
      tags := OneMore(tags, r, end + 2);
      r := r[end + 2..];
    }
  }

  lemma OneMore(tags: seq<Word>, r: Word, n: nat) returns (more: seq<Word>)
    requires n <= |r| && (forall k | 0 <= k < |tags| :: IsTag(tags[k])) && IsTag(r[..n])
    ensures Concat(more) + r[n..] == Concat(tags) + r && forall k | 0 <= k < |more| :: IsTag(more[k])
  {
    more := tags + [r[..n]];
    ConcatMore(tags, r[..n], r[n..]);
    assert r == r[..n] + r[n..];
  }

  method IndexClose(s: Word) returns (n: int)
    ensures n == if FirstClose(s, 0) < |s| then FirstClose(s, 0) else -1
  {
    n := 0;
    while n < |s|
      invariant 0 <= n <= |s| && FirstClose(s, 0) == FirstClose(s, n)
    {
      if s[n] == CLOSE { return; }
      n := n + 1;
    }
    return -1;
  }

  lemma {:induction false} ConcatMore(tags: seq<Word>, p: Word, r: Word)
    ensures Concat(tags + [p]) + r == Concat(tags) + (p + r)
  {
    if tags == [] {
      assert [p][1..] == [] && [] + [p] == [p];
      assert Concat([p]) == p + [] && [] + (p + r) == p + r;
    } else {
      ConcatMore(tags[1..], p, r);
      assert (tags + [p])[1..] == tags[1..] + [p];
      ConcatSplit(tags + [p], r);
      ConcatSplit(tags, p + r);
    }
  }

  // No tag is left in front, so stripping again changes nothing.
  lemma {:induction false} StrippedHasNoTag(s: Word)
    ensures !StartsWithTag(Stripped(s)) && Stripped(Stripped(s)) == Stripped(s)
    decreases |s|
  {
    TagAheadIff(s);
    if TagAhead(s) { StrippedHasNoTag(s[FirstClose(s, 0) + 2..]); }
  }

  // Text that does not start with a tag passes unchanged, and only such text does.
  lemma StrippedUnchangedIff(s: Word)
    ensures Stripped(s) == s <==> !StartsWithTag(s)
  {
    TagAheadIff(s);
  }

  // The window renders speakers as "[name]: text", with a space; of two such
  // tags in a row only the first is taken off.
  lemma SpacedTagRemains(tag: Word, rest: Word)
    requires IsTag(tag)
    ensures Stripped(tag + [SPACE] + tag + rest) == [SPACE] + tag + rest
  {
    var s, n := tag + [SPACE] + tag + rest, |tag| - 2;
    assert forall i | 0 <= i < |tag| :: s[i] == tag[i];
    assert FirstClose(s, 0) == n;
    assert s[n + 2..] == [SPACE] + tag + rest;
  }
}
