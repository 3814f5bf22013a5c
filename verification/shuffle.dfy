/** The deck shuffle: for every position i, in order, swap position i with a
    position j drawn from the whole deck. The draws are a parameter; any
    draw within the deck is allowed, and no distribution is modelled. */
module Shuffle {

  /** The draws for one shuffle of a deck of n cards: one index per
      position, each within the deck. */
  predicate ValidSwaps(js: seq<nat>, n: nat)
  {
    |js| == n && forall k :: 0 <= k < |js| ==> js[k] < n
  }

  /** Exchange the elements at positions i and j. */
  function Swap<T>(s: seq<T>, i: nat, j: nat): (r: seq<T>)
    requires i < |s| && j < |s|
    ensures |r| == |s|
    ensures r[i] == s[j] && r[j] == s[i]
    ensures forall k :: 0 <= k < |s| && k != i && k != j ==> r[k] == s[k]
    ensures multiset(r) == multiset(s)
  {
    s[i := s[j]][j := s[i]]
  }

  /** The shuffle loop from position i on, with draws js: the draw for
      position i + k is js[k]. */
  function ShuffleFrom<T>(s: seq<T>, js: seq<nat>, i: nat): (r: seq<T>)
    requires i + |js| == |s|
    requires forall k :: 0 <= k < |js| ==> js[k] < |s|
    ensures |r| == |s|
    ensures multiset(r) == multiset(s)
    decreases |js|
  {
    if |js| == 0 then s
    else ShuffleFrom(Swap(s, i, js[0]), js[1..], i + 1)
  }

  /** The whole shuffle: every position of the deck, from first to last. */
  function ShuffleCards<T>(s: seq<T>, js: seq<nat>): (r: seq<T>)
    requires ValidSwaps(js, |s|)
    ensures |r| == |s|
    ensures multiset(r) == multiset(s)
  {
    ShuffleFrom(s, js, 0)
  }

  /** Exchanging two positions at or after i keeps the prefix before i and
      the multiset of the rest. */
  lemma SwapSuffix<T>(s: seq<T>, i: nat, j: nat)
    requires i <= j < |s|
    ensures Swap(s, i, j)[..i] == s[..i]
    ensures multiset(Swap(s, i, j)[i..]) == multiset(s[i..])
  {
    var r := Swap(s, i, j);
    assert s == s[..i] + s[i..];
    assert r == r[..i] + r[i..];
  }

  /** If s agrees with t before position i and the rest of s is a
      rearrangement of the rest of t, then some draws, each at or after the
      position it is drawn for, carry s to t from position i on. */
  lemma {:induction false} ReachFrom<T>(s: seq<T>, t: seq<T>, i: nat) returns (js: seq<nat>)
    requires |s| == |t| && i <= |s|
    requires s[..i] == t[..i]
    requires multiset(s[i..]) == multiset(t[i..])
    ensures i + |js| == |s|
    ensures forall k :: 0 <= k < |js| ==> i + k <= js[k] < |s|
    ensures ShuffleFrom(s, js, i) == t
    decreases |s| - i
  {
    if i == |s| {
      assert s == s[..i] && t == t[..i];
      js := [];
    } else {
      var j := FindDraw(s, t, i);
      var s' := Swap(s, i, j);
      StepAgrees(s, t, i, j);
      var rest := ReachFrom(s', t, i + 1);
      js := [j] + rest;
      assert js[0] == j && js[1..] == rest;
    }
  }

  /** A position at or after i whose element is the one t holds at i. */
  lemma FindDraw<T>(s: seq<T>, t: seq<T>, i: nat) returns (j: nat)
    requires |s| == |t| && i < |s|
    requires multiset(s[i..]) == multiset(t[i..])
    ensures i <= j < |s| && s[j] == t[i]
  {
    assert t[i..] == [t[i]] + t[i + 1..];
    assert t[i] in multiset(s[i..]);
    var m :| 0 <= m < |s[i..]| && s[i..][m] == t[i];
    j := i + m;
  }

  /** Drawing j at position i extends the agreement of s and t by one
      position and keeps the rest a rearrangement. */
  lemma StepAgrees<T>(s: seq<T>, t: seq<T>, i: nat, j: nat)
    requires |s| == |t| && i <= j < |s|
    requires s[..i] == t[..i] && s[j] == t[i]
    requires multiset(s[i..]) == multiset(t[i..])
    ensures Swap(s, i, j)[..i + 1] == t[..i + 1]
    ensures multiset(Swap(s, i, j)[i + 1..]) == multiset(t[i + 1..])
  {
    var s' := Swap(s, i, j);
    SwapSuffix(s, i, j);
    PrefixExtend(s', t, i);
    SuffixCancel(s', t, i);
  }

  /** Agreement before i and at i is agreement before i + 1. */
  lemma PrefixExtend<T>(u: seq<T>, v: seq<T>, i: nat)
    requires i < |u| && i < |v|
    requires u[..i] == v[..i] && u[i] == v[i]
    ensures u[..i + 1] == v[..i + 1]
  {
    assert u[..i + 1] == u[..i] + [u[i]];
    assert v[..i + 1] == v[..i] + [v[i]];
  }

  /** Removing an equal first element from two suffixes with the same
      multiset leaves the same multiset. */
  lemma SuffixCancel<T>(u: seq<T>, v: seq<T>, i: nat)
    requires i < |u| && i < |v|
    requires u[i] == v[i]
    requires multiset(u[i..]) == multiset(v[i..])
    ensures multiset(u[i + 1..]) == multiset(v[i + 1..])
  {
    HeadSplit(u, i);
    HeadSplit(v, i);
    var a, b := multiset(u[i + 1..]), multiset(v[i + 1..]);
    forall x
      ensures a[x] == b[x]
    {
      assert (multiset{v[i]} + a)[x] == (multiset{v[i]} + b)[x];
    }
  }

  /** The multiset of a suffix is its first element plus the rest. */
  lemma HeadSplit<T>(s: seq<T>, i: nat)
    requires i < |s|
    ensures multiset(s[i..]) == multiset{s[i]} + multiset(s[i + 1..])
  {
    assert s[i..] == [s[i]] + s[i + 1..];
  }

  /** Exactly the rearrangements of a deck are the possible results of
      shuffling it: every result is one, and every one is the result of
      some draws. */
  lemma ShuffleImage<T>(s: seq<T>, t: seq<T>)
    ensures (exists js :: ValidSwaps(js, |s|) && ShuffleCards(s, js) == t)
            <==> multiset(t) == multiset(s)
  {
    if multiset(t) == multiset(s) {
      assert |t| == |multiset(t)| == |multiset(s)| == |s|;
      assert s[0..] == s && t[0..] == t;
      var js := ReachFrom(s, t, 0);
      assert ValidSwaps(js, |s|) && ShuffleCards(s, js) == t;
    }
  }
}
