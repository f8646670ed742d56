/** Sequence helpers shared by both containers. */
module Sequences {

  /** `s` read from its last element to its first. This is also the order in which
      repeatedly removing the last element hands the elements out. */
  function Reversed<T>(s: seq<T>): (r: seq<T>)
    ensures |r| == |s|
  {
    if s == [] then [] else [s[|s| - 1]] + Reversed(s[..|s| - 1])
  }

  lemma {:induction false} ReversedAt<T>(s: seq<T>, k: nat)
    requires k < |s|
    ensures Reversed(s)[k] == s[|s| - 1 - k]
  {
    if k > 0 {
      ReversedAt(s[..|s| - 1], k - 1);
    }
  }

  lemma {:induction false} ReversedAppend<T>(a: seq<T>, b: seq<T>)
    ensures Reversed(a + b) == Reversed(b) + Reversed(a)
  {
    if b == [] {
      assert a + b == a;
    } else {
      assert (a + b)[..|a + b| - 1] == a + b[..|b| - 1];
      ReversedAppend(a, b[..|b| - 1]);
    }
  }

  lemma {:induction false} ReversedInvolution<T>(s: seq<T>)
    ensures Reversed(Reversed(s)) == s
  {
    if s != [] {
      var last, init := s[|s| - 1], s[..|s| - 1];
      calc {
        Reversed(Reversed(s));
        Reversed([last] + Reversed(init));
        { ReversedAppend([last], Reversed(init)); }
        Reversed(Reversed(init)) + Reversed([last]);
        { ReversedInvolution(init); }
        init + [last];
      }
      assert init + [last] == s;
    }
  }

  /** Reversing keeps the elements. */
  lemma {:induction false} ReversedMultiset<T>(s: seq<T>)
    ensures multiset(Reversed(s)) == multiset(s)
  {
    if s != [] {
      ReversedMultiset(s[..|s| - 1]);
      assert s == s[..|s| - 1] + [s[|s| - 1]];
    }
  }
}
