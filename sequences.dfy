/** Facts about sequences and a map over them, stated over any element
    type so that proving them never looks inside the elements. */
module Sequences {

  lemma TakeSnoc<T>(s: seq<T>, i: nat)
    requires i < |s|
    ensures s[..i + 1] == s[..i] + [s[i]]
  {
  }

  lemma TakeAll<T>(s: seq<T>)
    ensures s[..|s|] == s
  {
  }

  /** `f` applied to each element, in order. */
  function MapSeq<A, B>(f: A -> B, s: seq<A>): (r: seq<B>)
    ensures |r| == |s|
    ensures forall i :: 0 <= i < |s| ==> r[i] == f(s[i])
  {
    seq(|s|, i requires 0 <= i < |s| => f(s[i]))
  }

  lemma MapConcat<A, B>(f: A -> B, a: seq<A>, b: seq<A>)
    ensures MapSeq(f, a + b) == MapSeq(f, a) + MapSeq(f, b)
  {
  }

  lemma MapTakeSnoc<A, B>(f: A -> B, s: seq<A>, i: nat)
    requires i < |s|
    ensures MapSeq(f, s[..i + 1]) == MapSeq(f, s[..i]) + [f(s[i])]
  {
  }

  /** The blocks `f(s[0]), ..., f(s[n - 1])`, one after another. */
  function Flatten<A, B>(f: A -> seq<B>, s: seq<A>, n: nat): seq<B>
    requires n <= |s|
  {
    if n == 0 then [] else Flatten(f, s, n - 1) + f(s[n - 1])
  }

  /** Element `i` of the blocks is element `j` of block `e`. */
  lemma {:induction false} FlattenAt<A, B>(f: A -> seq<B>, s: seq<A>, n: nat, i: nat) returns (e: nat, j: nat)
    requires n <= |s| && i < |Flatten(f, s, n)|
    ensures e < n && j < |f(s[e])| && Flatten(f, s, n)[i] == f(s[e])[j]
  {
    var prev := Flatten(f, s, n - 1);
    if i < |prev| {
      e, j := FlattenAt(f, s, n - 1, i);
    } else {
      e, j := n - 1, i - |prev|;
    }
  }

  /** Element `j` of block `e < n` is an element of the blocks. */
  lemma {:induction false} FlattenHas<A, B>(f: A -> seq<B>, s: seq<A>, n: nat, e: nat, j: nat) returns (i: nat)
    requires e < n <= |s| && j < |f(s[e])|
    ensures i < |Flatten(f, s, n)| && Flatten(f, s, n)[i] == f(s[e])[j]
  {
    var prev := Flatten(f, s, n - 1);
    if e == n - 1 {
      i := |prev| + j;
    } else {
      i := FlattenHas(f, s, n - 1, e, j);
    }
  }
}
