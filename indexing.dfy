/** Positions in a sequence of flags, used to say which request items a
    report lists and in what order. */
module Indexing {

  /** The indices whose flag is `wanted`, in increasing order. */
  function Positions(flags: seq<bool>, wanted: bool): (ps: seq<nat>)
    ensures forall k :: 0 <= k < |ps| ==> ps[k] < |flags| && flags[ps[k]] == wanted
    ensures forall a, b :: 0 <= a < b < |ps| ==> ps[a] < ps[b]
    ensures forall j :: 0 <= j < |flags| && flags[j] == wanted ==> j in ps
    decreases |flags|
  {
    if |flags| == 0 then []
    else
      var n := |flags| - 1;
      Positions(flags[..n], wanted) + (if flags[n] == wanted then [n] else [])
  }

  /** The entries of `xs` at the indices `ps`, in that order. */
  function Pick<T>(xs: seq<T>, ps: seq<nat>): seq<T>
    requires forall k :: 0 <= k < |ps| ==> ps[k] < |xs|
  {
    seq(|ps|, k requires 0 <= k < |ps| => xs[ps[k]])
  }

  /** Picking from a longer sequence at indices of its prefix picks the
      same entries, and one more index picks one more entry. */
  lemma PickSnoc<T>(xs: seq<T>, n: nat, ps: seq<nat>, take: bool)
    requires n < |xs| && forall k :: 0 <= k < |ps| ==> ps[k] < n
    ensures Pick(xs[..n], ps) + (if take then [xs[n]] else [])
         == Pick(xs, ps + (if take then [n] else []))
  {
    var extra: seq<nat> := if take then [n] else [];
    var lhs := Pick(xs[..n], ps) + (if take then [xs[n]] else []);
    var rhs := Pick(xs, ps + extra);
    assert |lhs| == |rhs|;
    forall k | 0 <= k < |lhs|
      ensures lhs[k] == rhs[k]
    {
      if k < |ps| {
        assert (ps + extra)[k] == ps[k];
      } else {
        assert (ps + extra)[k] == n;
      }
    }
  }

  /** An entry whose flag is `wanted` is among those picked. */
  lemma PickedWhenWanted<T>(xs: seq<T>, flags: seq<bool>, wanted: bool, j: nat)
    requires |flags| == |xs| && j < |xs| && flags[j] == wanted
    ensures xs[j] in Pick(xs, Positions(flags, wanted))
  {
    var ps := Positions(flags, wanted);
    var k :| 0 <= k < |ps| && ps[k] == j;
    assert Pick(xs, ps)[k] == xs[j];
  }

  /** Every picked entry is the entry at some index whose flag is `wanted`. */
  lemma PickedOnlyWanted<T>(xs: seq<T>, flags: seq<bool>, wanted: bool, x: T)
    requires |flags| == |xs| && x in Pick(xs, Positions(flags, wanted))
    ensures exists j :: 0 <= j < |xs| && xs[j] == x && flags[j] == wanted
  {
    var ps := Positions(flags, wanted);
    var k :| 0 <= k < |ps| && Pick(xs, ps)[k] == x;
    assert xs[ps[k]] == x && flags[ps[k]] == wanted;
  }

  /** Two parts that make up `whole` still make it up once a new entry is
      added to one of them and to `whole`. */
  lemma SplitSnoc<T>(kept: seq<T>, rest: seq<T>, whole: seq<T>, x: T, keep: bool)
    requires multiset(kept) + multiset(rest) == multiset(whole)
    ensures multiset(kept + (if keep then [x] else [])) + multiset(rest + (if keep then [] else [x]))
         == multiset(whole + [x])
  {
  }
}
