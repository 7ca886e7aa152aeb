/**
 * Sequence facts stated over an arbitrary element type, so that a proof
 * about document values can use them without the solver reasoning about
 * the values themselves.
 */
module Sequences {
  lemma Associate<T>(xs: seq<T>, ys: seq<T>, zs: seq<T>)
    ensures xs + (ys + zs) == (xs + ys) + zs
  {
  }

  lemma SplitHead<T>(xs: seq<T>)
    requires |xs| > 0
    ensures xs == [xs[0]] + xs[1..]
  {
  }

  lemma AppendEmpty<T>(xs: seq<T>)
    ensures xs + [] == xs && [] + xs == xs
  {
  }

  lemma TailOfAppend<T>(xs: seq<T>, ys: seq<T>)
    requires |xs| > 0
    ensures (xs + ys)[0] == xs[0] && (xs + ys)[1..] == xs[1..] + ys
  {
  }

  lemma DropStep<T>(xs: seq<T>, i: nat)
    requires i < |xs|
    ensures |xs[i..]| > 0 && xs[i..][0] == xs[i] && xs[i..][1..] == xs[i + 1..]
  {
  }

  lemma Pair<T>(x: T, y: T)
    ensures [x] + [y] == [x, y]
  {
  }

  /** Removing position `j` and putting it in front. */
  lemma RemoveAt<T>(xs: seq<T>, j: nat)
    requires 0 < j < |xs|
    ensures xs[..j] + xs[j + 1..] == [xs[0]] + (xs[1..][..j - 1] + xs[1..][j..])
    ensures xs[1..][j - 1] == xs[j]
  {
  }

  /** `f` applied to every element, in order. */
  function MapSeq<A, B>(f: A -> B, xs: seq<A>): (ys: seq<B>)
    ensures |ys| == |xs|
  {
    if |xs| == 0 then [] else [f(xs[0])] + MapSeq(f, xs[1..])
  }

  lemma {:induction false} MapSeqAt<A, B>(f: A -> B, xs: seq<A>, i: nat)
    requires i < |xs|
    ensures MapSeq(f, xs)[i] == f(xs[i])
  {
    if i > 0 {
      MapSeqAt(f, xs[1..], i - 1);
    }
  }

  lemma {:induction false} MapSeqAppend<A, B>(f: A -> B, xs: seq<A>, ys: seq<A>)
    ensures MapSeq(f, xs + ys) == MapSeq(f, xs) + MapSeq(f, ys)
  {
    if |xs| > 0 {
      assert (xs + ys)[1..] == xs[1..] + ys;
      MapSeqAppend(f, xs[1..], ys);
    } else {
      assert xs + ys == ys;
    }
  }

  lemma {:induction false} MapSeqSplit<A, B>(f: A -> B, ys: seq<A>, j: nat)
    requires j < |ys|
    ensures MapSeq(f, ys) == MapSeq(f, ys[..j]) + [f(ys[j])] + MapSeq(f, ys[j + 1..])
  {
    if j == 0 {
      assert ys[..0] == [];
    } else {
      var tail := ys[1..];
      MapSeqSplit(f, tail, j - 1);
      assert ys[..j][1..] == tail[..j - 1];
      assert ys[..j][0] == ys[0];
      assert tail[j..] == ys[j + 1..];
      assert tail[j - 1] == ys[j];
    }
  }

  /** Mapping after removing position `j` loses exactly the image of that element. */
  lemma MapSeqRemove<A, B>(f: A -> B, ys: seq<A>, j: nat)
    requires j < |ys|
    ensures multiset(MapSeq(f, ys)) == multiset(MapSeq(f, ys[..j] + ys[j + 1..])) + multiset{f(ys[j])}
  {
    var left, right := MapSeq(f, ys[..j]), MapSeq(f, ys[j + 1..]);
    MapSeqSplit(f, ys, j);
    MapSeqAppend(f, ys[..j], ys[j + 1..]);
    assert multiset(left + [f(ys[j])] + right) == multiset(left) + multiset(right) + multiset{f(ys[j])};
  }

  /** Removing one occurrence of `ys[j]` from both sides keeps a permutation. */
  lemma PermutationRemove<A>(xs: seq<A>, ys: seq<A>, j: nat)
    requires |xs| > 0 && j < |ys| && ys[j] == xs[0]
    requires multiset(xs) == multiset(ys)
    ensures multiset(xs[1..]) == multiset(ys[..j] + ys[j + 1..])
  {
    assert ys == ys[..j] + [ys[j]] + ys[j + 1..];
    assert xs == [xs[0]] + xs[1..];
    calc {
      multiset(xs[1..]);
      multiset(xs) - multiset{xs[0]};
      multiset(ys) - multiset{ys[j]};
      multiset(ys[..j]) + multiset(ys[j + 1..]);
      multiset(ys[..j] + ys[j + 1..]);
    }
  }

  /** Mapping a permutation gives a permutation. */
  lemma {:induction false} MapSeqPermutation<A, B>(f: A -> B, xs: seq<A>, ys: seq<A>)
    requires multiset(xs) == multiset(ys)
    ensures multiset(MapSeq(f, xs)) == multiset(MapSeq(f, ys))
    decreases |xs|
  {
    if |xs| == 0 {
      assert |ys| == |multiset(ys)| == 0;
    } else {
      assert xs[0] in multiset(ys);
      var j :| 0 <= j < |ys| && ys[j] == xs[0];
      PermutationRemove(xs, ys, j);
      MapSeqPermutation(f, xs[1..], ys[..j] + ys[j + 1..]);
      MapSeqRemove(f, ys, j);
      MapSeqRemove(f, xs, 0);
      assert xs[..0] + xs[1..] == xs[1..];
    }
  }
}
