/**
 * Relational properties of the comparator: threshold monotonicity,
 * reflexivity, the bound on the difference count, and the shape of the
 * object and array traversals.
 */
module Properties {
  import opened Results
  import opened JsonValue
  import opened Fuzzy
  import opened Comparator
  import opened Traversal
  import opened ValueTally
  import opened Sequences

  // ---------------------------------------------------------------------
  // Threshold monotonicity

  lemma {:induction false} FailingNested(o: Oracle, low: real, high: real, ps: seq<Diff>)
    requires low <= high
    ensures Failing(o, low, Failing(o, high, ps)) == Failing(o, low, ps)
  {
    if |ps| > 0 {
      FailingNested(o, low, high, ps[1..]);
      var head := if Differs(o, high, ps[0].left, ps[0].right) then [ps[0]] else [];
      FailingAppend(o, low, head, Failing(o, high, ps[1..]));
      if head != [] {
        assert [ps[0]][1..] == [];
      }
    }
  }

  /** The threshold is used only in the leaf test: raising it changes neither
      whether the comparison raises nor which fault it raises, never lowers
      the count, and never removes a difference. The differences at the
      lower threshold are exactly those at the higher one that also fail the
      lower test. */
  lemma ThresholdMonotonic(o: Oracle, low: real, high: real, a: Value, b: Value, path: string)
    requires low <= high
    ensures Compare(o, low, a, b, path).Success? <==> Compare(o, high, a, b, path).Success?
    ensures Compare(o, low, a, b, path).Failure? ==> Compare(o, low, a, b, path) == Compare(o, high, a, b, path)
    ensures Compare(o, low, a, b, path).Success? ==>
              && Compare(o, low, a, b, path).value.count <= Compare(o, high, a, b, path).value.count
              && Compare(o, low, a, b, path).value.diffs == Failing(o, low, Compare(o, high, a, b, path).value.diffs)
              && forall d :: d in Compare(o, low, a, b, path).value.diffs ==> d in Compare(o, high, a, b, path).value.diffs
  {
    CompareIsJudgedPairings(o, low, a, b, path);
    CompareIsJudgedPairings(o, high, a, b, path);
    if Pairings(a, b, path).Success? {
      FailingNested(o, low, high, Pairings(a, b, path).value);
      FailingMembers(o, low, Compare(o, high, a, b, path).value.diffs);
    }
  }

  // ---------------------------------------------------------------------
  // Reflexivity

  lemma {:induction false} FailingNone(o: Oracle, threshold: real, ps: seq<Diff>)
    requires WellBehaved(o) && threshold <= 100.0
    requires forall p :: p in ps ==> p.left == p.right
    ensures Failing(o, threshold, ps) == []
  {
    if |ps| > 0 {
      assert ps[0] in ps;
      FailingNone(o, threshold, ps[1..]);
    }
  }

  /** A well-formed document compared with itself has no differences,
      provided the ratio calls equal strings an exact match and the
      threshold does not exceed 100. */
  lemma CompareSelf(o: Oracle, threshold: real, d: Value, path: string)
    requires WellBehaved(o) && threshold <= 100.0 && WellFormed(d)
    ensures Compare(o, threshold, d, d, path) == Success(NoDifferences)
  {
    PairingsOfSelf(d, path);
    CompareIsJudgedPairings(o, threshold, d, d, path);
    FailingNone(o, threshold, Pairings(d, d, path).value);
  }

  // ---------------------------------------------------------------------
  // The bound on the difference count

  /** The positions visited with the placeholder on the first-tree side:
      items of the second tree beyond the end of their partner array. */
  function Overhang(a: Value, b: Value, path: string): nat {
    match Pairings(a, b, path)
    case Success(ps) => Padded(ps)
    case Failure(_) => 0
  }

  /** The traversal visits every tallied value of the first tree once, plus
      the overhanging positions of the second; the difference count is at
      most that number, so it is at most `count_values(a)` when nothing
      overhangs. */
  lemma CountBound(o: Oracle, threshold: real, a: Value, b: Value, path: string)
    requires Compare(o, threshold, a, b, path).Success?
    ensures Pairings(a, b, path).Success?
    ensures |Pairings(a, b, path).value| == CountValues(a) + Overhang(a, b, path)
    ensures Compare(o, threshold, a, b, path).value.count <= CountValues(a) + Overhang(a, b, path)
  {
    CompareIsJudgedPairings(o, threshold, a, b, path);
    PairingsCoverLeaves(a, b, path);
  }

  /** The two documents line up: the first holds no placeholder, and no
      array of the first is paired with an iterable of the second that has
      more elements than it. */
  predicate Fits(a: Value, b: Value)
    decreases a, 1, 0
  {
    match a
    case Obj(_) => EntriesFit(a, 0, b)
    case Arr(xs) =>
      (match Iterate(b)
       case None => true
       case Some(ys) => |ys| <= |xs| && ItemsFit(a, ys, 0))
    case Absent => false
    case _ => true
  }

  predicate EntriesFit(a: Value, i: nat, b: Value)
    requires a.Obj? && i <= |a.entries|
    decreases a, 0, |a.entries| - i
  {
    i == |a.entries|
    || ((Subscript(b, a.entries[i].0).Success? ==> Fits(a.entries[i].1, Subscript(b, a.entries[i].0).value))
        && EntriesFit(a, i + 1, b))
  }

  predicate ItemsFit(a: Value, ys: seq<Value>, i: nat)
    requires a.Arr? && i <= |a.items|
    decreases a, 0, |a.items| - i
  {
    i == |a.items| || (Fits(a.items[i], if i < |ys| then ys[i] else Absent) && ItemsFit(a, ys, i + 1))
  }

  lemma PaddedAppend(ps: seq<Diff>, qs: seq<Diff>)
    requires forall p :: p in ps ==> !IsContainer(p.left)
    requires forall p :: p in qs ==> !IsContainer(p.left)
    ensures Padded(ps + qs) == Padded(ps) + Padded(qs)
  {
    LeftLeavesAppend(ps, qs);
  }

  /** Documents that line up have no overhanging positions, so the bound of
      `CountBound` is `count_values(a)` itself. */
  lemma {:induction false} FitsHasNoOverhang(a: Value, b: Value, path: string)
    requires Fits(a, b)
    ensures Overhang(a, b, path) == 0
    decreases a, 1, 0
  {
    match a
    case Obj(_) => EntriesFitHaveNoOverhang(a, 0, b, path);
    case Arr(_) =>
      if Iterate(b).Some? {
        ItemsFitHaveNoOverhang(a, Iterate(b).value, 0, path);
      }
    case _ =>
  }

  lemma {:induction false} EntriesFitHaveNoOverhang(a: Value, i: nat, b: Value, path: string)
    requires a.Obj? && i <= |a.entries| && EntriesFit(a, i, b)
    ensures EntryPairings(a, i, b, path).Success? ==> Padded(EntryPairings(a, i, b, path).value) == 0
    decreases a, 0, |a.entries| - i
  {
    if i < |a.entries| && EntryPairings(a, i, b, path).Success? {
      var key := a.entries[i].0;
      var right := Subscript(b, key).value;
      var child := Pairings(a.entries[i].1, right, KeyPath(path, key)).value;
      var rest := EntryPairings(a, i + 1, b, path).value;
      FitsHasNoOverhang(a.entries[i].1, right, KeyPath(path, key));
      EntriesFitHaveNoOverhang(a, i + 1, b, path);
      PaddedAppend(child, rest);
    }
  }

  lemma {:induction false} ItemsFitHaveNoOverhang(a: Value, ys: seq<Value>, i: nat, path: string)
    requires a.Arr? && |ys| <= |a.items| && i <= |a.items| && ItemsFit(a, ys, i)
    ensures ItemPairings(a, ys, i, path).Success? ==> Padded(ItemPairings(a, ys, i, path).value) == 0
    decreases a, 0, |a.items| - i
  {
    if i < |a.items| && ItemPairings(a, ys, i, path).Success? {
      var right := if i < |ys| then ys[i] else Absent;
      var child := Pairings(a.items[i], right, IndexPath(path, i)).value;
      var rest := ItemPairings(a, ys, i + 1, path).value;
      assert ItemPairings(a, ys, i, path).value == child + rest;
      FitsHasNoOverhang(a.items[i], right, IndexPath(path, i));
      ItemsFitHaveNoOverhang(a, ys, i + 1, path);
      PaddedAppend(child, rest);
    }
  }

  // ---------------------------------------------------------------------
  // The traversals in closed form

  /** The results of the children of one loop, combined as the loop does:
      the first raise propagates, otherwise counts add and lists concatenate. */
  function Gather(rs: seq<Result<Comparison, Fault>>): (r: Result<Comparison, Fault>)
    ensures r.Success? <==> forall i :: 0 <= i < |rs| ==> rs[i].Success?
  {
    if |rs| == 0 then Success(NoDifferences)
    else
      match rs[0]
      case Failure(f) => Failure(f)
      case Success(c) =>
        match Gather(rs[1..])
        case Failure(f) => Failure(f)
        case Success(d) => Success(Join(c, d))
  }

  /** One member of an object: look its key up in `b`, then compare. */
  function ChildCompare(o: Oracle, threshold: real, e: (string, Value), b: Value, path: string)
    : Result<Comparison, Fault>
  {
    match Subscript(b, e.0)
    case Failure(f) => Failure(f)
    case Success(v) => Compare(o, threshold, e.1, v, KeyPath(path, e.0))
  }

  function ChildResults(o: Oracle, threshold: real, es: seq<(string, Value)>, b: Value, path: string)
    : (rs: seq<Result<Comparison, Fault>>)
    ensures |rs| == |es|
  {
    seq(|es|, i requires 0 <= i < |es| => ChildCompare(o, threshold, es[i], b, path))
  }

  lemma {:induction false} EntriesGather(o: Oracle, threshold: real, a: Value, i: nat, b: Value, path: string)
    requires a.Obj? && i <= |a.entries|
    ensures CompareEntries(o, threshold, a, i, b, path)
         == Gather(ChildResults(o, threshold, a.entries[i..], b, path))
    decreases |a.entries| - i
  {
    if i < |a.entries| {
      EntriesGather(o, threshold, a, i + 1, b, path);
      var rs := ChildResults(o, threshold, a.entries[i..], b, path);
      assert rs[0] == ChildCompare(o, threshold, a.entries[i], b, path);
      assert rs[1..] == ChildResults(o, threshold, a.entries[i + 1..], b, path);
    }
  }

  /** Object traversal: each key of the first object is visited once; the
      second tree is only ever subscripted with those keys. */
  lemma ObjectTraversal(o: Oracle, threshold: real, es: seq<(string, Value)>, b: Value, path: string)
    ensures Compare(o, threshold, Obj(es), b, path) == Gather(ChildResults(o, threshold, es, b, path))
  {
    EntriesGather(o, threshold, Obj(es), 0, b, path);
    assert es[0..] == es;
  }

  /** A missing key, or a second tree that is not an object, raises instead
      of being counted as a difference. */
  lemma MissingKeyRaises(o: Oracle, threshold: real, es: seq<(string, Value)>, b: Value, path: string, i: nat)
    requires i < |es| && Subscript(b, es[i].0).Failure?
    ensures Compare(o, threshold, Obj(es), b, path).Failure?
  {
    ObjectTraversal(o, threshold, es, b, path);
    assert ChildResults(o, threshold, es, b, path)[i].Failure?;
  }

  /** Members that only the second object has are never looked at, wherever
      they sit among its entries. */
  lemma KeysOnlyInSecondIgnored(o: Oracle, threshold: real, es: seq<(string, Value)>,
                                bs: seq<(string, Value)>, extra: seq<(string, Value)>,
                                cs: seq<(string, Value)>, path: string)
    requires forall i, j :: 0 <= i < |es| && 0 <= j < |extra| ==> extra[j].0 != es[i].0
    ensures Compare(o, threshold, Obj(es), Obj(bs + extra + cs), path) == Compare(o, threshold, Obj(es), Obj(bs + cs), path)
  {
    ObjectTraversal(o, threshold, es, Obj(bs + extra + cs), path);
    ObjectTraversal(o, threshold, es, Obj(bs + cs), path);
    forall i | 0 <= i < |es|
      ensures Subscript(Obj(bs + extra + cs), es[i].0) == Subscript(Obj(bs + cs), es[i].0)
    {
      FindKeySkip(bs, extra, cs, es[i].0);
    }
    assert ChildResults(o, threshold, es, Obj(bs + extra + cs), path) == ChildResults(o, threshold, es, Obj(bs + cs), path);
  }

  /** A lookup is unaffected by entries with other keys, wherever they are inserted. */
  lemma {:induction false} FindKeySkip(bs: seq<(string, Value)>, extra: seq<(string, Value)>,
                                       cs: seq<(string, Value)>, key: string)
    requires forall j :: 0 <= j < |extra| ==> extra[j].0 != key
    ensures FindKey(bs + extra + cs, key) == FindKey(bs + cs, key)
    decreases |bs|
  {
    if |bs| == 0 {
      assert bs + extra + cs == extra + cs && bs + cs == cs;
      FindKeyDrop(extra, cs, key);
    } else {
      assert (bs + extra + cs)[0] == bs[0] && (bs + cs)[0] == bs[0];
      if bs[0].0 != key {
        assert (bs + extra + cs)[1..] == bs[1..] + extra + cs;
        assert (bs + cs)[1..] == bs[1..] + cs;
        FindKeySkip(bs[1..], extra, cs, key);
      }
    }
  }

  /** Entries with other keys in front of a lookup are passed over. */
  lemma {:induction false} FindKeyDrop(extra: seq<(string, Value)>, cs: seq<(string, Value)>, key: string)
    requires forall j :: 0 <= j < |extra| ==> extra[j].0 != key
    ensures FindKey(extra + cs, key) == FindKey(cs, key)
  {
    if |extra| > 0 {
      assert (extra + cs)[0] == extra[0];
      assert (extra + cs)[1..] == extra[1..] + cs;
      FindKeyDrop(extra[1..], cs, key);
    } else {
      assert extra + cs == cs;
    }
  }

  /** The item at position `i`, or the placeholder past the end. */
  function PadAt(xs: seq<Value>, i: nat): Value {
    if i < |xs| then xs[i] else Absent
  }

  /** The children of an array: one per position up to the longer length. */
  function ItemResults(o: Oracle, threshold: real, xs: seq<Value>, ys: seq<Value>, path: string)
    : (rs: seq<Result<Comparison, Fault>>)
    ensures |rs| == Max(|xs|, |ys|)
  {
    seq(Max(|xs|, |ys|), k requires 0 <= k < Max(|xs|, |ys|) =>
      Compare(o, threshold, PadAt(xs, k), PadAt(ys, k), IndexPath(path, k)))
  }

  lemma {:induction false} ItemsGather(o: Oracle, threshold: real, a: Value, ys: seq<Value>, i: nat, path: string)
    requires a.Arr? && i <= Max(|a.items|, |ys|)
    ensures CompareItems(o, threshold, a, ys, i, path)
         == Gather(ItemResults(o, threshold, a.items, ys, path)[i..])
    decreases Max(|a.items|, |ys|) - i
  {
    if i < Max(|a.items|, |ys|) {
      ItemsGather(o, threshold, a, ys, i + 1, path);
      var rs := ItemResults(o, threshold, a.items, ys, path);
      var right := if i < |ys| then ys[i] else Absent;
      var child := if i < |a.items| then Compare(o, threshold, a.items[i], right, IndexPath(path, i))
                   else Success(CompareLeaf(o, threshold, Absent, right, IndexPath(path, i)));
      assert rs[i] == child;
      DropStep(rs, i);
    }
  }

  /** Array traversal: the second tree is iterated as `zip_longest` does,
      exactly `max(|a|, |b|)` positions are compared in index order with the
      placeholder on the shorter side, and the children's results are
      concatenated in that order. */
  lemma ArrayTraversal(o: Oracle, threshold: real, xs: seq<Value>, b: Value, path: string)
    ensures Iterate(b).None? ==> Compare(o, threshold, Arr(xs), b, path) == Failure(NotIterable)
    ensures Iterate(b).Some? ==>
              Compare(o, threshold, Arr(xs), b, path) == Gather(ItemResults(o, threshold, xs, Iterate(b).value, path))
  {
    if Iterate(b).Some? {
      var rs := ItemResults(o, threshold, xs, Iterate(b).value, path);
      ItemsGather(o, threshold, Arr(xs), Iterate(b).value, 0, path);
      assert rs[0..] == rs;
    }
  }

  // ---------------------------------------------------------------------
  // Object iteration order does not matter

  /** What survives a change of iteration order: whether the loop raised,
      the count, and the differences as a multiset. */
  function Summary(r: Result<Comparison, Fault>): Option<(nat, multiset<Diff>)> {
    match r
    case Failure(_) => None
    case Success(c) => Some((c.count, multiset(c.diffs)))
  }

  function Merge(x: Option<(nat, multiset<Diff>)>, y: Option<(nat, multiset<Diff>)>): Option<(nat, multiset<Diff>)> {
    if x.None? || y.None? then None else Some((x.value.0 + y.value.0, x.value.1 + y.value.1))
  }

  lemma SummaryJoin(c: Comparison, d: Comparison)
    ensures Summary(Success(Join(c, d))) == Merge(Summary(Success(c)), Summary(Success(d)))
  {
    assert multiset(c.diffs + d.diffs) == multiset(c.diffs) + multiset(d.diffs);
  }

  lemma GatherStep(rs: seq<Result<Comparison, Fault>>)
    requires |rs| > 0
    ensures Summary(Gather(rs)) == Merge(Summary(rs[0]), Summary(Gather(rs[1..])))
  {
    var head, g := rs[0], Gather(rs[1..]);
    if head.Success? && g.Success? {
      assert Gather(rs) == Success(Join(head.value, g.value));
      SummaryJoin(head.value, g.value);
    } else {
      assert Gather(rs).Failure?;
    }
  }

  lemma MergeSwap(x: Option<(nat, multiset<Diff>)>, y: Option<(nat, multiset<Diff>)>, z: Option<(nat, multiset<Diff>)>)
    ensures Merge(x, Merge(y, z)) == Merge(y, Merge(x, z))
  {
    if x.Some? && y.Some? && z.Some? {
      var p, q, r := x.value.1, y.value.1, z.value.1;
      assert p + (q + r) == q + (p + r);
    }
  }

  lemma {:induction false} GatherRemove(rs: seq<Result<Comparison, Fault>>, j: nat)
    requires j < |rs|
    ensures Summary(Gather(rs)) == Merge(Summary(rs[j]), Summary(Gather(rs[..j] + rs[j + 1..])))
  {
    GatherStep(rs);
    if j == 0 {
      assert rs[..0] + rs[1..] == rs[1..];
    } else {
      var tail := rs[1..];
      var shorter := tail[..j - 1] + tail[j..];
      GatherRemove(tail, j - 1);
      RemoveAt(rs, j);
      var rest := [rs[0]] + shorter;
      assert rest[1..] == shorter;
      GatherStep(rest);
      MergeSwap(Summary(rs[0]), Summary(rs[j]), Summary(Gather(shorter)));
    }
  }

  /** Permuting the children of a loop leaves its summary unchanged. */
  lemma {:induction false} GatherPermutation(rs: seq<Result<Comparison, Fault>>, qs: seq<Result<Comparison, Fault>>)
    requires multiset(rs) == multiset(qs)
    ensures Summary(Gather(rs)) == Summary(Gather(qs))
    decreases |rs|
  {
    if |rs| == 0 {
      assert |qs| == |multiset(qs)| == 0;
    } else {
      assert rs[0] in multiset(qs);
      var j :| 0 <= j < |qs| && qs[j] == rs[0];
      PermutationRemove(rs, qs, j);
      GatherPermutation(rs[1..], qs[..j] + qs[j + 1..]);
      GatherStep(rs);
      GatherRemove(qs, j);
    }
  }

  lemma ChildResultsPermutation(o: Oracle, threshold: real, es: seq<(string, Value)>,
                                fs: seq<(string, Value)>, b: Value, path: string)
    requires multiset(es) == multiset(fs)
    ensures multiset(ChildResults(o, threshold, es, b, path)) == multiset(ChildResults(o, threshold, fs, b, path))
  {
    var f := e => ChildCompare(o, threshold, e, b, path);
    MapSeqPermutation(f, es, fs);
    forall i | 0 <= i < |es| ensures MapSeq(f, es)[i] == ChildCompare(o, threshold, es[i], b, path) {
      MapSeqAt(f, es, i);
    }
    forall i | 0 <= i < |fs| ensures MapSeq(f, fs)[i] == ChildCompare(o, threshold, fs[i], b, path) {
      MapSeqAt(f, fs, i);
    }
    assert ChildResults(o, threshold, es, b, path) == MapSeq(f, es);
    assert ChildResults(o, threshold, fs, b, path) == MapSeq(f, fs);
  }

  /** The source iterates an object's keys in the unspecified order of a
      `set`. Any order of the first object's members gives the same outcome:
      it raises in all orders or in none, and otherwise the count and the
      multiset of differences agree. */
  lemma ObjectOrderIrrelevant(o: Oracle, threshold: real, es: seq<(string, Value)>, fs: seq<(string, Value)>,
                              b: Value, path: string)
    requires multiset(es) == multiset(fs)
    ensures Summary(Compare(o, threshold, Obj(es), b, path)) == Summary(Compare(o, threshold, Obj(fs), b, path))
  {
    ObjectTraversal(o, threshold, es, b, path);
    ObjectTraversal(o, threshold, fs, b, path);
    ChildResultsPermutation(o, threshold, es, fs, b, path);
    GatherPermutation(ChildResults(o, threshold, es, b, path), ChildResults(o, threshold, fs, b, path));
  }
}
