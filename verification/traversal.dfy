/**
 * The traversal of `compare_json` with the scoring taken out: the leaf
 * pairs it visits, in order, and the faults it raises. None of it depends
 * on the threshold or on the oracle; `Compare` is this traversal followed
 * by a filter on the score.
 */
module Traversal {
  import opened Results
  import opened JsonValue
  import opened Fuzzy
  import opened Comparator
  import opened Sequences

  /** The leaf pairs visited by comparing `a` with `b` under `path`. */
  function Pairings(a: Value, b: Value, path: string): (r: Result<seq<Diff>, Fault>)
    ensures r.Success? ==> forall p :: p in r.value ==> !IsContainer(p.left)
    decreases a, 1, 0
  {
    match a
    case Obj(_) => EntryPairings(a, 0, b, path)
    case Arr(_) =>
      (match Iterate(b)
       case None => Failure(NotIterable)
       case Some(ys) => ItemPairings(a, ys, 0, path))
    case _ => Success([Diff(path, a, b)])
  }

  function EntryPairings(a: Value, i: nat, b: Value, path: string): (r: Result<seq<Diff>, Fault>)
    requires a.Obj? && i <= |a.entries|
    ensures r.Success? ==> forall p :: p in r.value ==> !IsContainer(p.left)
    decreases a, 0, |a.entries| - i
  {
    if i == |a.entries| then Success([])
    else
      var key := a.entries[i].0;
      var right :- Subscript(b, key);
      var child :- Pairings(a.entries[i].1, right, KeyPath(path, key));
      var rest :- EntryPairings(a, i + 1, b, path);
      Success(child + rest)
  }

  function ItemPairings(a: Value, ys: seq<Value>, i: nat, path: string): (r: Result<seq<Diff>, Fault>)
    requires a.Arr? && i <= Max(|a.items|, |ys|)
    ensures r.Success? ==> forall p :: p in r.value ==> !IsContainer(p.left)
    decreases a, 0, Max(|a.items|, |ys|) - i
  {
    if i == Max(|a.items|, |ys|) then Success([])
    else
      var right := if i < |ys| then ys[i] else Absent;
      var child :- if i < |a.items| then Pairings(a.items[i], right, IndexPath(path, i))
                   else Success([Diff(IndexPath(path, i), Absent, right)]);
      var rest :- ItemPairings(a, ys, i + 1, path);
      Success(child + rest)
  }

  /** The pairs of `ps` that score below the threshold, in order. */
  function Failing(o: Oracle, threshold: real, ps: seq<Diff>): (r: seq<Diff>)
    ensures |r| <= |ps|
  {
    if |ps| == 0 then []
    else Keep(o, threshold, ps[0]) + Failing(o, threshold, ps[1..])
  }

  /** A pair is kept exactly when it is visited and scores below the threshold. */
  lemma {:induction false} FailingMembers(o: Oracle, threshold: real, ps: seq<Diff>)
    ensures forall d :: d in Failing(o, threshold, ps) <==> d in ps && Differs(o, threshold, d.left, d.right)
  {
    if |ps| > 0 {
      FailingMembers(o, threshold, ps[1..]);
      assert ps == [ps[0]] + ps[1..];
    }
  }

  /** The pairs kept from a single visited pair. */
  function Keep(o: Oracle, threshold: real, p: Diff): seq<Diff> {
    if Differs(o, threshold, p.left, p.right) then [p] else []
  }

  lemma FailingCons(o: Oracle, threshold: real, p: Diff, ps: seq<Diff>)
    ensures Failing(o, threshold, [p] + ps) == Keep(o, threshold, p) + Failing(o, threshold, ps)
  {
    assert ([p] + ps)[0] == p;
    assert ([p] + ps)[1..] == ps;
  }

  lemma FailingSingle(o: Oracle, threshold: real, p: Diff)
    ensures Failing(o, threshold, [p]) == Keep(o, threshold, p)
  {
    FailingCons(o, threshold, p, []);
    AppendEmpty([p]);
    AppendEmpty(Keep(o, threshold, p));
  }

  lemma {:induction false} FailingAppend(o: Oracle, threshold: real, ps: seq<Diff>, qs: seq<Diff>)
    ensures Failing(o, threshold, ps + qs) == Failing(o, threshold, ps) + Failing(o, threshold, qs)
  {
    if |ps| == 0 {
      AppendEmpty(qs);
      AppendEmpty(Failing(o, threshold, qs));
    } else {
      var p, rest := ps[0], ps[1..];
      SplitHead(ps);
      Associate([p], rest, qs);
      FailingCons(o, threshold, p, rest + qs);
      FailingCons(o, threshold, p, rest);
      FailingAppend(o, threshold, rest, qs);
      Associate(Keep(o, threshold, p), Failing(o, threshold, rest), Failing(o, threshold, qs));
    }
  }

  /** Scoring the visited pairs: keep the failing ones and count them. */
  function Judge(o: Oracle, threshold: real, r: Result<seq<Diff>, Fault>): Result<Comparison, Fault> {
    match r
    case Failure(f) => Failure(f)
    case Success(ps) => Success(Comparison(|Failing(o, threshold, ps)|, Failing(o, threshold, ps)))
  }

  lemma JudgeJoin(o: Oracle, threshold: real, ps: seq<Diff>, qs: seq<Diff>)
    ensures Judge(o, threshold, Success(ps + qs))
         == Success(Join(Judge(o, threshold, Success(ps)).value, Judge(o, threshold, Success(qs)).value))
  {
    FailingAppend(o, threshold, ps, qs);
  }

  /** One loop step of the comparator: the child, then the rest, joined. */
  function Both(c: Result<Comparison, Fault>, r: Result<Comparison, Fault>): Result<Comparison, Fault> {
    var x :- c;
    var y :- r;
    Success(Join(x, y))
  }

  /** One loop step of the unscored walk: the child's pairs, then the rest's. */
  function Chain(c: Result<seq<Diff>, Fault>, r: Result<seq<Diff>, Fault>): Result<seq<Diff>, Fault> {
    var x :- c;
    var y :- r;
    Success(x + y)
  }

  /** Scoring commutes with one loop step. */
  lemma JudgeChain(o: Oracle, threshold: real, c: Result<seq<Diff>, Fault>, r: Result<seq<Diff>, Fault>)
    ensures Judge(o, threshold, Chain(c, r)) == Both(Judge(o, threshold, c), Judge(o, threshold, r))
  {
    if c.Success? && r.Success? {
      JudgeJoin(o, threshold, c.value, r.value);
    }
  }

  /** `compare_json` is its threshold-free traversal followed by the leaf test:
      same fault when it raises, and otherwise exactly the visited pairs that
      score below the threshold, in visiting order. */
  lemma {:induction false} CompareIsJudgedPairings(o: Oracle, threshold: real, a: Value, b: Value, path: string)
    ensures Compare(o, threshold, a, b, path) == Judge(o, threshold, Pairings(a, b, path))
    decreases a, 1, 0
  {
    match a
    case Obj(_) => EntriesAreJudged(o, threshold, a, 0, b, path);
    case Arr(_) =>
      if Iterate(b).Some? {
        ItemsAreJudged(o, threshold, a, Iterate(b).value, 0, path);
      }
    case _ =>
      FailingSingle(o, threshold, Diff(path, a, b));
  }

  lemma {:induction false} EntriesAreJudged(o: Oracle, threshold: real, a: Value, i: nat, b: Value, path: string)
    requires a.Obj? && i <= |a.entries|
    ensures CompareEntries(o, threshold, a, i, b, path) == Judge(o, threshold, EntryPairings(a, i, b, path))
    decreases a, 0, |a.entries| - i
  {
    if i < |a.entries| {
      var key := a.entries[i].0;
      var right := Subscript(b, key);
      if right.Success? {
        var sub := KeyPath(path, key);
        CompareIsJudgedPairings(o, threshold, a.entries[i].1, right.value, sub);
        EntriesAreJudged(o, threshold, a, i + 1, b, path);
        var child := Pairings(a.entries[i].1, right.value, sub);
        var rest := EntryPairings(a, i + 1, b, path);
        assert EntryPairings(a, i, b, path) == Chain(child, rest);
        assert CompareEntries(o, threshold, a, i, b, path)
            == Both(Compare(o, threshold, a.entries[i].1, right.value, sub), CompareEntries(o, threshold, a, i + 1, b, path));
        JudgeChain(o, threshold, child, rest);
      }
    }
  }

  lemma {:induction false} ItemsAreJudged(o: Oracle, threshold: real, a: Value, ys: seq<Value>, i: nat, path: string)
    requires a.Arr? && i <= Max(|a.items|, |ys|)
    ensures CompareItems(o, threshold, a, ys, i, path) == Judge(o, threshold, ItemPairings(a, ys, i, path))
    decreases a, 0, Max(|a.items|, |ys|) - i
  {
    if i < Max(|a.items|, |ys|) {
      var right := if i < |ys| then ys[i] else Absent;
      var sub := IndexPath(path, i);
      ItemsAreJudged(o, threshold, a, ys, i + 1, path);
      var rest := ItemPairings(a, ys, i + 1, path);
      if i < |a.items| {
        CompareIsJudgedPairings(o, threshold, a.items[i], right, sub);
        var child := Pairings(a.items[i], right, sub);
        if child.Success? && rest.Success? {
          JudgeJoin(o, threshold, child.value, rest.value);
        }
      } else {
        var child := [Diff(sub, Absent, right)];
        FailingSingle(o, threshold, Diff(sub, Absent, right));
        assert Judge(o, threshold, Success(child)) == Success(CompareLeaf(o, threshold, Absent, right, sub));
        if rest.Success? {
          JudgeJoin(o, threshold, child, rest.value);
        }
      }
    }
  }

  /** The first-tree sides of the visited pairs that are scalars: the
      placeholder `Absent` is dropped. */
  function LeftLeaves(ps: seq<Diff>): (r: seq<Value>)
    requires forall p :: p in ps ==> !IsContainer(p.left)
    ensures forall x :: x in r ==> IsScalar(x)
  {
    if |ps| == 0 then []
    else
      assert ps[0] in ps;
      assert !IsContainer(ps[0].left);
      var head := if ps[0].left == Absent then [] else [ps[0].left];
      assert forall x :: x in head ==> IsScalar(x);
      head + LeftLeaves(ps[1..])
  }

  /** The number of visited pairs whose first-tree side is the placeholder. */
  function Padded(ps: seq<Diff>): (n: nat)
    requires forall p :: p in ps ==> !IsContainer(p.left)
    ensures n + |LeftLeaves(ps)| == |ps|
  {
    if |ps| == 0 then 0
    else (if ps[0].left == Absent then 1 else 0) + Padded(ps[1..])
  }

  lemma {:induction false} LeftLeavesAppend(ps: seq<Diff>, qs: seq<Diff>)
    requires forall p :: p in ps ==> !IsContainer(p.left)
    requires forall p :: p in qs ==> !IsContainer(p.left)
    ensures LeftLeaves(ps + qs) == LeftLeaves(ps) + LeftLeaves(qs)
  {
    if |ps| == 0 {
      AppendEmpty(qs);
    } else {
      TailOfAppend(ps, qs);
      LeftLeavesAppend(ps[1..], qs);
      var head := if ps[0].left == Absent then [] else [ps[0].left];
      Associate(head, LeftLeaves(ps[1..]), LeftLeaves(qs));
    }
  }

  /** Every scalar leaf of the first tree is visited exactly once, in
      document order; every other visited pair is a padded position. */
  lemma {:induction false} PairingsCoverLeaves(a: Value, b: Value, path: string)
    requires Pairings(a, b, path).Success?
    ensures LeftLeaves(Pairings(a, b, path).value) == Leaves(a)
    decreases a, 1, 0
  {
    match a
    case Obj(_) => EntryPairingsCoverLeaves(a, 0, b, path);
    case Arr(_) => ItemPairingsCoverLeaves(a, Iterate(b).value, 0, path);
    case _ =>
  }

  lemma {:induction false} EntryPairingsCoverLeaves(a: Value, i: nat, b: Value, path: string)
    requires a.Obj? && i <= |a.entries|
    requires EntryPairings(a, i, b, path).Success?
    ensures LeftLeaves(EntryPairings(a, i, b, path).value) == EntryLeaves(a, i)
    decreases a, 0, |a.entries| - i
  {
    if i < |a.entries| {
      var key := a.entries[i].0;
      var right := Subscript(b, key).value;
      var child := Pairings(a.entries[i].1, right, KeyPath(path, key)).value;
      var rest := EntryPairings(a, i + 1, b, path).value;
      PairingsCoverLeaves(a.entries[i].1, right, KeyPath(path, key));
      EntryPairingsCoverLeaves(a, i + 1, b, path);
      LeftLeavesAppend(child, rest);
    }
  }

  lemma {:induction false} ItemPairingsCoverLeaves(a: Value, ys: seq<Value>, i: nat, path: string)
    requires a.Arr? && i <= Max(|a.items|, |ys|)
    requires ItemPairings(a, ys, i, path).Success?
    ensures LeftLeaves(ItemPairings(a, ys, i, path).value)
         == (if i <= |a.items| then ItemLeaves(a, i) else [])
    decreases a, 0, Max(|a.items|, |ys|) - i
  {
    if i < Max(|a.items|, |ys|) {
      var right := if i < |ys| then ys[i] else Absent;
      var sub := IndexPath(path, i);
      ItemPairingsCoverLeaves(a, ys, i + 1, path);
      var rest := ItemPairings(a, ys, i + 1, path).value;
      if i < |a.items| {
        var child := Pairings(a.items[i], right, sub).value;
        PairingsCoverLeaves(a.items[i], right, sub);
        assert ItemPairings(a, ys, i, path).value == child + rest;
        LeftLeavesAppend(child, rest);
      } else {
        var child := [Diff(sub, Absent, right)];
        assert ItemPairings(a, ys, i, path).value == child + rest;
        LeftLeavesAppend(child, rest);
        assert LeftLeaves(child) == [];
      }
    }
  }

  /** Comparing a well-formed document with itself succeeds and pairs every
      leaf with an identical value. */
  lemma {:induction false} PairingsOfSelf(d: Value, path: string)
    requires WellFormed(d)
    ensures Pairings(d, d, path).Success?
    ensures forall p :: p in Pairings(d, d, path).value ==> p.left == p.right
    decreases d, 1, 0
  {
    match d
    case Obj(_) => EntryPairingsOfSelf(d, 0, path);
    case Arr(_) => ItemPairingsOfSelf(d, 0, path);
    case _ =>
  }

  lemma {:induction false} EntryPairingsOfSelf(d: Value, i: nat, path: string)
    requires d.Obj? && WellFormed(d) && i <= |d.entries|
    ensures EntryPairings(d, i, d, path).Success?
    ensures forall p :: p in EntryPairings(d, i, d, path).value ==> p.left == p.right
    decreases d, 0, |d.entries| - i
  {
    if i < |d.entries| {
      var key := d.entries[i].0;
      SubscriptEntry(d.entries, i);
      PairingsOfSelf(d.entries[i].1, KeyPath(path, key));
      EntryPairingsOfSelf(d, i + 1, path);
    }
  }

  lemma {:induction false} ItemPairingsOfSelf(d: Value, i: nat, path: string)
    requires d.Arr? && WellFormed(d) && i <= |d.items|
    ensures ItemPairings(d, d.items, i, path).Success?
    ensures forall p :: p in ItemPairings(d, d.items, i, path).value ==> p.left == p.right
    decreases d, 0, |d.items| - i
  {
    if i < |d.items| {
      PairingsOfSelf(d.items[i], IndexPath(path, i));
      ItemPairingsOfSelf(d, i + 1, path);
    }
  }
}
