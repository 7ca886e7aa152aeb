/**
 * The value tally of the first document: the denominator of the similarity
 * ratio.
 */
module ValueTally {
  import opened JsonValue

  /** Counts of leaves by kind, as in the source's `counts` dictionary. */
  datatype Tally = Tally(strings: nat, numbers: nat, booleans: nat, arrayMembers: nat, nulls: nat) {

    function Plus(t: Tally): Tally {
      Tally(strings + t.strings, numbers + t.numbers, booleans + t.booleans,
            arrayMembers + t.arrayMembers, nulls + t.nulls)
    }

    /** The comparable values: array members are not part of the total. */
    function Total(): nat {
      strings + numbers + booleans + nulls
    }
  }

  const Zero := Tally(0, 0, 0, 0, 0)

  /** The tally of one tree, recursing into object values and array items. */
  function Census(v: Value): (r: Tally)
    ensures v.Arr? ==> r.arrayMembers >= |v.items|
    decreases v, 1, 0
  {
    match v
    case Obj(_) => EntryCensus(v, 0)
    case Arr(xs) => Tally(0, 0, 0, |xs|, 0).Plus(ItemCensus(v, 0))
    case Str(_) => Tally(1, 0, 0, 0, 0)
    case Bool(_) => Tally(0, 0, 1, 0, 0)
    case Num(_) => Tally(0, 1, 0, 0, 0)
    case Null => Tally(0, 0, 0, 0, 1)
    case Absent => Zero
  }

  function EntryCensus(v: Value, i: nat): (r: Tally)
    requires v.Obj? && i <= |v.entries|
    decreases v, 0, |v.entries| - i
  {
    if i == |v.entries| then Zero else Census(v.entries[i].1).Plus(EntryCensus(v, i + 1))
  }

  function ItemCensus(v: Value, i: nat): (r: Tally)
    requires v.Arr? && i <= |v.items|
    decreases v, 0, |v.items| - i
  {
    if i == |v.items| then Zero else Census(v.items[i]).Plus(ItemCensus(v, i + 1))
  }

  /** `count_values`: the number of comparable values in the tree. */
  function CountValues(v: Value): (total: nat)
    ensures total == |Leaves(v)|
  {
    CensusCountsLeaves(v);
    CountKindsPartition(Leaves(v));
    Census(v).Total()
  }

  /** The kind under which a scalar is tallied. */
  datatype Kind = StringKind | NumberKind | BooleanKind | NullKind

  function KindOf(v: Value): Kind
    requires IsScalar(v)
  {
    match v
    case Str(_) => StringKind
    case Num(_) => NumberKind
    case Bool(_) => BooleanKind
    case Null => NullKind
  }

  /** How many of the scalars `ls` are of kind `k`. */
  function CountKind(ls: seq<Value>, k: Kind): (n: nat)
    requires forall x :: x in ls ==> IsScalar(x)
    ensures n <= |ls|
  {
    if |ls| == 0 then 0
    else (if KindOf(ls[0]) == k then 1 else 0) + CountKind(ls[1..], k)
  }

  lemma {:induction false} CountKindAppend(ls: seq<Value>, ms: seq<Value>, k: Kind)
    requires forall x :: x in ls ==> IsScalar(x)
    requires forall x :: x in ms ==> IsScalar(x)
    ensures CountKind(ls + ms, k) == CountKind(ls, k) + CountKind(ms, k)
  {
    if |ls| > 0 {
      assert (ls + ms)[1..] == ls[1..] + ms;
      CountKindAppend(ls[1..], ms, k);
    } else {
      assert ls + ms == ms;
    }
  }

  /** Every scalar has exactly one kind, so the four counts add up to the length. */
  lemma {:induction false} CountKindsPartition(ls: seq<Value>)
    requires forall x :: x in ls ==> IsScalar(x)
    ensures CountKind(ls, StringKind) + CountKind(ls, NumberKind)
          + CountKind(ls, BooleanKind) + CountKind(ls, NullKind) == |ls|
  {
    if |ls| > 0 {
      CountKindsPartition(ls[1..]);
    }
  }

  /** Each counter of the tally is the number of leaves of its kind; in
      particular booleans are counted as booleans and never as numbers. */
  lemma {:induction false} CensusCountsLeaves(v: Value)
    ensures Census(v).strings == CountKind(Leaves(v), StringKind)
    ensures Census(v).numbers == CountKind(Leaves(v), NumberKind)
    ensures Census(v).booleans == CountKind(Leaves(v), BooleanKind)
    ensures Census(v).nulls == CountKind(Leaves(v), NullKind)
    decreases v, 1, 0
  {
    match v
    case Obj(_) => EntryCensusCountsLeaves(v, 0);
    case Arr(_) => ItemCensusCountsLeaves(v, 0);
    case _ =>
  }

  lemma {:induction false} EntryCensusCountsLeaves(v: Value, i: nat)
    requires v.Obj? && i <= |v.entries|
    ensures EntryCensus(v, i).strings == CountKind(EntryLeaves(v, i), StringKind)
    ensures EntryCensus(v, i).numbers == CountKind(EntryLeaves(v, i), NumberKind)
    ensures EntryCensus(v, i).booleans == CountKind(EntryLeaves(v, i), BooleanKind)
    ensures EntryCensus(v, i).nulls == CountKind(EntryLeaves(v, i), NullKind)
    decreases v, 0, |v.entries| - i
  {
    if i < |v.entries| {
      CensusCountsLeaves(v.entries[i].1);
      EntryCensusCountsLeaves(v, i + 1);
      forall k: Kind ensures CountKind(EntryLeaves(v, i), k)
          == CountKind(Leaves(v.entries[i].1), k) + CountKind(EntryLeaves(v, i + 1), k) {
        CountKindAppend(Leaves(v.entries[i].1), EntryLeaves(v, i + 1), k);
      }
    }
  }

  lemma {:induction false} ItemCensusCountsLeaves(v: Value, i: nat)
    requires v.Arr? && i <= |v.items|
    ensures ItemCensus(v, i).strings == CountKind(ItemLeaves(v, i), StringKind)
    ensures ItemCensus(v, i).numbers == CountKind(ItemLeaves(v, i), NumberKind)
    ensures ItemCensus(v, i).booleans == CountKind(ItemLeaves(v, i), BooleanKind)
    ensures ItemCensus(v, i).nulls == CountKind(ItemLeaves(v, i), NullKind)
    decreases v, 0, |v.items| - i
  {
    if i < |v.items| {
      CensusCountsLeaves(v.items[i]);
      ItemCensusCountsLeaves(v, i + 1);
      forall k: Kind ensures CountKind(ItemLeaves(v, i), k)
          == CountKind(Leaves(v.items[i]), k) + CountKind(ItemLeaves(v, i + 1), k) {
        CountKindAppend(Leaves(v.items[i]), ItemLeaves(v, i + 1), k);
      }
    }
  }

  // ---------------------------------------------------------------------
  // The array-member counter

  /** The arrays of a tree, each before the arrays nested in it, in
      document order. */
  function Arrays(v: Value): (r: seq<Value>)
    ensures forall x :: x in r ==> x.Arr?
    ensures v.Arr? ==> |r| > 0 && r[0] == v
    decreases v, 1, 0
  {
    match v
    case Obj(_) => EntryArrays(v, 0)
    case Arr(_) => [v] + ItemArrays(v, 0)
    case _ => []
  }

  function EntryArrays(v: Value, i: nat): (r: seq<Value>)
    requires v.Obj? && i <= |v.entries|
    ensures forall x :: x in r ==> x.Arr?
    decreases v, 0, |v.entries| - i
  {
    if i == |v.entries| then [] else Arrays(v.entries[i].1) + EntryArrays(v, i + 1)
  }

  function ItemArrays(v: Value, i: nat): (r: seq<Value>)
    requires v.Arr? && i <= |v.items|
    ensures forall x :: x in r ==> x.Arr?
    decreases v, 0, |v.items| - i
  {
    if i == |v.items| then [] else Arrays(v.items[i]) + ItemArrays(v, i + 1)
  }

  /** The number of items held by the arrays among `xs`. */
  function ItemsOf(xs: seq<Value>): nat {
    if |xs| == 0 then 0 else (if xs[0].Arr? then |xs[0].items| else 0) + ItemsOf(xs[1..])
  }

  lemma {:induction false} ItemsOfAppend(xs: seq<Value>, ys: seq<Value>)
    ensures ItemsOf(xs + ys) == ItemsOf(xs) + ItemsOf(ys)
  {
    if |xs| > 0 {
      assert (xs + ys)[1..] == xs[1..] + ys;
      ItemsOfAppend(xs[1..], ys);
    } else {
      assert xs + ys == ys;
    }
  }

  /** The `array_members` counter adds the length of every array anywhere
      in the tree, nested ones included. */
  lemma {:induction false} CensusCountsArrayMembers(v: Value)
    ensures Census(v).arrayMembers == ItemsOf(Arrays(v))
    decreases v, 1, 0
  {
    match v
    case Obj(_) => EntryCensusCountsArrayMembers(v, 0);
    case Arr(xs) =>
      ItemCensusCountsArrayMembers(v, 0);
      ItemsOfAppend([v], ItemArrays(v, 0));
      assert ItemsOf([v]) == |xs|;
    case _ =>
  }

  lemma {:induction false} EntryCensusCountsArrayMembers(v: Value, i: nat)
    requires v.Obj? && i <= |v.entries|
    ensures EntryCensus(v, i).arrayMembers == ItemsOf(EntryArrays(v, i))
    decreases v, 0, |v.entries| - i
  {
    if i < |v.entries| {
      CensusCountsArrayMembers(v.entries[i].1);
      EntryCensusCountsArrayMembers(v, i + 1);
      ItemsOfAppend(Arrays(v.entries[i].1), EntryArrays(v, i + 1));
    }
  }

  lemma {:induction false} ItemCensusCountsArrayMembers(v: Value, i: nat)
    requires v.Arr? && i <= |v.items|
    ensures ItemCensus(v, i).arrayMembers == ItemsOf(ItemArrays(v, i))
    decreases v, 0, |v.items| - i
  {
    if i < |v.items| {
      CensusCountsArrayMembers(v.items[i]);
      ItemCensusCountsArrayMembers(v, i + 1);
      ItemsOfAppend(Arrays(v.items[i]), ItemArrays(v, i + 1));
    }
  }
}
