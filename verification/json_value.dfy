/**
 * Parsed JSON documents as the comparator sees them, and the two ways the
 * comparator reaches into the second document: subscripting it with a key
 * and iterating over it.
 */
module JsonValue {
  import opened Results

  /** A JSON number: Python's `json` module yields an `int` or a `float`. */
  datatype Number = Int(i: int) | Float(x: real)

  /**
   * A document value. Objects are association lists in insertion order.
   * `Absent` is the placeholder `object()` that `zip_longest` pads the
   * shorter array with; it never comes out of the parser.
   */
  datatype Value =
    | Obj(entries: seq<(string, Value)>)
    | Arr(items: seq<Value>)
    | Str(s: string)
    | Num(n: Number)
    | Bool(b: bool)
    | Null
    | Absent

  /** The exceptions the traversal can raise on the second document. */
  datatype Fault =
    | MissingKey(key: string)        // KeyError: the object has no such key
    | NotSubscriptable(key: string)  // TypeError: the value is not a dict
    | NotIterable                    // TypeError: zip_longest cannot iterate it

  predicate IsContainer(v: Value) {
    v.Obj? || v.Arr?
  }

  /** A scalar that the value tally counts: string, number, boolean or null. */
  predicate IsScalar(v: Value) {
    v.Str? || v.Num? || v.Bool? || v.Null?
  }

  predicate DistinctKeys(es: seq<(string, Value)>) {
    forall i, j :: 0 <= i < j < |es| ==> es[i].0 != es[j].0
  }

  /** Every object in the tree has distinct keys, as every Python dict does. */
  predicate WellFormed(v: Value) {
    match v
    case Obj(es) => DistinctKeys(es) && forall i :: 0 <= i < |es| ==> WellFormed(es[i].1)
    case Arr(xs) => forall i :: 0 <= i < |xs| ==> WellFormed(xs[i])
    case _ => true
  }

  /** Dict lookup `es[key]` on an association list. */
  function FindKey(es: seq<(string, Value)>, key: string): (r: Result<Value, Fault>)
    ensures r.Success? <==> exists i :: 0 <= i < |es| && es[i].0 == key
    ensures r.Success? ==> (key, r.value) in es
    ensures r.Failure? ==> r.error == MissingKey(key)
  {
    if |es| == 0 then Failure(MissingKey(key))
    else if es[0].0 == key then Success(es[0].1)
    else FindKey(es[1..], key)
  }

  /** Python's `b[key]` for a string key: only a dict can be subscripted so. */
  function Subscript(b: Value, key: string): (r: Result<Value, Fault>)
    ensures r.Success? <==> b.Obj? && exists i :: 0 <= i < |b.entries| && b.entries[i].0 == key
    ensures r.Success? ==> (key, r.value) in b.entries
    ensures r.Failure? && b.Obj? ==> r.error == MissingKey(key)
    ensures r.Failure? && !b.Obj? ==> r.error == NotSubscriptable(key)
  {
    match b
    case Obj(es) => FindKey(es, key)
    case _ => Failure(NotSubscriptable(key))
  }

  /** With distinct keys, looking up the key of an entry yields that entry's value. */
  lemma {:induction false} SubscriptEntry(es: seq<(string, Value)>, i: nat)
    requires DistinctKeys(es) && i < |es|
    ensures Subscript(Obj(es), es[i].0) == Success(es[i].1)
  {
    if i > 0 {
      assert es[0].0 != es[i].0;
      var tail := es[1..];
      assert DistinctKeys(tail) by {
        forall p, q | 0 <= p < q < |tail| ensures tail[p].0 != tail[q].0 {
          assert tail[p] == es[p + 1] && tail[q] == es[q + 1];
        }
      }
      SubscriptEntry(tail, i - 1);
      assert tail[i - 1] == es[i];
    }
  }

  /** The elements `zip_longest` draws from the second document: a list's
      items, a string's characters, a dict's keys; anything else raises. */
  function Iterate(b: Value): (r: Option<seq<Value>>)
    ensures r.Some? <==> b.Arr? || b.Str? || b.Obj?
    ensures b.Arr? ==> r == Some(b.items)
    ensures b.Str? ==> r.Some? && |r.value| == |b.s|
                       && forall i :: 0 <= i < |b.s| ==> r.value[i] == Str([b.s[i]])
    ensures b.Obj? ==> r.Some? && |r.value| == |b.entries|
                       && forall i :: 0 <= i < |b.entries| ==> r.value[i] == Str(b.entries[i].0)
  {
    match b
    case Arr(ys) => Some(ys)
    case Str(s) => Some(seq(|s|, i requires 0 <= i < |s| => Str([s[i]])))
    case Obj(es) => Some(seq(|es|, i requires 0 <= i < |es| => Str(es[i].0)))
    case _ => None
  }

  /** The text of a run of strings, concatenated; other values contribute nothing. */
  function Concat(vs: seq<Value>): string {
    if |vs| == 0 then "" else (if vs[0].Str? then vs[0].s else "") + Concat(vs[1..])
  }

  /** Iterating a string and joining the pieces gives the string back. */
  lemma {:induction false} IterateStringRestores(s: string)
    ensures Iterate(Str(s)).Some? && Concat(Iterate(Str(s)).value) == s
  {
    var pieces := Iterate(Str(s)).value;
    if |s| > 0 {
      IterateStringRestores(s[1..]);
      assert pieces[1..] == Iterate(Str(s[1..])).value;
      assert s == [s[0]] + s[1..];
    }
  }

  /** Iterating an object yields only strings, and `Str(k)` is yielded exactly
      when `k` can subscript the object. */
  lemma IterateObjectKeys(es: seq<(string, Value)>)
    ensures forall x :: x in Iterate(Obj(es)).value ==> x.Str?
    ensures forall k :: Str(k) in Iterate(Obj(es)).value <==> Subscript(Obj(es), k).Success?
  {
    var ks := Iterate(Obj(es)).value;
    forall k ensures Str(k) in ks <==> Subscript(Obj(es), k).Success? {
      if Str(k) in ks {
        var i :| 0 <= i < |ks| && ks[i] == Str(k);
        assert es[i].0 == k;
      }
      if Subscript(Obj(es), k).Success? {
        var i :| 0 <= i < |es| && es[i].0 == k;
        assert ks[i] == Str(k);
      }
    }
  }

  /** The scalar leaves of a tree in document order (array index order,
      object insertion order). Containers and the placeholder are not leaves. */
  function Leaves(v: Value): (r: seq<Value>)
    ensures forall x :: x in r ==> IsScalar(x)
    decreases v, 1, 0
  {
    match v
    case Obj(es) => EntryLeaves(v, 0)
    case Arr(xs) => ItemLeaves(v, 0)
    case Absent => []
    case _ => [v]
  }

  function EntryLeaves(v: Value, i: nat): (r: seq<Value>)
    requires v.Obj? && i <= |v.entries|
    ensures forall x :: x in r ==> IsScalar(x)
    decreases v, 0, |v.entries| - i
  {
    if i == |v.entries| then [] else Leaves(v.entries[i].1) + EntryLeaves(v, i + 1)
  }

  function ItemLeaves(v: Value, i: nat): (r: seq<Value>)
    requires v.Arr? && i <= |v.items|
    ensures forall x :: x in r ==> IsScalar(x)
    decreases v, 0, |v.items| - i
  {
    if i == |v.items| then [] else Leaves(v.items[i]) + ItemLeaves(v, i + 1)
  }
}
