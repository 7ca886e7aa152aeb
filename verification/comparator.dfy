/**
 * The tree comparator (`compare_json`): walks two documents in lockstep,
 * led by the shape of the first, and reports the leaf pairs whose fuzzy
 * score falls below the threshold.
 */
module Comparator {
  import opened Results
  import opened JsonValue
  import opened Fuzzy

  /** A leaf pair at a key path; a reported difference is one that scored too low. */
  datatype Diff = Diff(path: string, left: Value, right: Value)

  /** The pair `(difference_count, differences)` that `compare_json` returns. */
  datatype Comparison = Comparison(count: nat, diffs: seq<Diff>)

  const NoDifferences := Comparison(0, [])

  /** Combines the results of two children: adds the counts and concatenates
      the difference lists, keeping the count equal to the list's length. */
  function Join(c: Comparison, d: Comparison): Comparison {
    Comparison(c.count + d.count, c.diffs + d.diffs)
  }

  /** Combining keeps the count equal to the number of differences, is
      associative, and has no effect with an empty result. */
  lemma JoinMonoid(c: Comparison, d: Comparison, e: Comparison)
    ensures c.count == |c.diffs| && d.count == |d.diffs| ==> Join(c, d).count == |Join(c, d).diffs|
    ensures Join(Join(c, d), e) == Join(c, Join(d, e))
    ensures Join(NoDifferences, c) == c && Join(c, NoDifferences) == c
  {
    assert (c.diffs + d.diffs) + e.diffs == c.diffs + (d.diffs + e.diffs);
    assert [] + c.diffs == c.diffs && c.diffs + [] == c.diffs;
  }

  function Max(x: nat, y: nat): nat {
    if x < y then y else x
  }

  function Digit(d: nat): char
    requires d < 10
  {
    ('0' as int + d) as char
  }

  /** The number a string of decimal digits denotes, most significant first. */
  function DigitsValue(s: string): int {
    if |s| == 0 then 0 else 10 * DigitsValue(s[..|s| - 1]) + (s[|s| - 1] as int - '0' as int)
  }

  /** A canonical numeral: non-empty, decimal digits only, no leading zero. */
  predicate Canonical(s: string) {
    && |s| >= 1
    && (forall i :: 0 <= i < |s| ==> '0' <= s[i] <= '9')
    && (|s| > 1 ==> s[0] != '0')
  }

  /** The decimal numeral of an index, as an f-string prints it. */
  function Decimal(n: nat): (r: string)
    ensures Canonical(r)
    ensures DigitsValue(r) == n
    decreases n
  {
    if n < 10 then [Digit(n)]
    else
      var r := Decimal(n / 10) + [Digit(n % 10)];
      assert r[..|r| - 1] == Decimal(n / 10);
      r
  }

  /** A canonical numeral of positive length > 1 denotes at least 10. */
  lemma {:induction false} CanonicalValue(s: string)
    requires Canonical(s)
    ensures 0 <= DigitsValue(s)
    ensures |s| > 1 ==> DigitsValue(s) >= 10
    ensures |s| == 1 ==> DigitsValue(s) < 10
    decreases |s|
  {
    if |s| > 1 {
      var init := s[..|s| - 1];
      assert init[0] == s[0];
      CanonicalValue(init);
      if |init| == 1 {
        assert DigitsValue(init[..0]) == 0;
        assert DigitsValue(init) >= 1;
      }
    } else {
      assert DigitsValue(s[..0]) == 0;
    }
  }

  /** Every canonical numeral is the one printed for the number it denotes. */
  lemma {:induction false} DecimalOfDigits(s: string)
    requires Canonical(s)
    ensures DigitsValue(s) >= 0 && Decimal(DigitsValue(s)) == s
    decreases |s|
  {
    CanonicalValue(s);
    if |s| > 1 {
      var init := s[..|s| - 1];
      assert init[0] == s[0];
      DecimalOfDigits(init);
      CanonicalValue(init);
      DivideByTen(DigitsValue(init), s[|s| - 1] as int - '0' as int);
      assert s == init + [s[|s| - 1]];
    } else {
      assert DigitsValue(s[..0]) == 0;
      assert s == [s[0]];
    }
  }

  lemma DivideByTen(q: int, d: int)
    requires 0 <= q && 0 <= d < 10
    ensures (10 * q + d) / 10 == q && (10 * q + d) % 10 == d
  {
  }

  /** The path of an object member: the bare key when the parent path is
      empty, otherwise the parent path, a dot and the key. */
  function KeyPath(path: string, key: string): string {
    if path == "" then key else path + "." + key
  }

  /** The path of an array position. */
  function IndexPath(path: string, i: nat): string {
    path + "[" + Decimal(i) + "]"
  }

  /** A member's path ends with its key: it is the key alone when the parent
      path is empty, and follows the parent's path and a dot otherwise. */
  lemma KeyPathParts(path: string, key: string)
    ensures |KeyPath(path, key)| >= |key| && KeyPath(path, key)[|KeyPath(path, key)| - |key|..] == key
    ensures path == "" ==> KeyPath(path, key) == key
    ensures path != "" ==> |KeyPath(path, key)| == |path| + 1 + |key|
                           && KeyPath(path, key)[..|path| + 1] == path + "."
  {
  }

  /** Different members of one object get different paths. */
  lemma KeyPathsDistinct(path: string, k: string, l: string)
    requires k != l
    ensures KeyPath(path, k) != KeyPath(path, l)
  {
    KeyPathParts(path, k);
    KeyPathParts(path, l);
    if path != "" {
      assert KeyPath(path, k)[|path| + 1..] == k;
      assert KeyPath(path, l)[|path| + 1..] == l;
    }
  }

  /** A position's path is the parent's path, then the index in brackets;
      the index can be read back from it. */
  lemma IndexPathParts(path: string, i: nat)
    ensures |IndexPath(path, i)| == |path| + |Decimal(i)| + 2
    ensures IndexPath(path, i)[..|path| + 1] == path + "[" && IndexPath(path, i)[|IndexPath(path, i)| - 1] == ']'
    ensures DigitsValue(IndexPath(path, i)[|path| + 1..|IndexPath(path, i)| - 1]) == i
  {
    var r := IndexPath(path, i);
    assert r[|path| + 1..|r| - 1] == Decimal(i);
  }

  /** Different positions of one array get different paths. */
  lemma IndexPathsDistinct(path: string, i: nat, j: nat)
    requires i != j
    ensures IndexPath(path, i) != IndexPath(path, j)
  {
    IndexPathParts(path, i);
    IndexPathParts(path, j);
  }

  /** The message the source formats for a difference: the preamble, then
      the path. */
  function Describe(o: Oracle, d: Diff): (r: string)
    ensures |r| >= |Preamble| + |d.path| && r[..|Preamble|] == Preamble
    ensures r[|Preamble|..|Preamble| + |d.path|] == d.path
  {
    Preamble + d.path + ": '" + Render(o, d.left) + "' vs '" + Render(o, d.right) + "'"
  }

  const Preamble := "Value difference at "

  /** The message list the source returns: one message per difference, in order. */
  function Messages(o: Oracle, c: Comparison): (r: seq<string>)
    ensures |r| == |c.diffs|
    ensures forall i :: 0 <= i < |r| ==> r[i] == Describe(o, c.diffs[i])
  {
    seq(|c.diffs|, i requires 0 <= i < |c.diffs| => Describe(o, c.diffs[i]))
  }

  /** The message of a string pair needs no oracle. */
  lemma DescribeStrings()
    ensures forall o: Oracle :: Describe(o, Diff("x", Str("Hello"), Str("World")))
                              == "Value difference at x: 'Hello' vs 'World'"
  {
  }

  /** True when the pair scores below the threshold. */
  predicate Differs(o: Oracle, threshold: real, a: Value, b: Value) {
    (FuzzyMatch(o, a, b) as real) < threshold
  }

  /** The leaf rule: at most one difference, exactly when the score is below the threshold. */
  function CompareLeaf(o: Oracle, threshold: real, a: Value, b: Value, path: string): (c: Comparison)
    ensures c.count == |c.diffs| <= 1
    ensures c.count == 1 <==> Differs(o, threshold, a, b)
    ensures c.count == 1 ==> c.diffs == [Diff(path, a, b)]
  {
    if Differs(o, threshold, a, b) then Comparison(1, [Diff(path, a, b)]) else NoDifferences
  }

  /** `compare_json(a, b, path)`. Objects iterate the keys of `a` in entry
      order and subscript `b`; arrays pair items up to the longer length,
      padding with `Absent`; anything else is a leaf. */
  function Compare(o: Oracle, threshold: real, a: Value, b: Value, path: string): (r: Result<Comparison, Fault>)
    ensures r.Success? ==> r.value.count == |r.value.diffs|
    ensures r.Success? ==> forall d :: d in r.value.diffs ==>
              !IsContainer(d.left) && Differs(o, threshold, d.left, d.right)
    decreases a, 1, 0
  {
    match a
    case Obj(_) => CompareEntries(o, threshold, a, 0, b, path)
    case Arr(_) =>
      (match Iterate(b)
       case None => Failure(NotIterable)
       case Some(ys) => CompareItems(o, threshold, a, ys, 0, path))
    case _ => Success(CompareLeaf(o, threshold, a, b, path))
  }

  /** The loop over the keys of the object `a`, from entry `i` on. */
  function CompareEntries(o: Oracle, threshold: real, a: Value, i: nat, b: Value, path: string)
    : (r: Result<Comparison, Fault>)
    requires a.Obj? && i <= |a.entries|
    ensures r.Success? ==> r.value.count == |r.value.diffs|
    ensures r.Success? ==> forall d :: d in r.value.diffs ==>
              !IsContainer(d.left) && Differs(o, threshold, d.left, d.right)
    decreases a, 0, |a.entries| - i
  {
    if i == |a.entries| then Success(NoDifferences)
    else
      var key := a.entries[i].0;
      var right :- Subscript(b, key);
      var child :- Compare(o, threshold, a.entries[i].1, right, KeyPath(path, key));
      var rest :- CompareEntries(o, threshold, a, i + 1, b, path);
      Success(Join(child, rest))
  }

  /** The loop over `enumerate(zip_longest(a, ys))`, from position `i` on. */
  function CompareItems(o: Oracle, threshold: real, a: Value, ys: seq<Value>, i: nat, path: string)
    : (r: Result<Comparison, Fault>)
    requires a.Arr? && i <= Max(|a.items|, |ys|)
    ensures r.Success? ==> r.value.count == |r.value.diffs|
    ensures r.Success? ==> forall d :: d in r.value.diffs ==>
              !IsContainer(d.left) && Differs(o, threshold, d.left, d.right)
    decreases a, 0, Max(|a.items|, |ys|) - i
  {
    if i == Max(|a.items|, |ys|) then Success(NoDifferences)
    else
      var right := if i < |ys| then ys[i] else Absent;
      var child :- if i < |a.items| then Compare(o, threshold, a.items[i], right, IndexPath(path, i))
                   else Success(CompareLeaf(o, threshold, Absent, right, IndexPath(path, i)));
      var rest :- CompareItems(o, threshold, a, ys, i + 1, path);
      Success(Join(child, rest))
  }
}
