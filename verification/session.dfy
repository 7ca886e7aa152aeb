/**
 * The similarity computation (`get_comparison`): the tally of the first
 * document is the denominator, the comparator's count the number of
 * mismatches, and any fault raised by the comparator is returned in place
 * of a result. The percentage itself is a float formatted to two places;
 * the model keeps its integer ingredients `matching` and `total`.
 */
module Session {
  import opened Results
  import opened JsonValue
  import opened Fuzzy
  import opened Comparator
  import opened Traversal
  import opened ValueTally
  import opened Properties
  import opened Sequences

  datatype Report =
    | Similar(matching: int, total: nat, diffs: seq<Diff>)  // "{matching / total * 100:.2f}% similar"
    | NothingToCompare                                     // "The files do not contain keys to compare."
    | Raised(fault: Fault)                                 // str(e) of the exception

  /** The report for a comparison outcome over a denominator of `total`. */
  function Score(outcome: Result<Comparison, Fault>, total: nat): (r: Report)
    ensures r.Raised? <==> outcome.Failure?
    ensures r.Raised? ==> r.fault == outcome.error
    ensures r.NothingToCompare? <==> outcome.Success? && total == 0
    ensures r.Similar? ==> r.total == total && r.diffs == outcome.value.diffs
                           && r.matching + outcome.value.count == total
  {
    match outcome
    case Failure(f) => Raised(f)
    case Success(c) => if total > 0 then Similar(total - c.count, total, c.diffs) else NothingToCompare
  }

  /** `get_comparison` as written: `matching = total - difference_count`. */
  function GetComparison(o: Oracle, threshold: real, a: Value, b: Value): (r: Report)
    ensures r.Raised? <==> Compare(o, threshold, a, b, "").Failure?
    ensures r.Raised? ==> r.fault == Compare(o, threshold, a, b, "").error
    ensures r.NothingToCompare? <==> Compare(o, threshold, a, b, "").Success? && |Leaves(a)| == 0
    ensures r.Similar? ==> && r.total == |Leaves(a)| > 0
                           && r.diffs == Compare(o, threshold, a, b, "").value.diffs
                           && r.matching + |r.diffs| == r.total
  {
    Score(Compare(o, threshold, a, b, ""), CountValues(a))
  }

  /** When no item of the second document overhangs its partner array, the
      number of matching values lies between 0 and the total. */
  lemma SimilarityInRange(o: Oracle, threshold: real, a: Value, b: Value)
    requires Overhang(a, b, "") == 0
    requires GetComparison(o, threshold, a, b).Similar?
    ensures 0 <= GetComparison(o, threshold, a, b).matching <= GetComparison(o, threshold, a, b).total
  {
    CountBound(o, threshold, a, b, "");
  }

  /** The same range, read from the two documents alone. */
  lemma FitsInRange(o: Oracle, threshold: real, a: Value, b: Value)
    requires Fits(a, b)
    requires GetComparison(o, threshold, a, b).Similar?
    ensures 0 <= GetComparison(o, threshold, a, b).matching <= GetComparison(o, threshold, a, b).total
  {
    FitsHasNoOverhang(a, b, "");
    SimilarityInRange(o, threshold, a, b);
  }

  /** Every position the comparator scores: the tallied values of the first
      document and the overhanging items of the second. */
  function ScoredPositions(a: Value, b: Value): nat {
    CountValues(a) + Overhang(a, b, "")
  }

  /** The similarity with the overhanging positions of the second document
      added to the denominator, so that every scored position is counted. */
  function GetComparisonCorrected(o: Oracle, threshold: real, a: Value, b: Value): (r: Report)
    ensures r.Raised? <==> Compare(o, threshold, a, b, "").Failure?
    ensures r.Similar? ==> 0 <= r.matching <= r.total && r.matching + |r.diffs| == r.total
    ensures r.Raised? ==> r.fault == Compare(o, threshold, a, b, "").error
    ensures r.NothingToCompare? <==> Compare(o, threshold, a, b, "").Success? && ScoredPositions(a, b) == 0
    ensures r.Similar? ==> && r.total == CountValues(a) + Overhang(a, b, "")
                           && r.diffs == Compare(o, threshold, a, b, "").value.diffs
    ensures Overhang(a, b, "") == 0 ==> r == GetComparison(o, threshold, a, b)
  {
    var outcome := Compare(o, threshold, a, b, "");
    if outcome.Failure? then Score(outcome, ScoredPositions(a, b))
    else
      CountBound(o, threshold, a, b, "");
      Score(outcome, ScoredPositions(a, b))
  }

  // ---------------------------------------------------------------------
  // Worked examples

  /** A scalar pair is one difference exactly when it scores below the threshold. */
  lemma LeafStep(o: Oracle, threshold: real, x: Value, y: Value, path: string)
    requires !IsContainer(x)
    ensures Compare(o, threshold, x, y, path)
         == Success(if Differs(o, threshold, x, y) then Comparison(1, [Diff(path, x, y)]) else NoDifferences)
  {
  }

  /** One step of the array loop, given the results of its two parts. */
  lemma ItemStep(o: Oracle, threshold: real, a: Value, ys: seq<Value>, i: nat, path: string, c: Comparison, rest: Comparison)
    requires a.Arr? && i < Max(|a.items|, |ys|)
    requires (if i < |a.items| then Compare(o, threshold, a.items[i], if i < |ys| then ys[i] else Absent, IndexPath(path, i))
              else Success(CompareLeaf(o, threshold, Absent, ys[i], IndexPath(path, i)))) == Success(c)
    requires CompareItems(o, threshold, a, ys, i + 1, path) == Success(rest)
    ensures CompareItems(o, threshold, a, ys, i, path) == Success(Join(c, rest))
  {
  }

  /** One step of the pairing loop, given the pairs of its two parts. */
  lemma PairStep(a: Value, ys: seq<Value>, i: nat, path: string, child: seq<Diff>, rest: seq<Diff>)
    requires a.Arr? && i < Max(|a.items|, |ys|)
    requires (if i < |a.items| then Pairings(a.items[i], if i < |ys| then ys[i] else Absent, IndexPath(path, i))
              else Success([Diff(IndexPath(path, i), Absent, ys[i])])) == Success(child)
    requires ItemPairings(a, ys, i + 1, path) == Success(rest)
    ensures ItemPairings(a, ys, i, path) == Success(child + rest)
  {
  }

  /** A one-member object against a one-member object with the same key. */
  lemma SingleMember(o: Oracle, threshold: real, key: string, x: Value, y: Value)
    requires key != ""
    ensures Compare(o, threshold, Obj([(key, x)]), Obj([(key, y)]), "") == Compare(o, threshold, x, y, key)
    ensures Leaves(Obj([(key, x)])) == Leaves(x)
  {
    var a := Obj([(key, x)]);
    assert Subscript(Obj([(key, y)]), key) == Success(y);
    assert CompareEntries(o, threshold, a, 1, Obj([(key, y)]), "") == Success(NoDifferences);
    assert EntryLeaves(a, 1) == [];
    if Compare(o, threshold, x, y, key).Success? {
      var c := Compare(o, threshold, x, y, key).value;
      assert Join(c, NoDifferences) == c;
    }
  }

  /** The report once the comparison and the leaves are known. */
  lemma ReportOf(o: Oracle, threshold: real, a: Value, b: Value, c: Comparison, n: nat)
    requires Compare(o, threshold, a, b, "") == Success(c) && |Leaves(a)| == n > 0
    ensures GetComparison(o, threshold, a, b) == Similar(n - c.count, n, c.diffs)
  {
    var r := GetComparison(o, threshold, a, b);
    assert r.Similar? && r.matching == n - c.count && r.total == n && r.diffs == c.diffs;
  }

  /** With no differences, every tallied value matches. */
  lemma AllMatch(o: Oracle, threshold: real, a: Value, b: Value, n: nat)
    requires Compare(o, threshold, a, b, "") == Success(NoDifferences) && |Leaves(a)| == n > 0
    ensures GetComparison(o, threshold, a, b) == Similar(n, n, [])
  {
    ReportOf(o, threshold, a, b, NoDifferences, n);
  }

  /** Equal scalars never differ under a well-behaved oracle. */
  lemma SelfAgrees(o: Oracle, threshold: real, x: Value)
    requires WellBehaved(o) && threshold <= 100.0
    ensures !Differs(o, threshold, x, x)
  {
  }

  lemma HelloAgrees(o: Oracle)
    requires WellBehaved(o)
    ensures !Differs(o, 90.0, Str("Hello"), Str("hello"))
  {
    LowerCapitalised(o, 'H', "ello");
    assert "Hello" == ['H'] + "ello" && "hello" == ['h'] + "ello";
    MatchesOwnWord(o, Str("Hello"), "hello");
  }

  lemma HelloDiffers(o: Oracle)
    requires o.ratio("hello", "world") < 90
    ensures Differs(o, 90.0, Str("Hello"), Str("World"))
  {
    LowerCapitalised(o, 'H', "ello");
    assert "Hello" == ['H'] + "ello" && "hello" == ['h'] + "ello";
    LowerCapitalised(o, 'W', "orld");
    assert "World" == ['W'] + "orld" && "world" == ['w'] + "orld";
  }

  /** Case alone does not make a difference. */
  lemma CaseInsensitiveExample(o: Oracle)
    requires WellBehaved(o)
    ensures GetComparison(o, 90.0, Obj([("x", Str("Hello"))]), Obj([("x", Str("hello"))]))
         == Similar(1, 1, [])
  {
    HelloAgrees(o);
    CaseInsensitiveReport(o);
  }

  lemma CaseInsensitiveReport(o: Oracle)
    requires !Differs(o, 90.0, Str("Hello"), Str("hello"))
    ensures GetComparison(o, 90.0, Obj([("x", Str("Hello"))]), Obj([("x", Str("hello"))]))
         == Similar(1, 1, [])
  {
    CaseInsensitiveCompare(o);
    HelloLeaves();
    AllMatch(o, 90.0, Obj([("x", Str("Hello"))]), Obj([("x", Str("hello"))]), 1);
  }

  lemma CaseInsensitiveCompare(o: Oracle)
    requires !Differs(o, 90.0, Str("Hello"), Str("hello"))
    ensures Compare(o, 90.0, Obj([("x", Str("Hello"))]), Obj([("x", Str("hello"))]), "") == Success(NoDifferences)
  {
    LeafStep(o, 90.0, Str("Hello"), Str("hello"), "x");
    SingleMember(o, 90.0, "x", Str("Hello"), Str("hello"));
  }

  lemma HelloLeaves()
    ensures |Leaves(Obj([("x", Str("Hello"))]))| == 1
  {
    assert EntryLeaves(Obj([("x", Str("Hello"))]), 1) == [];
  }

  /** A dissimilar string is one difference, reported under its key. */
  lemma DissimilarExample(o: Oracle)
    requires o.ratio("hello", "world") < 90
    ensures GetComparison(o, 90.0, Obj([("x", Str("Hello"))]), Obj([("x", Str("World"))]))
         == Similar(0, 1, [Diff("x", Str("Hello"), Str("World"))])
  {
    HelloDiffers(o);
    LeafStep(o, 90.0, Str("Hello"), Str("World"), "x");
    SingleMember(o, 90.0, "x", Str("Hello"), Str("World"));
    HelloLeaves();
    ReportOf(o, 90.0, Obj([("x", Str("Hello"))]), Obj([("x", Str("World"))]),
             Comparison(1, [Diff("x", Str("Hello"), Str("World"))]), 1);
  }

  lemma ShorterArrayCompare(o: Oracle)
    requires !Differs(o, 90.0, Num(Int(1)), Num(Int(1))) && !Differs(o, 90.0, Num(Int(2)), Num(Int(2)))
    requires Differs(o, 90.0, Num(Int(3)), Absent)
    ensures Compare(o, 90.0, Arr([Num(Int(1)), Num(Int(2)), Num(Int(3))]), Arr([Num(Int(1)), Num(Int(2))]), "arr")
         == Success(Comparison(1, [Diff(IndexPath("arr", 2), Num(Int(3)), Absent)]))
  {
    var a, ys := Arr([Num(Int(1)), Num(Int(2)), Num(Int(3))]), [Num(Int(1)), Num(Int(2))];
    var d := Comparison(1, [Diff(IndexPath("arr", 2), Num(Int(3)), Absent)]);
    LeafStep(o, 90.0, Num(Int(3)), Absent, IndexPath("arr", 2));
    JoinMonoid(d, d, d);
    ItemStep(o, 90.0, a, ys, 2, "arr", d, NoDifferences);
    ShorterArrayHead(o, d);
  }

  lemma ShorterArrayHead(o: Oracle, d: Comparison)
    requires !Differs(o, 90.0, Num(Int(1)), Num(Int(1))) && !Differs(o, 90.0, Num(Int(2)), Num(Int(2)))
    requires CompareItems(o, 90.0, Arr([Num(Int(1)), Num(Int(2)), Num(Int(3))]), [Num(Int(1)), Num(Int(2))], 2, "arr") == Success(d)
    ensures CompareItems(o, 90.0, Arr([Num(Int(1)), Num(Int(2)), Num(Int(3))]), [Num(Int(1)), Num(Int(2))], 0, "arr") == Success(d)
  {
    var a, ys := Arr([Num(Int(1)), Num(Int(2)), Num(Int(3))]), [Num(Int(1)), Num(Int(2))];
    LeafStep(o, 90.0, Num(Int(2)), Num(Int(2)), IndexPath("arr", 1));
    JoinMonoid(d, d, d);
    ItemStep(o, 90.0, a, ys, 1, "arr", NoDifferences, d);
    ShorterArrayFirst(o, d);
  }

  lemma ShorterArrayFirst(o: Oracle, d: Comparison)
    requires !Differs(o, 90.0, Num(Int(1)), Num(Int(1)))
    requires CompareItems(o, 90.0, Arr([Num(Int(1)), Num(Int(2)), Num(Int(3))]), [Num(Int(1)), Num(Int(2))], 1, "arr") == Success(d)
    ensures CompareItems(o, 90.0, Arr([Num(Int(1)), Num(Int(2)), Num(Int(3))]), [Num(Int(1)), Num(Int(2))], 0, "arr") == Success(d)
  {
    LeafStep(o, 90.0, Num(Int(1)), Num(Int(1)), IndexPath("arr", 0));
    JoinMonoid(d, d, d);
    ItemStep(o, 90.0, Arr([Num(Int(1)), Num(Int(2)), Num(Int(3))]), [Num(Int(1)), Num(Int(2))], 0, "arr", NoDifferences, d);
  }

  lemma ArrPath()
    ensures IndexPath("arr", 2) == "arr[2]"
  {
  }

  lemma ThreeLeaves()
    ensures Leaves(Arr([Num(Int(1)), Num(Int(2)), Num(Int(3))])) == [Num(Int(1)), Num(Int(2)), Num(Int(3))]
  {
    var a := Arr([Num(Int(1)), Num(Int(2)), Num(Int(3))]);
    assert ItemLeaves(a, 3) == [];
    assert ItemLeaves(a, 2) == [Num(Int(3))];
    assert ItemLeaves(a, 1) == [Num(Int(2)), Num(Int(3))];
  }

  /** A shorter second array leaves the last item facing the placeholder. */
  lemma ShorterArrayExample(o: Oracle)
    requires WellBehaved(o) && Differs(o, 90.0, Num(Int(3)), Absent)
    ensures GetComparison(o, 90.0, Obj([("arr", Arr([Num(Int(1)), Num(Int(2)), Num(Int(3))]))]),
                                   Obj([("arr", Arr([Num(Int(1)), Num(Int(2))]))]))
         == Similar(2, 3, [Diff("arr[2]", Num(Int(3)), Absent)])
  {
    var xs, ys := [Num(Int(1)), Num(Int(2)), Num(Int(3))], [Num(Int(1)), Num(Int(2))];
    SelfAgrees(o, 90.0, Num(Int(1)));
    SelfAgrees(o, 90.0, Num(Int(2)));
    ShorterArrayCompare(o);
    ThreeLeaves();
    SingleMember(o, 90.0, "arr", Arr(xs), Arr(ys));
    ArrPath();
    ReportOf(o, 90.0, Obj([("arr", Arr(xs))]), Obj([("arr", Arr(ys))]), Comparison(1, [Diff("arr[2]", Num(Int(3)), Absent)]), 3);
  }

  /** Two empty objects have nothing to compare. */
  lemma EmptyExample(o: Oracle, threshold: real)
    ensures GetComparison(o, threshold, Obj([]), Obj([])) == NothingToCompare
  {
  }

  // ---------------------------------------------------------------------
  // The negative similarity

  /** As written, a second array longer than the first yields more
      differences than tallied values: a one-item array `[x]` against a
      two-item array `[y, z]` reports two differences over a total of one,
      a similarity of -100%, whenever `x` differs from `y` and the
      placeholder from `z` (`[1]` against `[2, 3]`, say). */
  lemma NegativeSimilarity(o: Oracle, t: real, x: Value, y: Value, z: Value)
    requires IsScalar(x) && Differs(o, t, x, y) && Differs(o, t, Absent, z)
    ensures GetComparison(o, t, Arr([x]), Arr([y, z])) == Similar(-1, 1, [Diff("[0]", x, y), Diff("[1]", Absent, z)])
  {
    LongerCompare(o, t, x, y, z);
    OneLeaf(x);
    ReportOf(o, t, Arr([x]), Arr([y, z]), Comparison(2, [Diff("[0]", x, y), Diff("[1]", Absent, z)]), 1);
  }

  lemma OneLeaf(x: Value)
    requires IsScalar(x)
    ensures |Leaves(Arr([x]))| == 1
  {
    assert ItemLeaves(Arr([x]), 1) == [];
    assert Leaves(x) == [x];
  }

  lemma LongerCompare(o: Oracle, t: real, x: Value, y: Value, z: Value)
    requires IsScalar(x) && Differs(o, t, x, y) && Differs(o, t, Absent, z)
    ensures Compare(o, t, Arr([x]), Arr([y, z]), "") == Success(Comparison(2, [Diff("[0]", x, y), Diff("[1]", Absent, z)]))
  {
    LongerItems(o, t, x, y, z);
    TopPaths();
  }

  lemma TopPaths()
    ensures IndexPath("", 0) == "[0]" && IndexPath("", 1) == "[1]"
  {
  }

  lemma LongerItems(o: Oracle, t: real, x: Value, y: Value, z: Value)
    requires IsScalar(x) && Differs(o, t, x, y) && Differs(o, t, Absent, z)
    ensures CompareItems(o, t, Arr([x]), [y, z], 0, "")
         == Success(Comparison(2, [Diff(IndexPath("", 0), x, y), Diff(IndexPath("", 1), Absent, z)]))
  {
    var d0, d1 := Diff(IndexPath("", 0), x, y), Diff(IndexPath("", 1), Absent, z);
    LongerLast(o, t, x, y, z);
    LeafStep(o, t, x, y, IndexPath("", 0));
    Pair(d0, d1);
    ItemStep(o, t, Arr([x]), [y, z], 0, "", Comparison(1, [d0]), Comparison(1, [d1]));
  }

  lemma LongerLast(o: Oracle, t: real, x: Value, y: Value, z: Value)
    requires Differs(o, t, Absent, z)
    ensures CompareItems(o, t, Arr([x]), [y, z], 1, "") == Success(Comparison(1, [Diff(IndexPath("", 1), Absent, z)]))
  {
    var c1 := Comparison(1, [Diff(IndexPath("", 1), Absent, z)]);
    assert CompareLeaf(o, t, Absent, z, IndexPath("", 1)) == c1;
    JoinMonoid(c1, c1, c1);
    ItemStep(o, t, Arr([x]), [y, z], 1, "", c1, NoDifferences);
  }

  /** The overhanging item of the second array is the one padded position. */
  lemma LongerOverhang(x: Value, y: Value, z: Value)
    requires IsScalar(x)
    ensures Overhang(Arr([x]), Arr([y, z]), "") == 1
  {
    var a, ys := Arr([x]), [y, z];
    var d0, d1 := Diff(IndexPath("", 0), x, y), Diff(IndexPath("", 1), Absent, z);
    assert ItemPairings(a, ys, 2, "") == Success([]);
    AppendEmpty([d1]);
    PairStep(a, ys, 1, "", [d1], []);
    assert Pairings(x, y, IndexPath("", 0)) == Success([d0]);
    Pair(d0, d1);
    PairStep(a, ys, 0, "", [d0], [d1]);
    assert Padded([d0, d1]) == 1;
  }

  /** The two arrays of the example do not line up. */
  lemma LongerDoesNotFit(x: Value, y: Value, z: Value)
    ensures !Fits(Arr([x]), Arr([y, z]))
  {
    assert Iterate(Arr([y, z])) == Some([y, z]);
  }

  lemma LongerPositions(x: Value, y: Value, z: Value)
    requires IsScalar(x)
    ensures ScoredPositions(Arr([x]), Arr([y, z])) == 2
  {
    LongerOverhang(x, y, z);
    OneLeaf(x);
  }

  /** The corrected computation scores the same input as 0% similar. */
  lemma CorrectedSimilarity(o: Oracle, t: real, x: Value, y: Value, z: Value)
    requires IsScalar(x) && Differs(o, t, x, y) && Differs(o, t, Absent, z)
    ensures GetComparisonCorrected(o, t, Arr([x]), Arr([y, z])) == Similar(0, 2, [Diff("[0]", x, y), Diff("[1]", Absent, z)])
  {
    LongerCompare(o, t, x, y, z);
    LongerPositions(x, y, z);
    var r := GetComparisonCorrected(o, t, Arr([x]), Arr([y, z]));
    assert r.Similar? && r.matching == 0 && r.total == 2 && r.diffs == [Diff("[0]", x, y), Diff("[1]", Absent, z)];
  }

  /** A well-behaved oracle that scores exact matches 100 and anything else
      0; it renders the number 1 as "1", every other number as "n" and
      everything else as "a". */
  function ExactOracle(): Oracle {
    Oracle((s: string, t: string) => if s == t then 100 else 0,
           (v: Value) => if v.Num? && v.n.Int? && v.n.i == 1 then "1" else if v.Num? then "n" else "a",
           (c: char) => [c])
  }

  lemma ExactOracleWellBehaved()
    ensures WellBehaved(ExactOracle())
  {
  }

  /** A pair differs when the ratio of its lower-cased renderings is below the threshold. */
  lemma DiffersByRatio(o: Oracle, t: real, a: Value, b: Value, s: string, u: string)
    requires Lower(o, Render(o, a)) == s && Lower(o, Render(o, b)) == u && (o.ratio(s, u) as real) < t
    ensures Differs(o, t, a, b)
  {
  }

  /** Under the exact oracle at the default threshold, `[1]` against `[2, 3]`
      meets the conditions of the negative example. */
  lemma ExactOracleDiffers()
    ensures Differs(ExactOracle(), 90.0, Num(Int(1)), Num(Int(2)))
    ensures Differs(ExactOracle(), 90.0, Absent, Num(Int(3)))
  {
    var o := ExactOracle();
    assert Render(o, Num(Int(1))) == "1" && Render(o, Num(Int(2))) == "n";
    assert Render(o, Absent) == "a" && Render(o, Num(Int(3))) == "n";
    LowerFixesLowercase(o, "1");
    LowerFixesLowercase(o, "n");
    LowerFixesLowercase(o, "a");
    assert o.ratio("1", "n") == 0 && o.ratio("a", "n") == 0;
    DiffersByRatio(o, 90.0, Num(Int(1)), Num(Int(2)), "1", "n");
    DiffersByRatio(o, 90.0, Absent, Num(Int(3)), "a", "n");
  }

  /** The concrete counterexample: `[1]` against `[2, 3]` is reported as
      -100% similar, and as 0% by the corrected computation. */
  lemma MinusOneHundredPercent()
    ensures GetComparison(ExactOracle(), 90.0, Arr([Num(Int(1))]), Arr([Num(Int(2)), Num(Int(3))]))
         == Similar(-1, 1, [Diff("[0]", Num(Int(1)), Num(Int(2))), Diff("[1]", Absent, Num(Int(3)))])
    ensures GetComparisonCorrected(ExactOracle(), 90.0, Arr([Num(Int(1))]), Arr([Num(Int(2)), Num(Int(3))]))
         == Similar(0, 2, [Diff("[0]", Num(Int(1)), Num(Int(2))), Diff("[1]", Absent, Num(Int(3)))])
  {
    ExactOracleDiffers();
    NegativeSimilarity(ExactOracle(), 90.0, Num(Int(1)), Num(Int(2)), Num(Int(3)));
    CorrectedSimilarity(ExactOracle(), 90.0, Num(Int(1)), Num(Int(2)), Num(Int(3)));
  }
}
