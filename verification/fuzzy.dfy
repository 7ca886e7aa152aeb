/**
 * The approximate scalar matcher: both operands are rendered with Python's
 * `str()`, lower-cased, and handed to the fuzzy ratio of an external library.
 * The library, the rendering of numbers and containers and the case mapping
 * of non-ASCII characters are not visible, so they are the fields of an
 * `Oracle`; `WellBehaved` is everything the comparator may assume of them.
 */
module Fuzzy {
  import opened JsonValue

  datatype Oracle = Oracle(
    ratio: (string, string) -> int,  // fuzz.ratio
    show: Value -> string,           // str() of numbers, containers and object()
    lowerWide: char -> string)       // str.lower() of a non-ASCII character

  /** The ratio lies in 0..100, and 100 means an exact match. */
  ghost predicate WellBehaved(o: Oracle) {
    && (forall s, t :: 0 <= o.ratio(s, t) <= 100)
    && (forall s :: o.ratio(s, s) == 100)
  }

  predicate IsAscii(s: string) {
    forall i :: 0 <= i < |s| ==> s[i] as int < 128
  }

  predicate NoUpperAscii(s: string) {
    forall i :: 0 <= i < |s| ==> !('A' <= s[i] <= 'Z')
  }

  function LowerChar(o: Oracle, c: char): string {
    if 'A' <= c <= 'Z' then [(c as int + 32) as char]
    else if c as int < 128 then [c]
    else o.lowerWide(c)
  }

  /** `str.lower()`: ASCII letters are mapped exactly, other characters by the oracle. */
  function Lower(o: Oracle, s: string): (r: string)
    ensures IsAscii(s) ==> |r| == |s| && IsAscii(r) && NoUpperAscii(r)
  {
    if |s| == 0 then [] else LowerChar(o, s[0]) + Lower(o, s[1..])
  }

  /** On ASCII text, each capital becomes its own lower-case letter and every
      other character stays as it is. */
  lemma {:induction false} LowerEachChar(o: Oracle, s: string)
    requires IsAscii(s)
    ensures forall i :: 0 <= i < |s| ==>
              Lower(o, s)[i] == if 'A' <= s[i] <= 'Z' then (s[i] as int + 32) as char else s[i]
  {
    if |s| > 0 {
      LowerEachChar(o, s[1..]);
      var r := Lower(o, s);
      assert r == LowerChar(o, s[0]) + Lower(o, s[1..]);
      forall i | 1 <= i < |s|
        ensures r[i] == if 'A' <= s[i] <= 'Z' then (s[i] as int + 32) as char else s[i]
      {
        assert r[i] == Lower(o, s[1..])[i - 1] && s[i] == s[1..][i - 1];
      }
    }
  }

  /** Lower-casing leaves ASCII text without capitals unchanged. */
  lemma {:induction false} LowerFixesLowercase(o: Oracle, s: string)
    requires IsAscii(s) && NoUpperAscii(s)
    ensures Lower(o, s) == s
  {
    if |s| > 0 {
      LowerFixesLowercase(o, s[1..]);
      assert s == [s[0]] + s[1..];
    }
  }

  /** A capitalised ASCII word lower-cases to its first letter moved down by 32. */
  lemma LowerCapitalised(o: Oracle, c: char, s: string)
    requires 'A' <= c <= 'Z' && IsAscii(s) && NoUpperAscii(s)
    ensures Lower(o, [c] + s) == [(c as int + 32) as char] + s
  {
    LowerFixesLowercase(o, s);
    assert ([c] + s)[1..] == s;
  }

  /** Python's `str()` of a document value: a string is itself, the other
      scalars with a fixed rendering are capitalised ASCII words. */
  function Render(o: Oracle, v: Value): (r: string)
    ensures v.Str? ==> r == v.s
    ensures v.Bool? || v.Null? ==> IsAscii(r) && |r| >= 4 && 'A' <= r[0] <= 'Z' && NoUpperAscii(r[1..])
  {
    match v
    case Str(s) => s
    case Bool(b) => if b then "True" else "False"
    case Null => "None"
    case _ => o.show(v)
  }

  /** The score of a leaf pair: ratio of the lower-cased renderings. */
  function FuzzyMatch(o: Oracle, a: Value, b: Value): (r: int)
    ensures WellBehaved(o) ==> 0 <= r <= 100
    ensures WellBehaved(o) && Lower(o, Render(o, a)) == Lower(o, Render(o, b)) ==> r == 100
  {
    o.ratio(Lower(o, Render(o, a)), Lower(o, Render(o, b)))
  }

  /** A value whose lower-cased rendering is the lower-case word `w` scores a
      perfect match against the string `w`. */
  lemma MatchesOwnWord(o: Oracle, v: Value, w: string)
    requires WellBehaved(o) && IsAscii(w) && NoUpperAscii(w) && Lower(o, Render(o, v)) == w
    ensures FuzzyMatch(o, v, Str(w)) == 100
  {
    LowerFixesLowercase(o, w);
  }

  /** `str(True).lower()` is `true`. */
  lemma TrueName(o: Oracle)
    requires WellBehaved(o)
    ensures FuzzyMatch(o, Bool(true), Str("true")) == 100
  {
    LowerCapitalised(o, 'T', "rue");
    assert "True" == ['T'] + "rue" && "true" == ['t'] + "rue";
    MatchesOwnWord(o, Bool(true), "true");
  }

  /** `str(False).lower()` is `false`. */
  lemma FalseName(o: Oracle)
    requires WellBehaved(o)
    ensures FuzzyMatch(o, Bool(false), Str("false")) == 100
  {
    LowerCapitalised(o, 'F', "alse");
    assert "False" == ['F'] + "alse" && "false" == ['f'] + "alse";
    MatchesOwnWord(o, Bool(false), "false");
  }

  /** `str(None).lower()` is `none`. */
  lemma NoneName(o: Oracle)
    requires WellBehaved(o)
    ensures FuzzyMatch(o, Null, Str("none")) == 100
  {
    LowerCapitalised(o, 'N', "one");
    assert "None" == ['N'] + "one" && "none" == ['n'] + "one";
    MatchesOwnWord(o, Null, "none");
  }

  /** Lower-cased, `True`, `False` and `None` are the words `true`, `false`
      and `none`: a boolean or null scores a perfect match against the
      string of its own name. */
  lemma RenderedNames(o: Oracle, v: Value)
    requires WellBehaved(o)
    ensures v.Bool? ==> FuzzyMatch(o, v, Str(if v.b then "true" else "false")) == 100
    ensures v.Null? ==> FuzzyMatch(o, v, Str("none")) == 100
  {
    match v
    case Bool(b) => if b { TrueName(o); } else { FalseName(o); }
    case Null => NoneName(o);
    case _ =>
  }
}
