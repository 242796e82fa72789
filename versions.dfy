/** The release segment of a PEP 440 version, as `packaging.version` orders it:
    a dotted sequence of non-negative integers, compared component by component
    as integers, the shorter one padded with zeros ("1.2" == "1.2.0",
    "1.9" < "1.10"). Only this segment is modelled. */
module Versions {
  import opened Options

  /** A release segment, e.g. [1, 10, 0] for "1.10.0". */
  type Release = seq<nat>

  datatype Ordering = Less | Equal | Greater

  function Flip(o: Ordering): Ordering {
    match o
    case Less => Greater
    case Equal => Equal
    case Greater => Less
  }

  // ---------------------------------------------------------------- digits

  predicate IsDigit(c: char) {
    '0' <= c <= '9'
  }

  predicate AllDigits(s: string) {
    forall i :: 0 <= i < |s| ==> IsDigit(s[i])
  }

  function DigitValue(c: char): (d: nat)
    requires IsDigit(c)
    ensures d < 10
  {
    c as int - '0' as int
  }

  function DigitChar(d: nat): (c: char)
    requires d < 10
    ensures IsDigit(c) && DigitValue(c) == d
  {
    ('0' as int + d) as char
  }

  /** Decimal value of a digit string (leading zeros allowed, as in "01"). */
  function DigitsValue(s: string): nat
    requires AllDigits(s)
  {
    if s == [] then 0 else DigitsValue(s[..|s| - 1]) * 10 + DigitValue(s[|s| - 1])
  }

  /** Canonical decimal spelling of n: digits only, never empty. */
  function NatToDigits(n: nat): (s: string)
    ensures |s| > 0 && AllDigits(s)
  {
    if n < 10 then [DigitChar(n)] else NatToDigits(n / 10) + [DigitChar(n % 10)]
  }

  lemma {:induction false} DigitsRoundTrip(n: nat)
    ensures DigitsValue(NatToDigits(n)) == n
  {
    var s := NatToDigits(n);
    if n >= 10 {
      assert s[..|s| - 1] == NatToDigits(n / 10);
      DigitsRoundTrip(n / 10);
    }
  }

  // ---------------------------------------------------------------- parsing

  /** Index of the first '.' in s, or |s| when there is none. */
  function DotIndex(s: string): (i: nat)
    ensures i <= |s|
    ensures i < |s| ==> s[i] == '.'
    ensures forall j :: 0 <= j < i ==> s[j] != '.'
  {
    if s == [] then 0
    else if s[0] == '.' then 0
    else 1 + DotIndex(s[1..])
  }

  /** Parses "N(.N)*" into its release segment. Any other shape (empty
      string, empty component, a non-digit character) is a parse error. */
  function Parse(s: string): (r: Option<Release>)
    ensures r.Some? ==> |r.value| > 0
    decreases |s|
  {
    var i := DotIndex(s);
    var head := s[..i];
    if head == [] || !AllDigits(head) then None
    else if i == |s| then Some([DigitsValue(head)])
    else match Parse(s[i + 1..])
      case None => None
      case Some(rest) => Some([DigitsValue(head)] + rest)
  }

  /** Dotted spelling of a release segment: the inverse of Parse. */
  function Format(v: Release): (s: string)
    requires |v| > 0
    ensures |s| > 0
  {
    if |v| == 1 then NatToDigits(v[0]) else NatToDigits(v[0]) + "." + Format(v[1..])
  }

  lemma {:induction false} NoDotInDigits(s: string)
    requires AllDigits(s)
    ensures DotIndex(s) == |s|
  {
    if s != [] {
      NoDotInDigits(s[1..]);
    }
  }

  /** Every release segment is spelled by Format in a way Parse reads back. */
  lemma {:induction false} ParseFormat(v: Release)
    requires |v| > 0
    ensures Parse(Format(v)) == Some(v)
  {
    var d := NatToDigits(v[0]);
    DigitsRoundTrip(v[0]);
    NoDotInDigits(d);
    if |v| == 1 {
      assert Format(v) == d;
      assert d[..|d|] == d;
      assert Parse(d) == Some([v[0]]);
      assert [v[0]] == v;
    } else {
      var s := Format(v);
      assert s == d + ("." + Format(v[1..]));
      assert DotIndex(s) == |d| by {
        DotPrefix(d, "." + Format(v[1..]));
      }
      assert s[..|d|] == d;
      assert s[|d| + 1..] == Format(v[1..]);
      ParseFormat(v[1..]);
      assert [v[0]] + v[1..] == v;
    }
  }

  lemma {:induction false} DotPrefix(d: string, t: string)
    requires AllDigits(d) && t != [] && t[0] == '.'
    ensures DotIndex(d + t) == |d|
  {
    if d != [] {
      assert (d + t)[1..] == d[1..] + t;
      DotPrefix(d[1..], t);
    } else {
      assert d + t == t;
    }
  }

  /** The components joined with '.': an independent description of what
      Parse accepts. */
  function JoinDots(ds: seq<string>): string
    requires |ds| > 0
  {
    if |ds| == 1 then ds[0] else ds[0] + "." + JoinDots(ds[1..])
  }

  /** ds are non-empty digit runs whose decimal values are v, one per component. */
  ghost predicate Spells(ds: seq<string>, v: Release) {
    |ds| == |v| > 0 &&
    forall k :: 0 <= k < |ds| ==> ds[k] != [] && AllDigits(ds[k]) && DigitsValue(ds[k]) == v[k]
  }

  lemma {:induction false} ParseJoin(ds: seq<string>, v: Release)
    requires Spells(ds, v)
    ensures Parse(JoinDots(ds)) == Some(v)
    decreases |ds|
  {
    var d := ds[0];
    NoDotInDigits(d);
    if |ds| == 1 {
      assert JoinDots(ds) == d && d[..|d|] == d;
      assert [v[0]] == v;
    } else {
      var s := JoinDots(ds);
      assert s == d + ("." + JoinDots(ds[1..]));
      DotPrefix(d, "." + JoinDots(ds[1..]));
      assert s[..|d|] == d;
      assert s[|d| + 1..] == JoinDots(ds[1..]);
      assert Spells(ds[1..], v[1..]) by {
        forall k | 0 <= k < |ds| - 1
          ensures ds[1..][k] != [] && AllDigits(ds[1..][k]) && DigitsValue(ds[1..][k]) == v[1..][k]
        {
          assert ds[1..][k] == ds[k + 1];
        }
      }
      ParseJoin(ds[1..], v[1..]);
      assert [v[0]] + v[1..] == v;
    }
  }

  lemma {:induction false} ParseSplit(s: string, v: Release) returns (ds: seq<string>)
    requires Parse(s) == Some(v)
    ensures Spells(ds, v) && s == JoinDots(ds)
    decreases |s|
  {
    var i := DotIndex(s);
    var head := s[..i];
    if i == |s| {
      ds := [s];
      assert head == s;
    } else {
      var rest := Parse(s[i + 1..]).value;
      assert v == [DigitsValue(head)] + rest;
      var tail := ParseSplit(s[i + 1..], rest);
      ds := [head] + tail;
      assert ds[1..] == tail;
      assert s == head + "." + s[i + 1..];
    }
  }

  /** Parse accepts exactly the strings made of one or more non-empty digit
      runs joined by '.', and returns the runs' decimal values. A string with
      any other character, an empty component, or a leading or trailing dot
      is a parse error. */
  lemma ParseIff(s: string, v: Release)
    ensures Parse(s) == Some(v) <==> exists ds :: Spells(ds, v) && s == JoinDots(ds)
  {
    if Parse(s) == Some(v) {
      var ds := ParseSplit(s, v);
    }
    if exists ds :: Spells(ds, v) && s == JoinDots(ds) {
      var ds :| Spells(ds, v) && s == JoinDots(ds);
      ParseJoin(ds, v);
    }
  }

  // ------------------------------------------------------------- comparison

  /** Component k of v, zero past its end (the padding rule). */
  function At(v: Release, k: nat): nat {
    if k < |v| then v[k] else 0
  }

  function Rest(v: Release): Release {
    if v == [] then [] else v[1..]
  }

  /** Component-wise comparison of two release segments, padded with zeros. */
  function Compare(a: Release, b: Release): (r: Ordering)
    ensures a == b ==> r == Equal
    ensures r == Equal ==> forall k: nat :: At(a, k) == At(b, k)
    decreases |a| + |b|
  {
    if a == [] && b == [] then Equal
    else if At(a, 0) < At(b, 0) then Less
    else if At(a, 0) > At(b, 0) then Greater
    else
      var r := Compare(Rest(a), Rest(b));
      assert r == Equal ==> forall k: nat :: At(a, k) == At(b, k) by {
        if r == Equal {
          forall k: nat ensures At(a, k) == At(b, k) {
            if k > 0 {
              RestAt(a, k - 1);
              RestAt(b, k - 1);
            }
          }
        }
      }
      r
  }

  /** The two segments agree on every component before k. */
  ghost predicate AgreeBelow(a: Release, b: Release, k: nat) {
    forall j :: 0 <= j < k ==> At(a, j) == At(b, j)
  }

  lemma RestAt(v: Release, k: nat)
    ensures At(Rest(v), k) == At(v, k + 1)
  {
  }

  /** Compare says Less exactly when, at the first component where the padded
      segments differ, a's component is the smaller one. */
  lemma {:induction false} CompareLessIff(a: Release, b: Release)
    ensures Compare(a, b) == Less <==>
      exists k: nat :: AgreeBelow(a, b, k) && At(a, k) < At(b, k)
    decreases |a| + |b|
  {
    if a == [] && b == [] {
    } else if At(a, 0) < At(b, 0) {
      assert AgreeBelow(a, b, 0);
    } else if At(a, 0) > At(b, 0) {
    } else {
      CompareLessIff(Rest(a), Rest(b));
      if Compare(a, b) == Less {
        var k: nat :| AgreeBelow(Rest(a), Rest(b), k) && At(Rest(a), k) < At(Rest(b), k);
        ShiftAgree(a, b, k);
        RestAt(a, k);
        RestAt(b, k);
        assert AgreeBelow(a, b, k + 1) && At(a, k + 1) < At(b, k + 1);
      } else if exists k: nat :: AgreeBelow(a, b, k) && At(a, k) < At(b, k) {
        var k: nat :| AgreeBelow(a, b, k) && At(a, k) < At(b, k);
        assert k > 0;
        UnshiftAgree(a, b, k - 1);
        RestAt(a, k - 1);
        RestAt(b, k - 1);
        assert false;
      }
    }
  }

  lemma ShiftAgree(a: Release, b: Release, k: nat)
    requires At(a, 0) == At(b, 0) && AgreeBelow(Rest(a), Rest(b), k)
    ensures AgreeBelow(a, b, k + 1)
  {
    forall j | 0 <= j < k + 1
      ensures At(a, j) == At(b, j)
    {
      if j > 0 {
        RestAt(a, j - 1);
        RestAt(b, j - 1);
      }
    }
  }

  lemma UnshiftAgree(a: Release, b: Release, k: nat)
    requires AgreeBelow(a, b, k + 1)
    ensures AgreeBelow(Rest(a), Rest(b), k)
  {
    forall j | 0 <= j < k
      ensures At(Rest(a), j) == At(Rest(b), j)
    {
      RestAt(a, j);
      RestAt(b, j);
      assert At(a, j + 1) == At(b, j + 1);
    }
  }

  /** Compare says Equal exactly when the zero-padded segments agree
      everywhere ("1.2" == "1.2.0"). */
  lemma {:induction false} CompareEqualIff(a: Release, b: Release)
    ensures Compare(a, b) == Equal <==> forall k: nat :: At(a, k) == At(b, k)
    decreases |a| + |b|
  {
    if a == [] && b == [] {
    } else if At(a, 0) != At(b, 0) {
    } else {
      CompareEqualIff(Rest(a), Rest(b));
      if Compare(a, b) == Equal {
        forall k: nat ensures At(a, k) == At(b, k) {
          if k > 0 {
            RestAt(a, k - 1);
            RestAt(b, k - 1);
          }
        }
      } else {
        var k: nat :| At(Rest(a), k) != At(Rest(b), k);
        RestAt(a, k);
        RestAt(b, k);
      }
    }
  }

  /** Swapping the arguments flips the answer: the order is antisymmetric. */
  lemma {:induction false} CompareFlip(a: Release, b: Release)
    ensures Compare(b, a) == Flip(Compare(a, b))
    decreases |a| + |b|
  {
    if a == [] && b == [] {
    } else if At(a, 0) != At(b, 0) {
    } else {
      CompareFlip(Rest(a), Rest(b));
    }
  }

  /** Every segment is equal to itself. */
  lemma {:induction false} CompareReflexive(a: Release)
    ensures Compare(a, a) == Equal
    decreases |a|
  {
    if a != [] {
      CompareReflexive(Rest(a));
    }
  }

  /** Less is transitive, so Compare is a strict total order. */
  lemma {:induction false} CompareTransitive(a: Release, b: Release, c: Release)
    requires Compare(a, b) == Less && Compare(b, c) == Less
    ensures Compare(a, c) == Less
    decreases |a| + |b| + |c|
  {
    if At(a, 0) == At(b, 0) && At(b, 0) == At(c, 0) {
      assert a != [] || b != [] || c != [];
      CompareTransitive(Rest(a), Rest(b), Rest(c));
    }
  }

  /** Nothing compares below the empty (all-zero) segment. */
  lemma {:induction false} NotLessThanEmpty(v: Release)
    ensures Compare(v, []) != Less
    decreases |v|
  {
    if v != [] && At(v, 0) == 0 {
      NotLessThanEmpty(Rest(v));
    }
  }

  /** Trailing zero components never change the order ("1.2.0" == "1.2"). */
  lemma {:induction false} TrailingZeroIrrelevant(a: Release, b: Release)
    ensures Compare(a + [0], b) == Compare(a, b)
    decreases |a| + |b|
  {
    if a == [] {
      assert [] + [0] == [0];
      assert Rest([0]) == [];
      if b != [] && At(b, 0) == 0 {
        assert Compare([0], b) == Compare([], Rest(b));
      }
    } else {
      assert At(a + [0], 0) == At(a, 0);
      assert Rest(a + [0]) == Rest(a) + [0];
      TrailingZeroIrrelevant(Rest(a), Rest(b));
    }
  }

  /** Components are compared as integers, not as strings: 1.10.0 > 1.9.9. */
  lemma NumericNotLexicographic()
    ensures Parse("1.10.0") == Some([1, 10, 0])
    ensures Parse("1.9.9") == Some([1, 9, 9])
    ensures Compare([1, 10, 0], [1, 9, 9]) == Greater
  {
    assert NatToDigits(10) == "10";
    assert Format([1, 10, 0]) == "1.10.0" by {
      assert [1, 10, 0][1..] == [10, 0];
      assert [10, 0][1..] == [0];
    }
    ParseFormat([1, 10, 0]);
    assert Format([1, 9, 9]) == "1.9.9" by {
      assert [1, 9, 9][1..] == [9, 9];
      assert [9, 9][1..] == [9];
    }
    ParseFormat([1, 9, 9]);
    assert Rest([1, 10, 0]) == [10, 0];
    assert Rest([1, 9, 9]) == [9, 9];
  }

  /** A string that is not dotted-numeric is a parse error, never a version. */
  lemma NonNumericRejected()
    ensures Parse("abc") == None
    ensures Parse("") == None
    ensures Parse("1..2") == None
    ensures Parse("1.2.") == None
  {
    assert !IsDigit('a');
    assert DotIndex("1..2") == 1;
    assert "1..2"[2..] == ".2";
    assert DotIndex("1.2.") == 1;
    assert "1.2."[2..] == "2.";
    assert DotIndex("2.") == 1;
    assert "2."[2..] == "";
  }
}
