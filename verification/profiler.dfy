/** Column profiling: per column, the null ratio, the frequency of each type
among the cells, whether more than one type occurs, and whether some text cell
is a container written as a Python literal. Ratios are exact;
`detect_column_types` computes them in floating point. The function lives in
`transformer.py`; it has a module of its own here because the profile
contract and its lemmas form a separate concern. */
module Profiler {
  import opened Values
  import opened Tables

  datatype ColumnProfile = ColumnProfile(
    name: string,
    typeDistribution: map<TypeTag, real>,
    mixedTypes: bool,
    stringifiedObjects: bool,
    nullRatio: real,
    nullHeavy: bool)

  /** Null cells among `cells`. */
  function NullCount(cells: seq<Value>): nat {
    if |cells| == 0 then 0
    else NullCount(cells[..|cells| - 1]) + (if cells[|cells| - 1].Null? then 1 else 0)
  }

  /** Non-null cells of type `t` among `cells`. */
  function TagCount(cells: seq<Value>, t: TypeTag): nat {
    if |cells| == 0 then 0
    else
      var v := cells[|cells| - 1];
      TagCount(cells[..|cells| - 1], t) + (if !v.Null? && TagOf(v) == t then 1 else 0)
  }

  /** `count / total`, and 0 for an empty column. */
  function Ratio(count: nat, total: nat): real {
    if total == 0 then 0.0 else count as real / total as real
  }

  /** A text cell that literal evaluation turns into a list, tuple or dictionary.
      JSON decoding is not consulted here. */
  predicate LiteralContainer(literal: string -> Option<Value>, v: Value) {
    v.Str? && literal(v.s).Some? && IsContainer(literal(v.s).value)
  }

  /** What `detect_column_types` promises for one column. */
  ghost predicate IsProfileOf(literal: string -> Option<Value>, c: Column, r: ColumnProfile) {
    && r.name == c.name
    && r.nullRatio == Ratio(NullCount(c.cells), |c.cells|)
    && (r.nullHeavy <==> r.nullRatio > 0.5)
    && (forall t :: t in r.typeDistribution <==> TagCount(c.cells, t) > 0)
    && (forall t :: t in r.typeDistribution ==> r.typeDistribution[t] == Ratio(TagCount(c.cells, t), |c.cells|))
    && (r.mixedTypes <==> exists t1, t2 :: t1 != t2 && TagCount(c.cells, t1) > 0 && TagCount(c.cells, t2) > 0)
    && (r.stringifiedObjects <==> exists i :: 0 <= i < |c.cells| && LiteralContainer(literal, c.cells[i]))
  }

  lemma {:induction false} MoreThanOne<T>(s: set<T>)
    ensures |s| > 1 <==> exists a, b :: a in s && b in s && a != b
  {
    if |s| > 1 {
      var a :| a in s;
      assert |s - {a}| > 0;
      var b :| b in s - {a};
    }
    if exists a, b :: a in s && b in s && a != b {
      var a, b :| a in s && b in s && a != b;
      assert b in s - {a};
      assert |s - {a}| == |s| - 1;
    }
  }

  /** The profile of one column, computed by a single scan as
      `detect_column_types` does. */
  method ProfileColumn(literal: string -> Option<Value>, c: Column) returns (r: ColumnProfile)
    ensures IsProfileOf(literal, c, r)
  {
    var cells := c.cells;
    var counts: map<TypeTag, nat> := map[];
    var nulls := 0;
    var flag := false;
    var i := 0;
    while i < |cells|
      invariant 0 <= i <= |cells|
      invariant nulls == NullCount(cells[..i])
      invariant forall t :: t in counts <==> TagCount(cells[..i], t) > 0
      invariant forall t :: t in counts ==> counts[t] == TagCount(cells[..i], t)
      invariant flag <==> exists k :: 0 <= k < i && LiteralContainer(literal, cells[k])
    {
      var v := cells[i];
      assert cells[..i + 1][..i] == cells[..i];
      if v.Null? {
        nulls := nulls + 1;
      } else {
        var tag := TagOf(v);
        counts := counts[tag := if tag in counts then counts[tag] + 1 else 1];
        if v.Str? {
          match literal(v.s)
          case Some(x) =>
            if IsContainer(x) {
              flag := true;
            }
          case None =>
        }
      }
      i := i + 1;
    }
    assert cells[..i] == cells;
    var n := |cells|;
    var dist := map t | t in counts :: Ratio(counts[t], n);
    MoreThanOne(counts.Keys);
    var ratio := Ratio(nulls, n);
    r := ColumnProfile(c.name, dist, |counts.Keys| > 1, flag, ratio, ratio > 0.5);
  }

  /** `detect_column_types(df)`: one profile per column, in column order. */
  method DetectColumnTypes(literal: string -> Option<Value>, t: Table) returns (profiling: seq<ColumnProfile>)
    ensures |profiling| == |t.columns|
    ensures forall j :: 0 <= j < |t.columns| ==> IsProfileOf(literal, t.columns[j], profiling[j])
  {
    profiling := [];
    var j := 0;
    while j < |t.columns|
      invariant 0 <= j <= |t.columns|
      invariant |profiling| == j
      invariant forall k :: 0 <= k < j ==> IsProfileOf(literal, t.columns[k], profiling[k])
    {
      var r := ProfileColumn(literal, t.columns[j]);
      profiling := profiling + [r];
      j := j + 1;
    }
  }

  // ---------------------------------------------------------------------------
  // Properties of a profile

  /** A column determines its profile: the scan above has no choice to make. */
  lemma {:induction false} ProfileIsUnique(literal: string -> Option<Value>, c: Column, r1: ColumnProfile, r2: ColumnProfile)
    requires IsProfileOf(literal, c, r1) && IsProfileOf(literal, c, r2)
    ensures r1 == r2
  {
    assert r1.typeDistribution == r2.typeDistribution;
  }

  /** Non-null cells, whatever their type. */
  function TypedCount(cells: seq<Value>): nat {
    TagCount(cells, BoolTag) + TagCount(cells, IntTag) + TagCount(cells, FloatTag) + TagCount(cells, StrTag)
    + TagCount(cells, ListTag) + TagCount(cells, TupleTag) + TagCount(cells, DictTag)
  }

  /** Every cell is null or of exactly one type. */
  lemma {:induction false} CountsPartition(cells: seq<Value>)
    ensures NullCount(cells) + TypedCount(cells) == |cells|
  {
    if |cells| > 0 {
      CountsPartition(cells[..|cells| - 1]);
    }
  }

  /** The recorded frequency of `t`, 0 when `t` is absent. */
  function Frequency(m: map<TypeTag, real>, t: TypeTag): real {
    if t in m then m[t] else 0.0
  }

  function TotalFrequency(m: map<TypeTag, real>): real {
    Frequency(m, BoolTag) + Frequency(m, IntTag) + Frequency(m, FloatTag) + Frequency(m, StrTag)
    + Frequency(m, ListTag) + Frequency(m, TupleTag) + Frequency(m, DictTag)
  }

  lemma {:induction false} RatioAdd(a: nat, b: nat, n: nat)
    ensures Ratio(a, n) + Ratio(b, n) == Ratio(a + b, n)
  {
    if n > 0 {
      var d := n as real;
      assert (a as real) / d + (b as real) / d == (a as real + b as real) / d;
    }
  }

  lemma {:induction false} RatioComplement(typed: nat, nulls: nat, n: nat)
    requires typed + nulls == n && n > 0
    ensures Ratio(typed, n) == 1.0 - Ratio(nulls, n)
  {
    RatioAdd(typed, nulls, n);
    SelfQuotient(n as real);
  }

  lemma {:induction false} SelfQuotient(d: real)
    requires d > 0.0
    ensures d / d == 1.0
  {
  }

  lemma {:induction false} RatioAtMostOne(a: nat, n: nat)
    requires a <= n
    ensures 0.0 <= Ratio(a, n) <= 1.0
  {
    if n > 0 {
      var d := n as real;
      assert (a as real) / d <= d / d;
    }
  }

  lemma {:induction false} RatioOfHalf(a: nat, n: nat)
    requires 2 * a == n && n > 0
    ensures Ratio(a, n) == 0.5
  {
    var x := a as real;
    assert n as real == 2.0 * x;
    assert x / (2.0 * x) == 0.5;
  }

  lemma {:induction false} SevenRatios(a: nat, b: nat, c: nat, d: nat, e: nat, f: nat, g: nat, n: nat)
    ensures Ratio(a, n) + Ratio(b, n) + Ratio(c, n) + Ratio(d, n) + Ratio(e, n) + Ratio(f, n) + Ratio(g, n)
         == Ratio(a + b + c + d + e + f + g, n)
  {
    RatioAdd(a, b, n);
    RatioAdd(a + b, c, n);
    RatioAdd(a + b + c, d, n);
    RatioAdd(a + b + c + d, e, n);
    RatioAdd(a + b + c + d + e, f, n);
    RatioAdd(a + b + c + d + e + f, g, n);
  }

  /** The frequencies sum to the non-null fraction, `1 - nullRatio`, because
      they are normalised by the row count, nulls included. */
  lemma {:induction false} DistributionSumsToNonNullFraction(literal: string -> Option<Value>, c: Column, r: ColumnProfile)
    requires IsProfileOf(literal, c, r) && |c.cells| > 0
    ensures TotalFrequency(r.typeDistribution) == 1.0 - r.nullRatio
  {
    var cells := c.cells;
    FrequenciesAreRatios(literal, c, r);
    TotalOfRatios(r.typeDistribution, cells);
    CountsPartition(cells);
    RatioComplement(TypedCount(cells), NullCount(cells), |cells|);
  }

  lemma {:induction false} FrequenciesAreRatios(literal: string -> Option<Value>, c: Column, r: ColumnProfile)
    requires IsProfileOf(literal, c, r)
    ensures forall t :: Frequency(r.typeDistribution, t) == Ratio(TagCount(c.cells, t), |c.cells|)
  {
  }

  lemma {:induction false} TotalOfRatios(m: map<TypeTag, real>, cells: seq<Value>)
    requires forall t :: Frequency(m, t) == Ratio(TagCount(cells, t), |cells|)
    ensures TotalFrequency(m) == Ratio(TypedCount(cells), |cells|)
  {
    SevenRatios(TagCount(cells, BoolTag), TagCount(cells, IntTag), TagCount(cells, FloatTag), TagCount(cells, StrTag),
      TagCount(cells, ListTag), TagCount(cells, TupleTag), TagCount(cells, DictTag), |cells|);
  }

  /** The null ratio is a fraction. */
  lemma {:induction false} NullRatioInUnitInterval(literal: string -> Option<Value>, c: Column, r: ColumnProfile)
    requires IsProfileOf(literal, c, r)
    ensures 0.0 <= r.nullRatio <= 1.0
  {
    CountsPartition(c.cells);
    RatioAtMostOne(NullCount(c.cells), |c.cells|);
  }

  /** Exactly half the cells null is not null-heavy: the threshold is strict. */
  lemma {:induction false} HalfNullIsNotHeavy(literal: string -> Option<Value>, c: Column, r: ColumnProfile)
    requires IsProfileOf(literal, c, r)
    requires 2 * NullCount(c.cells) == |c.cells| > 0
    ensures r.nullRatio == 0.5
    ensures !r.nullHeavy
  {
    RatioOfHalf(NullCount(c.cells), |c.cells|);
  }

  lemma {:induction false} TagCountPositive(cells: seq<Value>, t: TypeTag)
    ensures TagCount(cells, t) > 0 <==> exists i :: 0 <= i < |cells| && !cells[i].Null? && TagOf(cells[i]) == t
  {
    if |cells| > 0 {
      var front := cells[..|cells| - 1];
      TagCountPositive(front, t);
      if exists i :: 0 <= i < |front| && !front[i].Null? && TagOf(front[i]) == t {
        var i :| 0 <= i < |front| && !front[i].Null? && TagOf(front[i]) == t;
        assert cells[i] == front[i];
      }
      if exists i :: 0 <= i < |cells| && !cells[i].Null? && TagOf(cells[i]) == t {
        var i :| 0 <= i < |cells| && !cells[i].Null? && TagOf(cells[i]) == t;
        if i < |front| { assert front[i] == cells[i]; }
      }
    }
  }

  /** `mixed_types` holds exactly when two non-null cells differ in type. */
  lemma {:induction false} MixedMeansTwoTypes(literal: string -> Option<Value>, c: Column, r: ColumnProfile)
    requires IsProfileOf(literal, c, r)
    ensures r.mixedTypes <==>
      exists i, j :: 0 <= i < |c.cells| && 0 <= j < |c.cells| && !c.cells[i].Null? && !c.cells[j].Null? && TagOf(c.cells[i]) != TagOf(c.cells[j])
  {
    var cells := c.cells;
    forall t ensures TagCount(cells, t) > 0 <==> exists i :: 0 <= i < |cells| && !cells[i].Null? && TagOf(cells[i]) == t {
      TagCountPositive(cells, t);
    }
    if exists i, j :: 0 <= i < |cells| && 0 <= j < |cells| && !cells[i].Null? && !cells[j].Null? && TagOf(cells[i]) != TagOf(cells[j]) {
      var i, j :| 0 <= i < |cells| && 0 <= j < |cells| && !cells[i].Null? && !cells[j].Null? && TagOf(cells[i]) != TagOf(cells[j]);
      assert TagCount(cells, TagOf(cells[i])) > 0 && TagCount(cells, TagOf(cells[j])) > 0;
    }
  }

  /** An all-null column has an empty distribution, no mixed types, no
      stringified objects, a null ratio of 1 and is null-heavy. */
  lemma {:induction false} AllNullColumn(literal: string -> Option<Value>, c: Column, r: ColumnProfile)
    requires IsProfileOf(literal, c, r)
    requires |c.cells| > 0 && forall i :: 0 <= i < |c.cells| ==> c.cells[i].Null?
    ensures r.typeDistribution == map[]
    ensures !r.mixedTypes && !r.stringifiedObjects
    ensures r.nullRatio == 1.0 && r.nullHeavy
  {
    var cells := c.cells;
    forall t ensures TagCount(cells, t) == 0 {
      TagCountPositive(cells, t);
    }
    assert NullCount(cells) == |cells| by {
      CountsPartition(cells);
    }
    SelfQuotient(|cells| as real);
  }

  /** A column with no rows has a null ratio of 0 and nothing else set. */
  lemma {:induction false} EmptyColumn(literal: string -> Option<Value>, c: Column, r: ColumnProfile)
    requires IsProfileOf(literal, c, r) && |c.cells| == 0
    ensures r.nullRatio == 0.0 && !r.nullHeavy
    ensures r.typeDistribution == map[] && !r.mixedTypes && !r.stringifiedObjects
  {
  }
}
