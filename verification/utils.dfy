/** The stringified-object test and the suggestion rules that turn column
profiles into advice. */
module Utils {
  import opened Values
  import opened Tables
  import opened Profiler
  import Transformer

  // ---------------------------------------------------------------------------
  // is_stringified_object

  /** Literal evaluation yields a list, tuple or dictionary. */
  predicate LiteralYieldsContainer(p: Parsers, s: string) {
    p.literal(s).Some? && IsContainer(p.literal(s).value)
  }

  /** JSON decoding yields a list or dictionary. */
  predicate JsonYieldsContainer(p: Parsers, s: string) {
    p.json(s).Some? && (p.json(s).value.List? || p.json(s).value.Dict?)
  }

  /** `is_stringified_object(val)`: text that either parser turns into a
      container. JSON is consulted when literal evaluation fails and also when
      it succeeds with a scalar. */
  function IsStringifiedObject(p: Parsers, v: Value): (b: bool)
    ensures !v.Str? ==> !b
    ensures v.Str? && LiteralYieldsContainer(p, v.s) ==> b
    ensures v.Str? && !LiteralYieldsContainer(p, v.s) ==> (b <==> JsonYieldsContainer(p, v.s))
  {
    if !v.Str? then false
    else
      var viaLiteral := match p.literal(v.s) case Some(x) => IsContainer(x) case None => false;
      if viaLiteral then true
      else match p.json(v.s) case Some(y) => y.List? || y.Dict? case None => false
  }

  /** When `parse_stringified` turns text into a container, the text is a
      stringified object (JSON never yields a tuple). */
  lemma {:induction false} ParsedContainerIsStringified(p: Parsers, v: Value)
    requires JsonHasNoTuples(p)
    requires v.Str? && IsContainer(Transformer.ParseStringified(p, v))
    ensures IsStringifiedObject(p, v)
  {
  }

  /** Conversely, a stringified object parses to a container, except when
      literal evaluation succeeds with a scalar: `parse_stringified` then keeps
      the scalar while the test goes on to JSON. */
  lemma {:induction false} StringifiedParsesToContainer(p: Parsers, v: Value)
    requires IsStringifiedObject(p, v)
    requires p.literal(v.s).Some? ==> IsContainer(p.literal(v.s).value)
    ensures IsContainer(Transformer.ParseStringified(p, v))
  {
  }

  /** The profiler's flag uses literal evaluation only, so it implies the test;
      the converse fails for JSON-only text (see `JsonOnlyTextIsNotFlagged`). */
  lemma {:induction false} ProfileFlagImpliesStringified(p: Parsers, c: Column, r: ColumnProfile)
    requires IsProfileOf(p.literal, c, r) && r.stringifiedObjects
    ensures exists i :: 0 <= i < |c.cells| && IsStringifiedObject(p, c.cells[i])
  {
    var i :| 0 <= i < |c.cells| && LiteralContainer(p.literal, c.cells[i]);
    assert IsStringifiedObject(p, c.cells[i]);
  }

  /** Parsers under which `{"a": true}` is JSON but not a Python literal (the
      name `true` is not a literal). */
  function JsonOnlyParsers(text: string): Parsers {
    Parsers(
      s => None,
      s => if s == text then Some(Dict([Entry("a", Bool(true))])) else None)
  }

  /** The text `{"a": true}` is a stringified object, yet a column holding it
      is not flagged by the profiler. */
  lemma {:induction false} JsonOnlyTextIsNotFlagged(c: Column, r: ColumnProfile)
    requires c.cells == [Str("{\"a\": true}")]
    requires IsProfileOf(JsonOnlyParsers("{\"a\": true}").literal, c, r)
    ensures IsStringifiedObject(JsonOnlyParsers("{\"a\": true}"), c.cells[0])
    ensures !r.stringifiedObjects
  {
    var p := JsonOnlyParsers("{\"a\": true}");
    assert !LiteralContainer(p.literal, c.cells[0]);
  }

  // ---------------------------------------------------------------------------
  // suggest_transformations

  const Dash := " — "

  function FlattenSuggestion(col: string): string {
    "Flatten Column " + col + Dash + "detected JSON or stringified object"
  }

  /** `percent` is the text of the null percentage; `suggest_transformations`
      formats
      `null_ratio * 100` with one decimal place. */
  function DropSuggestion(col: string, percent: string): string {
    "Drop Column " + col + Dash + percent + "% nulls"
  }

  function CheckSuggestion(col: string): string {
    "Check Column " + col + Dash + "mixed data types detected"
  }

  function Flags(info: ColumnProfile): nat {
    (if info.stringifiedObjects then 1 else 0) + (if info.nullHeavy then 1 else 0) + (if info.mixedTypes then 1 else 0)
  }

  function TotalFlags(profiling: seq<ColumnProfile>): nat {
    if |profiling| == 0 then 0 else Flags(profiling[0]) + TotalFlags(profiling[1..])
  }

  /** The suggestions for one column, flatten before drop before check. */
  function ColumnSuggestions(format: real -> string, info: ColumnProfile): (r: seq<string>)
    ensures |r| == Flags(info) <= 3
  {
    (if info.stringifiedObjects then [FlattenSuggestion(info.name)] else [])
    + (if info.nullHeavy then [DropSuggestion(info.name, format(info.nullRatio * 100.0))] else [])
    + (if info.mixedTypes then [CheckSuggestion(info.name)] else [])
  }

  /** `suggest_transformations(profiling)`: the columns' suggestions in
      profiling order. */
  function SuggestTransformations(format: real -> string, profiling: seq<ColumnProfile>): (r: seq<string>)
    ensures |r| == TotalFlags(profiling)
  {
    if |profiling| == 0 then []
    else ColumnSuggestions(format, profiling[0]) + SuggestTransformations(format, profiling[1..])
  }

  /** `f` of every element, concatenated in order. */
  function FlatMap<T, U>(f: T -> seq<U>, s: seq<T>): seq<U> {
    if |s| == 0 then [] else f(s[0]) + FlatMap(f, s[1..])
  }

  lemma {:induction false} FlatMapAppend<T, U>(f: T -> seq<U>, a: seq<T>, b: seq<T>)
    ensures FlatMap(f, a + b) == FlatMap(f, a) + FlatMap(f, b)
  {
    if |a| == 0 {
      assert a + b == b;
    } else {
      assert (a + b)[0] == a[0];
      assert (a + b)[1..] == a[1..] + b;
      FlatMapAppend(f, a[1..], b);
    }
  }

  lemma {:induction false} FlatMapAt<T, U>(f: T -> seq<U>, s: seq<T>, k: nat)
    requires k < |s|
    ensures FlatMap(f, s) == FlatMap(f, s[..k]) + f(s[k]) + FlatMap(f, s[k + 1..])
  {
    var pre, post := s[..k], s[k + 1..];
    assert FlatMap(f, [s[k]] + post) == f(s[k]) + FlatMap(f, post) by {
      FlatMapAppend(f, [s[k]], post);
      assert [s[k]][1..] == [];
      assert FlatMap(f, [s[k]]) == f(s[k]);
    }
    assert FlatMap(f, s) == FlatMap(f, pre) + FlatMap(f, [s[k]] + post) by {
      assert s == pre + ([s[k]] + post);
      FlatMapAppend(f, pre, [s[k]] + post);
    }
  }

  function PerColumn(format: real -> string): ColumnProfile -> seq<string> {
    info => ColumnSuggestions(format, info)
  }

  /** Suggesting maps every column to its suggestions and concatenates them. */
  lemma {:induction false} SuggestionsFlatMap(format: real -> string, profiling: seq<ColumnProfile>)
    ensures SuggestTransformations(format, profiling) == FlatMap(PerColumn(format), profiling)
  {
    if |profiling| > 0 {
      SuggestionsFlatMap(format, profiling[1..]);
    }
  }

  /** Suggesting is order-preserving: the suggestions of a concatenation are
      the concatenation of the suggestions. */
  lemma {:induction false} SuggestionsAppend(format: real -> string, a: seq<ColumnProfile>, b: seq<ColumnProfile>)
    ensures SuggestTransformations(format, a + b) == SuggestTransformations(format, a) + SuggestTransformations(format, b)
  {
    SuggestionsFlatMap(format, a + b);
    SuggestionsFlatMap(format, a);
    SuggestionsFlatMap(format, b);
    FlatMapAppend(PerColumn(format), a, b);
  }

  /** Column `k`'s suggestions form one block, after those of the columns
      before it and before those of the columns after it. */
  lemma {:induction false} SuggestionsOfColumnAt(format: real -> string, profiling: seq<ColumnProfile>, k: nat)
    requires k < |profiling|
    ensures SuggestTransformations(format, profiling)
         == SuggestTransformations(format, profiling[..k])
          + ColumnSuggestions(format, profiling[k])
          + SuggestTransformations(format, profiling[k + 1..])
  {
    SuggestionsFlatMap(format, profiling);
    SuggestionsFlatMap(format, profiling[..k]);
    SuggestionsFlatMap(format, profiling[k + 1..]);
    FlatMapAt(PerColumn(format), profiling, k);
  }

  /** A drop suggestion appears for a column exactly when it is null-heavy;
      it cannot be mistaken for the other two templates. */
  lemma {:induction false} DropIffNullHeavy(format: real -> string, info: ColumnProfile)
    ensures DropSuggestion(info.name, format(info.nullRatio * 100.0)) in ColumnSuggestions(format, info) <==> info.nullHeavy
  {
    var d := DropSuggestion(info.name, format(info.nullRatio * 100.0));
    assert d[0] == 'D';
    assert FlattenSuggestion(info.name)[0] == 'F';
    assert CheckSuggestion(info.name)[0] == 'C';
  }

  /** Every suggestion names its column right after its fixed opening words. */
  lemma {:induction false} SuggestionsNameTheirColumn(format: real -> string, info: ColumnProfile)
    ensures forall s :: s in ColumnSuggestions(format, info) ==>
      exists opening :: opening in ["Flatten Column ", "Drop Column ", "Check Column "] && opening + info.name <= s
  {
    var openings := ["Flatten Column ", "Drop Column ", "Check Column "];
    var name := info.name;
    var percent := format(info.nullRatio * 100.0);
    StartsWith(openings[0] + name, Dash, "detected JSON or stringified object");
    StartsWith(openings[2] + name, Dash, "mixed data types detected");
    StartsWith(openings[1] + name, Dash, percent);
    Transformer.PrefixOfConcat(openings[1] + name + Dash + percent, "% nulls");
    Transformer.PrefixTransitive(openings[1] + name, openings[1] + name + Dash + percent, DropSuggestion(name, percent));
    assert forall s :: s in ColumnSuggestions(format, info) ==>
      s == FlattenSuggestion(name) || s == DropSuggestion(name, percent) || s == CheckSuggestion(name);
  }

  /** `a` begins `a + b + c`. */
  lemma {:induction false} StartsWith(a: string, b: string, c: string)
    ensures a <= a + b + c
  {
    Transformer.PrefixOfConcat(a, b);
    Transformer.PrefixOfConcat(a + b, c);
    Transformer.PrefixTransitive(a, a + b, a + b + c);
  }

  /** A column flagged both stringified and null-heavy, and not mixed, gets
      exactly the flatten suggestion followed by the drop suggestion. */
  lemma {:induction false} FlattenThenDrop(format: real -> string, info: ColumnProfile)
    requires info.stringifiedObjects && info.nullHeavy && !info.mixedTypes
    ensures ColumnSuggestions(format, info)
         == [FlattenSuggestion(info.name), DropSuggestion(info.name, format(info.nullRatio * 100.0))]
  {
  }
}
