/** Cell values of a table, and the two text parsers the cleaner relies on.

The cleaner works on pandas frames whose cells are arbitrary Python objects.
This module closes that world to the kinds the profiler and the reshaping
operations distinguish: null (None, NaN), booleans, integers, floats, text,
lists, tuples and dictionaries. */
module Values {

  datatype Option<+T> = None | Some(value: T) {
    function GetOr(default: T): T {
      match this
      case Some(v) => v
      case None => default
    }
  }

  /** One cell. `Float` carries an opaque token: no operation of the core does
      arithmetic on it. A float NaN is a missing value to pandas and is `Null`
      here. Dictionary keys are text; a dictionary is an association list. A Python
      dict cannot hold a key twice, but `Dict` can. The dictionaries that
      `flatten_dict` and `dict(items)` build have distinct keys
      (`Transformer.DistinctKeys`); the parsers' results are not constrained,
      and `Transformer.Lookup` reads the first entry with a key. */
  datatype Value =
    | Null
    | Bool(b: bool)
    | Int(i: int)
    | Float(token: string)
    | Str(s: string)
    | List(items: seq<Value>)
    | Tuple(items: seq<Value>)
    | Dict(entries: seq<Entry>)

  datatype Entry = Entry(key: string, val: Value)

  /** The runtime type names the profiler records, one per non-null kind. */
  datatype TypeTag = BoolTag | IntTag | FloatTag | StrTag | ListTag | TupleTag | DictTag

  function TagOf(v: Value): TypeTag
    requires !v.Null?
  {
    match v
    case Bool(_) => BoolTag
    case Int(_) => IntTag
    case Float(_) => FloatTag
    case Str(_) => StrTag
    case List(_) => ListTag
    case Tuple(_) => TupleTag
    case Dict(_) => DictTag
  }

  /** `isinstance(v, (list, tuple, dict))` */
  predicate IsContainer(v: Value) {
    v.List? || v.Tuple? || v.Dict?
  }

  /** `isinstance(v, (list, tuple))`: the cells pandas' explode expands. */
  predicate IsListLike(v: Value) {
    v.List? || v.Tuple?
  }

  /** The two parsers tried on text cells: Python literal evaluation and JSON
      decoding. Their grammars are not modelled; a parser is any partial
      function from text to a value, `None` standing for a raised exception. */
  datatype Parsers = Parsers(literal: string -> Option<Value>, json: string -> Option<Value>)

  /** JSON decoding never produces a tuple. */
  ghost predicate JsonHasNoTuples(p: Parsers) {
    forall s :: p.json(s).Some? ==> !p.json(s).value.Tuple?
  }

  /** Nesting depth: 0 for scalars, one more than the deepest member for containers. */
  function Depth(v: Value): nat {
    match v
    case List(items) => 1 + MaxDepth(items)
    case Tuple(items) => 1 + MaxDepth(items)
    case Dict(entries) => 1 + MaxEntryDepth(entries)
    case _ => 0
  }

  function MaxDepth(s: seq<Value>): nat {
    if |s| == 0 then 0
    else
      var a := Depth(s[0]);
      var b := MaxDepth(s[1..]);
      if a < b then b else a
  }

  function MaxEntryDepth(s: seq<Entry>): nat {
    if |s| == 0 then 0
    else
      var a := Depth(s[0].val);
      var b := MaxEntryDepth(s[1..]);
      if a < b then b else a
  }

  /** No member of a sequence is deeper than the sequence's deepest member, so
      every member of a list or tuple is strictly shallower than the container. */
  lemma {:induction false} MemberShallower(s: seq<Value>, k: nat)
    requires k < |s|
    ensures Depth(s[k]) <= MaxDepth(s)
  {
    if k > 0 {
      MemberShallower(s[1..], k - 1);
      assert s[1..][k - 1] == s[k];
    }
  }

  /** No value of an entry list is deeper than its deepest value, so every
      value of a dictionary is strictly shallower than the dictionary. */
  lemma {:induction false} EntryShallower(s: seq<Entry>, k: nat)
    requires k < |s|
    ensures Depth(s[k].val) <= MaxEntryDepth(s)
  {
    if k > 0 {
      EntryShallower(s[1..], k - 1);
      assert s[1..][k - 1] == s[k];
    }
  }
}
