/** The structural transformer: parsing stringified cells, flattening nested
dictionaries into dotted keys, replacing a dictionary column by one column per
key, and exploding list cells into rows. */
module Transformer {
  import opened Values
  import opened Tables

  // ---------------------------------------------------------------------------
  // parse_stringified

  /** Text is tried with literal evaluation, then with JSON; the first parser
      that succeeds decides the result, whatever kind of value it yields. Any
      other cell, and text neither parser accepts, comes back unchanged. */
  function ParseStringified(p: Parsers, v: Value): (r: Value)
    ensures !v.Str? ==> r == v
    ensures v.Str? && p.literal(v.s).Some? ==> r == p.literal(v.s).value
    ensures v.Str? && p.literal(v.s).None? && p.json(v.s).Some? ==> r == p.json(v.s).value
    ensures v.Str? && p.literal(v.s).None? && p.json(v.s).None? ==> r == v
  {
    if !v.Str? then v
    else
      match p.literal(v.s)
      case Some(x) => x
      case None =>
        match p.json(v.s)
        case Some(y) => y
        case None => v
  }

  /** A literal that evaluates to a scalar is returned as that scalar, not as
      the original text: "1" becomes the integer 1. */
  lemma {:induction false} LiteralScalarIsSurfaced(p: Parsers, s: string, x: Value)
    requires p.literal(s) == Some(x)
    requires !IsContainer(x)
    ensures ParseStringified(p, Str(s)) == x
  {
  }

  /** Parsing only ever changes text cells. */
  lemma {:induction false} ParseChangesOnlyText(p: Parsers, v: Value)
    ensures ParseStringified(p, v) != v ==> v.Str?
  {
  }

  // ---------------------------------------------------------------------------
  // Dictionaries as association lists

  function KeysOf(es: seq<Entry>): (r: seq<string>)
    ensures |r| == |es|
    ensures forall j :: 0 <= j < |es| ==> r[j] == es[j].key
  {
    if |es| == 0 then [] else [es[0].key] + KeysOf(es[1..])
  }

  predicate DistinctKeys(es: seq<Entry>) {
    forall i, j :: 0 <= i < j < |es| ==> es[i].key != es[j].key
  }

  /** `d.get(k)`: the value of the first entry with key `k`. */
  function Lookup(es: seq<Entry>, k: string): (r: Option<Value>)
    ensures r.Some? <==> k in KeysOf(es)
    ensures r.Some? ==> Entry(k, r.value) in es
    ensures DistinctKeys(es) ==> forall j :: 0 <= j < |es| && es[j].key == k ==> r == Some(es[j].val)
  {
    if |es| == 0 then None
    else if es[0].key == k then Some(es[0].val)
    else Lookup(es[1..], k)
  }

  /** The value a key ends up with when `dict(items)` is built from a list of
      pairs: the value of its LAST occurrence. */
  function LastValue(items: seq<Entry>, k: string): Option<Value> {
    if |items| == 0 then None
    else if items[|items| - 1].key == k then Some(items[|items| - 1].val)
    else LastValue(items[..|items| - 1], k)
  }

  /** `d[e.key] = e.val`: overwrite in place, or append a new key at the end. */
  function Assign(acc: seq<Entry>, e: Entry): (r: seq<Entry>)
    ensures Lookup(r, e.key) == Some(e.val)
    ensures forall k :: k != e.key ==> Lookup(r, k) == Lookup(acc, k)
  {
    if |acc| == 0 then [e]
    else if acc[0].key == e.key then
      var r := [e] + acc[1..];
      assert r[1..] == acc[1..];
      r
    else
      var r := [acc[0]] + Assign(acc[1..], e);
      assert r[1..] == Assign(acc[1..], e);
      r
  }

  /** Assigning keeps the other entries and keeps keys distinct. */
  lemma {:induction false} AssignShape(acc: seq<Entry>, e: Entry)
    ensures forall x :: x in Assign(acc, e) ==> x in acc || x == e
    ensures DistinctKeys(acc) ==> DistinctKeys(Assign(acc, e))
  {
    if |acc| > 0 && acc[0].key != e.key {
      AssignShape(acc[1..], e);
      var r := Assign(acc, e);
      var tail := Assign(acc[1..], e);
      assert r == [acc[0]] + tail;
      forall x | x in r ensures x in acc || x == e {
        if x != acc[0] { assert x in tail; }
      }
      if DistinctKeys(acc) {
        assert DistinctKeys(acc[1..]);
        forall x | x in tail ensures x.key != acc[0].key {
          if x in acc[1..] {
            var j :| 0 <= j < |acc[1..]| && acc[1..][j] == x;
            assert acc[j + 1] == x;
          }
        }
        assert DistinctKeys(tail);
        forall i, j | 0 <= i < j < |r| ensures r[i].key != r[j].key {
          if i == 0 {
            assert r[j] in tail;
          } else {
            assert r[i] == tail[i - 1] && r[j] == tail[j - 1];
            assert tail[i - 1].key != tail[j - 1].key;
          }
        }
      }
    } else if |acc| > 0 {
      var r := Assign(acc, e);
      assert r == [e] + acc[1..];
      forall x | x in r ensures x in acc || x == e {
        if x != e { assert x in acc[1..]; }
      }
      if DistinctKeys(acc) {
        forall i, j | 0 <= i < j < |r| ensures r[i].key != r[j].key {
          assert r[j] == acc[j];
          if i > 0 { assert r[i] == acc[i]; }
        }
      }
    }
  }

  /** `dict(items)`: keys keep the position of their first occurrence, and
      take the value of their last one. */
  function DictFromItems(items: seq<Entry>): (r: seq<Entry>)
    ensures DistinctKeys(r)
    ensures forall k :: Lookup(r, k) == LastValue(items, k)
    ensures forall x :: x in r ==> x in items
  {
    if |items| == 0 then []
    else
      var prev := DictFromItems(items[..|items| - 1]);
      AssignShape(prev, items[|items| - 1]);
      Assign(prev, items[|items| - 1])
  }

  /** Appending a key not yet present puts it at the end. */
  lemma {:induction false} AssignFresh(acc: seq<Entry>, e: Entry)
    requires e.key !in KeysOf(acc)
    ensures Assign(acc, e) == acc + [e]
  {
    if |acc| > 0 {
      assert acc[0].key != e.key by {
        assert KeysOf(acc)[0] == acc[0].key;
      }
      assert e.key !in KeysOf(acc[1..]) by {
        forall j | 0 <= j < |acc| - 1 ensures KeysOf(acc[1..])[j] != e.key {
          assert KeysOf(acc[1..])[j] == KeysOf(acc)[j + 1];
        }
      }
      AssignFresh(acc[1..], e);
      var tail := Assign(acc[1..], e);
      assert Assign(acc, e) == [acc[0]] + tail;
      assert tail == acc[1..] + [e];
      ConsSnoc(acc, e);
    }
  }

  lemma {:induction false} ConsSnoc<T>(s: seq<T>, x: T)
    requires |s| > 0
    ensures [s[0]] + (s[1..] + [x]) == s + [x]
  {
    assert s == [s[0]] + s[1..];
  }

  /** A list of pairs whose keys are already distinct is its own `dict`. */
  lemma {:induction false} DictFromDistinctItems(items: seq<Entry>)
    requires DistinctKeys(items)
    ensures DictFromItems(items) == items
  {
    if |items| > 0 {
      var n := |items| - 1;
      var prefix := items[..n];
      assert DistinctKeys(prefix);
      DictFromDistinctItems(prefix);
      assert items[n].key !in KeysOf(prefix) by {
        forall j | 0 <= j < |prefix| ensures KeysOf(prefix)[j] != items[n].key {
          assert prefix[j] == items[j];
        }
      }
      AssignFresh(prefix, items[n]);
      assert prefix + [items[n]] == items;
    }
  }

  // ---------------------------------------------------------------------------
  // flatten_dict

  /** The key of `k` under `parent`. An empty parent adds no segment and no
      separator, so a dictionary under the key "" contributes bare keys. */
  function NewKey(parent: string, k: string): string {
    if parent != "" then parent + "." + k else k
  }

  /** `flatten_dict(d, parent)`: nested dictionaries become dotted keys, and
      the pairs collected are turned into a dictionary at every level. */
  function FlattenDict(d: seq<Entry>, parent: string): (r: seq<Entry>)
    decreases d, 1
    ensures DistinctKeys(r)
    ensures forall x :: x in r ==> !x.val.Dict?
  {
    DictFromItems(FlattenItems(d, parent))
  }

  /** The list `items` that `flatten_dict` fills before converting it. */
  function FlattenItems(d: seq<Entry>, parent: string): (r: seq<Entry>)
    decreases d, 0
    ensures forall x :: x in r ==> !x.val.Dict?
  {
    if |d| == 0 then []
    else
      Contribution(d[0], parent) + FlattenItems(d[1..], parent)
  }

  /** What one entry adds to `items`: its flattened sub-dictionary, or itself
      under its dotted key. */
  function Contribution(e: Entry, parent: string): (r: seq<Entry>)
    decreases e, 2
    ensures forall x :: x in r ==> !x.val.Dict?
  {
    var k := NewKey(parent, e.key);
    if e.val.Dict? then FlattenDict(e.val.entries, k) else [Entry(k, e.val)]
  }

  lemma {:induction false} FlattenItemsAppend(a: seq<Entry>, b: seq<Entry>, parent: string)
    ensures FlattenItems(a + b, parent) == FlattenItems(a, parent) + FlattenItems(b, parent)
  {
    if |a| > 0 {
      assert (a + b)[0] == a[0];
      assert (a + b)[1..] == a[1..] + b;
      FlattenItemsAppend(a[1..], b, parent);
    } else {
      assert a + b == b;
    }
  }

  /** Pairs after a key's last occurrence that carry other keys do not change
      the value `dict(items)` gives it. */
  lemma {:induction false} LastValueSkipsTail(x: seq<Entry>, y: seq<Entry>, k: string)
    requires k !in KeysOf(y)
    ensures LastValue(x + y, k) == LastValue(x, k)
  {
    if |y| == 0 {
      assert x + y == x;
    } else {
      var n := |y| - 1;
      assert y[n].key == KeysOf(y)[n];
      assert (x + y)[..|x + y| - 1] == x + y[..n];
      assert k !in KeysOf(y[..n]) by {
        forall j | 0 <= j < n ensures KeysOf(y[..n])[j] != k {
          assert KeysOf(y[..n])[j] == KeysOf(y)[j];
        }
      }
      LastValueSkipsTail(x, y[..n], k);
    }
  }

  /** A non-dictionary entry, wherever it stands, is found under its dotted
      key with its own value, unless a later entry flattens to the same key:
      on a duplicate path the later entry wins. */
  lemma {:induction false} LaterEntryWins(a: seq<Entry>, k: string, v: Value, b: seq<Entry>, parent: string)
    requires !v.Dict?
    requires NewKey(parent, k) !in KeysOf(FlattenItems(b, parent))
    ensures Lookup(FlattenDict(a + [Entry(k, v)] + b, parent), NewKey(parent, k)) == Some(v)
  {
    var e := Entry(k, v);
    FlattenItemsAppend(a + [e], b, parent);
    FlattenItemsAppend(a, [e], parent);
    var front := FlattenItems(a + [e], parent);
    assert FlattenItems([e], parent) == [Entry(NewKey(parent, k), v)];
    assert front[|front| - 1] == Entry(NewKey(parent, k), v);
    assert LastValue(front, NewKey(parent, k)) == Some(v);
    LastValueSkipsTail(front, FlattenItems(b, parent), NewKey(parent, k));
  }

  /** An empty nested dictionary, wherever it stands, contributes no key at
      all: flattening is the same as without the entry. */
  lemma {:induction false} EmptyNestedDictVanishes(a: seq<Entry>, k: string, b: seq<Entry>, parent: string)
    ensures FlattenDict(a + [Entry(k, Dict([]))] + b, parent) == FlattenDict(a + b, parent)
  {
    var e := Entry(k, Dict([]));
    FlattenItemsAppend(a + [e], b, parent);
    FlattenItemsAppend(a, [e], parent);
    FlattenItemsAppend(a, b, parent);
    assert FlattenItems([e], parent) == [] by {
      assert FlattenItems([], NewKey(parent, k)) == [];
      assert FlattenDict([], NewKey(parent, k)) == [];
      assert Contribution(e, parent) == [];
      assert [e][1..] == [];
    }
    assert FlattenItems(a, parent) + [] == FlattenItems(a, parent);
  }

  /** A dictionary with no nested dictionaries keeps its pairs, in order. */
  lemma {:induction false} FlatItemsUnchanged(d: seq<Entry>)
    requires forall x :: x in d ==> !x.val.Dict?
    ensures FlattenItems(d, "") == d
  {
    if |d| > 0 {
      assert d[0] in d;
      FlatItemsUnchanged(d[1..]);
      assert d == [d[0]] + d[1..];
    }
  }

  /** Flattening is idempotent: its result has distinct keys and no nested
      dictionary, so flattening it again changes nothing. */
  lemma {:induction false} FlattenIdempotent(d: seq<Entry>, parent: string)
    ensures FlattenDict(FlattenDict(d, parent), "") == FlattenDict(d, parent)
  {
    var f := FlattenDict(d, parent);
    FlatItemsUnchanged(f);
    DictFromDistinctItems(f);
  }

  /** Every key produced under a non-empty parent is that parent followed by
      the separator. */
  lemma {:induction false} FlattenKeysUnderParent(d: seq<Entry>, parent: string)
    requires parent != ""
    decreases d, 1
    ensures forall x :: x in FlattenDict(d, parent) ==> parent + "." <= x.key
  {
    FlattenItemsKeysUnderParent(d, parent);
  }

  lemma {:induction false} FlattenItemsKeysUnderParent(d: seq<Entry>, parent: string)
    requires parent != ""
    decreases d, 0
    ensures forall x :: x in FlattenItems(d, parent) ==> parent + "." <= x.key
  {
    if |d| > 0 {
      ContributionKeysUnderParent(d[0], parent);
      FlattenItemsKeysUnderParent(d[1..], parent);
    }
  }

  lemma {:induction false} ContributionKeysUnderParent(e: Entry, parent: string)
    requires parent != ""
    decreases e, 2
    ensures forall x :: x in Contribution(e, parent) ==> parent + "." <= x.key
  {
    var k := NewKey(parent, e.key);
    if e.val.Dict? {
      FlattenKeysUnderParent(e.val.entries, k);
      assert k + "." == (parent + ".") + (e.key + ".");
      PrefixOfConcat(parent + ".", e.key + ".");
      assert Contribution(e, parent) == FlattenDict(e.val.entries, k);
      forall x | x in Contribution(e, parent) ensures parent + "." <= x.key {
        PrefixTransitive(parent + ".", k + ".", x.key);
      }
    } else {
      assert Contribution(e, parent) == [Entry(k, e.val)];
      PrefixOfConcat(parent + ".", e.key);
    }
  }

  lemma {:induction false} PrefixOfConcat(a: string, b: string)
    ensures a <= a + b
  {
    assert (a + b)[..|a|] == a;
  }

  lemma {:induction false} PrefixTransitive(a: string, b: string, c: string)
    requires a <= b && b <= c
    ensures a <= c
  {
    assert c[..|b|][..|a|] == c[..|a|];
  }

  /** Every flattened value is strictly shallower than the dictionary it came from. */
  lemma {:induction false} FlattenShallower(d: seq<Entry>, parent: string)
    decreases d, 1
    ensures forall x :: x in FlattenDict(d, parent) ==> Depth(x.val) < Depth(Dict(d))
  {
    FlattenItemsShallower(d, parent);
  }

  lemma {:induction false} FlattenItemsShallower(d: seq<Entry>, parent: string)
    decreases d, 0
    ensures forall x :: x in FlattenItems(d, parent) ==> Depth(x.val) < Depth(Dict(d))
  {
    if |d| > 0 {
      ContributionShallower(d[0], parent);
      EntryShallower(d, 0);
      FlattenItemsShallower(d[1..], parent);
      assert MaxEntryDepth(d[1..]) <= MaxEntryDepth(d);
    }
  }

  lemma {:induction false} ContributionShallower(e: Entry, parent: string)
    decreases e, 2
    ensures forall x :: x in Contribution(e, parent) ==> Depth(x.val) <= Depth(e.val)
  {
    if e.val.Dict? {
      FlattenShallower(e.val.entries, NewKey(parent, e.key));
    }
  }

  // ---------------------------------------------------------------------------
  // json_normalize, then prefix, drop and join

  predicate Distinct(ks: seq<string>) {
    forall i, j :: 0 <= i < j < |ks| ==> ks[i] != ks[j]
  }

  /** Append the keys of `ks` not yet in `acc`, in their order. */
  function AddKeys(acc: seq<string>, ks: seq<string>): (r: seq<string>)
    decreases ks
    ensures forall k :: k in r <==> k in acc || k in ks
    ensures Distinct(acc) ==> Distinct(r)
  {
    if |ks| == 0 then acc
    else if ks[0] in acc then AddKeys(acc, ks[1..])
    else AddKeys(acc + [ks[0]], ks[1..])
  }

  /** The column labels of a frame built from a list of flat dictionaries:
      every key of every row once, in order of first appearance. */
  function UnionKeys(rows: seq<seq<Entry>>): (r: seq<string>)
    ensures Distinct(r)
    ensures forall k :: k in r <==> exists i :: 0 <= i < |rows| && k in KeysOf(rows[i])
  {
    if |rows| == 0 then []
    else
      var prev := UnionKeys(rows[..|rows| - 1]);
      var r := AddKeys(prev, KeysOf(rows[|rows| - 1]));
      assert forall k :: k in r <==> exists i :: 0 <= i < |rows| && k in KeysOf(rows[i]) by {
        forall k ensures k in r <==> exists i :: 0 <= i < |rows| && k in KeysOf(rows[i]) {
          if k in prev {
            var i :| 0 <= i < |rows| - 1 && k in KeysOf(rows[..|rows| - 1][i]);
            assert rows[..|rows| - 1][i] == rows[i];
          }
          if exists i :: 0 <= i < |rows| && k in KeysOf(rows[i]) {
            var i :| 0 <= i < |rows| && k in KeysOf(rows[i]);
            if i < |rows| - 1 {
              assert rows[..|rows| - 1][i] == rows[i];
            }
          }
        }
      }
      r
  }

  /** The label `f"{col}.{subcol}"` a new column receives. */
  function Prefixed(name: string, k: string): string {
    name + "." + k
  }

  lemma {:induction false} PrefixedInjective(name: string, k1: string, k2: string)
    requires Prefixed(name, k1) == Prefixed(name, k2)
    ensures k1 == k2
  {
    assert k1 == Prefixed(name, k1)[|name| + 1..];
    assert k2 == Prefixed(name, k2)[|name| + 1..];
  }

  /** The column a normalised key becomes: each row's value for the key, null
      where the row lacks it. */
  function KeyColumn(name: string, k: string, rows: seq<seq<Entry>>): (c: Column)
    ensures c.name == Prefixed(name, k)
    ensures |c.cells| == |rows|
    ensures forall i :: 0 <= i < |rows| ==> c.cells[i] == Lookup(rows[i], k).GetOr(Null)
  {
    Column(Prefixed(name, k), seq(|rows|, i requires 0 <= i < |rows| => Lookup(rows[i], k).GetOr(Null)))
  }

  /** `pd.json_normalize(rows)` with every label prefixed by `name`. */
  function KeyColumns(name: string, rows: seq<seq<Entry>>): (r: seq<Column>)
    ensures |r| == |UnionKeys(rows)|
    ensures forall i :: 0 <= i < |r| ==> r[i] == KeyColumn(name, UnionKeys(rows)[i], rows)
  {
    var keys := UnionKeys(rows);
    seq(|keys|, i requires 0 <= i < |keys| => KeyColumn(name, keys[i], rows))
  }

  /** The labels of the new columns that already name a remaining column. */
  function Clashes(name: string, keys: seq<string>, rest: seq<Column>): set<string> {
    set i | 0 <= i < |keys| && Prefixed(name, keys[i]) in Names(rest) :: Prefixed(name, keys[i])
  }

  /** `df.drop(columns=[name]).join(normalized)`: the column at `ci` is replaced
      by one column per key of `rows`, appended after the remaining columns;
      `join` refuses labels that clash with a remaining column. */
  function Normalize(t: Table, ci: nat, rows: seq<seq<Entry>>): (r: Result<Table>)
    requires WellFormed(t) && ci < |t.columns| && |rows| == t.rows
    ensures r.Failure? <==> exists k :: k in UnionKeys(rows) && Prefixed(t.columns[ci].name, k) in Names(Drop(t.columns, ci))
    ensures r.Failure? ==> r.error.ColumnOverlap?
    ensures r.Success? ==> WellFormed(r.value) && r.value.rows == t.rows
    ensures r.Success? ==> r.value.columns == Drop(t.columns, ci) + KeyColumns(t.columns[ci].name, rows)
  {
    var name := t.columns[ci].name;
    var keys := UnionKeys(rows);
    var rest := Drop(t.columns, ci);
    var clash := Clashes(name, keys, rest);
    ClashesMeaning(name, keys, rest);
    if clash != {} then
      Failure(ColumnOverlap(clash))
    else
      NoClashesJoinWellFormed(t, ci, rows);
      Success(Table(t.rows, rest + KeyColumns(name, rows)))
  }

  lemma {:induction false} NoClashesJoinWellFormed(t: Table, ci: nat, rows: seq<seq<Entry>>)
    requires WellFormed(t) && ci < |t.columns| && |rows| == t.rows
    requires Clashes(t.columns[ci].name, UnionKeys(rows), Drop(t.columns, ci)) == {}
    ensures WellFormed(Table(t.rows, Drop(t.columns, ci) + KeyColumns(t.columns[ci].name, rows)))
  {
    var name := t.columns[ci].name;
    var rest := Drop(t.columns, ci);
    var added := KeyColumns(name, rows);
    DropKeepsOthers(t.columns, ci);
    KeyColumnsDistinct(name, rows);
    AddedAvoidRest(name, rows, rest);
    AppendDistinctNames(rest, added);
    JoinedLengths(rest, added, t.rows);
  }

  /** Without clashes no new label names a remaining column. */
  lemma {:induction false} AddedAvoidRest(name: string, rows: seq<seq<Entry>>, rest: seq<Column>)
    requires Clashes(name, UnionKeys(rows), rest) == {}
    ensures forall c :: c in KeyColumns(name, rows) ==> c.name !in Names(rest)
  {
    var keys := UnionKeys(rows);
    var added := KeyColumns(name, rows);
    forall c | c in added ensures c.name !in Names(rest) {
      var i :| 0 <= i < |added| && added[i] == c;
      var newName := Prefixed(name, keys[i]);
      assert c.name == newName;
      assert newName in Names(rest) ==> newName in Clashes(name, keys, rest);
    }
  }

  lemma {:induction false} JoinedLengths(rest: seq<Column>, added: seq<Column>, n: nat)
    requires forall c :: c in rest ==> |c.cells| == n
    requires forall j :: 0 <= j < |added| ==> |added[j].cells| == n
    ensures forall j :: 0 <= j < |rest + added| ==> |(rest + added)[j].cells| == n
  {
    var cols := rest + added;
    forall j | 0 <= j < |cols| ensures |cols[j].cells| == n {
      if j < |rest| { assert cols[j] == rest[j] && rest[j] in rest; } else { assert cols[j] == added[j - |rest|]; }
    }
  }

  lemma {:induction false} KeyColumnsDistinct(name: string, rows: seq<seq<Entry>>)
    ensures DistinctNames(KeyColumns(name, rows))
  {
    var added := KeyColumns(name, rows);
    var keys := UnionKeys(rows);
    forall i, j | 0 <= i < j < |added| ensures added[i].name != added[j].name {
      if added[i].name == added[j].name {
        PrefixedInjective(name, keys[i], keys[j]);
      }
    }
  }

  /** Clashes are exactly the new labels that name a remaining column. */
  lemma {:induction false} ClashesMeaning(name: string, keys: seq<string>, rest: seq<Column>)
    ensures Clashes(name, keys, rest) != {} <==> exists k :: k in keys && Prefixed(name, k) in Names(rest)
  {
    if exists k :: k in keys && Prefixed(name, k) in Names(rest) {
      var k :| k in keys && Prefixed(name, k) in Names(rest);
      var i :| 0 <= i < |keys| && keys[i] == k;
      assert Prefixed(name, k) in Clashes(name, keys, rest);
    }
  }

  // ---------------------------------------------------------------------------
  // parse_and_flatten_column

  /** `df[col].apply(parse_stringified)` */
  function ParseCells(p: Parsers, cells: seq<Value>): (r: seq<Value>)
    ensures |r| == |cells|
    ensures forall i :: 0 <= i < |cells| ==> r[i] == ParseStringified(p, cells[i])
  {
    seq(|cells|, i requires 0 <= i < |cells| => ParseStringified(p, cells[i]))
  }

  /** Each row's flattened dictionary, or no keys for a row that is not a dictionary. */
  function FlattenRows(parsed: seq<Value>): (r: seq<seq<Entry>>)
    ensures |r| == |parsed|
    ensures forall i :: 0 <= i < |parsed| ==> r[i] == (if parsed[i].Dict? then FlattenDict(parsed[i].entries, "") else [])
  {
    seq(|parsed|, i requires 0 <= i < |parsed| => if parsed[i].Dict? then FlattenDict(parsed[i].entries, "") else [])
  }

  /** `parse_and_flatten_column(df, col)` */
  function ParseAndFlattenColumn(p: Parsers, t: Table, name: string): (r: Result<Table>)
    requires WellFormed(t)
    ensures IndexOf(t.columns, name).None? ==> r == Failure(KeyError(name))
    ensures r.Success? ==> WellFormed(r.value) && r.value.rows == t.rows
  {
    match IndexOf(t.columns, name)
    case None => Failure(KeyError(name))
    case Some(ci) =>
      var parsed := ParseCells(p, t.columns[ci].cells);
      if HasDict(parsed) then Normalize(t, ci, FlattenRows(parsed))
      else
        var cols := t.columns[ci := Column(name, parsed)];
        assert forall j :: 0 <= j < |cols| ==> cols[j].name == t.columns[j].name;
        Success(Table(t.rows, cols))
  }

  /** Without a dictionary among the parsed cells, the column keeps its name
      and position and its cells are replaced by their parsed values; every
      other column is untouched. */
  lemma {:induction false} ParseWithoutDictReplacesCells(p: Parsers, t: Table, name: string, ci: nat)
    requires WellFormed(t) && IndexOf(t.columns, name) == Some(ci)
    requires forall i :: 0 <= i < t.rows ==> !ParseStringified(p, t.columns[ci].cells[i]).Dict?
    ensures ParseAndFlattenColumn(p, t, name).Success?
    ensures var u := ParseAndFlattenColumn(p, t, name).value;
      && u.rows == t.rows
      && |u.columns| == |t.columns|
      && (forall j :: 0 <= j < |t.columns| && j != ci ==> u.columns[j] == t.columns[j])
      && u.columns[ci].name == name
      && (forall i :: 0 <= i < t.rows ==> u.columns[ci].cells[i] == ParseStringified(p, t.columns[ci].cells[i]))
  {
  }

  /** With a dictionary among the parsed cells, the column is dropped and one
      column `name.key` is appended per key of the flattened rows. Row `i` of
      column `name.key` holds that key's value in row `i`'s flattened
      dictionary, or null when the row lacks the key or is not a dictionary. */
  lemma {:induction false} ParseWithDictSplitsColumn(p: Parsers, t: Table, name: string, ci: nat, u: Table)
    requires WellFormed(t) && IndexOf(t.columns, name) == Some(ci)
    requires exists i :: 0 <= i < t.rows && ParseStringified(p, t.columns[ci].cells[i]).Dict?
    requires ParseAndFlattenColumn(p, t, name) == Success(u)
    ensures var parsed := ParseCells(p, t.columns[ci].cells);
      var keys := UnionKeys(FlattenRows(parsed));
      && u.rows == t.rows
      && |u.columns| == |t.columns| - 1 + |keys|
      && u.columns == Drop(t.columns, ci) + u.columns[|t.columns| - 1..]
      && (forall k :: k in keys <==> exists i :: 0 <= i < t.rows && parsed[i].Dict? && k in KeysOf(FlattenDict(parsed[i].entries, "")))
      && (forall n, i :: 0 <= n < |keys| && 0 <= i < t.rows ==>
            && u.columns[|t.columns| - 1 + n].name == Prefixed(name, keys[n])
            && u.columns[|t.columns| - 1 + n].cells[i]
               == (if parsed[i].Dict? then Lookup(FlattenDict(parsed[i].entries, ""), keys[n]).GetOr(Null) else Null))
  {
    var parsed := ParseCells(p, t.columns[ci].cells);
    assert u.rows == t.rows && u.columns == Drop(t.columns, ci) + KeyColumns(name, FlattenRows(parsed)) by {
      assert HasDict(parsed);
      assert Normalize(t, ci, FlattenRows(parsed)) == Success(u);
      assert t.columns[ci].name == name;
    }
    SplitShape(t, ci, name, parsed, u);
  }

  /** The shape of a split, once the result is known to be the kept columns
      followed by the key columns of the flattened rows. */
  lemma {:induction false} SplitShape(t: Table, ci: nat, name: string, parsed: seq<Value>, u: Table)
    requires ci < |t.columns| && |parsed| == t.rows && u.rows == t.rows
    requires u.columns == Drop(t.columns, ci) + KeyColumns(name, FlattenRows(parsed))
    ensures var keys := UnionKeys(FlattenRows(parsed));
      && u.rows == t.rows
      && |u.columns| == |t.columns| - 1 + |keys|
      && u.columns == Drop(t.columns, ci) + u.columns[|t.columns| - 1..]
      && (forall k :: k in keys <==> exists i :: 0 <= i < t.rows && parsed[i].Dict? && k in KeysOf(FlattenDict(parsed[i].entries, "")))
      && (forall n, i :: 0 <= n < |keys| && 0 <= i < t.rows ==>
            && u.columns[|t.columns| - 1 + n].name == Prefixed(name, keys[n])
            && u.columns[|t.columns| - 1 + n].cells[i]
               == (if parsed[i].Dict? then Lookup(FlattenDict(parsed[i].entries, ""), keys[n]).GetOr(Null) else Null))
  {
    var keys := UnionKeys(FlattenRows(parsed));
    assert u.columns[|t.columns| - 1..] == KeyColumns(name, FlattenRows(parsed));
    FlattenedKeys(parsed);
    forall n, i | 0 <= n < |keys| && 0 <= i < t.rows
      ensures && u.columns[|t.columns| - 1 + n].name == Prefixed(name, keys[n])
              && u.columns[|t.columns| - 1 + n].cells[i]
                 == (if parsed[i].Dict? then Lookup(FlattenDict(parsed[i].entries, ""), keys[n]).GetOr(Null) else Null)
    {
      assert u.columns[|t.columns| - 1 + n] == KeyColumns(name, FlattenRows(parsed))[n];
      SplitCell(parsed, name, n, i);
    }
  }

  /** Row `i` of the `n`-th key column holds the row's value for that key. */
  lemma {:induction false} SplitCell(parsed: seq<Value>, name: string, n: nat, i: nat)
    requires n < |UnionKeys(FlattenRows(parsed))| && i < |parsed|
    ensures var k := UnionKeys(FlattenRows(parsed))[n];
      var c := KeyColumns(name, FlattenRows(parsed))[n];
      && c.name == Prefixed(name, k)
      && c.cells[i] == (if parsed[i].Dict? then Lookup(FlattenDict(parsed[i].entries, ""), k).GetOr(Null) else Null)
  {
    var rows := FlattenRows(parsed);
    var k := UnionKeys(rows)[n];
    assert KeyColumns(name, rows)[n] == KeyColumn(name, k, rows);
    if !parsed[i].Dict? {
      assert rows[i] == [];
    }
  }

  /** The keys of the flattened rows are those of the dictionary cells. */
  lemma {:induction false} FlattenedKeys(parsed: seq<Value>)
    ensures forall k :: k in UnionKeys(FlattenRows(parsed)) <==>
      exists i :: 0 <= i < |parsed| && parsed[i].Dict? && k in KeysOf(FlattenDict(parsed[i].entries, ""))
  {
    var rows := FlattenRows(parsed);
    forall k | k in UnionKeys(rows)
      ensures exists i :: 0 <= i < |parsed| && parsed[i].Dict? && k in KeysOf(FlattenDict(parsed[i].entries, ""))
    {
      var i :| 0 <= i < |rows| && k in KeysOf(rows[i]);
      assert parsed[i].Dict?;
    }
  }

  /** No new column holds a dictionary: flattening removed them all. */
  lemma {:induction false} ParseWithDictLeavesNoDict(p: Parsers, t: Table, name: string, ci: nat)
    requires WellFormed(t) && IndexOf(t.columns, name) == Some(ci)
    requires exists i :: 0 <= i < t.rows && ParseStringified(p, t.columns[ci].cells[i]).Dict?
    requires ParseAndFlattenColumn(p, t, name).Success?
    ensures var u := ParseAndFlattenColumn(p, t, name).value;
      forall c :: c in u.columns[|t.columns| - 1..] ==> forall i :: 0 <= i < |c.cells| ==> !c.cells[i].Dict?
  {
    var u := ParseAndFlattenColumn(p, t, name).value;
    var parsed := ParseCells(p, t.columns[ci].cells);
    var rows := FlattenRows(parsed);
    assert HasDict(parsed);
    assert u.columns == Drop(t.columns, ci) + KeyColumns(name, rows);
    assert u.columns[|t.columns| - 1..] == KeyColumns(name, rows);
    KeyColumnsHoldNoDict(name, rows);
  }

  lemma {:induction false} KeyColumnsHoldNoDict(name: string, rows: seq<seq<Entry>>)
    requires forall i, x :: 0 <= i < |rows| && x in rows[i] ==> !x.val.Dict?
    ensures forall c :: c in KeyColumns(name, rows) ==> forall i :: 0 <= i < |c.cells| ==> !c.cells[i].Dict?
  {
    forall c, i | c in KeyColumns(name, rows) && 0 <= i < |c.cells| ensures !c.cells[i].Dict? {
      var n :| 0 <= n < |KeyColumns(name, rows)| && KeyColumns(name, rows)[n] == c;
      var l := Lookup(rows[i], UnionKeys(rows)[n]);
      if l.Some? { assert Entry(UnionKeys(rows)[n], l.value) in rows[i]; }
    }
  }

  /** The join fails exactly when a new label names a remaining column. */
  lemma {:induction false} ParseWithDictOverlapFails(p: Parsers, t: Table, name: string, ci: nat)
    requires WellFormed(t) && IndexOf(t.columns, name) == Some(ci)
    requires exists i :: 0 <= i < t.rows && ParseStringified(p, t.columns[ci].cells[i]).Dict?
    ensures ParseAndFlattenColumn(p, t, name).Failure? <==>
      exists k :: k in UnionKeys(FlattenRows(ParseCells(p, t.columns[ci].cells))) && Prefixed(name, k) in Names(Drop(t.columns, ci))
  {
    assert HasDict(ParseCells(p, t.columns[ci].cells));
  }

  // ---------------------------------------------------------------------------
  // explode_list_column

  /** How many rows a cell of the exploded column becomes. */
  function Multiplicity(v: Value): (n: nat)
    ensures n >= 1
  {
    if IsListLike(v) && |v.items| > 0 then |v.items| else 1
  }

  /** The cells that take the place of `v` in the exploded column: the members
      of a list or tuple, a single null for an empty one, `v` itself otherwise. */
  function Pieces(v: Value): (r: seq<Value>)
    ensures |r| == Multiplicity(v)
  {
    if IsListLike(v) then (if |v.items| == 0 then [Null] else v.items) else [v]
  }

  function Repeat(v: Value, n: nat): (r: seq<Value>)
    ensures |r| == n
    ensures forall i :: 0 <= i < n ==> r[i] == v
  {
    seq(n, _ => v)
  }

  /** Rows of the exploded frame: the sum of the multiplicities. */
  function TotalRows(keys: seq<Value>): nat {
    if |keys| == 0 then 0 else Multiplicity(keys[0]) + TotalRows(keys[1..])
  }

  /** One column of the exploded frame. `keys` is the exploded column; a
      `target` column is replaced by the pieces of its cells, any other column
      repeats each cell once per piece of its row. */
  function ExplodeCells(keys: seq<Value>, cells: seq<Value>, target: bool): (r: seq<Value>)
    requires |keys| == |cells|
    ensures |r| == TotalRows(keys)
  {
    if |keys| == 0 then []
    else
      (if target then Pieces(keys[0]) else Repeat(cells[0], Multiplicity(keys[0])))
      + ExplodeCells(keys[1..], cells[1..], target)
  }

  /** `df.explode(col).reset_index(drop=True)` for the column at `ci`. */
  function ExplodeAt(t: Table, ci: nat): (u: Table)
    requires WellFormed(t) && ci < |t.columns|
    ensures WellFormed(u)
    ensures u.rows == TotalRows(t.columns[ci].cells)
    ensures |u.columns| == |t.columns|
    ensures forall j :: 0 <= j < |t.columns| ==> u.columns[j].name == t.columns[j].name
  {
    var keys := t.columns[ci].cells;
    var cols := seq(|t.columns|, j requires 0 <= j < |t.columns| =>
      Column(t.columns[j].name, ExplodeCells(keys, t.columns[j].cells, j == ci)));
    Table(TotalRows(keys), cols)
  }

  /** `explode_list_column(df, col)`: explode only when some cell is a list or tuple. */
  function ExplodeListColumn(t: Table, name: string): (r: Result<Table>)
    requires WellFormed(t)
    ensures IndexOf(t.columns, name).None? ==> r == Failure(KeyError(name))
    ensures r.Success? ==> WellFormed(r.value)
    ensures IndexOf(t.columns, name).Some? && !HasListLike(t.columns[IndexOf(t.columns, name).value].cells)
            ==> r == Success(t)
  {
    match IndexOf(t.columns, name)
    case None => Failure(KeyError(name))
    case Some(ci) =>
      if HasListLike(t.columns[ci].cells) then Success(ExplodeAt(t, ci)) else Success(t)
  }

  /** Cells with no list or tuple each give exactly one row. */
  lemma {:induction false} TotalRowsWithoutListLike(keys: seq<Value>)
    requires !HasListLike(keys)
    ensures TotalRows(keys) == |keys|
  {
    if |keys| > 0 {
      assert !IsListLike(keys[0]);
      assert !HasListLike(keys[1..]) by {
        forall k | 0 <= k < |keys[1..]| ensures !IsListLike(keys[1..][k]) {
          assert keys[1..][k] == keys[k + 1];
        }
      }
      TotalRowsWithoutListLike(keys[1..]);
    }
  }

  /** The rows exploded from source row `r` sit consecutively at offset
      `TotalRows(keys[..r])`, in member order; other columns repeat row `r`. */
  lemma {:induction false} ExplodeBlock(keys: seq<Value>, cells: seq<Value>, target: bool, r: nat, m: nat)
    requires |keys| == |cells| && r < |keys| && m < Multiplicity(keys[r])
    ensures TotalRows(keys[..r]) + m < |ExplodeCells(keys, cells, target)|
    ensures ExplodeCells(keys, cells, target)[TotalRows(keys[..r]) + m]
         == (if target then Pieces(keys[r])[m] else cells[r])
  {
    var out := ExplodeCells(keys, cells, target);
    var head := if target then Pieces(keys[0]) else Repeat(cells[0], Multiplicity(keys[0]));
    assert out == head + ExplodeCells(keys[1..], cells[1..], target);
    if r == 0 {
      assert keys[..0] == [];
      assert |out| >= |head|;
    } else {
      var rest := keys[1..];
      var tail := ExplodeCells(rest, cells[1..], target);
      assert |out| == |head| + |tail|;
      ExplodeBlock(rest, cells[1..], target, r - 1, m);
      assert keys[..r][1..] == rest[..r - 1];
      assert keys[..r][0] == keys[0];
      assert TotalRows(keys[..r]) == |head| + TotalRows(rest[..r - 1]);
      var idx := TotalRows(rest[..r - 1]) + m;
      assert out[|head| + idx] == tail[idx];
      assert rest[r - 1] == keys[r] && cells[1..][r - 1] == cells[r];
    }
  }

  /** Without a list or tuple in the exploded column, exploding changes no column. */
  lemma {:induction false} ExplodeCellsWithoutListLike(keys: seq<Value>, cells: seq<Value>, target: bool)
    requires |keys| == |cells| && !HasListLike(keys)
    requires target ==> cells == keys
    ensures ExplodeCells(keys, cells, target) == cells
  {
    if |keys| > 0 {
      assert !IsListLike(keys[0]);
      assert !HasListLike(keys[1..]) by {
        forall k | 0 <= k < |keys[1..]| ensures !IsListLike(keys[1..][k]) {
          assert keys[1..][k] == keys[k + 1];
        }
      }
      ExplodeCellsWithoutListLike(keys[1..], cells[1..], target);
      assert cells == [cells[0]] + cells[1..];
    }
  }

  /** The guard of `explode_list_column` changes nothing: a column without
      lists or tuples explodes to the same table. */
  lemma {:induction false} ExplodeWithoutListLikeIsIdentity(t: Table, ci: nat)
    requires WellFormed(t) && ci < |t.columns|
    requires !HasListLike(t.columns[ci].cells)
    ensures ExplodeAt(t, ci) == t
  {
    var keys := t.columns[ci].cells;
    var u := ExplodeAt(t, ci);
    TotalRowsWithoutListLike(keys);
    forall j | 0 <= j < |t.columns| ensures u.columns[j] == t.columns[j] {
      ExplodeCellsWithoutListLike(keys, t.columns[j].cells, j == ci);
    }
  }

  /** Row-count law: the result has one row per piece, that is the sum over the
      column's cells of the length of each non-empty list or tuple and 1 for
      every other cell, empty lists included. */
  lemma {:induction false} ExplodeRowCount(t: Table, name: string, ci: nat)
    requires WellFormed(t) && IndexOf(t.columns, name) == Some(ci)
    ensures ExplodeListColumn(t, name).Success?
    ensures ExplodeListColumn(t, name).value.rows == TotalRows(t.columns[ci].cells)
  {
    if !HasListLike(t.columns[ci].cells) {
      TotalRowsWithoutListLike(t.columns[ci].cells);
    }
  }

  /** Source row `i` becomes the consecutive output rows starting at
      `TotalRows(cells[..i])`: the exploded column holds the pieces of cell `i`
      in order, every other column repeats its own cell `i`. */
  lemma {:induction false} ExplodeRowsInPlace(t: Table, name: string, ci: nat, i: nat, m: nat)
    requires WellFormed(t) && IndexOf(t.columns, name) == Some(ci)
    requires i < t.rows && m < Multiplicity(t.columns[ci].cells[i])
    ensures var u := ExplodeListColumn(t, name).value;
      var row := TotalRows(t.columns[ci].cells[..i]) + m;
      && row < u.rows
      && u.columns[ci].cells[row] == Pieces(t.columns[ci].cells[i])[m]
      && forall j :: 0 <= j < |t.columns| && j != ci ==> u.columns[j].cells[row] == t.columns[j].cells[i]
  {
    var keys := t.columns[ci].cells;
    var u := ExplodeAt(t, ci);
    assert ExplodeListColumn(t, name).value == u by {
      if !HasListLike(keys) {
        ExplodeWithoutListLikeIsIdentity(t, ci);
      }
    }
    var row := TotalRows(keys[..i]) + m;
    assert u.columns[ci].cells == ExplodeCells(keys, keys, true);
    ExplodeBlock(keys, keys, true, i, m);
    forall j | 0 <= j < |t.columns| && j != ci
      ensures u.columns[j].cells[row] == t.columns[j].cells[i]
    {
      assert u.columns[j].cells == ExplodeCells(keys, t.columns[j].cells, false);
      ExplodeBlock(keys, t.columns[j].cells, false, i, m);
    }
  }

  /** The rows of the first `i + 1` source rows are those of the first `i`
      and then the multiplicity of row `i`. */
  lemma {:induction false} TotalRowsPrefix(keys: seq<Value>, i: nat)
    requires i < |keys|
    ensures TotalRows(keys[..i + 1]) == TotalRows(keys[..i]) + Multiplicity(keys[i])
  {
    if i == 0 {
      assert keys[..1] == [keys[0]];
      assert keys[..1][1..] == [];
      assert keys[..0] == [];
    } else {
      TotalRowsPrefix(keys[1..], i - 1);
      assert keys[..i + 1][1..] == keys[1..][..i];
      assert keys[..i][1..] == keys[1..][..i - 1];
      assert keys[..i + 1][0] == keys[0] && keys[..i][0] == keys[0];
      assert keys[1..][i - 1] == keys[i];
    }
  }

  /** An empty list or tuple is not dropped: its source row becomes exactly
      one output row, null in the exploded column and repeating the row's own
      cells in every other column. */
  lemma {:induction false} EmptyListGivesOneNull(t: Table, name: string, ci: nat, i: nat)
    requires WellFormed(t) && IndexOf(t.columns, name) == Some(ci)
    requires i < t.rows && IsListLike(t.columns[ci].cells[i]) && |t.columns[ci].cells[i].items| == 0
    ensures var keys := t.columns[ci].cells;
      var u := ExplodeListColumn(t, name).value;
      var row := TotalRows(keys[..i]);
      && TotalRows(keys[..i + 1]) == row + 1
      && row < u.rows
      && u.columns[ci].cells[row] == Null
      && forall j :: 0 <= j < |t.columns| && j != ci ==> u.columns[j].cells[row] == t.columns[j].cells[i]
  {
    ExplodeRowsInPlace(t, name, ci, i, 0);
    TotalRowsPrefix(t.columns[ci].cells, i);
  }
}
