/** The loader's nested-JSON flattening: dictionary columns are normalised into
dotted columns and list columns are exploded into rows, pass after pass, until
no dictionary and no list is left. The loop has no bound of its own; it ends
because every pass lowers the nesting depth of the columns still to be
reshaped. */
module Parser {
  import opened Values
  import opened Tables
  import opened Transformer

  /** The loader's own copy of `parse_stringified`. */
  function ParseStringified(p: Parsers, v: Value): Value {
    if !v.Str? then v
    else
      match p.literal(v.s)
      case Some(x) => x
      case None =>
        match p.json(v.s)
        case Some(y) => y
        case None => v
  }

  /** The two copies of `parse_stringified` agree on every input. */
  lemma {:induction false} ParseStringifiedCopiesAgree(p: Parsers, v: Value)
    ensures ParseStringified(p, v) == Transformer.ParseStringified(p, v)
  {
  }

  // ---------------------------------------------------------------------------
  // One pass

  /** Names of the columns holding some dictionary, in column order. */
  function DictColumns(cols: seq<Column>): (r: seq<string>)
    ensures forall n :: n in r <==> exists j :: 0 <= j < |cols| && cols[j].name == n && HasDict(cols[j].cells)
  {
    if |cols| == 0 then []
    else (if HasDict(cols[0].cells) then [cols[0].name] else []) + DictColumns(cols[1..])
  }

  /** Names of the columns holding some list, in column order. Tuples do not count. */
  function ListColumns(cols: seq<Column>): (r: seq<string>)
    ensures forall n :: n in r <==> exists j :: 0 <= j < |cols| && cols[j].name == n && HasList(cols[j].cells)
  {
    if |cols| == 0 then []
    else (if HasList(cols[0].cells) then [cols[0].name] else []) + ListColumns(cols[1..])
  }

  /** `json_normalize(df[col])`, prefixed, then `df.drop(columns=[col]).join(...)`:
      dictionary cells are flattened, any other cell gives no keys. */
  function NormalizeColumn(t: Table, name: string): (r: Result<Table>)
    requires WellFormed(t)
    ensures r.Success? ==> WellFormed(r.value) && r.value.rows == t.rows
  {
    match IndexOf(t.columns, name)
    case None => Failure(KeyError(name))
    case Some(ci) => Transformer.Normalize(t, ci, Transformer.FlattenRows(t.columns[ci].cells))
  }

  /** The `for col in dict_cols` loop. */
  function DictPass(t: Table, names: seq<string>): (r: Result<Table>)
    requires WellFormed(t)
    decreases names
    ensures r.Success? ==> WellFormed(r.value)
  {
    if |names| == 0 then Success(t)
    else
      match NormalizeColumn(t, names[0])
      case Failure(e) => Failure(e)
      case Success(t1) => DictPass(t1, names[1..])
  }

  /** `df.explode(col).reset_index(drop=True)`; every list and tuple cell of the
      column is expanded. */
  function ExplodeColumn(t: Table, name: string): (r: Result<Table>)
    requires WellFormed(t)
    ensures r.Failure? <==> IndexOf(t.columns, name).None?
    ensures r.Failure? ==> r.error == KeyError(name)
    ensures r.Success? ==> WellFormed(r.value) && Names(r.value.columns) == Names(t.columns)
    ensures r.Success? ==> r.value.rows == Transformer.TotalRows(t.columns[IndexOf(t.columns, name).value].cells)
  {
    match IndexOf(t.columns, name)
    case None => Failure(KeyError(name))
    case Some(ci) =>
      var u := Transformer.ExplodeAt(t, ci);
      assert Names(u.columns) == Names(t.columns);
      Success(u)
  }

  /** The `for col in list_cols` loop. */
  function ListPass(t: Table, names: seq<string>): (r: Result<Table>)
    requires WellFormed(t)
    decreases names
    ensures r.Success? ==> WellFormed(r.value)
  {
    if |names| == 0 then Success(t)
    else
      match ExplodeColumn(t, names[0])
      case Failure(e) => Failure(e)
      case Success(t1) => ListPass(t1, names[1..])
  }

  // ---------------------------------------------------------------------------
  // The loop

  /** No cell of the table is a dictionary or a list. */
  predicate Settled(t: Table) {
    forall j :: 0 <= j < |t.columns| ==> !HasDict(t.columns[j].cells) && !HasList(t.columns[j].cells)
  }

  /** A column the loop still has to reshape. */
  predicate Active(c: Column) {
    HasDict(c.cells) || HasList(c.cells)
  }

  /** The deepest cell of any column still to be reshaped. */
  function Measure(cols: seq<Column>): nat {
    if |cols| == 0 then 0
    else
      var a := if Active(cols[0]) then MaxDepth(cols[0].cells) else 0;
      var b := Measure(cols[1..]);
      if a < b then b else a
  }

  /** `flatten_nested_json(df)` */
  function FlattenNestedJson(t: Table): (r: Result<Table>)
    requires WellFormed(t)
    decreases Measure(t.columns)
    ensures r.Success? ==> WellFormed(r.value) && Settled(r.value)
    ensures Settled(t) ==> r == Success(t)
  {
    var dictCols := DictColumns(t.columns);
    var listCols := ListColumns(t.columns);
    NothingPendingIsSettled(t);
    if |dictCols| == 0 && |listCols| == 0 then
      Success(t)
    else
      match DictPass(t, dictCols)
      case Failure(e) => Failure(e)
      case Success(t1) =>
        match ListPass(t1, listCols)
        case Failure(e) => Failure(e)
        case Success(t2) =>
          PassLowersMeasure(t, t1, t2);
          FlattenNestedJson(t2)
  }

  /** The loop stops exactly when no column is listed for either pass. */
  lemma {:induction false} NothingPendingIsSettled(t: Table)
    ensures Settled(t) <==> |DictColumns(t.columns)| == 0 && |ListColumns(t.columns)| == 0
  {
    var dictCols := DictColumns(t.columns);
    var listCols := ListColumns(t.columns);
    if |dictCols| > 0 {
      assert dictCols[0] in dictCols;
    } else if |listCols| > 0 {
      assert listCols[0] in listCols;
    } else {
      forall j | 0 <= j < |t.columns| ensures !HasDict(t.columns[j].cells) && !HasList(t.columns[j].cells) {
        assert t.columns[j].name !in dictCols && t.columns[j].name !in listCols;
      }
    }
  }

  // ---------------------------------------------------------------------------
  // Why the loop ends. With m the measure before a pass, every column after
  // the dictionary pass is shallower than m, or inactive, or still at most m
  // deep but then listed for the list pass or free of dictionaries; after the
  // list pass every column is shallower than m or inactive.

  /** Every cell of the column is shallower than `m`. */
  predicate Below(c: Column, m: nat) {
    forall v :: v in c.cells ==> Depth(v) < m
  }

  /** No cell of the column is deeper than `m`. */
  predicate AtMost(c: Column, m: nat) {
    forall v :: v in c.cells ==> Depth(v) <= m
  }

  /** The state of a column during the dictionary pass, while `pending` are
      still to be normalised and `listCols` are to be exploded next. */
  predicate DictPassReady(c: Column, pending: seq<string>, listCols: seq<string>, m: nat) {
    || Below(c, m)
    || (!Active(c) && c.name !in listCols)
    || (AtMost(c, m) && (c.name in pending || !HasDict(c.cells)) && (c.name in listCols || !HasList(c.cells)))
  }

  /** The state of a column during the list pass, while `pending` are still to
      be exploded. */
  predicate ListPassReady(c: Column, pending: seq<string>, m: nat) {
    || Below(c, m)
    || (!Active(c) && c.name !in pending)
    || (AtMost(c, m) && !HasDict(c.cells) && c.name in pending)
  }

  lemma {:induction false} MembersCarry(a: seq<Value>, b: seq<Value>)
    requires forall v :: v in a ==> v in b
    ensures HasDict(a) ==> HasDict(b)
    ensures HasList(a) ==> HasList(b)
  {
    if HasDict(a) {
      var k :| 0 <= k < |a| && a[k].Dict?;
      assert a[k] in b;
      var j :| 0 <= j < |b| && b[j] == a[k];
    }
    if HasList(a) {
      var k :| 0 <= k < |a| && a[k].List?;
      assert a[k] in b;
      var j :| 0 <= j < |b| && b[j] == a[k];
    }
  }

  /** A column that is not exploded only repeats its own cells. */
  lemma {:induction false} RepeatedCellsComeFromColumn(keys: seq<Value>, cells: seq<Value>)
    requires |keys| == |cells|
    ensures forall v :: v in Transformer.ExplodeCells(keys, cells, false) ==> v in cells
  {
    if |keys| > 0 {
      RepeatedCellsComeFromColumn(keys[1..], cells[1..]);
      var head := Transformer.Repeat(cells[0], Transformer.Multiplicity(keys[0]));
      var tail := Transformer.ExplodeCells(keys[1..], cells[1..], false);
      assert Transformer.ExplodeCells(keys, cells, false) == head + tail;
      forall v | v in head + tail ensures v in cells {
        if v in head {
          var i :| 0 <= i < |head| && head[i] == v;
        } else {
          assert v in cells[1..];
        }
      }
    }
  }

  /** Exploding a column whose dictionaries are shallower than `m` and whose
      other cells are at most `m` deep leaves only cells shallower than `m`. */
  lemma {:induction false} PiecesBelow(keys: seq<Value>, cells: seq<Value>, m: nat)
    requires |keys| == |cells| && m >= 1
    requires forall v :: v in keys ==> Depth(v) < m || (Depth(v) <= m && !v.Dict?)
    ensures forall v :: v in Transformer.ExplodeCells(keys, cells, true) ==> Depth(v) < m
  {
    if |keys| > 0 {
      assert forall v :: v in keys[1..] ==> v in keys;
      PiecesBelow(keys[1..], cells[1..], m);
      var x := keys[0];
      var head := Transformer.Pieces(x);
      var tail := Transformer.ExplodeCells(keys[1..], cells[1..], true);
      assert Transformer.ExplodeCells(keys, cells, true) == head + tail;
      assert x in keys;
      forall v | v in head ensures Depth(v) < m {
        if IsListLike(x) && |x.items| > 0 {
          var k :| 0 <= k < |x.items| && x.items[k] == v;
          MemberShallower(x.items, k);
        }
      }
    }
  }

  lemma {:induction false} MaxDepthBelow(s: seq<Value>, m: nat)
    requires m >= 1 && forall v :: v in s ==> Depth(v) < m
    ensures MaxDepth(s) < m
  {
    if |s| > 0 {
      assert forall v :: v in s[1..] ==> v in s;
      MaxDepthBelow(s[1..], m);
      assert s[0] in s;
    }
  }

  /** Every cell of an active column is at most the measure deep. */
  lemma {:induction false} MeasureBounds(cols: seq<Column>, j: nat)
    requires j < |cols| && Active(cols[j])
    ensures AtMost(cols[j], Measure(cols))
  {
    if j == 0 {
      forall v | v in cols[0].cells ensures Depth(v) <= Measure(cols) {
        var k :| 0 <= k < |cols[0].cells| && cols[0].cells[k] == v;
        MemberShallower(cols[0].cells, k);
      }
    } else {
      MeasureBounds(cols[1..], j - 1);
      assert cols[1..][j - 1] == cols[j];
    }
  }

  /** Columns that are all inactive or shallower than `m` measure less than `m`. */
  lemma {:induction false} MeasureBelow(cols: seq<Column>, m: nat)
    requires m >= 1
    requires forall c :: c in cols ==> !Active(c) || Below(c, m)
    ensures Measure(cols) < m
  {
    if |cols| > 0 {
      assert forall c :: c in cols[1..] ==> c in cols;
      MeasureBelow(cols[1..], m);
      assert cols[0] in cols;
      if Active(cols[0]) {
        MaxDepthBelow(cols[0].cells, m);
      }
    }
  }

  /** An active column makes the measure at least one. */
  lemma {:induction false} MeasurePositive(cols: seq<Column>, j: nat)
    requires j < |cols| && Active(cols[j])
    ensures Measure(cols) >= 1
  {
    MeasureBounds(cols, j);
    var k :| 0 <= k < |cols[j].cells| && (cols[j].cells[k].Dict? || cols[j].cells[k].List?);
    assert cols[j].cells[k] in cols[j].cells;
  }

  /** Normalising one column: the columns kept are unchanged and the new ones
      are shallower than `m`. */
  lemma {:induction false} NormalizeStep(t: Table, pending: seq<string>, listCols: seq<string>, m: nat)
    requires WellFormed(t) && m >= 1 && |pending| > 0
    requires forall c :: c in t.columns ==> DictPassReady(c, pending, listCols, m)
    requires NormalizeColumn(t, pending[0]).Success?
    ensures forall c :: c in NormalizeColumn(t, pending[0]).value.columns ==> DictPassReady(c, pending[1..], listCols, m)
  {
    var ci := IndexOf(t.columns, pending[0]).value;
    var col := t.columns[ci];
    var rows := Transformer.FlattenRows(col.cells);
    var u := NormalizeColumn(t, pending[0]).value;
    assert u.columns == Drop(t.columns, ci) + Transformer.KeyColumns(col.name, rows);
    DropKeepsOthers(t.columns, ci);
    assert col in t.columns;
    forall v | v in col.cells && v.Dict? ensures Depth(v) <= m {
      var k :| 0 <= k < |col.cells| && col.cells[k] == v;
      assert HasDict(col.cells);
    }
    KeyColumnsBelow(col.name, col.cells, m);
    forall c | c in u.columns ensures DictPassReady(c, pending[1..], listCols, m) {
      if c in Drop(t.columns, ci) {
        assert c in t.columns && c.name != pending[0];
        assert c.name in pending ==> c.name in pending[1..];
      }
    }
  }

  /** The columns made from flattened dictionaries at most `m` deep hold cells
      shallower than `m`. */
  lemma {:induction false} KeyColumnsBelow(name: string, cells: seq<Value>, m: nat)
    requires m >= 1
    requires forall v :: v in cells && v.Dict? ==> Depth(v) <= m
    ensures forall c :: c in Transformer.KeyColumns(name, Transformer.FlattenRows(cells)) ==> Below(c, m)
  {
    var rows := Transformer.FlattenRows(cells);
    var keys := Transformer.UnionKeys(rows);
    var added := Transformer.KeyColumns(name, rows);
    forall c | c in added ensures Below(c, m) {
      var j :| 0 <= j < |added| && added[j] == c;
      assert c == Transformer.KeyColumn(name, keys[j], rows);
      forall v | v in c.cells ensures Depth(v) < m {
        var i :| 0 <= i < |c.cells| && c.cells[i] == v;
        KeyCellBelow(cells, keys[j], i, m);
      }
    }
  }

  /** Row `i`'s value for a key of the flattened rows is shallower than `m`. */
  lemma {:induction false} KeyCellBelow(cells: seq<Value>, k: string, i: nat, m: nat)
    requires m >= 1 && i < |cells|
    requires forall v :: v in cells && v.Dict? ==> Depth(v) <= m
    ensures Depth(Transformer.Lookup(Transformer.FlattenRows(cells)[i], k).GetOr(Null)) < m
  {
    var row := Transformer.FlattenRows(cells)[i];
    var found := Transformer.Lookup(row, k);
    if found.Some? {
      assert cells[i].Dict? by {
        assert row == (if cells[i].Dict? then Transformer.FlattenDict(cells[i].entries, "") else []);
      }
      assert cells[i] in cells;
      Transformer.FlattenShallower(cells[i].entries, "");
      assert Entry(k, found.value) in Transformer.FlattenDict(cells[i].entries, "");
    }
  }

  lemma {:induction false} DictPassKeepsReady(t: Table, pending: seq<string>, listCols: seq<string>, m: nat)
    requires WellFormed(t) && m >= 1
    requires forall c :: c in t.columns ==> DictPassReady(c, pending, listCols, m)
    requires DictPass(t, pending).Success?
    ensures forall c :: c in DictPass(t, pending).value.columns ==> DictPassReady(c, [], listCols, m)
    decreases pending
  {
    if |pending| > 0 {
      NormalizeStep(t, pending, listCols, m);
      DictPassKeepsReady(NormalizeColumn(t, pending[0]).value, pending[1..], listCols, m);
    }
  }

  /** Exploding one column: the exploded column becomes shallower than `m`,
      the others repeat their cells. */
  lemma {:induction false} ExplodeStep(t: Table, pending: seq<string>, m: nat)
    requires WellFormed(t) && m >= 1 && |pending| > 0
    requires forall c :: c in t.columns ==> ListPassReady(c, pending, m)
    requires ExplodeColumn(t, pending[0]).Success?
    ensures forall c :: c in ExplodeColumn(t, pending[0]).value.columns ==> ListPassReady(c, pending[1..], m)
  {
    var ci := IndexOf(t.columns, pending[0]).value;
    var keys := t.columns[ci].cells;
    var u := Transformer.ExplodeAt(t, ci);
    assert ExplodeColumn(t, pending[0]).value == u;
    forall c | c in u.columns ensures ListPassReady(c, pending[1..], m) {
      var j :| 0 <= j < |u.columns| && u.columns[j] == c;
      var before := t.columns[j];
      assert before in t.columns;
      assert c == Column(before.name, Transformer.ExplodeCells(keys, before.cells, j == ci));
      if j == ci {
        ExplodedColumnBelow(before, pending, m);
      } else {
        assert before.name != pending[0];
        RepeatedColumnReady(before, keys, pending, m);
      }
    }
  }

  /** The exploded column itself ends up strictly below `m`. */
  lemma {:induction false} ExplodedColumnBelow(before: Column, pending: seq<string>, m: nat)
    requires m >= 1 && |pending| > 0 && before.name == pending[0]
    requires ListPassReady(before, pending, m)
    ensures Below(Column(before.name, Transformer.ExplodeCells(before.cells, before.cells, true)), m)
  {
    var keys := before.cells;
    assert before.name in pending;
    forall v | v in keys ensures Depth(v) < m || (Depth(v) <= m && !v.Dict?) {
      if !Below(before, m) {
        var k :| 0 <= k < |keys| && keys[k] == v;
      }
    }
    PiecesBelow(keys, keys, m);
  }

  /** A column that only repeats its cells keeps its readiness, one name
      fewer pending. */
  lemma {:induction false} RepeatedColumnReady(before: Column, keys: seq<Value>, pending: seq<string>, m: nat)
    requires |pending| > 0 && before.name != pending[0] && |keys| == |before.cells|
    requires ListPassReady(before, pending, m)
    ensures ListPassReady(Column(before.name, Transformer.ExplodeCells(keys, before.cells, false)), pending[1..], m)
  {
    var c := Column(before.name, Transformer.ExplodeCells(keys, before.cells, false));
    RepeatedCellsComeFromColumn(keys, before.cells);
    MembersCarry(c.cells, before.cells);
    assert before.name in pending <==> before.name in pending[1..] by {
      assert pending == [pending[0]] + pending[1..];
    }
  }

  lemma {:induction false} ListPassKeepsReady(t: Table, pending: seq<string>, m: nat)
    requires WellFormed(t) && m >= 1
    requires forall c :: c in t.columns ==> ListPassReady(c, pending, m)
    requires ListPass(t, pending).Success?
    ensures forall c :: c in ListPass(t, pending).value.columns ==> ListPassReady(c, [], m)
    decreases pending
  {
    if |pending| > 0 {
      ExplodeStep(t, pending, m);
      ListPassKeepsReady(ExplodeColumn(t, pending[0]).value, pending[1..], m);
    }
  }

  /** Before a round every column is ready for the dictionary pass, with the
      measure as bound, and the measure is positive. */
  lemma {:induction false} InitiallyReady(t: Table)
    requires WellFormed(t)
    requires |DictColumns(t.columns)| > 0 || |ListColumns(t.columns)| > 0
    ensures Measure(t.columns) >= 1
    ensures forall c :: c in t.columns ==> DictPassReady(c, DictColumns(t.columns), ListColumns(t.columns), Measure(t.columns))
  {
    var dictCols := DictColumns(t.columns);
    var listCols := ListColumns(t.columns);
    var m := Measure(t.columns);
    NothingPendingIsSettled(t);
    var j0 :| 0 <= j0 < |t.columns| && Active(t.columns[j0]);
    MeasurePositive(t.columns, j0);
    forall c | c in t.columns ensures DictPassReady(c, dictCols, listCols, m) {
      var j :| 0 <= j < |t.columns| && t.columns[j] == c;
      if Active(c) {
        MeasureBounds(t.columns, j);
      }
    }
  }

  /** One round of the loop that does not fail lowers the measure. */
  lemma {:induction false} PassLowersMeasure(t: Table, t1: Table, t2: Table)
    requires WellFormed(t)
    requires |DictColumns(t.columns)| > 0 || |ListColumns(t.columns)| > 0
    requires DictPass(t, DictColumns(t.columns)) == Success(t1)
    requires ListPass(t1, ListColumns(t.columns)) == Success(t2)
    ensures Measure(t2.columns) < Measure(t.columns)
  {
    var dictCols := DictColumns(t.columns);
    var listCols := ListColumns(t.columns);
    var m := Measure(t.columns);
    InitiallyReady(t);
    DictPassKeepsReady(t, dictCols, listCols, m);
    ListPassKeepsReady(t1, listCols, m);
    MeasureBelow(t2.columns, m);
  }

  // ---------------------------------------------------------------------------
  // What the passes do

  /** The loader explodes a column exactly as `explode_list_column` does: the
      latter's guard only skips columns that exploding would leave unchanged. */
  lemma {:induction false} ExplodeMatchesTransformer(t: Table, name: string)
    requires WellFormed(t)
    ensures ExplodeColumn(t, name) == Transformer.ExplodeListColumn(t, name)
  {
    match IndexOf(t.columns, name)
    case None =>
    case Some(ci) =>
      if !HasListLike(t.columns[ci].cells) {
        Transformer.ExplodeWithoutListLikeIsIdentity(t, ci);
      }
  }

  /** On cells that are no longer text, normalising a dictionary column is what
      `parse_and_flatten_column` does to it. */
  lemma {:induction false} NormalizeMatchesTransformer(p: Parsers, t: Table, name: string, ci: nat)
    requires WellFormed(t) && IndexOf(t.columns, name) == Some(ci)
    requires HasDict(t.columns[ci].cells)
    requires forall i :: 0 <= i < t.rows ==> !t.columns[ci].cells[i].Str?
    ensures NormalizeColumn(t, name) == Transformer.ParseAndFlattenColumn(p, t, name)
  {
    assert Transformer.ParseCells(p, t.columns[ci].cells) == t.columns[ci].cells;
  }

  /** After the dictionary pass every column is either a column of the input
      not listed in the pass, unchanged, or a new column named
      `<listed column>.<flattened key>`; every input column not listed survives. */
  lemma {:induction false} DictPassShape(t: Table, pending: seq<string>)
    requires WellFormed(t) && DictPass(t, pending).Success?
    ensures forall c :: c in DictPass(t, pending).value.columns ==>
      (c in t.columns && c.name !in pending) || exists d, k :: d in pending && c.name == Prefixed(d, k)
    ensures forall c :: c in t.columns && c.name !in pending ==> c in DictPass(t, pending).value.columns
    decreases pending
  {
    if |pending| > 0 {
      var ci := IndexOf(t.columns, pending[0]).value;
      var col := t.columns[ci];
      var rows := FlattenRows(col.cells);
      var t1 := NormalizeColumn(t, pending[0]).value;
      var added := KeyColumns(col.name, rows);
      assert t1.columns == Drop(t.columns, ci) + added;
      DictPassShape(t1, pending[1..]);
      DropKeepsOthers(t.columns, ci);
      var u := DictPass(t, pending).value;
      assert u == DictPass(t1, pending[1..]).value;
      forall c | c in u.columns
        ensures (c in t.columns && c.name !in pending) || exists d, k :: d in pending && c.name == Prefixed(d, k)
      {
        if c in t1.columns && c.name !in pending[1..] {
          if c in added {
            var i :| 0 <= i < |added| && added[i] == c;
            assert c.name == Prefixed(pending[0], UnionKeys(rows)[i]);
          } else {
            assert c in Drop(t.columns, ci);
          }
        } else {
          var d, k :| d in pending[1..] && c.name == Prefixed(d, k);
          assert d in pending;
        }
      }
      forall c | c in t.columns && c.name !in pending ensures c in u.columns {
        var j :| 0 <= j < |t.columns| && t.columns[j] == c;
        assert j != ci;
        if j < ci {
          assert Drop(t.columns, ci)[j] == c;
        } else {
          assert Drop(t.columns, ci)[j - 1] == c;
        }
        assert c in t1.columns;
      }
    }
  }

  /** Exploding keeps the column names, so a name missing before the list
      pass is still missing when its turn comes. */
  lemma {:induction false} ListPassMissingFails(t: Table, pending: seq<string>, name: string)
    requires WellFormed(t) && name in pending && name !in Names(t.columns)
    ensures ListPass(t, pending).Failure? && ListPass(t, pending).error.KeyError?
    decreases pending
  {
    if pending[0] != name {
      match ExplodeColumn(t, pending[0])
      case Failure(e) =>
      case Success(t1) =>
        ListPassMissingFails(t1, pending[1..], name);
    }
  }

  /** A column holding both dictionaries and lists is dropped by the
      dictionary pass and then cannot be exploded: `df.explode` raises a
      KeyError. This holds unless a dictionary pass creates a column of the
      same name, which needs some column name followed by a dot to begin it. */
  lemma {:induction false} DictAndListColumnFails(t: Table, j: nat)
    requires WellFormed(t) && j < |t.columns|
    requires HasDict(t.columns[j].cells) && HasList(t.columns[j].cells)
    requires forall i :: 0 <= i < |t.columns| ==> !(t.columns[i].name + "." <= t.columns[j].name)
    ensures FlattenNestedJson(t).Failure?
  {
    var name := t.columns[j].name;
    var dictCols := DictColumns(t.columns);
    var listCols := ListColumns(t.columns);
    assert name in dictCols && name in listCols;
    match DictPass(t, dictCols)
    case Failure(e) =>
    case Success(t1) =>
      DictPassShape(t, dictCols);
      forall c | c in t1.columns ensures c.name != name {
        if !(c in t.columns && c.name !in dictCols) {
          var d, k :| d in dictCols && c.name == Prefixed(d, k);
          var i :| 0 <= i < |t.columns| && t.columns[i].name == d && HasDict(t.columns[i].cells);
          assert d + "." <= c.name;
        }
      }
      assert name !in Names(t1.columns);
      ListPassMissingFails(t1, listCols, name);
  }

  /** A cell with two or more members adds rows when exploded. */
  lemma {:induction false} TotalRowsGrows(keys: seq<Value>, i: nat)
    requires i < |keys| && Multiplicity(keys[i]) >= 2
    ensures TotalRows(keys) > |keys|
  {
    TotalRowsAtLeast(keys[1..]);
    if i > 0 {
      assert keys[1..][i - 1] == keys[i];
      TotalRowsGrows(keys[1..], i - 1);
    }
  }

  lemma {:induction false} TotalRowsAtLeast(keys: seq<Value>)
    ensures TotalRows(keys) >= |keys|
  {
    if |keys| > 0 {
      TotalRowsAtLeast(keys[1..]);
    }
  }

  /** The loader only explodes lists: a table whose containers are all tuples
      comes back unchanged, while `explode_list_column` expands the same tuples
      into rows. */
  lemma {:induction false} TuplesAreLeftAlone(t: Table, ci: nat, i: nat)
    requires WellFormed(t) && Settled(t) && ci < |t.columns| && i < t.rows
    requires t.columns[ci].cells[i].Tuple? && |t.columns[ci].cells[i].items| >= 2
    ensures FlattenNestedJson(t) == Success(t)
    ensures ExplodeListColumn(t, t.columns[ci].name).Success?
    ensures ExplodeListColumn(t, t.columns[ci].name).value.rows > t.rows
  {
    var name := t.columns[ci].name;
    assert IndexOf(t.columns, name) == Some(ci);
    assert HasListLike(t.columns[ci].cells);
    TotalRowsGrows(t.columns[ci].cells, i);
  }

  /** Exploding `[[1, 2], 5, []]` gives the rows 1, 2, 5 and null, each
      carrying its original row's other cells. */
  lemma {:induction false} ExplodeExample()
    ensures ExplodeColumn(
        Table(3, [Column("id", [Int(1), Int(2), Int(3)]), Column("tags", [List([Int(1), Int(2)]), Int(5), List([])])]),
        "tags")
      == Success(Table(4, [Column("id", [Int(1), Int(1), Int(2), Int(3)]), Column("tags", [Int(1), Int(2), Int(5), Null])]))
  {
    var keys := [List([Int(1), Int(2)]), Int(5), List([])];
    assert keys[1..] == [Int(5), List([])];
    assert keys[1..][1..] == [List([])];
    assert TotalRows(keys) == 4;
    var ids := [Int(1), Int(2), Int(3)];
    assert ids[1..] == [Int(2), Int(3)];
    assert ids[1..][1..] == [Int(3)];
    assert ExplodeCells(keys, ids, false) == [Int(1), Int(1), Int(2), Int(3)];
    assert ExplodeCells(keys, keys, true) == [Int(1), Int(2), Int(5), Null];
    var t := Table(3, [Column("id", ids), Column("tags", keys)]);
    assert IndexOf(t.columns, "tags") == Some(1);
    var u := ExplodeAt(t, 1);
    assert u.columns[0] == Column("id", [Int(1), Int(1), Int(2), Int(3)]);
    assert u.columns[1] == Column("tags", [Int(1), Int(2), Int(5), Null]);
    assert u.columns == [u.columns[0], u.columns[1]];
  }
}
