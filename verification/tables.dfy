/** Tables: an ordered sequence of named columns over a contiguous row range
0..rows-1. Operations that pandas would abort with an exception return a
`Failure` instead. */
module Tables {
  import opened Values

  datatype Column = Column(name: string, cells: seq<Value>)

  /** `rows` is kept apart from the columns so that a table whose last column
      was dropped still has its row range, as a pandas frame keeps its index. */
  datatype Table = Table(rows: nat, columns: seq<Column>)

  /** The exceptions the reshaping operations can raise. */
  datatype TableError =
    | KeyError(column: string)              // `df[col]` or `df.explode(col)` on a missing column
    | ColumnOverlap(columns: set<string>)   // `DataFrame.join` when new names clash with existing ones

  datatype Result<+T> = Success(value: T) | Failure(error: TableError)

  predicate DistinctNames(cols: seq<Column>) {
    forall i, j :: 0 <= i < j < |cols| ==> cols[i].name != cols[j].name
  }

  /** Every column spans the table's rows and no two columns share a name. */
  predicate WellFormed(t: Table) {
    && (forall j :: 0 <= j < |t.columns| ==> |t.columns[j].cells| == t.rows)
    && DistinctNames(t.columns)
  }

  function Names(cols: seq<Column>): (r: seq<string>)
    ensures |r| == |cols|
    ensures forall j :: 0 <= j < |cols| ==> r[j] == cols[j].name
  {
    if |cols| == 0 then [] else [cols[0].name] + Names(cols[1..])
  }

  /** Position of the column called `name`, as `df[name]` finds it. */
  function IndexOf(cols: seq<Column>, name: string): (r: Option<nat>)
    ensures r.Some? ==> r.value < |cols| && cols[r.value].name == name
    ensures r.None? <==> forall j :: 0 <= j < |cols| ==> cols[j].name != name
  {
    if |cols| == 0 then None
    else if cols[0].name == name then Some(0)
    else
      match IndexOf(cols[1..], name)
      case None => None
      case Some(k) => Some(k + 1)
  }

  /** `df.drop(columns=[cols[ci].name])` */
  function Drop(cols: seq<Column>, ci: nat): (r: seq<Column>)
    requires ci < |cols|
    ensures |r| + 1 == |cols|
    ensures forall j :: 0 <= j < ci ==> r[j] == cols[j]
    ensures forall j :: ci <= j < |r| ==> r[j] == cols[j + 1]
  {
    cols[..ci] + cols[ci + 1..]
  }

  /** Every column left after a drop was a column before it. */
  lemma {:induction false} DropKeepsOthers(cols: seq<Column>, ci: nat)
    requires ci < |cols|
    ensures forall c :: c in Drop(cols, ci) ==> c in cols
    ensures DistinctNames(cols) ==> DistinctNames(Drop(cols, ci))
    ensures DistinctNames(cols) ==> forall c :: c in Drop(cols, ci) ==> c.name != cols[ci].name
  {
    var r := Drop(cols, ci);
    forall c | c in r ensures c in cols {
      var j :| 0 <= j < |r| && r[j] == c;
      if j < ci { assert cols[j] == c; } else { assert cols[j + 1] == c; }
    }
    if DistinctNames(cols) {
      forall i, j | 0 <= i < j < |r| ensures r[i].name != r[j].name {
        var i' := if i < ci then i else i + 1;
        var j' := if j < ci then j else j + 1;
        assert r[i] == cols[i'] && r[j] == cols[j'];
      }
      forall c | c in r ensures c.name != cols[ci].name {
        var j :| 0 <= j < |r| && r[j] == c;
        var j' := if j < ci then j else j + 1;
        assert r[j] == cols[j'] && j' != ci;
      }
    }
  }

  /** Some cell is a dictionary. */
  predicate HasDict(cells: seq<Value>) {
    exists k :: 0 <= k < |cells| && cells[k].Dict?
  }

  /** Some cell is a list (tuples excluded). */
  predicate HasList(cells: seq<Value>) {
    exists k :: 0 <= k < |cells| && cells[k].List?
  }

  /** Some cell is a list or a tuple. */
  predicate HasListLike(cells: seq<Value>) {
    exists k :: 0 <= k < |cells| && IsListLike(cells[k])
  }

  lemma {:induction false} AppendDistinctNames(a: seq<Column>, b: seq<Column>)
    requires DistinctNames(a) && DistinctNames(b)
    requires forall c :: c in b ==> c.name !in Names(a)
    ensures DistinctNames(a + b)
  {
    var cols := a + b;
    forall i, j | 0 <= i < j < |cols| ensures cols[i].name != cols[j].name {
      if j < |a| {
        assert cols[i] == a[i] && cols[j] == a[j];
      } else if i < |a| {
        assert cols[j] == b[j - |a|] && cols[j] in b;
        assert cols[i].name == Names(a)[i];
      } else {
        assert cols[i] == b[i - |a|] && cols[j] == b[j - |a|];
      }
    }
  }
}
