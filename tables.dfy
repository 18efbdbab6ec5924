/**
 * The dataframe the application works on: a row count and a sequence of named,
 * typed columns, each holding one optional value per row (None is a missing
 * entry, what pandas shows as NaN/None).
 */
module Tables {
  import opened Wrappers

  /** A cell value.  Numbers are exact reals; text stays text. */
  datatype Value = Num(x: real) | Text(s: string)

  /**
   * The column dtype as the cleaning code distinguishes it: float64 and int64
   * (the only dtypes the mean/median fills accept), any other numeric dtype
   * (int32, float32, ...), and everything `select_dtypes(include=[np.number])`
   * leaves out (object, bool, datetime, ...).
   */
  datatype DType = Float64 | Int64 | OtherNumeric | Object

  type Cells = seq<Option<Value>>

  datatype Column = Column(name: string, dtype: DType, cells: Cells)

  datatype Table = Table(rows: nat, columns: seq<Column>)

  predicate IsNumeric(d: DType) {
    d != Object
  }

  /** Every column has one cell per row and no two columns share a name (read_csv de-duplicates headers). */
  predicate WellFormed(t: Table) {
    (forall k :: 0 <= k < |t.columns| ==> |t.columns[k].cells| == t.rows) &&
    (forall k, l :: 0 <= k < l < |t.columns| ==> t.columns[k].name != t.columns[l].name)
  }

  /** `df.columns.tolist()` */
  function Names(t: Table): (ns: seq<string>)
    ensures |ns| == |t.columns|
    ensures forall k :: 0 <= k < |t.columns| ==> ns[k] == t.columns[k].name
  {
    seq(|t.columns|, k requires 0 <= k < |t.columns| => t.columns[k].name)
  }

  /** `df.select_dtypes(include=[np.number]).columns.tolist()`, in column order. */
  function NumericNames(cs: seq<Column>): (ns: seq<string>)
    ensures |ns| <= |cs|
    ensures forall n :: n in ns <==> exists k :: 0 <= k < |cs| && cs[k].name == n && IsNumeric(cs[k].dtype)
    ensures (forall k, l :: 0 <= k < l < |cs| ==> cs[k].name != cs[l].name) ==>
      forall a, b :: 0 <= a < b < |ns| ==> ns[a] != ns[b]
  {
    if cs == [] then []
    else
      var rest := NumericNames(cs[1..]);
      assert forall k :: 0 < k < |cs| ==> cs[k] == cs[1..][k - 1];
      assert (forall k, l :: 0 <= k < l < |cs| ==> cs[k].name != cs[l].name) ==> cs[0].name !in rest by {
        if forall k, l :: 0 <= k < l < |cs| ==> cs[k].name != cs[l].name {
          assert forall k, l :: 0 <= k < l < |cs[1..]| ==> cs[1..][k].name != cs[1..][l].name;
        }
      }
      if IsNumeric(cs[0].dtype) then [cs[0].name] + rest else rest
  }

  /** Two tables have the same column names and dtypes, in the same order. */
  predicate SameSchema(a: Table, b: Table) {
    |a.columns| == |b.columns| &&
    forall k :: 0 <= k < |a.columns| ==>
      a.columns[k].name == b.columns[k].name && a.columns[k].dtype == b.columns[k].dtype
  }

  lemma SameSchemaTransitive(a: Table, b: Table, c: Table)
    requires SameSchema(a, b) && SameSchema(b, c)
    ensures SameSchema(a, c)
  {
  }

  predicate HasMissing(cells: Cells) {
    exists i :: 0 <= i < |cells| && cells[i].None?
  }

  predicate HasPresent(cells: Cells) {
    exists i :: 0 <= i < |cells| && cells[i].Some?
  }

  /** `col in df.columns`, giving the position of the column. */
  function ColumnIndex(cs: seq<Column>, name: string): (k: Option<nat>)
    ensures k.Some? ==> k.value < |cs| && cs[k.value].name == name
    ensures k.None? <==> forall l :: 0 <= l < |cs| ==> cs[l].name != name
  {
    if cs == [] then None
    else if cs[0].name == name then Some(0)
    else
      var k := ColumnIndex(cs[1..], name);
      assert forall l :: 0 < l < |cs| ==> cs[l] == cs[1..][l - 1];
      if k.Some? then Some(k.value + 1) else None
  }
}
