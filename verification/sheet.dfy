/** The table an engine reads: ordered rows, each a mapping from column name
    to a cell that is missing, text, or a number. Also the cell-to-text
    conversions the engines share, the required-column contract, and grouping
    of rows by a key column. */
module Sheet {
  import opened Wrappers
  import opened Strings
  import opened Seqs

  /** One spreadsheet cell as the reader hands it over: `Blank` is pandas' NaN. */
  datatype Cell = Blank | Text(text: string) | Num(num: int)

  type Row = map<string, Cell>

  datatype Table = Table(columns: seq<string>, rows: seq<Row>)

  /** Why an engine run produces no report. */
  datatype Fault =
    | MissingColumns(missing: set<string>)
      /** Door-addon engine: a mixed location has no container row of known
          frequency, so there is no maximum to compare with. */
    | NoContainerMaximum(flexplats: Cell)

  /** A value of a pandas float column. When `Series.apply` yields whole
      numbers mixed with None, pandas stores the column as floats and each
      None as NaN. */
  datatype PyFloat = NaN | Val(v: int)

  /** `a > b` on floats: false whenever NaN takes part. */
  predicate Greater(a: PyFloat, b: PyFloat) {
    a.Val? && b.Val? && a.v > b.v
  }

  /** `row.get(col)`: the cell, missing when the row has no such column. */
  function Get(r: Row, col: string): Cell {
    if col in r then r[col] else Blank
  }

  /** Python's `str(value)`; a missing value prints as "nan". */
  function Str(c: Cell): string {
    match c
    case Blank => "nan"
    case Text(s) => s
    case Num(n) => IntToString(n)
  }

  /** `pd.isna(x) or str(x).strip() == ""`: missing, or only white space. */
  predicate IsBlank(c: Cell) {
    c.Blank? || Trim(Str(c)) == ""
  }

  /** The engines' `_norm`/`normalize`: "" for a missing value, else
      `str(x).strip().lower()`. */
  function Norm(c: Cell): string {
    if c.Blank? then "" else NormText(Str(c))
  }

  /** A cell normalises to the empty text exactly when it is blank. */
  lemma NormEmptyIff(c: Cell)
    ensures |Norm(c)| == 0 <==> IsBlank(c)
  {
  }

  function ColumnSet(t: Table): set<string> {
    set c | c in t.columns
  }

  /** `required_cols - set(df.columns)`: every required column the table lacks,
      and nothing else. */
  function Missing(required: set<string>, t: Table): (m: set<string>)
    ensures m <= required
    ensures forall c :: c in required ==> (c in m <==> c !in t.columns)
    ensures m == {} <==> required <= ColumnSet(t)
  {
    required - ColumnSet(t)
  }

  /** `df[df[col] == key]`: the rows whose `col` holds `key`, in table order. */
  function Group(rows: seq<Row>, col: string, key: Cell): (g: seq<Row>)
    ensures |g| <= |rows|
    ensures forall r :: r in g ==> r in rows && Get(r, col) == key
  {
    if |rows| == 0 then []
    else (if Get(rows[0], col) == key then [rows[0]] else []) + Group(rows[1..], col, key)
  }

  /** Every row holding the key belongs to its group. */
  lemma {:induction false} GroupComplete(rows: seq<Row>, col: string, key: Cell, i: nat)
    requires i < |rows| && Get(rows[i], col) == key
    ensures rows[i] in Group(rows, col, key)
  {
    if i > 0 {
      GroupComplete(rows[1..], col, key, i - 1);
    }
  }

  /** The first row of a group is the first row of the table holding the key. */
  lemma {:induction false} GroupHeadIsFirst(rows: seq<Row>, col: string, key: Cell)
    requires |Group(rows, col, key)| > 0
    ensures exists i :: 0 <= i < |rows| && rows[i] == Group(rows, col, key)[0]
              && forall j :: 0 <= j < i ==> Get(rows[j], col) != key
  {
    if Get(rows[0], col) != key {
      GroupHeadIsFirst(rows[1..], col, key);
      var i :| 0 <= i < |rows[1..]| && rows[1..][i] == Group(rows[1..], col, key)[0]
               && forall j :: 0 <= j < i ==> Get(rows[1..][j], col) != key;
      assert rows[i + 1] == Group(rows, col, key)[0];
      forall j | 0 <= j < i + 1
        ensures Get(rows[j], col) != key
      {
        if j > 0 {
          assert rows[j] == rows[1..][j - 1];
        }
      }
    }
  }

  /** The distinct non-missing values of a key column: what pandas groups on. */
  function KeySet(rows: seq<Row>, col: string): (ks: set<Cell>)
    ensures Blank !in ks
  {
    if |rows| == 0 then {}
    else (if Get(rows[0], col) != Blank then {Get(rows[0], col)} else {}) + KeySet(rows[1..], col)
  }

  /** A value is a key exactly when it is not missing and some row holds it. */
  lemma {:induction false} KeySetMember(rows: seq<Row>, col: string, k: Cell)
    ensures k in KeySet(rows, col) <==> k != Blank && exists i :: 0 <= i < |rows| && Get(rows[i], col) == k
  {
    if |rows| > 0 {
      KeySetMember(rows[1..], col, k);
      if exists i :: 0 <= i < |rows| && Get(rows[i], col) == k {
        var i :| 0 <= i < |rows| && Get(rows[i], col) == k;
        if i > 0 {
          assert Get(rows[1..][i - 1], col) == k;
        }
      }
      if exists i :: 0 <= i < |rows[1..]| && Get(rows[1..][i], col) == k {
        var i :| 0 <= i < |rows[1..]| && Get(rows[1..][i], col) == k;
        assert Get(rows[i + 1], col) == k;
      }
    }
  }

  /** A key's group is never empty. */
  lemma KeyGroupNonEmpty(rows: seq<Row>, col: string, k: Cell)
    requires k in KeySet(rows, col)
    ensures |Group(rows, col, k)| > 0
  {
    KeySetMember(rows, col, k);
    var i :| 0 <= i < |rows| && Get(rows[i], col) == k;
    GroupComplete(rows, col, k, i);
  }

  /** An order in which the engine visits the groups: every key exactly once.
      pandas fixes it (sorted keys for `groupby`, falling counts for
      `value_counts`); the engines take it as a parameter. */
  predicate IsKeyOrder(order: seq<Cell>, rows: seq<Row>, col: string) {
    && Distinct(order)
    && (set k | k in order) == KeySet(rows, col)
  }

  /** The keys in order of first appearance, given the keys already listed. */
  function KeysFrom(rows: seq<Row>, col: string, seen: seq<Cell>): (order: seq<Cell>)
    requires Distinct(seen)
    ensures Distinct(order)
    ensures forall k :: k in order <==> k in seen || k in KeySet(rows, col)
  {
    if |rows| == 0 then seen
    else
      var k := Get(rows[0], col);
      KeysFrom(rows[1..], col, if k == Blank || k in seen then seen else seen + [k])
  }

  /** One order the engines accept: keys by first appearance. */
  function FirstSeenKeys(rows: seq<Row>, col: string): (order: seq<Cell>)
    ensures IsKeyOrder(order, rows, col)
  {
    KeysFrom(rows, col, [])
  }
}
