/** Price-component membership (views/hamtfrekvens_prisdel.py): a per-row
    rule. A row passes when its normalised collection frequency occurs inside
    its normalised price-component text. The report lists the failing rows
    under four identifying columns, found by case-insensitive name, followed by
    the frequency, the price component and the reason. */
module Prisdel {
  import opened Wrappers
  import opened Strings
  import opened Seqs
  import opened Sheet

  const Required: set<string> :=
    {"Affärsenhet", "Kundnummer", "Avtalsnummer", "Flexplatsadress",
     "Flextjänst", "Hämtfrekvens", "Prisdel", "Status flextjänst"}

  /** The identifying columns the report wants, in report order. */
  const Wanted: seq<string> := ["Affärsenhet", "Kundnummer", "Avtalsnummer", "Flexplatsadress"]

  /** The columns that follow the identifiers in the report. */
  const Trailer: seq<string> := ["Hämtfrekvens", "Prisdel", "Orsak"]

  function Reason(hamt: Cell): string {
    "Hämtfrekvens '" + Str(hamt) + "' finns inte i prisdelen på avtalet"
  }

  /** `check_and_reason`: whether the row passes, and the reason when it does not. */
  function CheckAndReason(hamt: Cell, pris: Cell): (r: (bool, string))
    ensures r.0 <==> Contains(NormText(Str(pris)), NormText(Str(hamt)))
    ensures r.0 ==> r.1 == ""
    ensures !r.0 ==> r.1 == Reason(hamt)
  {
    if Contains(NormText(Str(pris)), NormText(Str(hamt))) then (true, "")
    else (false, Reason(hamt))
  }

  /** A frequency that is empty after stripping passes whatever the price
      component says, since the empty text occurs in every text. */
  lemma EmptyFrequencyPasses(hamt: Cell, pris: Cell)
    requires Trim(Str(hamt)) == ""
    ensures CheckAndReason(hamt, pris) == (true, "")
  {
    assert NormText(Str(hamt)) == "";
  }

  /** A missing frequency is read as the text "nan": it is judged, and
      quoted in the reason, exactly as that text would be, so it fails unless
      the price component happens to contain "nan". */
  lemma MissingFrequencyReadsNan(pris: Cell)
    ensures CheckAndReason(Blank, pris) == CheckAndReason(Text("nan"), pris)
  {
  }

  /** A row passes exactly when its normalised frequency occurs, at some
      position, in its normalised price component. */
  lemma PassesIffOccurs(hamt: Cell, pris: Cell)
    ensures CheckAndReason(hamt, pris).0 <==>
              exists i: nat :: OccursAt(NormText(Str(pris)), NormText(Str(hamt)), i)
  {
    ContainsIff(NormText(Str(pris)), NormText(Str(hamt)));
  }

  /** A failing row and its reason; the report shows a projection of it. */
  datatype Record = Record(row: Row, orsak: string)

  function RowCheck(row: Row): (r: Option<Record>)
    ensures r.Some? <==> !CheckAndReason(Get(row, "Hämtfrekvens"), Get(row, "Prisdel")).0
    ensures r.Some? ==> r.value == Record(row, Reason(Get(row, "Hämtfrekvens")))
  {
    var (ok, reason) := CheckAndReason(Get(row, "Hämtfrekvens"), Get(row, "Prisdel"));
    if ok then None else Some(Record(row, reason))
  }

  /** A column name matches a wanted name when its stripped, lower-cased form
      is the wanted name lower-cased. */
  predicate Matches(col: string, wanted: string) {
    NormText(col) == LowerStr(wanted)
  }

  /** The position of the first column that matches `wanted`, if any. */
  function FindColumn(cols: seq<string>, wanted: string): (r: Option<nat>)
    ensures r.Some? ==> r.value < |cols| && Matches(cols[r.value], wanted)
    ensures r.Some? ==> forall j :: 0 <= j < r.value ==> !Matches(cols[j], wanted)
    ensures r.None? ==> forall i :: 0 <= i < |cols| ==> !Matches(cols[i], wanted)
  {
    FirstIndex(cols, c => Matches(c, wanted))
  }

  /** A name without white space at either end matches itself. */
  lemma SelfMatches(w: string)
    requires |w| > 0 ==> !IsSpace(w[0]) && !IsSpace(w[|w| - 1])
    ensures Matches(w, w)
  {
    TrimOfTrimmed(w);
  }

  /** The first column matching a wanted name, if any. */
  function ColumnFor(cols: seq<string>, w: string): (r: Option<string>)
    ensures r.None? <==> FindColumn(cols, w).None?
    ensures r.Some? ==> r.value == cols[FindColumn(cols, w).value] && Matches(r.value, w)
  {
    match FindColumn(cols, w)
    case Some(k) => Some(cols[k])
    case None => None
  }

  function ColumnLookup(cols: seq<string>): string -> Option<string> {
    w => ColumnFor(cols, w)
  }

  /** The identifying columns: for each wanted name in turn, at most one column. */
  function IdentColumns(cols: seq<string>, wanted: seq<string>): (r: seq<string>)
    ensures |r| <= |wanted|
  {
    Collect(wanted, ColumnLookup(cols))
  }

  /** The report's columns: the identifiers, or the first three columns of the
      table when none is found, then frequency, price component and reason. */
  function OutputColumns(cols: seq<string>): seq<string> {
    var ident := IdentColumns(cols, Wanted);
    (if |ident| == 0 then cols[..if |cols| < 3 then |cols| else 3] else ident) + Trailer
  }

  /** A wanted name present verbatim is always found, so every wanted name
      yields exactly one column, and that column matches it. */
  lemma IdentifiersFound(cols: seq<string>, wanted: seq<string>)
    requires forall i :: 0 <= i < |wanted| ==> wanted[i] in cols
    requires forall i :: 0 <= i < |wanted| ==> |wanted[i]| > 0 ==> !IsSpace(wanted[i][0]) && !IsSpace(wanted[i][|wanted[i]| - 1])
    ensures |IdentColumns(cols, wanted)| == |wanted|
    ensures forall i :: 0 <= i < |wanted| ==> Matches(IdentColumns(cols, wanted)[i], wanted[i])
  {
    forall i | 0 <= i < |wanted|
      ensures ColumnLookup(cols)(wanted[i]).Some?
    {
      FoundWhenPresent(cols, wanted[i]);
    }
    CollectAll(wanted, ColumnLookup(cols));
  }

  /** A wanted name present verbatim among the columns is found. */
  lemma FoundWhenPresent(cols: seq<string>, w: string)
    requires w in cols && (|w| > 0 ==> !IsSpace(w[0]) && !IsSpace(w[|w| - 1]))
    ensures FindColumn(cols, w).Some?
  {
    var k :| 0 <= k < |cols| && cols[k] == w;
    SelfMatches(w);
  }

  /** Once the required columns are present the fallback to the first three
      columns cannot happen: the report has exactly the four identifiers. */
  lemma FallbackUnreachable(t: Table)
    requires Required <= ColumnSet(t)
    ensures |IdentColumns(t.columns, Wanted)| == 4
    ensures forall i :: 0 <= i < 4 ==> Matches(IdentColumns(t.columns, Wanted)[i], Wanted[i])
    ensures OutputColumns(t.columns) == IdentColumns(t.columns, Wanted) + Trailer
  {
    assert forall i :: 0 <= i < |Wanted| ==> Wanted[i] in Required;
    WantedEdges();
    IdentifiersFound(t.columns, Wanted);
  }

  /** The wanted names have no white space at either end. */
  lemma WantedEdges()
    ensures forall i :: 0 <= i < |Wanted| ==> |Wanted[i]| > 0 && !IsSpace(Wanted[i][0]) && !IsSpace(Wanted[i][|Wanted[i]| - 1])
  {
  }

  /** One output line: the record's cells under the report's columns. */
  function Project(rec: Record, cols: seq<string>): (line: seq<Cell>)
    ensures |line| == |cols|
    ensures forall i :: 0 <= i < |cols| && cols[i] == "Orsak" ==> line[i] == Text(rec.orsak)
    ensures forall i :: 0 <= i < |cols| && cols[i] != "Orsak" ==> line[i] == Get(rec.row, cols[i])
  {
    seq(|cols|, i requires 0 <= i < |cols| => if cols[i] == "Orsak" then Text(rec.orsak) else Get(rec.row, cols[i]))
  }

  datatype Report = Report(columns: seq<string>, records: seq<Record>)

  /** `process_prisdel`: the missing required columns, or the failing rows in
      row order under the report's columns. */
  function Process(t: Table): (r: Result<Report, Fault>)
    ensures r.Failure? <==> !(Required <= ColumnSet(t))
    ensures r.Failure? ==> r.error == MissingColumns(Missing(Required, t))
    ensures r.Success? ==> r.value.columns == IdentColumns(t.columns, Wanted) + Trailer
                           && |IdentColumns(t.columns, Wanted)| == 4
    ensures r.Success? ==> |r.value.records| == CountSome(t.rows, RowCheck)
    ensures r.Success? ==> forall rec :: rec in r.value.records <==>
              exists i :: 0 <= i < |t.rows| && RowCheck(t.rows[i]) == Some(rec)
  {
    var missing := Missing(Required, t);
    if missing != {} then Failure(MissingColumns(missing))
    else
      FallbackUnreachable(t);
      CollectSpec(t.rows, RowCheck);
      Success(Report(OutputColumns(t.columns), Collect(t.rows, RowCheck)))
  }

  /** Each report line shows, under the four identifier columns, the failing
      row's identifying values, then its frequency, its price component and
      the reason naming the frequency. */
  lemma ReportLine(t: Table, rec: Record)
    requires Process(t).Success? && rec in Process(t).value.records
    ensures |Project(rec, Process(t).value.columns)| == 7
    ensures forall i :: 0 <= i < 4 ==>
              Matches(Process(t).value.columns[i], Wanted[i])
              && Project(rec, Process(t).value.columns)[i] == Get(rec.row, Process(t).value.columns[i])
    ensures Project(rec, Process(t).value.columns)[4] == Get(rec.row, "Hämtfrekvens")
    ensures Project(rec, Process(t).value.columns)[5] == Get(rec.row, "Prisdel")
    ensures Project(rec, Process(t).value.columns)[6] == Text(Reason(Get(rec.row, "Hämtfrekvens")))
  {
    FallbackUnreachable(t);
    ProjectLine(rec, IdentColumns(t.columns, Wanted));
    var i :| 0 <= i < |t.rows| && RowCheck(t.rows[i]) == Some(rec);
  }

  /** Projecting a record onto four identifier columns and the trailer. */
  lemma ProjectLine(rec: Record, ident: seq<string>)
    requires |ident| == 4 && forall i :: 0 <= i < 4 ==> Matches(ident[i], Wanted[i])
    ensures |Project(rec, ident + Trailer)| == 7
    ensures forall i :: 0 <= i < 4 ==> Project(rec, ident + Trailer)[i] == Get(rec.row, ident[i])
    ensures Project(rec, ident + Trailer)[4] == Get(rec.row, "Hämtfrekvens")
    ensures Project(rec, ident + Trailer)[5] == Get(rec.row, "Prisdel")
    ensures Project(rec, ident + Trailer)[6] == Text(rec.orsak)
  {
    IdentifiersNotReason();
    var cols := ident + Trailer;
    assert forall i :: 0 <= i < 4 ==> cols[i] == ident[i] && cols[i] != "Orsak";
    assert cols[4] == "Hämtfrekvens" && cols[5] == "Prisdel" && cols[6] == "Orsak";
  }

  /** A name without white space at either end normalises to a text that
      starts with its first letter lowered. */
  lemma NormalFirst(w: string)
    requires |w| > 0 && !IsSpace(w[0]) && !IsSpace(w[|w| - 1])
    ensures |NormText(w)| > 0 && NormText(w)[0] == Lower(w[0])
  {
    TrimOfTrimmed(w);
  }

  /** No identifier column is called "Orsak": none matches a wanted name. */
  lemma IdentifiersNotReason()
    ensures forall i :: 0 <= i < |Wanted| ==> !Matches("Orsak", Wanted[i])
  {
    NormalFirst("Orsak");
    forall i | 0 <= i < |Wanted|
      ensures LowerStr(Wanted[i])[0] != 'o'
    {
      assert Wanted[i][0] in {'A', 'K', 'F'};
      assert LowerStr(Wanted[i])[0] == Lower(Wanted[i][0]);
    }
  }

  /** Splitting the table splits the report: the failing rows of the first
      rows come first, so the report keeps row order. */
  lemma ProcessKeepsRowOrder(cols: seq<string>, a: seq<Row>, b: seq<Row>)
    requires Required <= ColumnSet(Table(cols, a + b))
    ensures Process(Table(cols, a)).Success? && Process(Table(cols, b)).Success?
    ensures Process(Table(cols, a + b)).value.records ==
              Process(Table(cols, a)).value.records + Process(Table(cols, b)).value.records
  {
    CollectAppend(a, b, RowCheck);
  }
}
