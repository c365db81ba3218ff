/** Billing-group policy (views/debiteringsgrupp_check.py): a per-row rule.
    A row whose billing group is on the ignore list passes. Otherwise a SEVAB
    business unit must bill monthly, and an EEM unit must bill as its price
    list demands, when the price list is one the rule knows. Every other row
    passes. */
module Debiteringsgrupp {
  import opened Wrappers
  import opened Strings
  import opened Seqs
  import opened Sheet

  const Required: set<string> :=
    {"Affärsenhet", "Kundnummer", "Avtalsnummer", "Debiteringsgrupp", "Prislista", "Avtalsstatus"}

  /** Billing groups the rule never checks: the normal forms of "Varannan
      månad", "BRI" and "Kvartal". */
  const Ignored: set<string> := {"varannan månad", "bri", "kvartal"}

  /** Normalised EEM price list ("ÅVM Fritidshus", "ÅVM En- och två
      bostadshus") to the billing group it demands, as the report writes it. */
  const EemMap: map<string, string> :=
    map["åvm fritidshus" := "Månad maj-sept", "åvm en- och två bostadshus" := "Månad"]

  /** One deviation: the row's identifying fields and the reason. */
  datatype Record = Record(
    affarsenhet: Cell,
    kundnummer: Cell,
    avtalsnummer: Cell,
    debiteringsgrupp: Cell,
    prislista: Cell,
    avtalsstatus: Cell,
    orsak: string)

  function RecordOf(row: Row, orsak: string): Record {
    Record(Get(row, "Affärsenhet"), Get(row, "Kundnummer"), Get(row, "Avtalsnummer"),
           Get(row, "Debiteringsgrupp"), Get(row, "Prislista"), Get(row, "Avtalsstatus"), orsak)
  }

  function SevabReason(deb: Cell): string {
    "Affärsenhet SEVAB förväntar Debiteringsgrupp 'Månad', hittade '" + Str(deb) + "'"
  }

  function EemReason(pris: Cell, expected: string, deb: Cell): string {
    "Affärsenhet EEM med Prislista '" + Str(pris) + "' förväntar Debiteringsgrupp '"
    + expected + "', hittade '" + Str(deb) + "'"
  }

  /** The rule for one row: a record exactly when the row breaks the policy. */
  function Check(row: Row): (r: Option<Record>)
    ensures r.Some? ==> r.value == RecordOf(row, r.value.orsak)
    // an ignored billing group is never flagged, whatever the unit
    ensures Norm(Get(row, "Debiteringsgrupp")) in Ignored ==> r.None?
    // SEVAB: flagged iff the billing group is not 'månad'
    ensures Norm(Get(row, "Debiteringsgrupp")) !in Ignored
            && StartsWith(Norm(Get(row, "Affärsenhet")), "sevab") ==>
              (r.Some? <==> Norm(Get(row, "Debiteringsgrupp")) != "månad")
    ensures r.Some? && StartsWith(Norm(Get(row, "Affärsenhet")), "sevab") ==>
              r.value.orsak == SevabReason(Get(row, "Debiteringsgrupp"))
    // EEM with a known price list: flagged iff the billing group differs from the mapped one
    ensures Norm(Get(row, "Debiteringsgrupp")) !in Ignored
            && !StartsWith(Norm(Get(row, "Affärsenhet")), "sevab")
            && StartsWith(Norm(Get(row, "Affärsenhet")), "eem")
            && Norm(Get(row, "Prislista")) in EemMap ==>
              (r.Some? <==> Norm(Get(row, "Debiteringsgrupp")) != NormText(EemMap[Norm(Get(row, "Prislista"))]))
    // any other flagged row is an EEM row with a known price list, and its
    // reason quotes the price list, the demanded group and the actual group
    ensures r.Some? && !StartsWith(Norm(Get(row, "Affärsenhet")), "sevab") ==>
              && StartsWith(Norm(Get(row, "Affärsenhet")), "eem")
              && Norm(Get(row, "Prislista")) in EemMap
              && r.value.orsak == EemReason(Get(row, "Prislista"), EemMap[Norm(Get(row, "Prislista"))],
                                            Get(row, "Debiteringsgrupp"))
    // neither prefix, or EEM with an unknown price list: never flagged
    ensures !StartsWith(Norm(Get(row, "Affärsenhet")), "sevab")
            && !(StartsWith(Norm(Get(row, "Affärsenhet")), "eem") && Norm(Get(row, "Prislista")) in EemMap) ==>
              r.None?
  {
    var deb := Get(row, "Debiteringsgrupp");
    var aff := Norm(Get(row, "Affärsenhet"));
    var pris := Norm(Get(row, "Prislista"));
    if Norm(deb) in Ignored then None
    else if StartsWith(aff, "sevab") then
      if Norm(deb) != "månad" then Some(RecordOf(row, SevabReason(deb))) else None
    else if StartsWith(aff, "eem") && pris in EemMap then
      var expected := EemMap[pris];
      if NormText(expected) != Norm(deb) then Some(RecordOf(row, EemReason(Get(row, "Prislista"), expected, deb)))
      else None
    else None
  }

  /** The verdict reads nothing but the normal forms of the business unit,
      the billing group and the price list: two rows that agree on those are
      both flagged or both pass, whatever their case, surrounding white space
      or other columns. */
  lemma VerdictReadsNormalForms(a: Row, b: Row)
    requires Norm(Get(a, "Affärsenhet")) == Norm(Get(b, "Affärsenhet"))
    requires Norm(Get(a, "Debiteringsgrupp")) == Norm(Get(b, "Debiteringsgrupp"))
    requires Norm(Get(a, "Prislista")) == Norm(Get(b, "Prislista"))
    ensures Check(a).Some? <==> Check(b).Some?
  {
  }

  /** `process_debiteringsgrupp`: the missing required columns, or one record
      per flagged row in row order. */
  function Process(t: Table): (r: Result<seq<Record>, Fault>)
    ensures r.Failure? <==> !(Required <= ColumnSet(t))
    ensures r.Failure? ==> r.error == MissingColumns(Missing(Required, t))
    ensures r.Success? ==> |r.value| == CountSome(t.rows, Check)
    ensures r.Success? ==> forall rec :: rec in r.value <==>
              exists i :: 0 <= i < |t.rows| && Check(t.rows[i]) == Some(rec)
  {
    var missing := Missing(Required, t);
    if missing != {} then Failure(MissingColumns(missing))
    else
      CollectSpec(t.rows, Check);
      Success(Collect(t.rows, Check))
  }

  /** Splitting the table splits the report: the records of the first rows
      come first, so records keep row order. */
  lemma ProcessKeepsRowOrder(cols: seq<string>, a: seq<Row>, b: seq<Row>)
    requires Required <= ColumnSet(Table(cols, a + b))
    ensures Process(Table(cols, a)).Success? && Process(Table(cols, b)).Success?
    ensures Process(Table(cols, a + b)).value == Process(Table(cols, a)).value + Process(Table(cols, b)).value
  {
    CollectAppend(a, b, Check);
  }
}
