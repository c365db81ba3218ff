/** Door-addon frequency match (views/dorrtillagg_check.py): a per-location
    rule. Rows are grouped by location (Flexplats). A location with only
    container services passes; one with only door-addon services is reported
    row by row; otherwise every door addon must be collected as often as the
    location's most frequently collected container. */
module Dorrtillagg {
  import opened Wrappers
  import opened Strings
  import opened Seqs
  import opened Sheet

  const Required: set<string> :=
    {"Affärsenhet", "Kundnummer", "Flexplats", "Flexplatsadress",
     "Flextjänst", "Flexgrupp", "Flextyp", "Hämtfrekvens"}

  /** The grouping column. */
  const Key: string := "Flexplats"

  /** `FREQ_MAP`: collections per week, in eighths of a week
      (0.5, 1, 2, 3, 1/4 and 1/8 per week). */
  const FreqMap: map<string, nat> :=
    map["varannan vecka" := 4, "1 gång i veckan" := 8, "2 gånger i veckan" := 16,
        "3 gånger i veckan" := 24, "var 4:e vecka" := 2, "var 8:e vecka" := 1]

  /** `freq_to_num`: the frequency a phrase names, None for any other text;
      `_norm_lower` is `Norm`. */
  function FreqToNum(c: Cell): (r: Option<nat>)
    ensures r.Some? <==> Norm(c) in FreqMap
    ensures r.Some? ==> r.value == FreqMap[Norm(c)]
  {
    var key := Norm(c);
    if key in FreqMap then Some(FreqMap[key]) else None
  }

  /** Every known frequency is one of the six, and a missing value has none. */
  lemma FreqValues(c: Cell)
    ensures FreqToNum(c).Some? ==> FreqToNum(c).value in {1, 2, 4, 8, 16, 24}
    ensures c.Blank? ==> FreqToNum(c).None?
  {
  }

  /** The row's frequency cell. */
  function Freq(row: Row): Cell {
    Get(row, "Hämtfrekvens")
  }

  /** The service kind of a row: its Flexgrupp as text, stripped and
      lower-cased; a missing value reads "nan". */
  function Kind(row: Row): string {
    NormText(Str(Get(row, "Flexgrupp")))
  }

  /** A row together with the two facts the rule reads from it. */
  datatype Line = Line(row: Row, kind: string, freq: Option<nat>)

  /** The lines of a group's rows, in row order. */
  function Lines(g: seq<Row>): (ls: seq<Line>)
    ensures |ls| == |g|
    ensures forall i :: 0 <= i < |g| ==> ls[i] == Line(g[i], Kind(g[i]), FreqToNum(Freq(g[i])))
  {
    seq(|g|, i requires 0 <= i < |g| => Line(g[i], Kind(g[i]), FreqToNum(Freq(g[i]))))
  }

  /** The distinct service kinds of a group. */
  function Kinds(ls: seq<Line>): (ks: set<string>)
    ensures forall k :: k in ks <==> exists i :: 0 <= i < |ls| && ls[i].kind == k
  {
    set i | 0 <= i < |ls| :: ls[i].kind
  }

  const OnlyAddonReason: string := "Endast flextjänst för dörrtillägg finns på flexplatsen"

  function MismatchReason(freq: Cell, expected: Cell): string {
    "Dörrilläggets hämtfrekvens '" + Str(freq) + "' avviker från kärlens tätaste '" + Str(expected) + "'"
  }

  /** One reported addon row. `densest` is the container frequency it was
      compared with; it is absent for a location with addons only. */
  datatype Record = Record(
    affarsenhet: Cell,
    kundnummer: Cell,
    flexplats: Cell,
    flexplatsadress: Cell,
    flextjanst: Cell,
    flextyp: Cell,
    hamtfrekvens: Cell,
    densest: Option<Cell>,
    orsak: string)

  /** The record of a row, given what it was compared with and why it is reported. */
  function RecordOf(row: Row, densest: Option<Cell>, orsak: string): Record {
    Record(Get(row, "Affärsenhet"), Get(row, "Kundnummer"), Get(row, "Flexplats"),
           Get(row, "Flexplatsadress"), Get(row, "Flextjänst"), Get(row, "Flextyp"),
           Freq(row), densest, orsak)
  }

  /** The lines of a group whose kind is `kind`, in group order. */
  function OfKind(ls: seq<Line>, kind: string): (r: seq<Line>)
    ensures forall i :: 0 <= i < |r| ==> r[i] in ls && r[i].kind == kind
    ensures forall i :: 0 <= i < |ls| && ls[i].kind == kind ==> ls[i] in r
  {
    Filter(ls, (l: Line) => l.kind == kind)
  }

  /** The addon lines: those spelled "tillägg", or those spelled "tillagg"
      when the group has none of the first. */
  function Addons(ls: seq<Line>): (r: seq<Line>)
    ensures "tillägg" in Kinds(ls) ==> r == OfKind(ls, "tillägg")
    ensures "tillägg" !in Kinds(ls) ==> r == OfKind(ls, "tillagg")
  {
    var t := OfKind(ls, "tillägg");
    if |t| > 0 then
      assert "tillägg" in Kinds(ls) by {
        var j :| 0 <= j < |ls| && ls[j] == t[0];
      }
      t
    else
      assert forall i :: 0 <= i < |ls| ==> (ls[i].kind == "tillägg" ==> ls[i] in t);
      OfKind(ls, "tillagg")
  }

  /** The known frequencies of some lines, in order. */
  function Freqs(ls: seq<Line>): (fs: seq<Option<nat>>)
    ensures |fs| == |ls| && forall i :: 0 <= i < |ls| ==> fs[i] == ls[i].freq
  {
    seq(|ls|, i requires 0 <= i < |ls| => ls[i].freq)
  }

  /** The frequency text of the first container attaining the maximum `m`. */
  function DensestText(karl: seq<Line>, m: nat): (r: Cell)
    requires Some(m) in Freqs(karl)
    ensures exists i :: 0 <= i < |karl| && karl[i].freq == Some(m) && r == Freq(karl[i].row)
                        && forall j :: 0 <= j < i ==> karl[j].freq != Some(m)
  {
    var p := (l: Line) => l.freq == Some(m);
    FirstIndexFound(karl, p);
    Freq(karl[FirstIndex(karl, p).value].row)
  }

  /** The containers' maximum known frequency and the frequency text of the
      first container, in group order, that attains it; None when no
      container has a known frequency. */
  function ContainerMax(ls: seq<Line>): (r: Option<(nat, Cell)>)
    ensures r.None? <==> forall i :: 0 <= i < |ls| && ls[i].kind == "kärl" ==> ls[i].freq.None?
    ensures r.Some? ==> exists i :: 0 <= i < |ls| && ls[i].kind == "kärl" && ls[i].freq == Some(r.value.0)
    ensures r.Some? ==> forall i :: 0 <= i < |ls| && ls[i].kind == "kärl" && ls[i].freq.Some? ==>
                          ls[i].freq.value <= r.value.0
    ensures r.Some? ==> var karl := OfKind(ls, "kärl");
              exists i :: 0 <= i < |karl| && karl[i].freq == Some(r.value.0) && r.value.1 == Freq(karl[i].row)
                && forall j :: 0 <= j < i ==> karl[j].freq != Some(r.value.0)
  {
    var karl := OfKind(ls, "kärl");
    var fs := Freqs(karl);
    KnownContainers(ls);
    match MaxSome(fs)
    case None => None
    case Some(m) =>
      assert exists i :: 0 <= i < |ls| && ls[i].kind == "kärl" && ls[i].freq == Some(m) by {
        var i :| 0 <= i < |fs| && fs[i] == Some(m);
        var j :| 0 <= j < |ls| && ls[j] == karl[i];
      }
      Some((m, DensestText(karl, m)))
  }

  /** The containers' frequencies are those of the group's container lines. */
  lemma KnownContainers(ls: seq<Line>)
    ensures var fs := Freqs(OfKind(ls, "kärl"));
            (forall i :: 0 <= i < |fs| ==> fs[i].None?) <==>
            (forall i :: 0 <= i < |ls| && ls[i].kind == "kärl" ==> ls[i].freq.None?)
    ensures var fs := Freqs(OfKind(ls, "kärl"));
            forall i :: 0 <= i < |ls| && ls[i].kind == "kärl" && ls[i].freq.Some? ==>
              exists j :: 0 <= j < |fs| && fs[j] == ls[i].freq
  {
    var karl := OfKind(ls, "kärl");
    var fs := Freqs(karl);
    forall i | 0 <= i < |ls| && ls[i].kind == "kärl" && ls[i].freq.Some?
      ensures exists j :: 0 <= j < |fs| && fs[j] == ls[i].freq
    {
      var j :| 0 <= j < |karl| && karl[j] == ls[i];
      assert fs[j] == ls[i].freq;
    }
    if exists i :: 0 <= i < |fs| && fs[i].Some? {
      var i :| 0 <= i < |fs| && fs[i].Some?;
      var j :| 0 <= j < |ls| && ls[j] == karl[i];
    }
  }

  /** An addon compared with the containers' maximum: reported exactly when
      its frequency is not that maximum. */
  function Mismatch(l: Line, m: nat, densest: Cell): (r: Option<Record>)
    ensures r.Some? <==> l.freq != Some(m)
    ensures r.Some? ==> r.value == RecordOf(l.row, Some(densest), MismatchReason(Freq(l.row), densest))
  {
    if l.freq != Some(m) then Some(RecordOf(l.row, Some(densest), MismatchReason(Freq(l.row), densest)))
    else None
  }

  /** The mismatch check against a fixed maximum, as a function of the line. */
  function MismatchAgainst(m: nat, densest: Cell): Line -> Option<Record> {
    (l: Line) => Mismatch(l, m, densest)
  }

  /** An addon whose frequency is not a known phrase is always reported. */
  lemma UnknownAddonFlagged(row: Row, m: nat, densest: Cell)
    requires Norm(Freq(row)) !in FreqMap
    ensures Mismatch(Lines([row])[0], m, densest).Some?
  {
  }

  /** A location with both kinds (or neither): the fault when no container
      has a known frequency, else exactly the addons whose frequency is not
      the containers' maximum, in group order. */
  function MixedRecords(ls: seq<Line>, key: Cell): (r: Result<seq<Record>, Fault>)
    ensures r.Failure? <==> ContainerMax(ls).None?
    ensures r.Failure? ==> r.error == NoContainerMaximum(key)
    ensures r.Success? ==> r.value == Collect(Addons(ls), MismatchAgainst(ContainerMax(ls).value.0, ContainerMax(ls).value.1))
  {
    match ContainerMax(ls)
    case None => Failure(NoContainerMaximum(key))
    case Some((m, densest)) => Success(Collect(Addons(ls), MismatchAgainst(m, densest)))
  }

  /** In a mixed location that does not fail, an addon is reported exactly
      when its frequency (unknown counts as different) is not the
      containers' maximum, with the text of the densest container; there is
      one record per such addon. */
  lemma MixedFlagsOffMaximum(ls: seq<Line>, key: Cell, rec: Record)
    requires ContainerMax(ls).Some?
    ensures var (m, densest) := ContainerMax(ls).value;
            var r := MixedRecords(ls, key).value;
            && |r| == CountSome(Addons(ls), MismatchAgainst(m, densest))
            && (rec in r <==>
                exists i :: 0 <= i < |Addons(ls)| && Addons(ls)[i].freq != Some(m)
                  && Mismatch(Addons(ls)[i], m, densest) == Some(rec))
  {
    var (m, densest) := ContainerMax(ls).value;
    MismatchRecords(Addons(ls), m, densest, rec);
  }

  /** The mismatch records of some addons against a fixed maximum. */
  lemma MismatchRecords(addons: seq<Line>, m: nat, densest: Cell, rec: Record)
    ensures var r := Collect(addons, MismatchAgainst(m, densest));
            && |r| == CountSome(addons, MismatchAgainst(m, densest))
            && (rec in r <==>
                exists i :: 0 <= i < |addons| && addons[i].freq != Some(m) && Mismatch(addons[i], m, densest) == Some(rec))
  {
    CollectCount(addons, MismatchAgainst(m, densest));
    CollectMember(addons, MismatchAgainst(m, densest), rec);
  }

  /** A location with addons only: every row, with the fixed reason. */
  function OnlyAddonRecords(g: seq<Row>): (r: seq<Record>)
    ensures |r| == |g|
    ensures forall i :: 0 <= i < |g| ==> r[i] == RecordOf(g[i], None, OnlyAddonReason)
  {
    seq(|g|, i requires 0 <= i < |g| => RecordOf(g[i], None, OnlyAddonReason))
  }

  /** The records of one location, or the fault that stops the run. */
  function GroupRecords(rows: seq<Row>, key: Cell): (r: Result<seq<Record>, Fault>)
    // containers only: nothing to report, whatever their frequencies
    ensures Kinds(Lines(Group(rows, Key, key))) == {"kärl"} ==> r == Success([])
    // addons only: every row, with the fixed reason
    ensures Kinds(Lines(Group(rows, Key, key))) == {"tillägg"} ==>
              r == Success(OnlyAddonRecords(Group(rows, Key, key)))
    // anything else: the mixed rule
    ensures |Group(rows, Key, key)| > 0 && Kinds(Lines(Group(rows, Key, key))) != {"kärl"}
            && Kinds(Lines(Group(rows, Key, key))) != {"tillägg"} ==>
              r == MixedRecords(Lines(Group(rows, Key, key)), key)
    ensures r.Failure? ==> r.error == NoContainerMaximum(key)
  {
    var g := Group(rows, Key, key);
    var ls := Lines(g);
    var kinds := Kinds(ls);
    if |g| == 0 || kinds == {"kärl"} then Success([])
    else if kinds == {"tillägg"} then Success(OnlyAddonRecords(g))
    else MixedRecords(ls, key)
  }

  /** The per-location rule as a function of the location. */
  function GroupRule(rows: seq<Row>): Cell -> Result<seq<Record>, Fault> {
    key => GroupRecords(rows, key)
  }

  /** `process_dorrtillagg`: the missing required columns, the fault of the
      first location in `order` without a container maximum, or the records
      of every location in `order`, location after location. */
  function Process(t: Table, order: seq<Cell>): (r: Result<seq<Record>, Fault>)
    requires IsKeyOrder(order, t.rows, Key)
    ensures !(Required <= ColumnSet(t)) <==> r.Failure? && r.error.MissingColumns?
    ensures r.Failure? && r.error.MissingColumns? ==> r.error == MissingColumns(Missing(Required, t))
    // a location fault stops the run: it is the first failing location's, and only a mixed
    // location without a known container frequency fails
    ensures r.Failure? && !r.error.MissingColumns? ==>
              exists i :: 0 <= i < |order| && GroupRecords(t.rows, order[i]) == Failure(r.error)
                && r.error == NoContainerMaximum(order[i])
                && forall j :: 0 <= j < i ==> GroupRecords(t.rows, order[j]).Success?
    ensures Required <= ColumnSet(t) ==>
              (r.Failure? <==> exists i :: 0 <= i < |order| && GroupRecords(t.rows, order[i]).Failure?)
  {
    var missing := Missing(Required, t);
    if missing != {} then Failure(MissingColumns(missing))
    else Concat(order, GroupRule(t.rows))
  }

  /** A successful run reports exactly the records of its locations. */
  lemma ProcessMember(t: Table, order: seq<Cell>, rec: Record)
    requires IsKeyOrder(order, t.rows, Key)
    requires Process(t, order).Success?
    ensures rec in Process(t, order).value <==>
              exists i :: 0 <= i < |order| && rec in GroupRecords(t.rows, order[i]).value
  {
    ConcatMember(order, GroupRule(t.rows), rec);
  }

  /** Splitting the visiting order splits the report: the records of the
      first locations come before those of the later ones. */
  lemma ProcessKeepsLocationOrder(t: Table, a: seq<Cell>, b: seq<Cell>)
    requires IsKeyOrder(a + b, t.rows, Key)
    requires Process(t, a + b).Success?
    ensures Concat(a, GroupRule(t.rows)).Success? && Concat(b, GroupRule(t.rows)).Success?
    ensures Process(t, a + b).value == Concat(a, GroupRule(t.rows)).value + Concat(b, GroupRule(t.rows)).value
  {
    ConcatAppend(a, b, GroupRule(t.rows));
  }

  /** The report's column order, before the columns no record fills are dropped. */
  const ColumnOrder: seq<string> :=
    ["Affärsenhet", "Kundnummer", "Flexplats", "Flexplatsadress", "Flextjänst",
     "Flextyp", "Hämtfrekvens", "Kärlens tätaste hämtfrekvens", "Orsak"]

  /** The report's columns: none for an empty report; otherwise the fixed
      order, where the densest-container column appears only when some record
      fills it. */
  function OutputColumns(records: seq<Record>): (cols: seq<string>)
    ensures |records| == 0 ==> cols == []
    ensures |records| > 0 && (exists i :: 0 <= i < |records| && records[i].densest.Some?) ==> cols == ColumnOrder
    ensures |records| > 0 && (forall i :: 0 <= i < |records| ==> records[i].densest.None?) ==>
              cols == ColumnOrder[..7] + ColumnOrder[8..]
  {
    if |records| == 0 then []
    else if exists i :: 0 <= i < |records| && records[i].densest.Some? then ColumnOrder
    else ColumnOrder[..7] + ColumnOrder[8..]
  }
}
