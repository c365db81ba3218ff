/** Food-waste versus residual-waste frequency (views/hamtfrekvens_mat_rest.py):
    a per-location rule. Only food-waste (Matavfall) and residual-waste
    (Restavfall) rows take part; they are grouped by location. A location is
    reported when its food waste is collected more often, at its most
    frequent, than its residual waste at its most frequent. */
module MatRest {
  import opened Wrappers
  import opened Strings
  import opened Seqs
  import opened Ordering
  import opened Sheet
  import Dorrtillagg

  const Required: set<string> :=
    {"Affärsenhet", "Kundnummer", "Flexplats", "Flexplatsadress",
     "Fraktion", "Hämtfrekvens", "Flextjänst"}

  /** The grouping column. */
  const Key: string := "Flexplats"

  datatype Fraction = Mat | Rest

  /** The fraction a row takes part as: "Matavfall", or "Restavfall" with its
      alias "Restavfall nollvision", matched exactly; anything else, a missing
      value included, takes no part. */
  function FractionOf(c: Cell): (r: Option<Fraction>)
    ensures r == Some(Mat) <==> c == Text("Matavfall")
    ensures r == Some(Rest) <==> c == Text("Restavfall") || c == Text("Restavfall nollvision")
  {
    if c == Text("Matavfall") then Some(Mat)
    else if c == Text("Restavfall") || c == Text("Restavfall nollvision") then Some(Rest)
    else None
  }

  /** `freq_map`: collections per week, in eighths of a week (0.5, 1, 2 and 3
      per week). */
  const FreqMap: map<string, nat> :=
    map["varannan vecka" := 4, "1 gång i veckan" := 8, "2 gånger i veckan" := 16, "3 gånger i veckan" := 24]

  /** `to_numeric_freq`: the frequency a phrase names; None for a missing
      value and for any other text. */
  function ToNumericFreq(c: Cell): (r: Option<nat>)
    ensures c.Blank? ==> r.None?
    ensures !c.Blank? ==> (r.Some? <==> NormText(Str(c)) in FreqMap)
    ensures r.Some? ==> r.value == FreqMap[NormText(Str(c))]
  {
    if c.Blank? then None
    else
      var key := NormText(Str(c));
      if key in FreqMap then Some(FreqMap[key]) else None
  }

  /** This rule knows four of the door-addon rule's six phrases, with the same
      values; the monthly and bi-monthly phrases are unknown here. */
  lemma VocabularyWithinDoorVocabulary()
    ensures FreqMap.Keys <= Dorrtillagg.FreqMap.Keys
    ensures forall k :: k in FreqMap ==> FreqMap[k] == Dorrtillagg.FreqMap[k]
    ensures "var 4:e vecka" in Dorrtillagg.FreqMap && "var 4:e vecka" !in FreqMap
    ensures "var 8:e vecka" in Dorrtillagg.FreqMap && "var 8:e vecka" !in FreqMap
  {
  }

  /** The rows that take part, in table order. */
  function Relevant(rows: seq<Row>): (r: seq<Row>)
    ensures forall i :: 0 <= i < |r| ==> r[i] in rows && FractionOf(Get(r[i], "Fraktion")).Some?
    ensures forall i :: 0 <= i < |rows| && FractionOf(Get(rows[i], "Fraktion")).Some? ==> rows[i] in r
  {
    Filter(rows, row => FractionOf(Get(row, "Fraktion")).Some?)
  }

  /** Splitting the table splits the taking-part rows, so they keep table
      order and a group's first taking-part row is its first in the table. */
  lemma RelevantKeepsRowOrder(a: seq<Row>, b: seq<Row>)
    ensures Relevant(a + b) == Relevant(a) + Relevant(b)
  {
    FilterAppend(a, b, row => FractionOf(Get(row, "Fraktion")).Some?);
  }

  /** A row together with the two facts the rule reads from it. */
  datatype Line = Line(row: Row, fraction: Option<Fraction>, freq: Option<nat>)

  function Lines(g: seq<Row>): (ls: seq<Line>)
    ensures |ls| == |g|
    ensures forall i :: 0 <= i < |g| ==>
              ls[i] == Line(g[i], FractionOf(Get(g[i], "Fraktion")), ToNumericFreq(Get(g[i], "Hämtfrekvens")))
  {
    seq(|g|, i requires 0 <= i < |g| =>
      Line(g[i], FractionOf(Get(g[i], "Fraktion")), ToNumericFreq(Get(g[i], "Hämtfrekvens"))))
  }

  /** The lines of one fraction, in group order. */
  function OfFraction(ls: seq<Line>, f: Fraction): (r: seq<Line>)
    ensures forall i :: 0 <= i < |r| ==> r[i] in ls && r[i].fraction == Some(f)
    ensures forall i :: 0 <= i < |ls| && ls[i].fraction == Some(f) ==> ls[i] in r
  {
    Filter(ls, (l: Line) => l.fraction == Some(f))
  }

  /** The frequencies of one fraction's lines, in group order. */
  function FreqsOf(ls: seq<Line>, f: Fraction): (fs: seq<Option<nat>>)
    ensures |fs| == |OfFraction(ls, f)|
    ensures forall i :: 0 <= i < |fs| ==> fs[i] == OfFraction(ls, f)[i].freq
  {
    var sub := OfFraction(ls, f);
    seq(|sub|, i requires 0 <= i < |sub| => sub[i].freq)
  }

  /** The highest known frequency of a fraction, None when the fraction has
      no line of known frequency. */
  function MaxOf(ls: seq<Line>, f: Fraction): (r: Option<nat>)
    ensures r.None? <==> forall i :: 0 <= i < |ls| && ls[i].fraction == Some(f) ==> ls[i].freq.None?
    ensures r.Some? ==> exists i :: 0 <= i < |ls| && ls[i].fraction == Some(f) && ls[i].freq == r
    ensures r.Some? ==> forall i :: 0 <= i < |ls| && ls[i].fraction == Some(f) && ls[i].freq.Some? ==>
                          ls[i].freq.value <= r.value
  {
    var m := MaxSome(FreqsOf(ls, f));
    MaxOfBridge(ls, f, m);
    m
  }

  /** Transfers the bounds of the maximum over a fraction's lines back to
      positions in the whole group. */
  lemma MaxOfBridge(ls: seq<Line>, f: Fraction, m: Option<nat>)
    requires m == MaxSome(FreqsOf(ls, f))
    ensures m.None? <==> forall i :: 0 <= i < |ls| && ls[i].fraction == Some(f) ==> ls[i].freq.None?
    ensures m.Some? ==> exists i :: 0 <= i < |ls| && ls[i].fraction == Some(f) && ls[i].freq == m
    ensures m.Some? ==> forall i :: 0 <= i < |ls| && ls[i].fraction == Some(f) && ls[i].freq.Some? ==>
                          ls[i].freq.value <= m.value
  {
    var sub := OfFraction(ls, f);
    var fs := FreqsOf(ls, f);
    forall i | 0 <= i < |ls| && ls[i].fraction == Some(f) && ls[i].freq.Some?
      ensures m.Some? && ls[i].freq.value <= m.value
    {
      var j :| 0 <= j < |sub| && sub[j] == ls[i];
      assert fs[j] == ls[i].freq;
    }
    if m.Some? {
      var j :| 0 <= j < |fs| && fs[j] == m;
      var i :| 0 <= i < |ls| && ls[i] == sub[j];
    }
  }

  /** Whether a location is reported: both fractions have a known frequency
      and food waste's highest exceeds residual waste's highest. */
  predicate Flagged(ls: seq<Line>) {
    var mat := MaxOf(ls, Mat);
    var rest := MaxOf(ls, Rest);
    mat.Some? && rest.Some? && mat.value > rest.value
  }

  /** A line of the given fraction whose frequency is known. */
  predicate Known(l: Line, f: Fraction) {
    l.fraction == Some(f) && l.freq.Some?
  }

  /** The line at `i` is collected more often than every residual-waste line
      of known frequency. */
  predicate OutpacesRest(ls: seq<Line>, i: nat)
    requires i < |ls| && ls[i].freq.Some?
  {
    forall j :: 0 <= j < |ls| && Known(ls[j], Rest) ==> ls[j].freq.value < ls[i].freq.value
  }

  /** A location is reported exactly when residual waste has some known
      frequency and some food-waste line of known frequency is collected more
      often than every residual-waste line of known frequency. */
  lemma FlaggedIff(ls: seq<Line>)
    ensures Flagged(ls) <==>
              (exists j :: 0 <= j < |ls| && Known(ls[j], Rest))
              && exists i :: 0 <= i < |ls| && Known(ls[i], Mat) && OutpacesRest(ls, i)
  {
    var mat := MaxOf(ls, Mat);
    var rest := MaxOf(ls, Rest);
    if Flagged(ls) {
      var i :| 0 <= i < |ls| && ls[i].fraction == Some(Mat) && ls[i].freq == mat;
      assert Known(ls[i], Mat) && OutpacesRest(ls, i);
      var j :| 0 <= j < |ls| && ls[j].fraction == Some(Rest) && ls[j].freq == rest;
      assert Known(ls[j], Rest);
    }
    if exists i :: 0 <= i < |ls| && Known(ls[i], Mat) && OutpacesRest(ls, i) {
      var i :| 0 <= i < |ls| && Known(ls[i], Mat) && OutpacesRest(ls, i);
      assert ls[i].freq.value <= mat.value;
      if exists j :: 0 <= j < |ls| && Known(ls[j], Rest) {
        var j :| 0 <= j < |ls| && ls[j].fraction == Some(Rest) && ls[j].freq == rest;
        assert Known(ls[j], Rest);
      }
    }
  }

  /** What the `v is not None` filter keeps of one fraction's `freq_num`
      values. pandas stores the frequencies of a fraction that mixes known and
      unknown phrases as floats, the unknown ones as NaN, and NaN is not None;
      a fraction whose phrases are all unknown keeps None and loses it. */
  function KeptAsWritten(ls: seq<Line>, f: Fraction): (vals: set<PyFloat>)
    ensures forall n :: Val(n) in vals <==> exists i :: 0 <= i < |ls| && Known(ls[i], f) && ls[i].freq.value == n
    ensures NaN in vals <==> (exists i :: 0 <= i < |ls| && Known(ls[i], f))
                             && exists i :: 0 <= i < |ls| && ls[i].fraction == Some(f) && ls[i].freq.None?
  {
    (set i | 0 <= i < |ls| && Known(ls[i], f) :: Val(ls[i].freq.value))
      + (if (exists i :: 0 <= i < |ls| && Known(ls[i], f))
            && (exists i :: 0 <= i < |ls| && ls[i].fraction == Some(f) && ls[i].freq.None?)
         then {NaN} else {})
  }

  /** `vals` lists exactly the values of `kept`, in some order (the order
      `sorted` leaves them in, which NaN makes arbitrary). */
  predicate Arranges(vals: seq<PyFloat>, kept: set<PyFloat>) {
    (forall i :: 0 <= i < |vals| ==> vals[i] in kept) && forall x :: x in kept ==> x in vals
  }

  /** Python's `max` over a list: the running value starts at the first
      element and is replaced by each later element greater than it. */
  function PyMax(xs: seq<PyFloat>): PyFloat
    requires |xs| > 0
  {
    MaxFrom(xs[0], xs[1..])
  }

  function MaxFrom(cur: PyFloat, xs: seq<PyFloat>): PyFloat
    decreases |xs|
  {
    if |xs| == 0 then cur
    else MaxFrom(if Greater(xs[0], cur) then xs[0] else cur, xs[1..])
  }

  /** Over numbers alone the running maximum is the greatest of them. */
  lemma {:induction false} MaxFromNumbers(cur: PyFloat, xs: seq<PyFloat>)
    requires cur.Val? && forall i :: 0 <= i < |xs| ==> xs[i].Val?
    ensures MaxFrom(cur, xs).Val?
    ensures MaxFrom(cur, xs) == cur || MaxFrom(cur, xs) in xs
    ensures cur.v <= MaxFrom(cur, xs).v
    ensures forall i :: 0 <= i < |xs| ==> xs[i].v <= MaxFrom(cur, xs).v
    decreases |xs|
  {
    if |xs| > 0 {
      var next := if Greater(xs[0], cur) then xs[0] else cur;
      MaxFromNumbers(next, xs[1..]);
      assert forall i :: 1 <= i < |xs| ==> xs[i] == xs[1..][i - 1];
    }
  }

  /** Without NaN, `max` returns the greatest element. */
  lemma PyMaxOfNumbers(xs: seq<PyFloat>)
    requires |xs| > 0 && forall i :: 0 <= i < |xs| ==> xs[i].Val?
    ensures PyMax(xs) in xs && PyMax(xs).Val?
    ensures forall i :: 0 <= i < |xs| ==> xs[i].v <= PyMax(xs).v
  {
    MaxFromNumbers(xs[0], xs[1..]);
    assert forall i :: 1 <= i < |xs| ==> xs[i] == xs[1..][i - 1];
  }

  /** The comparison as written: both lists non-empty and food waste's `max`
      greater than residual waste's `max`. */
  predicate FlaggedAsWritten(matVals: seq<PyFloat>, restVals: seq<PyFloat>) {
    |matVals| > 0 && |restVals| > 0 && Greater(PyMax(matVals), PyMax(restVals))
  }

  /** Without NaN among the kept values, `max` of a fraction's list is the
      fraction's highest known frequency. */
  lemma PyMaxIsMaxOf(ls: seq<Line>, f: Fraction, vals: seq<PyFloat>)
    requires Arranges(vals, KeptAsWritten(ls, f)) && NaN !in KeptAsWritten(ls, f)
    ensures |vals| > 0 <==> MaxOf(ls, f).Some?
    ensures |vals| > 0 ==> PyMax(vals) == Val(MaxOf(ls, f).value)
  {
    KeptHoldsMaximum(ls, f);
    if |vals| > 0 {
      assert forall i :: 0 <= i < |vals| ==> vals[i].Val? by {
        forall i | 0 <= i < |vals| ensures vals[i].Val? {
          assert vals[i] in KeptAsWritten(ls, f);
        }
      }
      PyMaxOfNumbers(vals);
      KeptBelowMaximum(ls, f, PyMax(vals));
    }
  }

  /** The highest known frequency is among the kept values. */
  lemma KeptHoldsMaximum(ls: seq<Line>, f: Fraction)
    ensures MaxOf(ls, f).Some? ==> Val(MaxOf(ls, f).value) in KeptAsWritten(ls, f)
  {
    if MaxOf(ls, f).Some? {
      var k :| 0 <= k < |ls| && ls[k].fraction == Some(f) && ls[k].freq == MaxOf(ls, f);
      assert Known(ls[k], f);
    }
  }

  /** Every kept number is a known frequency, so at most the highest. */
  lemma KeptBelowMaximum(ls: seq<Line>, f: Fraction, x: PyFloat)
    requires x.Val? && x in KeptAsWritten(ls, f)
    ensures MaxOf(ls, f).Some? && x.v <= MaxOf(ls, f).value
  {
    var i :| 0 <= i < |ls| && Known(ls[i], f) && ls[i].freq.value == x.v;
  }

  /** When neither fraction mixes known and unknown frequencies, the code as
      written reports exactly the locations the model reports. */
  lemma AsWrittenAgreesWithoutUnknown(ls: seq<Line>, matVals: seq<PyFloat>, restVals: seq<PyFloat>)
    requires Arranges(matVals, KeptAsWritten(ls, Mat)) && NaN !in KeptAsWritten(ls, Mat)
    requires Arranges(restVals, KeptAsWritten(ls, Rest)) && NaN !in KeptAsWritten(ls, Rest)
    ensures FlaggedAsWritten(matVals, restVals) <==> Flagged(ls)
  {
    PyMaxIsMaxOf(ls, Mat, matVals);
    PyMaxIsMaxOf(ls, Rest, restVals);
  }

  /** A location with food waste twice a week, food waste of unknown
      frequency listed first, and residual waste once a week: the model
      reports it, but the code as written keeps `[nan, 2.0]` for food waste,
      whose `max` is NaN, and NaN is greater than nothing. */
  lemma NanFirstHidesMaximum(ls: seq<Line>, a: Row, b: Row, c: Row)
    requires ls == [Line(a, Some(Mat), None), Line(b, Some(Mat), Some(16)), Line(c, Some(Rest), Some(8))]
    ensures Arranges([NaN, Val(16)], KeptAsWritten(ls, Mat))
    ensures Arranges([Val(8)], KeptAsWritten(ls, Rest))
    ensures PyMax([NaN, Val(16)]) == NaN
    ensures !FlaggedAsWritten([NaN, Val(16)], [Val(8)])
    ensures Flagged(ls)
  {
    ExampleKept(ls, a, b, c);
    NanFirstMax();
    ExampleFlagged(ls, a, b, c);
  }

  /** `max([nan, 2.0])` is NaN: 2.0 is not greater than NaN. */
  lemma NanFirstMax()
    ensures PyMax([NaN, Val(16)]) == NaN
    ensures !FlaggedAsWritten([NaN, Val(16)], [Val(8)])
  {
    assert [NaN, Val(16)][1..] == [Val(16)];
    assert PyMax([NaN, Val(16)]) == MaxFrom(NaN, [Val(16)]);
  }

  /** The model reports the example: 16 exceeds every residual frequency. */
  lemma ExampleFlagged(ls: seq<Line>, a: Row, b: Row, c: Row)
    requires ls == [Line(a, Some(Mat), None), Line(b, Some(Mat), Some(16)), Line(c, Some(Rest), Some(8))]
    ensures Flagged(ls)
  {
    assert Known(ls[1], Mat) && Known(ls[2], Rest);
    assert OutpacesRest(ls, 1);
    FlaggedIff(ls);
  }

  /** The values each fraction of the example keeps. */
  lemma ExampleKept(ls: seq<Line>, a: Row, b: Row, c: Row)
    requires ls == [Line(a, Some(Mat), None), Line(b, Some(Mat), Some(16)), Line(c, Some(Rest), Some(8))]
    ensures Arranges([NaN, Val(16)], KeptAsWritten(ls, Mat))
    ensures Arranges([Val(8)], KeptAsWritten(ls, Rest))
  {
    assert Known(ls[1], Mat) && ls[0].fraction == Some(Mat) && ls[0].freq.None?;
    assert Known(ls[2], Rest);
    forall x | x in KeptAsWritten(ls, Mat) ensures x in {NaN, Val(16)} {
      if x.Val? {
        var i :| 0 <= i < |ls| && Known(ls[i], Mat) && ls[i].freq.value == x.v;
      }
    }
    forall x | x in KeptAsWritten(ls, Rest) ensures x == Val(8) {
      if x.Val? {
        var i :| 0 <= i < |ls| && Known(ls[i], Rest) && ls[i].freq.value == x.v;
      }
    }
    assert KeptAsWritten(ls, Mat) == {NaN, Val(16)};
    assert KeptAsWritten(ls, Rest) == {Val(8)};
  }

  /** One reported location: identifying fields from its first taking-part
      row, and the sorted distinct frequency texts and service texts of each
      fraction. */
  datatype Record = Record(
    affarsenhet: Cell,
    kundnummer: Cell,
    flexplats: Cell,
    flexplatsadress: Cell,
    matFreqs: seq<string>,
    restFreqs: seq<string>,
    matServices: seq<string>,
    restServices: seq<string>)

  /** The text of one column on each line, in line order. */
  function Texts(ls: seq<Line>, col: string): (r: seq<string>)
    ensures |r| == |ls| && forall i :: 0 <= i < |ls| ==> r[i] == Str(Get(ls[i].row, col))
  {
    seq(|ls|, i requires 0 <= i < |ls| => Str(Get(ls[i].row, col)))
  }

  /** `sorted(set(df[col].astype(str)))` over some lines. */
  function SortedTexts(ls: seq<Line>, col: string): (r: seq<string>)
    ensures Ascending(r)
    ensures forall s :: s in r <==> s in Texts(ls, col)
  {
    SortedSet(Texts(ls, col))
  }

  /** The rule for one location of the taking-part rows. */
  function GroupCheck(rel: seq<Row>, key: Cell): (r: Option<Record>)
    ensures r.Some? <==> Flagged(Lines(Group(rel, Key, key)))
    ensures r.Some? ==> r.value.flexplats == key
    ensures r.Some? ==> var first := Group(rel, Key, key)[0];
              && r.value.affarsenhet == Get(first, "Affärsenhet")
              && r.value.kundnummer == Get(first, "Kundnummer")
              && r.value.flexplatsadress == Get(first, "Flexplatsadress")
    ensures r.Some? ==> var ls := Lines(Group(rel, Key, key));
              && r.value.matFreqs == SortedTexts(OfFraction(ls, Mat), "Hämtfrekvens")
              && r.value.restFreqs == SortedTexts(OfFraction(ls, Rest), "Hämtfrekvens")
              && r.value.matServices == SortedTexts(OfFraction(ls, Mat), "Flextjänst")
              && r.value.restServices == SortedTexts(OfFraction(ls, Rest), "Flextjänst")
  {
    var g := Group(rel, Key, key);
    var ls := Lines(g);
    if !Flagged(ls) then None
    else
      var mats := OfFraction(ls, Mat);
      var rests := OfFraction(ls, Rest);
      Some(Record(Get(g[0], "Affärsenhet"), Get(g[0], "Kundnummer"), key, Get(g[0], "Flexplatsadress"),
                  SortedTexts(mats, "Hämtfrekvens"), SortedTexts(rests, "Hämtfrekvens"),
                  SortedTexts(mats, "Flextjänst"), SortedTexts(rests, "Flextjänst")))
  }

  /** A location lacking either fraction is never reported. */
  lemma MissingFractionSkipped(ls: seq<Line>, f: Fraction)
    requires forall i :: 0 <= i < |ls| ==> ls[i].fraction != Some(f)
    ensures !Flagged(ls)
  {
  }

  /** Equal highest frequencies are not reported. */
  lemma EqualMaximaPass(ls: seq<Line>)
    requires MaxOf(ls, Mat).Some? && MaxOf(ls, Mat) == MaxOf(ls, Rest)
    ensures !Flagged(ls)
  {
  }

  /** The rule as a function of the location. */
  function GroupRule(rel: seq<Row>): Cell -> Option<Record> {
    key => GroupCheck(rel, key)
  }

  /** `process_hamtfrekvens`: the missing required columns, or one record per
      reported location, visiting the locations of the taking-part rows in
      `order`. */
  function Process(t: Table, order: seq<Cell>): (r: Result<seq<Record>, Fault>)
    requires IsKeyOrder(order, Relevant(t.rows), Key)
    ensures r.Failure? <==> !(Required <= ColumnSet(t))
    ensures r.Failure? ==> r.error == MissingColumns(Missing(Required, t))
    ensures r.Success? ==> |r.value| == CountSome(order, GroupRule(Relevant(t.rows)))
    // no location is reported twice
    ensures r.Success? ==> forall i, j :: 0 <= i < j < |r.value| ==> r.value[i].flexplats != r.value[j].flexplats
    // a location is reported exactly when it is flagged
    ensures r.Success? ==> forall k :: k in KeySet(Relevant(t.rows), Key) ==>
              ((exists rec :: rec in r.value && rec.flexplats == k) <==> Flagged(Lines(Group(Relevant(t.rows), Key, k))))
    ensures r.Success? ==> forall rec :: rec in r.value ==> rec.flexplats in KeySet(Relevant(t.rows), Key)
    // each record is the one its location's group check gives
    ensures r.Success? ==> forall rec :: rec in r.value ==> GroupCheck(Relevant(t.rows), rec.flexplats) == Some(rec)
  {
    var missing := Missing(Required, t);
    if missing != {} then Failure(MissingColumns(missing))
    else
      var rel := Relevant(t.rows);
      var f := GroupRule(rel);
      var recs := Collect(order, f);
      CollectCount(order, f);
      CollectKeysDistinct(order, f, (rec: Record) => rec.flexplats);
      forall k | k in KeySet(rel, Key)
        ensures (exists rec :: rec in recs && rec.flexplats == k) <==> Flagged(Lines(Group(rel, Key, k)))
      {
        CollectKeyMember(order, f, (rec: Record) => rec.flexplats, k);
      }
      CollectKeyMember(order, f, (rec: Record) => rec.flexplats, Blank);
      Success(recs)
  }
}
