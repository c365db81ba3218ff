/** Count consistency (views/antalsvarde_individer.py): a per-group rule.
    Rows are grouped by service number. Within a group the numeric container
    counts should agree on one value, and that value should equal the number
    of distinct external references. A group that breaks this yields a single
    record. */
module Antalsvarde {
  import opened Wrappers
  import opened Strings
  import opened Seqs
  import opened Sheet

  const Required: set<string> :=
    {"Affärsenhet", "Status", "Flexplatsadress", "Flextjänstnr",
     "Fraktion", "Flextyp", "Extern referens", "Antal kärl"}

  /** The grouping column. */
  const Key: string := "Flextjänstnr"

  /** An unsigned decimal literal as `float()` reads it: digits, optionally a
      point and more digits, with at least one digit in all. The value is its
      whole part, which is what `int()` keeps of the float. */
  function ParseUnsigned(s: string): (r: Option<nat>)
    ensures AllDigits(s) && |s| > 0 ==> r == Some(DigitsValue(s))
    ensures r.Some? ==> |s| > 0
  {
    match FirstIndex(s, c => c == '.')
    case None =>
      if |s| > 0 && AllDigits(s) then Some(DigitsValue(s)) else None
    case Some(k) =>
      if |s| > 1 && AllDigits(s[..k]) && AllDigits(s[k + 1..]) then Some(DigitsValue(s[..k])) else None
  }

  /** `int(float(s))` for a signed decimal literal; anything else does not parse. */
  function ParseInt(s: string): Option<int> {
    if |s| > 0 && s[0] == '-' then
      match ParseUnsigned(s[1..])
      case Some(n) => Some(-(n as int))
      case None => None
    else if |s| > 0 && s[0] == '+' then ParseUnsigned(s[1..])
    else ParseUnsigned(s)
  }

  /** `to_int_or_none`: a missing or blank count, or one that does not parse, is None. */
  function ToIntOrNone(c: Cell): (r: Option<int>)
    ensures c.Blank? ==> r.None?
    ensures IsBlank(c) ==> r.None?
    ensures !IsBlank(c) ==> r == ParseInt(Trim(Str(c)))
  {
    if c.Blank? then None
    else
      var s := Trim(Str(c));
      if s == "" then None else ParseInt(s)
  }

  /** Reading back what `str()` writes for a whole number gives the number. */
  lemma ParseIntOfIntToString(n: int)
    ensures ParseInt(IntToString(n)) == Some(n)
  {
    if n < 0 {
      var s := IntToString(n);
      assert s[1..] == NatToString(-n);
      DigitsValueOfNatToString(-n);
    } else {
      var s := NatToString(n);
      assert s[0] != '-' && s[0] != '+';
      DigitsValueOfNatToString(n);
    }
  }

  /** A numeric count cell always converts to its own value. */
  lemma NumericCountKept(n: int)
    ensures ToIntOrNone(Num(n)) == Some(n)
  {
    var s := IntToString(n);
    assert !IsSpace(s[0]) && !IsSpace(s[|s| - 1]) by {
      if n < 0 {
        assert s[|s| - 1] == NatToString(-n)[|NatToString(-n)| - 1];
      }
    }
    TrimOfTrimmed(s);
    ParseIntOfIntToString(n);
  }

  /** A whole number written with a fractional part is cut to its whole part. */
  lemma FractionTruncated(n: nat, frac: string)
    requires AllDigits(frac)
    ensures ParseInt(NatToString(n) + "." + frac) == Some(n)
  {
    var w := NatToString(n);
    var s := w + "." + frac;
    assert s[|w|] == '.';
    assert forall i :: 0 <= i < |w| ==> s[i] == w[i];
    assert s[..|w|] == w;
    assert s[|w| + 1..] == frac;
    DigitsValueOfNatToString(n);
  }

  /** `astype(str).str.strip()` of the external reference. */
  function ExternRef(row: Row): string {
    Trim(Str(Get(row, "Extern referens")))
  }

  /** A reference counts unless it is empty or reads as a missing value. */
  predicate ValidRef(ref: string) {
    ref != "" && ref != "nan" && ref != "None"
  }

  /** The external references of a group's rows, in row order. */
  function Refs(g: seq<Row>): (refs: seq<string>)
    ensures |refs| == |g| && forall i :: 0 <= i < |g| ==> refs[i] == ExternRef(g[i])
  {
    seq(|g|, i requires 0 <= i < |g| => ExternRef(g[i]))
  }

  /** The count cells of a group's rows, as numbers where they have one. */
  function Counts(g: seq<Row>): (counts: seq<Option<int>>)
    ensures |counts| == |g| && forall i :: 0 <= i < |g| ==> counts[i] == ToIntOrNone(Get(g[i], "Antal kärl"))
  {
    seq(|g|, i requires 0 <= i < |g| => ToIntOrNone(Get(g[i], "Antal kärl")))
  }

  /** The distinct valid references. */
  function RefSet(refs: seq<string>): (s: set<string>)
    ensures forall ref :: ref in s <==> ref in refs && ValidRef(ref)
  {
    set ref | ref in refs && ValidRef(ref)
  }

  /** The distinct numbers among the counts. */
  function CountSet(counts: seq<Option<int>>): (s: set<int>)
    ensures forall n :: n in s <==> Some(n) in counts
  {
    set i | 0 <= i < |counts| && counts[i].Some? :: counts[i].value
  }

  /** The smallest of the numbers, or None when there is none. */
  function MinCount(counts: seq<Option<int>>): (m: Option<int>)
    ensures m.None? <==> CountSet(counts) == {}
    ensures m.Some? ==> m.value in CountSet(counts) && forall n :: n in CountSet(counts) ==> m.value <= n
  {
    if |counts| == 0 then None
    else
      var rest := MinCount(counts[1..]);
      assert forall n :: Some(n) in counts <==> counts[0] == Some(n) || Some(n) in counts[1..];
      match counts[0]
      case None => rest
      case Some(c) =>
        match rest
        case None => Some(c)
        case Some(m) => Some(if c < m then c else m)
  }

  /** Whether a group breaks the rule: no numeric count, a reference count
      different from the smallest count, or more than one distinct count. */
  predicate Deviates(counts: seq<Option<int>>, refs: seq<string>) {
    var expected := MinCount(counts);
    || expected.None?
    || |RefSet(refs)| != expected.value
    || |CountSet(counts)| > 1
  }

  /** A group passes exactly when its numeric counts all agree on one value
      and that value is the number of distinct valid references. */
  lemma DeviatesIff(counts: seq<Option<int>>, refs: seq<string>)
    ensures !Deviates(counts, refs) <==> exists n :: CountSet(counts) == {n} && |RefSet(refs)| == n
  {
    var cs := CountSet(counts);
    if !Deviates(counts, refs) {
      var m := MinCount(counts).value;
      assert cs == {m} by {
        forall n | n in cs ensures n == m {
          if n != m {
            assert |{m, n}| == 2;
            SubsetCard({m, n}, cs);
          }
        }
      }
    }
    if exists n :: cs == {n} && |RefSet(refs)| == n {
      var n :| cs == {n} && |RefSet(refs)| == n;
      assert MinCount(counts).value == n;
    }
  }

  /** `expected_vals` as the source computes it. `coerced` says whether
      pandas stored the parsed counts as floats, which it does when the count
      column mixes numbers with unreadable counts. The values are the distinct
      numeric counts, and also NaN when the column is coerced and the group
      holds an unreadable count, because the `v is not None` filter keeps NaN. */
  function ExpectedValsAsWritten(counts: seq<Option<int>>, coerced: bool): (vals: set<PyFloat>)
    ensures forall n :: Val(n) in vals <==> n in CountSet(counts)
    ensures NaN in vals <==> coerced && None in counts
  {
    (set n | n in CountSet(counts) :: Val(n)) + (if coerced && None in counts then {NaN} else {})
  }

  /** The group verdict as written. A group passes only when `expected_vals`
      holds a single value and the number of distinct references equals it.
      A count never equals NaN. */
  predicate DeviatesAsWritten(counts: seq<Option<int>>, refs: seq<string>, coerced: bool) {
    ExpectedValsAsWritten(counts, coerced) != {Val(|RefSet(refs)|)}
  }

  /** Without an unreadable count among coerced values, the verdict as
      written is the model's verdict. */
  lemma AsWrittenAgreesWithoutBlank(counts: seq<Option<int>>, refs: seq<string>, coerced: bool)
    requires !(coerced && None in counts)
    ensures DeviatesAsWritten(counts, refs, coerced) <==> Deviates(counts, refs)
  {
    var vals := ExpectedValsAsWritten(counts, coerced);
    var a := |RefSet(refs)|;
    DeviatesIff(counts, refs);
    if vals == {Val(a)} {
      assert Val(a) in vals;
      forall n | n in CountSet(counts) ensures n == a {
        assert Val(n) in vals;
      }
      assert CountSet(counts) == {a};
    }
    if CountSet(counts) == {a} {
      forall x | x in vals ensures x == Val(a) {
        assert x != NaN;
      }
      assert Val(a) in vals;
      assert vals == {Val(a)};
    }
  }

  /** A service with one count that matches its references and one blank
      count is reported as written, when the column holds numbers elsewhere,
      but passes in the model. */
  lemma BlankCountReportedAsWritten(n: nat, refs: seq<string>)
    requires |RefSet(refs)| == n
    ensures DeviatesAsWritten([Some(n), None], refs, true)
    ensures !Deviates([Some(n), None], refs)
  {
    var counts := [Some(n), None];
    assert NaN in ExpectedValsAsWritten(counts, true);
    assert CountSet(counts) == {n} by {
      assert Some(n) in counts;
      forall m | m in CountSet(counts) ensures m == n {
        assert Some(m) in counts;
      }
    }
    DeviatesIff(counts, refs);
  }

  /** One deviating service: context from the group's first row, the expected
      count (absent when the group has none) and the actual count. */
  datatype Record = Record(
    affarsenhet: Cell,
    status: Cell,
    flexplatsadress: Cell,
    flextjanstnr: Cell,
    flextyp: Cell,
    expected: Option<int>,
    actual: nat)

  /** Whether the group of a service number deviates. */
  predicate GroupDeviates(rows: seq<Row>, key: Cell) {
    var g := Group(rows, Key, key);
    Deviates(Counts(g), Refs(g))
  }

  /** The rule for the group of one service number. */
  function GroupCheck(rows: seq<Row>, key: Cell): (r: Option<Record>)
    ensures r.Some? <==> |Group(rows, Key, key)| > 0 && GroupDeviates(rows, key)
    ensures r.Some? ==> r.value.flextjanstnr == key
    ensures r.Some? ==> r.value.expected == MinCount(Counts(Group(rows, Key, key)))
    ensures r.Some? ==> r.value.actual == |RefSet(Refs(Group(rows, Key, key)))|
    ensures r.Some? ==> var first := Group(rows, Key, key)[0];
              && r.value.affarsenhet == Get(first, "Affärsenhet")
              && r.value.status == Get(first, "Status")
              && r.value.flexplatsadress == Get(first, "Flexplatsadress")
              && r.value.flextyp == Get(first, "Flextyp")
  {
    var g := Group(rows, Key, key);
    if |g| == 0 || !GroupDeviates(rows, key) then None
    else
      Some(Record(Get(g[0], "Affärsenhet"), Get(g[0], "Status"), Get(g[0], "Flexplatsadress"),
                  key, Get(g[0], "Flextyp"), MinCount(Counts(g)), |RefSet(Refs(g))|))
  }

  /** `process_karl`: the missing required columns, or one record per deviating
      service number, visiting the services in `order`. */
  function Process(t: Table, order: seq<Cell>): (r: Result<seq<Record>, Fault>)
    requires IsKeyOrder(order, t.rows, Key)
    ensures r.Failure? <==> !(Required <= ColumnSet(t))
    ensures r.Failure? ==> r.error == MissingColumns(Missing(Required, t))
    ensures r.Success? ==> |r.value| == CountSome(order, k => GroupCheck(t.rows, k))
    // no service number is reported twice
    ensures r.Success? ==> forall i, j :: 0 <= i < j < |r.value| ==>
              r.value[i].flextjanstnr != r.value[j].flextjanstnr
    // a service number is reported exactly when its group deviates
    ensures r.Success? ==> forall k :: k in KeySet(t.rows, Key) ==>
              ((exists rec :: rec in r.value && rec.flextjanstnr == k) <==> GroupDeviates(t.rows, k))
    ensures r.Success? ==> forall rec :: rec in r.value ==> rec.flextjanstnr in KeySet(t.rows, Key)
    // each record is the one its service number's group check gives
    ensures r.Success? ==> forall rec :: rec in r.value ==> GroupCheck(t.rows, rec.flextjanstnr) == Some(rec)
  {
    var missing := Missing(Required, t);
    if missing != {} then Failure(MissingColumns(missing))
    else
      var f := k => GroupCheck(t.rows, k);
      var recs := Collect(order, f);
      CollectCount(order, f);
      CollectKeysDistinct(order, f, (rec: Record) => rec.flextjanstnr);
      forall k | k in KeySet(t.rows, Key)
        ensures (exists rec :: rec in recs && rec.flextjanstnr == k) <==> GroupDeviates(t.rows, k)
      {
        KeyGroupNonEmpty(t.rows, Key, k);
        CollectKeyMember(order, f, (rec: Record) => rec.flextjanstnr, k);
      }
      CollectKeyMember(order, f, (rec: Record) => rec.flextjanstnr, Blank);
      Success(recs)
  }
}
