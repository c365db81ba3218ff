/** Sludge-installation checks (views/slamanlaggningar_check.py): a per-row
    rule and then a per-service rule. Every row is checked against a list of
    route-planning requirements and reported once, with all its reasons
    joined. Afterwards every service number is checked: the frequencies of its
    rows imply how many rows (visits per year) it should have. */
module Slamanlaggningar {
  import opened Wrappers
  import opened Strings
  import opened Seqs
  import opened Sheet

  const Required: set<string> :=
    {"Affärsenhet", "Kundnr", "Flexplatsadress", "Flextjänstnr", "Flexgrupp namn", "Flextyp",
     "Utförandeområde flextjänst", "Utförandeområde flexplats", "Hämtfrekvens",
     "Ind. körtursplan", "Körtursnamn"}

  /** The grouping column of the per-service rule. */
  const Key: string := "Flextjänstnr"

  // ---------------------------------------------------------------------------
  // Expected number of visits per year
  // ---------------------------------------------------------------------------

  /** A frequency that means once every other year. */
  predicate Biennial(s: string) {
    Contains(s, "vartannat år") || Contains(s, "vartannat-år")
  }

  /** The longest run of digits at the start of `s`. */
  function LeadingDigits(s: string): (d: string)
    ensures |d| <= |s| && AllDigits(d) && d == s[..|d|]
    ensures |d| < |s| ==> !IsDigit(s[|d|])
  {
    if |s| > 0 && IsDigit(s[0]) then [s[0]] + LeadingDigits(s[1..]) else []
  }

  /** The first match of the pattern `\d+`: the run of digits that starts at
      the first digit. */
  function FirstDigits(s: string): (r: Option<string>)
    ensures r.None? <==> forall i :: 0 <= i < |s| ==> !IsDigit(s[i])
    ensures r.Some? ==> |r.value| > 0 && AllDigits(r.value)
    ensures r.Some? ==> exists k :: 0 <= k < |s| && r.value == LeadingDigits(s[k..])
                          && forall j :: 0 <= j < k ==> !IsDigit(s[j])
  {
    match FirstIndex(s, IsDigit)
    case None => None
    case Some(k) => Some(LeadingDigits(s[k..]))
  }

  /** `expected_count_from_freq`: the expected number of rows of a service.
      Every other year means one; otherwise the first number in the text,
      when it lies in 1..12; otherwise nothing is expected. */
  function ExpectedCount(c: Cell): (r: Option<nat>)
    ensures c.Blank? ==> r.None?
    ensures r.Some? ==> 1 <= r.value <= 12
    ensures !c.Blank? && Biennial(Norm(c)) ==> r == Some(1)
    ensures !c.Blank? && !Biennial(Norm(c)) ==>
              (r.Some? <==> FirstDigits(Norm(c)).Some? && 1 <= DigitsValue(FirstDigits(Norm(c)).value) <= 12)
    ensures !c.Blank? && !Biennial(Norm(c)) && r.Some? ==> r.value == DigitsValue(FirstDigits(Norm(c)).value)
  {
    if c.Blank? then None
    else
      var s := Norm(c);
      if Biennial(s) then Some(1)
      else
        match FirstDigits(s)
        case None => None
        case Some(d) =>
          var v := DigitsValue(d);
          if 1 <= v <= 12 then Some(v) else None
  }

  /** A frequency written as a bare whole number expects that many rows when
      it lies in 1..12, and nothing otherwise. */
  lemma ExpectedCountOfNumber(c: Cell, n: nat)
    requires c == Num(n) || c == Text(NatToString(n))
    ensures ExpectedCount(c) == if 1 <= n <= 12 then Some(n) else None
  {
    var s := NatToString(n);
    NormOfNumeral(c, n);
    NumeralNotBiennial(s);
    NumeralFirstDigits(s);
    DigitsValueOfNatToString(n);
  }

  /** A whole number, as a number or as its digits, normalises to its digits. */
  lemma NormOfNumeral(c: Cell, n: nat)
    requires c == Num(n) || c == Text(NatToString(n))
    ensures !c.Blank? && Norm(c) == NatToString(n)
  {
    var s := NatToString(n);
    assert Str(c) == s;
    NormTextOfNormal(s);
  }

  /** Digits alone never say "every other year". */
  lemma NumeralNotBiennial(s: string)
    requires AllDigits(s)
    ensures !Biennial(s)
  {
    NotContainsAbsentChar(s, "vartannat år");
    NotContainsAbsentChar(s, "vartannat-år");
  }

  /** In a run of digits the first number is the whole run. */
  lemma NumeralFirstDigits(s: string)
    requires AllDigits(s) && |s| > 0
    ensures FirstDigits(s) == Some(s)
  {
    AllDigitsLead(s);
    assert FirstIndex(s, IsDigit) == Some(0);
    assert s[0..] == s;
  }

  /** A run of digits is its own leading run. */
  lemma {:induction false} AllDigitsLead(s: string)
    requires AllDigits(s)
    ensures LeadingDigits(s) == s
  {
    if |s| > 0 {
      AllDigitsLead(s[1..]);
    }
  }

  // ---------------------------------------------------------------------------
  // Week tokens
  // ---------------------------------------------------------------------------

  /** The number of white-space characters at the start of `s`. */
  function SpaceRun(s: string): (n: nat)
    ensures n <= |s|
    ensures forall i :: 0 <= i < n ==> IsSpace(s[i])
    ensures n < |s| ==> !IsSpace(s[n])
  {
    if |s| > 0 && IsSpace(s[0]) then 1 + SpaceRun(s[1..]) else 0
  }

  /** The length of a match of `vecka\s*\d{1,2}` at the start of `s`, if one
      starts there. White space is taken greedily and so are the digits. */
  function WeekMatch(s: string): (r: Option<nat>)
    ensures r.Some? ==> 6 <= r.value <= |s| && StartsWith(s, "vecka") && IsDigit(s[r.value - 1])
  {
    if !StartsWith(s, "vecka") then None
    else
      var j := 5 + SpaceRun(s[5..]);
      if j < |s| && IsDigit(s[j]) then
        Some(if j + 1 < |s| && IsDigit(s[j + 1]) then j + 2 else j + 1)
      else None
  }

  /** `re.findall(r'vecka\s*\d{1,2}', s)`: the texts of the non-overlapping
      matches, left to right, each search resuming where the last match
      ended. */
  function WeekTokens(s: string): seq<string> {
    Tokens(s, WeekMatch)
  }

  /** A text without digits names no week. */
  lemma NoDigitsNoWeeks(s: string)
    requires forall i :: 0 <= i < |s| ==> !IsDigit(s[i])
    ensures WeekTokens(s) == []
  {
    forall q | 0 <= q < |s|
      ensures WeekMatch(s[q..]).None?
    {
      NoMatchWithoutDigits(s[q..]);
    }
    NoMatchNoSpans(s, 0, WeekMatch);
  }

  /** No match starts in a text without digits. */
  lemma NoMatchWithoutDigits(t: string)
    requires forall i :: 0 <= i < |t| ==> !IsDigit(t[i])
    ensures WeekMatch(t).None?
  {
  }

  /** A plan that is exactly "vecka" and one digit names that one week. */
  lemma SingleWeek(d: char)
    requires IsDigit(d)
    ensures WeekTokens("vecka" + [d]) == ["vecka" + [d]]
  {
    var s := "vecka" + [d];
    assert s[5..] == [d];
    assert SpaceRun(s[5..]) == 0;
    assert s[0..] == s;
    assert WeekMatch(s[0..]) == Some(6);
    assert Spans(s, 6, WeekMatch) == [];
    assert Spans(s, 0, WeekMatch) == [(0, 6)];
    assert s[0..6] == s;
  }

  /** The text of one match of `vecka\s*\d{1,2}`, read off the pattern:
      "vecka", then white space, then one or two digits that end the text. */
  predicate WeekShape(t: string) {
    && |t| >= 6
    && StartsWith(t, "vecka")
    && IsDigit(t[|t| - 1])
    && forall i :: 5 <= i < |t| - 1 ==> IsSpace(t[i]) || (i == |t| - 2 && IsDigit(t[i]))
  }

  /** A match at the start of a text is a prefix of the pattern's shape, and
      the longest one: a match exists exactly when some prefix has the shape,
      and no longer prefix has it. */
  lemma WeekMatchLongest(s: string)
    ensures WeekMatch(s).Some? ==> WeekShape(s[..WeekMatch(s).value])
    ensures forall m :: 0 <= m <= |s| && WeekShape(s[..m]) ==> WeekMatch(s).Some? && m <= WeekMatch(s).value
  {
    if WeekMatch(s).Some? {
      var n := WeekMatch(s).value;
      var t := s[..n];
      assert t[..5] == s[..5];
      var j := 5 + SpaceRun(s[5..]);
      forall i | 5 <= i < n - 1
        ensures IsSpace(t[i]) || (i == n - 2 && IsDigit(t[i]))
      {
        assert s[5..][i - 5] == s[i];
      }
    }
    forall m | 0 <= m <= |s| && WeekShape(s[..m])
      ensures WeekMatch(s).Some? && m <= WeekMatch(s).value
    {
      WeekShapePrefix(s, m);
    }
  }

  /** A shaped prefix of length `m` forces a match of at least that length. */
  lemma WeekShapePrefix(s: string, m: nat)
    requires m <= |s| && WeekShape(s[..m])
    ensures WeekMatch(s).Some? && m <= WeekMatch(s).value
  {
    var t := s[..m];
    assert s[..5] == t[..5];
    var k := SpaceRun(s[5..]);
    var j := 5 + k;
    forall i | 5 <= i < j
      ensures IsSpace(s[i])
    {
      assert s[5..][i - 5] == s[i];
    }
    // the digit ending the prefix is not white space, so the run stops by then
    assert t[m - 1] == s[m - 1];
    assert j <= m - 1;
    assert !IsSpace(s[j]) by { assert s[5..][k] == s[j]; }
    assert t[j] == s[j];
    assert IsDigit(s[j]);
  }

  /** `re.findall` for the week pattern is sound: its tokens are the texts
      of the matches `re.finditer` finds, each occurring in the text where its
      span starts and shaped as the pattern says. */
  lemma WeekTokensSound(s: string)
    ensures |WeekTokens(s)| == |Spans(s, 0, WeekMatch)|
    ensures forall i :: 0 <= i < |WeekTokens(s)| ==>
              OccursAt(s, WeekTokens(s)[i], Spans(s, 0, WeekMatch)[i].0) && WeekShape(WeekTokens(s)[i])
  {
    forall i | 0 <= i < |WeekTokens(s)|
      ensures OccursAt(s, WeekTokens(s)[i], Spans(s, 0, WeekMatch)[i].0) && WeekShape(WeekTokens(s)[i])
    {
      WeekTokenAt(s, i);
    }
  }

  /** The `i`-th token occurs where its span starts and has the pattern's shape. */
  lemma WeekTokenAt(s: string, i: nat)
    requires i < |WeekTokens(s)|
    ensures OccursAt(s, WeekTokens(s)[i], Spans(s, 0, WeekMatch)[i].0) && WeekShape(WeekTokens(s)[i])
  {
    var q := Spans(s, 0, WeekMatch)[i].0;
    var n := Spans(s, 0, WeekMatch)[i].1;
    TokenSpan(s, WeekMatch, i);
    assert WeekTokens(s)[i] == s[q..q + n];
    MatchedToken(s, q, n);
  }

  /** The text of a match found at position `q` occurs there and has the
      pattern's shape. */
  lemma MatchedToken(s: string, q: nat, n: nat)
    requires q + n <= |s| && WeekMatch(s[q..]) == Some(n)
    ensures OccursAt(s, s[q..q + n], q) && WeekShape(s[q..q + n])
  {
    WeekMatchLongest(s[q..]);
    assert s[q..][..n] == s[q..q + n];
  }

  /** The week tokens come in text order and do not overlap: each ends at or
      before the start of the next. */
  lemma WeekTokensInOrder(s: string)
    ensures forall i, j :: 0 <= i < j < |WeekTokens(s)| ==>
              Spans(s, 0, WeekMatch)[i].0 + |WeekTokens(s)[i]| <= Spans(s, 0, WeekMatch)[j].0
  {
    SpansSound(s, 0, WeekMatch);
  }

  /** `re.findall` for the week pattern misses nothing: a position starts a
      token exactly when a match starts there and no earlier token covers it. */
  lemma WeekTokensComplete(s: string, q: nat)
    requires q < |s|
    ensures StartsSpan(Spans(s, 0, WeekMatch), q) <==>
              WeekMatch(s[q..]).Some? && !Covered(Spans(s, 0, WeekMatch), q)
  {
    SpansComplete(s, 0, WeekMatch, q);
  }

  /** `extract_week_tokens`: the week tokens of the lower-cased text; none for
      a missing value. Matches begin with a letter and end with a digit, so
      their stripping changes nothing. */
  function ExtractWeekTokens(c: Cell): (ts: seq<string>)
    ensures c.Blank? ==> ts == []
    ensures !c.Blank? ==> ts == WeekTokens(LowerStr(Str(c)))
  {
    if c.Blank? then [] else WeekTokens(LowerStr(Str(c)))
  }

  // ---------------------------------------------------------------------------
  // Row rule
  // ---------------------------------------------------------------------------

  /** Why a row is reported; each reason prints as a fixed message. */
  datatype Reason =
    | MissingServiceArea
    | MissingPlaceArea
    | AreaMismatch
    | MissingPlan
    | MissingRoute
    | BiennialNeedsParity
    | AbsentWeek(week: string)
    | CourierNeedsPlan
    | CourierNeedsRoute
    | PlanNeedsFrequency
    | PlanNeedsRoute
    | RouteNeedsCourier
    | MissingFrequency

  function Message(r: Reason): string {
    match r
    case MissingServiceArea => "Saknar Utförandeområde flextjänst"
    case MissingPlaceArea => "Saknar Utförandeområde flexplats"
    case AreaMismatch => "Utförandeområde flextjänst ≠ Utförandeområde flexplats"
    case MissingPlan => "Saknar Ind. körtursplan"
    case MissingRoute => "Saknar Körtursnamn"
    case BiennialNeedsParity => "Hämtfrekvens 'Vartannat år' kräver 'udda år' eller 'jämna år' i Ind. körtursplan"
    case AbsentWeek(wk) => "Ind. körtursplan innehåller '" + wk + "' men Körtursnamn innehåller inte '" + wk + "'"
    case CourierNeedsPlan => "Hämtfrekvens 'Bud' kräver 'Budning' i Ind. körtursplan"
    case CourierNeedsRoute => "Hämtfrekvens 'Bud' kräver 'bud' i Körtursnamn"
    case PlanNeedsFrequency => "Ind. körtursplan 'Budning' kräver Hämtfrekvens 'Bud'"
    case PlanNeedsRoute => "Ind. körtursplan 'Budning' kräver 'bud' i Körtursnamn"
    case RouteNeedsCourier => "Körtursnamn innehåller 'bud' men saknar Bud i Hämtfrekvens/Ind. körtursplan"
    case MissingFrequency => "Saknar Hämtfrekvens"
  }

  /** The messages of some reasons, in order. */
  function Messages(rs: seq<Reason>): (ms: seq<string>)
    ensures |ms| == |rs| && forall i :: 0 <= i < |rs| ==> ms[i] == Message(rs[i])
  {
    seq(|rs|, i requires 0 <= i < |rs| => Message(rs[i]))
  }

  /** What the row rule reads from one cell: whether it is missing
      (`pd.isna`), whether it is blank (missing, or only white space), and its
      normal form. */
  datatype Field = Field(missing: bool, blank: bool, norm: string)

  /** A missing cell is blank and normalises to the empty text. */
  predicate Consistent(f: Field) {
    f.missing ==> f.blank && f.norm == ""
  }

  function FieldOf(c: Cell): (f: Field)
    ensures f.missing <==> c.Blank?
    ensures f.blank <==> IsBlank(c)
    ensures f.norm == Norm(c)
    ensures Consistent(f)
  {
    Field(c.Blank?, IsBlank(c), Norm(c))
  }

  /** The two service areas: each must be present, and when both are present
      they must agree after normalising. */
  function AreaReasons(service: Field, place: Field): (r: seq<Reason>)
    requires Consistent(service) && Consistent(place)
    ensures r == [] <==> !service.blank && !place.blank && service.norm == place.norm
    ensures MissingServiceArea in r <==> service.blank
    ensures MissingPlaceArea in r <==> place.blank
    ensures AreaMismatch in r <==> !service.missing && !place.missing && service.norm != place.norm
  {
    (if service.blank then [MissingServiceArea] else [])
    + (if place.blank then [MissingPlaceArea] else [])
    + (if !service.missing && !place.missing && service.norm != place.norm then [AreaMismatch] else [])
  }

  /** The individual route plan and the route name must both be present. */
  function RouteReasons(plan: Field, route: Field): (r: seq<Reason>)
    ensures r == [] <==> !plan.blank && !route.blank
    ensures MissingPlan in r <==> plan.blank
    ensures MissingRoute in r <==> route.blank
  {
    (if plan.blank then [MissingPlan] else []) + (if route.blank then [MissingRoute] else [])
  }

  /** A collection every other year needs a plan naming odd or even years. */
  function BiennialReasons(freq: Field, plan: Field): (r: seq<Reason>)
    ensures r == [] <==>
              (!freq.missing && Contains(freq.norm, "vartannat år") ==>
                 Contains(plan.norm, "udda år") || Contains(plan.norm, "jämna år"))
    ensures r != [] ==> r == [BiennialNeedsParity]
  {
    if !freq.missing && Contains(freq.norm, "vartannat år")
       && !(Contains(plan.norm, "udda år") || Contains(plan.norm, "jämna år"))
    then [BiennialNeedsParity]
    else []
  }

  /** The plan's week tokens that the normalised route name does not contain. */
  function AbsentWeeks(tokens: seq<string>, route: string): (r: seq<string>)
    ensures forall i :: 0 <= i < |r| ==> r[i] in tokens && !Contains(route, r[i])
    ensures forall i :: 0 <= i < |tokens| && !Contains(route, tokens[i]) ==> tokens[i] in r
  {
    Filter(tokens, wk => !Contains(route, wk))
  }

  /** Every week a present plan names must appear in the normalised route
      name: one reason per absent week token, in plan order; a blank plan is
      not searched. */
  function WeekReasons(plan: Field, tokens: seq<string>, route: Field): (r: seq<Reason>)
    ensures plan.blank ==> r == []
    ensures !plan.blank ==> var absent := AbsentWeeks(tokens, route.norm);
              |r| == |absent| && forall i :: 0 <= i < |r| ==> r[i] == AbsentWeek(absent[i])
    ensures r == [] <==> (!plan.blank ==> forall i :: 0 <= i < |tokens| ==> Contains(route.norm, tokens[i]))
  {
    if plan.blank then []
    else
      var absent := AbsentWeeks(tokens, route.norm);
      assert absent == [] <==> forall i :: 0 <= i < |tokens| ==> Contains(route.norm, tokens[i]) by {
        if absent != [] {
          assert absent[0] in tokens;
        }
      }
      seq(|absent|, i requires 0 <= i < |absent| => AbsentWeek(absent[i]))
  }

  /** Week reasons are counted per token occurrence: splitting the tokens
      splits the reasons, so they follow plan order and a repeated absent
      token gives a reason each time. */
  lemma WeekReasonsAppend(plan: Field, a: seq<string>, b: seq<string>, route: Field)
    ensures WeekReasons(plan, a + b, route) == WeekReasons(plan, a, route) + WeekReasons(plan, b, route)
  {
    FilterAppend(a, b, wk => !Contains(route.norm, wk));
  }

  /** A single token gives one reason when the plan is present and the route
      name lacks it, and none otherwise. */
  lemma WeekReasonsOne(plan: Field, t: string, route: Field)
    ensures WeekReasons(plan, [t], route) ==
              if plan.blank || Contains(route.norm, t) then [] else [AbsentWeek(t)]
  {
    assert [t][1..] == [];
  }

  /** The courier rule over the normalised frequency, plan and route name. */
  function CourierReasons(freq: string, plan: string, route: string): (r: seq<Reason>)
    ensures |r| <= 5
  {
    var f := Contains(freq, "bud");
    var p := Contains(plan, "bud");
    var k := Contains(route, "bud");
    (if f && !p then [CourierNeedsPlan] else [])
    + (if f && !k then [CourierNeedsRoute] else [])
    + (if p && !f then [PlanNeedsFrequency] else [])
    + (if p && !k then [PlanNeedsRoute] else [])
    + (if k && !f && !p then [RouteNeedsCourier] else [])
  }

  /** The courier rule holds in both directions exactly when the frequency,
      the plan and the route name all mention "bud" or none of them does. */
  lemma CourierAgreement(freq: string, plan: string, route: string)
    ensures CourierReasons(freq, plan, route) == [] <==>
              (Contains(freq, "bud") <==> Contains(plan, "bud"))
              && (Contains(plan, "bud") <==> Contains(route, "bud"))
  {
  }

  /** The frequency itself must be present. */
  function FrequencyReasons(freq: Field): (r: seq<Reason>)
    ensures r == [] <==> !freq.blank
    ensures r != [] ==> r == [MissingFrequency]
  {
    if freq.blank then [MissingFrequency] else []
  }

  /** All reasons of one row, in the order the checks run. */
  function Reasons(service: Field, place: Field, freq: Field, plan: Field, tokens: seq<string>, route: Field): seq<Reason>
    requires Consistent(service) && Consistent(place)
  {
    AreaReasons(service, place)
    + RouteReasons(plan, route)
    + BiennialReasons(freq, plan)
    + WeekReasons(plan, tokens, route)
    + CourierReasons(freq.norm, plan.norm, route.norm)
    + FrequencyReasons(freq)
  }

  /** What the row rule demands, on the fields it reads. */
  predicate Acceptable(service: Field, place: Field, freq: Field, plan: Field, tokens: seq<string>, route: Field) {
    && !service.blank && !place.blank && service.norm == place.norm
    && !plan.blank && !route.blank && !freq.blank
    && (Contains(freq.norm, "vartannat år") ==> Contains(plan.norm, "udda år") || Contains(plan.norm, "jämna år"))
    && (forall i :: 0 <= i < |tokens| ==> Contains(route.norm, tokens[i]))
    && (Contains(freq.norm, "bud") <==> Contains(plan.norm, "bud"))
    && (Contains(plan.norm, "bud") <==> Contains(route.norm, "bud"))
  }

  /** A row has no reason exactly when it meets every requirement. */
  lemma ReasonsEmptyIff(service: Field, place: Field, freq: Field, plan: Field, tokens: seq<string>, route: Field)
    requires Consistent(service) && Consistent(place) && Consistent(freq)
    ensures Reasons(service, place, freq, plan, tokens, route) == [] <==>
              Acceptable(service, place, freq, plan, tokens, route)
  {
    CourierAgreement(freq.norm, plan.norm, route.norm);
  }

  /** The reasons of a row, read from its cells. */
  function RowReasons(row: Row): seq<Reason> {
    var plan := Get(row, "Ind. körtursplan");
    Reasons(FieldOf(Get(row, "Utförandeområde flextjänst")), FieldOf(Get(row, "Utförandeområde flexplats")),
            FieldOf(Get(row, "Hämtfrekvens")), FieldOf(plan), ExtractWeekTokens(plan),
            FieldOf(Get(row, "Körtursnamn")))
  }

  /** One report line: the identifying fields, the checked fields and the
      reason text. */
  datatype Record = Record(
    affarsenhet: Cell,
    kundnr: Cell,
    flexplatsadress: Cell,
    flextjanstnr: Cell,
    flexgruppNamn: Cell,
    flextyp: Cell,
    omradeTjanst: Cell,
    omradePlats: Cell,
    hamtfrekvens: Cell,
    indKortursplan: Cell,
    kortursnamn: Cell,
    orsak: string)

  /** A line showing a row's own fields, with `freq` in the frequency column. */
  function RecordOf(row: Row, key: Cell, freq: Cell, orsak: string): Record {
    Record(Get(row, "Affärsenhet"), Get(row, "Kundnr"), Get(row, "Flexplatsadress"), key,
           Get(row, "Flexgrupp namn"), Get(row, "Flextyp"),
           Get(row, "Utförandeområde flextjänst"), Get(row, "Utförandeområde flexplats"),
           freq, Get(row, "Ind. körtursplan"), Get(row, "Körtursnamn"), orsak)
  }

  /** The row rule: one record when the row has any reason, carrying all of
      them joined by "; " in check order. */
  function RowCheck(row: Row): (r: Option<Record>)
    ensures r.Some? <==> RowReasons(row) != []
    ensures r.Some? ==> r.value == RecordOf(row, Get(row, Key), Get(row, "Hämtfrekvens"), Join(Messages(RowReasons(row)), "; "))
  {
    var reasons := RowReasons(row);
    if reasons == [] then None
    else Some(RecordOf(row, Get(row, Key), Get(row, "Hämtfrekvens"), Join(Messages(reasons), "; ")))
  }

  /** A row is reported exactly when it breaks one of the requirements. */
  lemma RowPassesIff(row: Row)
    ensures var plan := Get(row, "Ind. körtursplan");
            RowCheck(row).None? <==>
              Acceptable(FieldOf(Get(row, "Utförandeområde flextjänst")), FieldOf(Get(row, "Utförandeområde flexplats")),
                         FieldOf(Get(row, "Hämtfrekvens")), FieldOf(plan), ExtractWeekTokens(plan),
                         FieldOf(Get(row, "Körtursnamn")))
  {
    var plan := Get(row, "Ind. körtursplan");
    ReasonsEmptyIff(FieldOf(Get(row, "Utförandeområde flextjänst")), FieldOf(Get(row, "Utförandeområde flexplats")),
                    FieldOf(Get(row, "Hämtfrekvens")), FieldOf(plan), ExtractWeekTokens(plan),
                    FieldOf(Get(row, "Körtursnamn")));
  }

  // ---------------------------------------------------------------------------
  // Service rule
  // ---------------------------------------------------------------------------

  /** The expected count each row's frequency gives, in row order. */
  function Expectations(g: seq<Row>): (es: seq<Option<nat>>)
    ensures |es| == |g| && forall i :: 0 <= i < |g| ==> es[i] == ExpectedCount(Get(g[i], "Hämtfrekvens"))
    ensures forall i :: 0 <= i < |es| && es[i].Some? ==> 1 <= es[i].value <= 12
  {
    seq(|g|, i requires 0 <= i < |g| => ExpectedCount(Get(g[i], "Hämtfrekvens")))
  }

  /** The distinct present values. */
  function Present(es: seq<Option<nat>>): (s: set<nat>)
    ensures forall e :: e in s <==> Some(e) in es
  {
    set i | 0 <= i < |es| && es[i].Some? :: es[i].value
  }

  /** The values present are all `n` exactly when the distinct values present
      are none or just `n`. */
  lemma PresentAllEqual(es: seq<Option<nat>>, n: nat)
    ensures (Present(es) == {} || Present(es) == {n}) <==>
              forall i :: 0 <= i < |es| && es[i].Some? ==> es[i].value == n
  {
    if forall i :: 0 <= i < |es| && es[i].Some? ==> es[i].value == n {
      assert Present(es) <= {n} by {
        forall e | e in Present(es) ensures e == n {
          var i :| 0 <= i < |es| && es[i] == Some(e);
        }
      }
    } else {
      var i :| 0 <= i < |es| && es[i].Some? && es[i].value != n;
      assert es[i].value in Present(es);
    }
  }

  /** The members of `s` from `lo` to 12, ascending. */
  function AscendingFrom(s: set<nat>, lo: nat): (r: seq<nat>)
    ensures forall i, j :: 0 <= i < j < |r| ==> r[i] < r[j]
    ensures forall i :: 0 <= i < |r| ==> lo <= r[i] <= 12 && r[i] in s
    ensures forall e :: e in s && lo <= e <= 12 ==> e in r
    decreases 13 - lo
  {
    if lo > 12 then []
    else (if lo in s then [lo] else []) + AscendingFrom(s, lo + 1)
  }

  /** `sorted(...)` of a set of expected counts. */
  function Sorted(s: set<nat>): (r: seq<nat>)
    requires forall e :: e in s ==> e <= 12
    ensures forall i, j :: 0 <= i < j < |r| ==> r[i] < r[j]
    ensures forall e :: e in s <==> e in r
  {
    AscendingFrom(s, 0)
  }

  /** A set with an element and no two different elements is that element alone. */
  lemma Singleton(s: set<nat>, e: nat)
    requires e in s && |s| <= 1
    ensures s == {e}
  {
    forall x | x in s ensures x == e {
      if x != e {
        assert |{x, e}| == 2;
        SubsetCard({x, e}, s);
      }
    }
  }

  /** A set with two different members has more than one. */
  lemma TwoMembers(s: set<nat>, a: nat, b: nat)
    requires a in s && b in s && a != b
    ensures |s| > 1
  {
    assert |{a, b}| == 2;
    SubsetCard({a, b}, s);
  }

  /** What the service rule concludes from a row count and the distinct
      expectations. */
  datatype Verdict = Pass | Inconsistent(expectations: seq<nat>) | WrongCount(expected: nat)

  function Judge(count: nat, es: set<nat>): (v: Verdict)
    requires forall e :: e in es ==> e <= 12
    ensures v.Pass? <==> es == {} || es == {count}
    ensures v.Inconsistent? <==> |es| > 1
    ensures v.Inconsistent? ==> v.expectations == Sorted(es)
    ensures v.WrongCount? ==> es == {v.expected} && count != v.expected
  {
    if es == {} then Pass
    else if |es| > 1 then Inconsistent(Sorted(es))
    else
      var expected := Sorted(es)[0];
      Singleton(es, expected);
      if count != expected then WrongCount(expected) else Pass
  }

  /** Python's printed form of a list of whole numbers, e.g. "[1, 4]". */
  function ListText(xs: seq<nat>): string {
    "[" + Join(seq(|xs|, i requires 0 <= i < |xs| => NatToString(xs[i])), ", ") + "]"
  }

  /** `str()` of each value, in order. */
  function Strs(cs: seq<Cell>): (r: seq<string>)
    ensures |r| == |cs| && forall i :: 0 <= i < |cs| ==> r[i] == Str(cs[i])
  {
    seq(|cs|, i requires 0 <= i < |cs| => Str(cs[i]))
  }

  function InconsistentReason(expected: seq<nat>): string {
    "Inkonsekventa Hämtfrekvenser inom flextjänst (ger förväntningar " + ListText(expected) + ")"
  }

  function CountReason(count: nat, expected: nat): string {
    "Flextjänstnr förekommer " + NatToString(count) + " gånger men förväntat " + NatToString(expected)
    + " enligt Hämtfrekvens"
  }

  /** The verdict on the rows of one service number. */
  function GroupVerdict(rows: seq<Row>, key: Cell): Verdict {
    Judge(|Group(rows, Key, key)|, Present(Expectations(Group(rows, Key, key))))
  }

  /** The rule for the rows of one service number. A group whose frequencies
      give two different expectations is reported with all its distinct
      frequencies listed; a group with one expectation is reported when its
      row count differs; a group with none is never reported. */
  function GroupCheck(rows: seq<Row>, key: Cell): (r: Option<Record>)
    ensures r.Some? <==> |Group(rows, Key, key)| > 0 && !GroupVerdict(rows, key).Pass?
    ensures r.Some? ==> r.value.flextjanstnr == key
    ensures r.Some? ==> r.value == RecordOf(Group(rows, Key, key)[0], key, r.value.hamtfrekvens, r.value.orsak)
    // two or more expectations: the distinct frequencies, first-seen, and the sorted expectations
    ensures r.Some? && GroupVerdict(rows, key).Inconsistent? ==>
              && r.value.hamtfrekvens == Text(Join(Strs(FirstSeenKeys(Group(rows, Key, key), "Hämtfrekvens")), ", "))
              && r.value.orsak == InconsistentReason(GroupVerdict(rows, key).expectations)
    // one expectation: the first row's frequency, the count and the expectation
    ensures r.Some? && GroupVerdict(rows, key).WrongCount? ==>
              && r.value.hamtfrekvens == Get(Group(rows, Key, key)[0], "Hämtfrekvens")
              && r.value.orsak == CountReason(|Group(rows, Key, key)|, GroupVerdict(rows, key).expected)
  {
    var g := Group(rows, Key, key);
    if |g| == 0 then None
    else
      match GroupVerdict(rows, key)
      case Pass => None
      case Inconsistent(expected) =>
        var freqs := Text(Join(Strs(FirstSeenKeys(g, "Hämtfrekvens")), ", "));
        Some(RecordOf(g[0], key, freqs, InconsistentReason(expected)))
      case WrongCount(expected) =>
        Some(RecordOf(g[0], key, Get(g[0], "Hämtfrekvens"), CountReason(|g|, expected)))
  }

  /** A service passes exactly when every expectation its rows give equals
      its number of rows. */
  lemma GroupPassesIff(rows: seq<Row>, key: Cell)
    requires |Group(rows, Key, key)| > 0
    ensures var g := Group(rows, Key, key);
            var es := Expectations(g);
            GroupCheck(rows, key).None? <==> forall i :: 0 <= i < |g| && es[i].Some? ==> es[i].value == |g|
  {
    var g := Group(rows, Key, key);
    PresentAllEqual(Expectations(g), |g|);
  }

  /** Two rows of a service with different expectations make it reported as
      inconsistent, whatever its row count. */
  lemma TwoExpectationsReported(rows: seq<Row>, key: Cell, i: nat, j: nat)
    requires var es := Expectations(Group(rows, Key, key));
             i < |es| && j < |es| && es[i].Some? && es[j].Some? && es[i] != es[j]
    ensures GroupCheck(rows, key).Some? && GroupVerdict(rows, key).Inconsistent?
  {
    var g := Group(rows, Key, key);
    var es := Expectations(g);
    var p := Present(es);
    var a := es[i].value;
    var b := es[j].value;
    assert a in p && b in p;
    TwoMembers(p, a, b);
    var v := Judge(|g|, p);
    assert GroupVerdict(rows, key) == v;
    assert v.Inconsistent?;
  }

  /** The rule as a function of the service number. */
  function GroupRule(rows: seq<Row>): Cell -> Option<Record> {
    key => GroupCheck(rows, key)
  }

  // ---------------------------------------------------------------------------
  // The whole run
  // ---------------------------------------------------------------------------

  /** The row records, in row order: one per row with any reason. */
  function RowRecords(rows: seq<Row>): (r: seq<Record>)
    ensures |r| == CountSome(rows, RowCheck)
    ensures forall rec :: rec in r <==> exists i :: 0 <= i < |rows| && RowCheck(rows[i]) == Some(rec)
  {
    CollectSpec(rows, RowCheck);
    Collect(rows, RowCheck)
  }

  /** Splitting the table splits the row records, so they keep row order. */
  lemma RowRecordsKeepRowOrder(a: seq<Row>, b: seq<Row>)
    ensures RowRecords(a + b) == RowRecords(a) + RowRecords(b)
  {
    CollectAppend(a, b, RowCheck);
  }

  /** The service records, visiting the service numbers in `order`: at most
      one per service number, exactly for the failing ones. */
  function ServiceRecords(rows: seq<Row>, order: seq<Cell>): (r: seq<Record>)
    requires IsKeyOrder(order, rows, Key)
    ensures |r| == CountSome(order, GroupRule(rows))
    ensures forall i, j :: 0 <= i < j < |r| ==> r[i].flextjanstnr != r[j].flextjanstnr
    ensures forall k :: k in KeySet(rows, Key) ==>
              ((exists rec :: rec in r && rec.flextjanstnr == k) <==> GroupCheck(rows, k).Some?)
    ensures forall rec :: rec in r ==> rec.flextjanstnr in KeySet(rows, Key)
    // each record is the one its service number's group check gives
    ensures forall rec :: rec in r ==> GroupCheck(rows, rec.flextjanstnr) == Some(rec)
  {
    var f := GroupRule(rows);
    CollectCount(order, f);
    CollectKeysDistinct(order, f, (rec: Record) => rec.flextjanstnr);
    forall k | k in KeySet(rows, Key)
      ensures (exists rec :: rec in Collect(order, f) && rec.flextjanstnr == k) <==> GroupCheck(rows, k).Some?
    {
      CollectKeyMember(order, f, (rec: Record) => rec.flextjanstnr, k);
    }
    CollectKeyMember(order, f, (rec: Record) => rec.flextjanstnr, Blank);
    Collect(order, f)
  }

  /** `process_slamanlaggningar`: the missing required columns, or the row
      records followed by the service records. */
  function Process(t: Table, order: seq<Cell>): (r: Result<seq<Record>, Fault>)
    requires IsKeyOrder(order, t.rows, Key)
    ensures r.Failure? <==> !(Required <= ColumnSet(t))
    ensures r.Failure? ==> r.error == MissingColumns(Missing(Required, t))
    // every row record precedes every service record
    ensures r.Success? ==> var n := |RowRecords(t.rows)|;
              && n <= |r.value|
              && r.value[..n] == RowRecords(t.rows)
              && r.value[n..] == ServiceRecords(t.rows, order)
  {
    var missing := Missing(Required, t);
    if missing != {} then Failure(MissingColumns(missing))
    else
      var rowRecs := RowRecords(t.rows);
      var groupRecs := ServiceRecords(t.rows, order);
      assert (rowRecs + groupRecs)[..|rowRecs|] == rowRecs;
      assert (rowRecs + groupRecs)[|rowRecs|..] == groupRecs;
      Success(rowRecs + groupRecs)
  }
}
