/** Emitting an ordered list of records from an ordered list of inputs: every
    engine walks its rows (or its group keys) in order and appends at most one
    record per input. */
module Seqs {
  import opened Wrappers

  /** No value occurs twice. */
  predicate Distinct<T(==)>(s: seq<T>) {
    forall i, j :: 0 <= i < j < |s| ==> s[i] != s[j]
  }

  /** The position of the first element satisfying `p`, if any. */
  function FirstIndex<T>(xs: seq<T>, p: T -> bool): (r: Option<nat>)
    ensures r.Some? ==> r.value < |xs| && p(xs[r.value])
    ensures r.Some? ==> forall j :: 0 <= j < r.value ==> !p(xs[j])
    ensures r.None? ==> forall i :: 0 <= i < |xs| ==> !p(xs[i])
  {
    if |xs| == 0 then None
    else if p(xs[0]) then Some(0)
    else
      match FirstIndex(xs[1..], p)
      case None => None
      case Some(k) => Some(k + 1)
  }

  /** Some element satisfies `p` exactly when there is a first one. */
  lemma FirstIndexFound<T>(xs: seq<T>, p: T -> bool)
    requires exists i :: 0 <= i < |xs| && p(xs[i])
    ensures FirstIndex(xs, p).Some?
  {
  }

  /** The records `f` yields for the inputs, in input order; an input for which
      `f` yields `None` contributes nothing. */
  function Collect<T, U>(xs: seq<T>, f: T -> Option<U>): (r: seq<U>)
    ensures |r| <= |xs|
  {
    if |xs| == 0 then []
    else
      match f(xs[0])
      case Some(y) => [y] + Collect(xs[1..], f)
      case None => Collect(xs[1..], f)
  }

  /** How many inputs yield a record. */
  function CountSome<T, U>(xs: seq<T>, f: T -> Option<U>): nat {
    if |xs| == 0 then 0 else (if f(xs[0]).Some? then 1 else 0) + CountSome(xs[1..], f)
  }

  /** One record per input that yields one: the number of records is the number
      of flagged inputs. */
  lemma {:induction false} CollectCount<T, U>(xs: seq<T>, f: T -> Option<U>)
    ensures |Collect(xs, f)| == CountSome(xs, f)
  {
    if |xs| > 0 {
      CollectCount(xs[1..], f);
    }
  }

  /** Records keep input order: the records of a prefix come before those of the
      rest. */
  lemma {:induction false} CollectAppend<T, U>(a: seq<T>, b: seq<T>, f: T -> Option<U>)
    ensures Collect(a + b, f) == Collect(a, f) + Collect(b, f)
  {
    if |a| > 0 {
      assert (a + b)[1..] == a[1..] + b;
      CollectAppend(a[1..], b, f);
    } else {
      assert a + b == b;
    }
  }

  /** A value is a record exactly when some input yields it. */
  lemma {:induction false} CollectMember<T, U>(xs: seq<T>, f: T -> Option<U>, y: U)
    ensures y in Collect(xs, f) <==> exists i :: 0 <= i < |xs| && f(xs[i]) == Some(y)
  {
    if |xs| > 0 {
      CollectMember(xs[1..], f, y);
      if exists i :: 0 <= i < |xs| && f(xs[i]) == Some(y) {
        var i :| 0 <= i < |xs| && f(xs[i]) == Some(y);
        if i > 0 {
          assert f(xs[1..][i - 1]) == Some(y);
        }
      }
      if exists i :: 0 <= i < |xs[1..]| && f(xs[1..][i]) == Some(y) {
        var i :| 0 <= i < |xs[1..]| && f(xs[1..][i]) == Some(y);
        assert f(xs[i + 1]) == Some(y);
      }
    }
  }

  /** Both facts about `Collect` at once: how many records, and which. */
  lemma CollectSpec<T, U>(xs: seq<T>, f: T -> Option<U>)
    ensures |Collect(xs, f)| == CountSome(xs, f)
    ensures forall y :: y in Collect(xs, f) <==> exists i :: 0 <= i < |xs| && f(xs[i]) == Some(y)
  {
    CollectCount(xs, f);
    forall y {
      CollectMember(xs, f, y);
    }
  }

  /** When every record names the input it came from and no input repeats, no
      two records name the same input: at most one record per key. */
  lemma {:induction false} CollectKeysDistinct<T, U>(xs: seq<T>, f: T -> Option<U>, key: U -> T)
    requires Distinct(xs)
    requires forall x :: f(x).Some? ==> key(f(x).value) == x
    ensures forall i, j :: 0 <= i < j < |Collect(xs, f)| ==>
              key(Collect(xs, f)[i]) != key(Collect(xs, f)[j])
  {
    if |xs| > 0 {
      var rest := Collect(xs[1..], f);
      CollectKeysDistinct(xs[1..], f, key);
      if f(xs[0]).Some? {
        forall j | 0 <= j < |rest|
          ensures key(rest[j]) != xs[0]
        {
          CollectMember(xs[1..], f, rest[j]);
          var i :| 0 <= i < |xs[1..]| && f(xs[1..][i]) == Some(rest[j]);
          assert xs[1..][i] == xs[i + 1];
        }
        assert Collect(xs, f) == [f(xs[0]).value] + rest;
      }
    }
  }

  /** When every record names the input it came from, an input is named by
      some record exactly when it yields one, and every record names an input
      and is the very record that input yields. */
  lemma CollectKeyMember<T, U>(xs: seq<T>, f: T -> Option<U>, key: U -> T, x: T)
    requires forall x :: f(x).Some? ==> key(f(x).value) == x
    ensures x in xs ==> ((exists y :: y in Collect(xs, f) && key(y) == x) <==> f(x).Some?)
    ensures forall y :: y in Collect(xs, f) ==> key(y) in xs && f(key(y)) == Some(y)
  {
    if x in xs && f(x).Some? {
      var i :| 0 <= i < |xs| && xs[i] == x;
      CollectMember(xs, f, f(x).value);
    }
    if exists y :: y in Collect(xs, f) && key(y) == x {
      var y :| y in Collect(xs, f) && key(y) == x;
      CollectMember(xs, f, y);
    }
    forall y | y in Collect(xs, f)
      ensures key(y) in xs && f(key(y)) == Some(y)
    {
      CollectMember(xs, f, y);
    }
  }

  /** The elements satisfying `p`, in order. */
  function Filter<T>(xs: seq<T>, p: T -> bool): (r: seq<T>)
    ensures |r| <= |xs|
    ensures forall i :: 0 <= i < |r| ==> r[i] in xs && p(r[i])
    ensures forall i :: 0 <= i < |xs| && p(xs[i]) ==> xs[i] in r
  {
    if |xs| == 0 then []
    else (if p(xs[0]) then [xs[0]] else []) + Filter(xs[1..], p)
  }

  /** Filtering a concatenation filters each part, keeping their order. */
  lemma {:induction false} FilterAppend<T>(a: seq<T>, b: seq<T>, p: T -> bool)
    ensures Filter(a + b, p) == Filter(a, p) + Filter(b, p)
  {
    if |a| == 0 {
      assert a + b == b;
    } else {
      assert (a + b)[0] == a[0];
      assert (a + b)[1..] == a[1..] + b;
      FilterAppend(a[1..], b, p);
    }
  }

  /** The largest of the present values, or None when no value is present. */
  function MaxSome(xs: seq<Option<nat>>): (m: Option<nat>)
    ensures m.None? <==> forall i :: 0 <= i < |xs| ==> xs[i].None?
    ensures m.Some? ==> m in xs
    ensures m.Some? ==> forall i :: 0 <= i < |xs| && xs[i].Some? ==> xs[i].value <= m.value
  {
    if |xs| == 0 then None
    else
      var rest := MaxSome(xs[1..]);
      assert forall i :: 1 <= i < |xs| ==> xs[i] == xs[1..][i - 1];
      match xs[0]
      case None => rest
      case Some(x) =>
        match rest
        case None => Some(x)
        case Some(y) => if x < y then rest else xs[0]
  }

  /** The records `f` yields for each input, concatenated in input order; the
      first input for which `f` fails makes the whole run fail with its error. */
  function Concat<T, U(==), E(==)>(xs: seq<T>, f: T -> Result<seq<U>, E>): (r: Result<seq<U>, E>)
    ensures r.Failure? <==> exists i :: 0 <= i < |xs| && f(xs[i]).Failure?
    ensures r.Failure? ==> exists i :: 0 <= i < |xs| && f(xs[i]) == Failure(r.error)
                             && forall j :: 0 <= j < i ==> f(xs[j]).Success?
  {
    if |xs| == 0 then Success([])
    else
      var first := f(xs[0]);
      var rest := Concat(xs[1..], f);
      assert forall i :: 1 <= i < |xs| ==> xs[i] == xs[1..][i - 1];
      if first.Failure? then Failure(first.error)
      else if rest.Failure? then
        var i :| 0 <= i < |xs[1..]| && f(xs[1..][i]) == Failure(rest.error)
                 && forall j :: 0 <= j < i ==> f(xs[1..][j]).Success?;
        assert f(xs[i + 1]) == Failure(rest.error);
        Failure(rest.error)
      else Success(first.value + rest.value)
  }

  /** A successful run over a concatenation succeeds on each part, and its
      records are the first part's followed by the second part's. */
  lemma {:induction false} ConcatAppend<T, U, E>(a: seq<T>, b: seq<T>, f: T -> Result<seq<U>, E>)
    requires Concat(a + b, f).Success?
    ensures Concat(a, f).Success? && Concat(b, f).Success?
    ensures Concat(a + b, f).value == Concat(a, f).value + Concat(b, f).value
  {
    if |a| == 0 {
      assert a + b == b;
    } else {
      assert (a + b)[0] == a[0];
      assert (a + b)[1..] == a[1..] + b;
      ConcatAppend(a[1..], b, f);
    }
  }

  /** A successful run holds exactly the records of every input's result. */
  lemma {:induction false} ConcatMember<T, U, E>(xs: seq<T>, f: T -> Result<seq<U>, E>, y: U)
    requires Concat(xs, f).Success?
    ensures y in Concat(xs, f).value <==> exists i :: 0 <= i < |xs| && y in f(xs[i]).value
  {
    if |xs| > 0 {
      ConcatMember(xs[1..], f, y);
      if exists i :: 0 <= i < |xs| && y in f(xs[i]).value {
        var i :| 0 <= i < |xs| && y in f(xs[i]).value;
        if i > 0 {
          assert xs[i] == xs[1..][i - 1];
        }
      }
      if exists i :: 0 <= i < |xs[1..]| && y in f(xs[1..][i]).value {
        var i :| 0 <= i < |xs[1..]| && y in f(xs[1..][i]).value;
        assert xs[1..][i] == xs[i + 1];
      }
    }
  }

  /** When every input yields a record, there is one record per input, in
      input order. */
  lemma {:induction false} CollectAll<T, U>(xs: seq<T>, f: T -> Option<U>)
    requires forall i :: 0 <= i < |xs| ==> f(xs[i]).Some?
    ensures |Collect(xs, f)| == |xs|
    ensures forall i :: 0 <= i < |xs| ==> Collect(xs, f)[i] == f(xs[i]).value
  {
    if |xs| > 0 {
      CollectAll(xs[1..], f);
      assert Collect(xs, f) == [f(xs[0]).value] + Collect(xs[1..], f);
      forall i | 0 < i < |xs|
        ensures Collect(xs, f)[i] == f(xs[i]).value
      {
        assert xs[i] == xs[1..][i - 1];
      }
    }
  }

  /** A subset is no larger than its superset. */
  lemma {:induction false} SubsetCard<T>(a: set<T>, b: set<T>)
    requires a <= b
    ensures |a| <= |b|
  {
    if a != {} {
      var x :| x in a;
      SubsetCard(a - {x}, b - {x});
    }
  }

  // ---------------------------------------------------------------------------
  // Scanning for matches, as `re.findall` and `re.finditer` do
  // ---------------------------------------------------------------------------

  /** A matcher reports, for the text at hand, the length of a match that
      starts at its beginning. Matches are never empty and never run past the
      end of the text. */
  ghost predicate Advances<T(!new)>(m: seq<T> -> Option<nat>) {
    forall t :: m(t).Some? ==> 1 <= m(t).value <= |t|
  }

  /** `re.finditer` scanning from position `p`: the start and length of each
      match, left to right, each search resuming where the last match ended. */
  function Spans<T(!new)>(s: seq<T>, p: nat, m: seq<T> -> Option<nat>): seq<(nat, nat)>
    requires p <= |s| && Advances(m)
    decreases |s| - p
  {
    if p == |s| then []
    else
      match m(s[p..])
      case Some(n) => [(p, n)] + Spans(s, p + n, m)
      case None => Spans(s, p + 1, m)
  }

  /** Every span lies inside the text and is a match where it starts, and the
      spans follow one another without overlapping. */
  lemma {:induction false} SpansSound<T(!new)>(s: seq<T>, p: nat, m: seq<T> -> Option<nat>)
    requires p <= |s| && Advances(m)
    ensures forall i :: 0 <= i < |Spans(s, p, m)| ==>
              && p <= Spans(s, p, m)[i].0
              && Spans(s, p, m)[i].0 + Spans(s, p, m)[i].1 <= |s|
              && m(s[Spans(s, p, m)[i].0..]) == Some(Spans(s, p, m)[i].1)
    ensures forall i, j :: 0 <= i < j < |Spans(s, p, m)| ==>
              Spans(s, p, m)[i].0 + Spans(s, p, m)[i].1 <= Spans(s, p, m)[j].0
    decreases |s| - p
  {
    if p < |s| {
      var r := Spans(s, p, m);
      match m(s[p..])
      case Some(n) =>
        SpansSound(s, p + n, m);
        var rest := Spans(s, p + n, m);
        assert r == [(p, n)] + rest;
        forall i | 0 <= i < |r|
          ensures p <= r[i].0 && r[i].0 + r[i].1 <= |s| && m(s[r[i].0..]) == Some(r[i].1)
        {
          if i > 0 {
            assert r[i] == rest[i - 1];
          }
        }
        forall i, j | 0 <= i < j < |r|
          ensures r[i].0 + r[i].1 <= r[j].0
        {
          assert r[j] == rest[j - 1];
          if i > 0 {
            assert r[i] == rest[i - 1];
          }
        }
      case None =>
        SpansSound(s, p + 1, m);
        assert r == Spans(s, p + 1, m);
    }
  }

  /** The text a span covers. */
  function SpanText<T>(s: seq<T>, span: (nat, nat)): seq<T>
    requires span.0 + span.1 <= |s|
  {
    s[span.0..span.0 + span.1]
  }

  /** Where no match starts, the scan finds nothing. */
  lemma {:induction false} NoMatchNoSpans<T(!new)>(s: seq<T>, p: nat, m: seq<T> -> Option<nat>)
    requires p <= |s| && Advances(m)
    requires forall q :: p <= q < |s| ==> m(s[q..]).None?
    ensures Spans(s, p, m) == []
    decreases |s| - p
  {
    if p < |s| {
      NoMatchNoSpans(s, p + 1, m);
    }
  }

  /** `re.findall`: the texts of the matches `re.finditer` finds, in order. */
  function Tokens<T(!new)>(s: seq<T>, m: seq<T> -> Option<nat>): (ts: seq<seq<T>>)
    requires Advances(m)
    ensures |ts| == |Spans(s, 0, m)|
    ensures forall i :: 0 <= i < |ts| ==>
              Spans(s, 0, m)[i].0 + Spans(s, 0, m)[i].1 <= |s| && ts[i] == SpanText(s, Spans(s, 0, m)[i])
  {
    var r := Spans(s, 0, m);
    SpansSound(s, 0, m);
    seq(|r|, i requires 0 <= i < |r| => SpanText(s, r[i]))
  }

  /** The `i`-th found text is the match at the `i`-th span. */
  lemma TokenSpan<T(!new)>(s: seq<T>, m: seq<T> -> Option<nat>, i: nat)
    requires Advances(m) && i < |Tokens(s, m)|
    ensures Spans(s, 0, m)[i].0 + Spans(s, 0, m)[i].1 <= |s|
    ensures m(s[Spans(s, 0, m)[i].0..]) == Some(Spans(s, 0, m)[i].1)
    ensures Tokens(s, m)[i] == s[Spans(s, 0, m)[i].0..Spans(s, 0, m)[i].0 + Spans(s, 0, m)[i].1]
  {
    SpansSound(s, 0, m);
  }

  /** Whether some span strictly covers position `q` past its start. */
  predicate Covered(r: seq<(nat, nat)>, q: nat) {
    exists i :: 0 <= i < |r| && r[i].0 < q < r[i].0 + r[i].1
  }

  /** Whether some span starts at position `q`. */
  predicate StartsSpan(r: seq<(nat, nat)>, q: nat) {
    exists i :: 0 <= i < |r| && r[i].0 == q
  }

  /** A position is the start of a span exactly when a match starts there and
      no span covers it. */
  lemma SpansComplete<T(!new)>(s: seq<T>, p: nat, m: seq<T> -> Option<nat>, q: nat)
    requires p <= q < |s| && Advances(m)
    ensures StartsSpan(Spans(s, p, m), q) <==> m(s[q..]).Some? && !Covered(Spans(s, p, m), q)
  {
    SpanStartsMatch(s, p, m, q);
    UncoveredMatchStartsSpan(s, p, m, q);
  }

  /** A span starts where a match starts, and no other span covers it. */
  lemma SpanStartsMatch<T(!new)>(s: seq<T>, p: nat, m: seq<T> -> Option<nat>, q: nat)
    requires p <= q < |s| && Advances(m)
    ensures StartsSpan(Spans(s, p, m), q) ==> m(s[q..]).Some? && !Covered(Spans(s, p, m), q)
  {
    var r := Spans(s, p, m);
    SpansSound(s, p, m);
    if StartsSpan(r, q) {
      var i :| 0 <= i < |r| && r[i].0 == q;
      forall j | 0 <= j < |r|
        ensures !(r[j].0 < q < r[j].0 + r[j].1)
      {
        if j < i {
          assert r[j].0 + r[j].1 <= r[i].0;
        } else if j > i {
          assert r[i].0 + r[i].1 <= r[j].0;
        }
      }
    }
  }

  /** The scan misses no match: a match that no span covers is a span. */
  lemma {:induction false} UncoveredMatchStartsSpan<T(!new)>(s: seq<T>, p: nat, m: seq<T> -> Option<nat>, q: nat)
    requires p <= q < |s| && Advances(m)
    ensures m(s[q..]).Some? && !Covered(Spans(s, p, m), q) ==> StartsSpan(Spans(s, p, m), q)
    decreases |s| - p, 1
  {
    match m(s[p..])
    case Some(n) =>
      UncoveredPastMatch(s, p, m, q, n);
    case None =>
      if q > p {
        UncoveredMatchStartsSpan(s, p + 1, m, q);
      }
  }

  /** The step of the scan that takes a match of length `n` at `p`. */
  lemma {:induction false} UncoveredPastMatch<T(!new)>(s: seq<T>, p: nat, m: seq<T> -> Option<nat>, q: nat, n: nat)
    requires p <= q < |s| && Advances(m) && m(s[p..]) == Some(n)
    ensures m(s[q..]).Some? && !Covered(Spans(s, p, m), q) ==> StartsSpan(Spans(s, p, m), q)
    decreases |s| - p, 0
  {
    var r := Spans(s, p, m);
    var rest := Spans(s, p + n, m);
    assert r == [(p, n)] + rest;
    if q == p {
      assert r[0].0 == q;
    } else if q < p + n {
      assert r[0].0 < q < r[0].0 + r[0].1;
    } else {
      UncoveredMatchStartsSpan(s, p + n, m, q);
      if Covered(rest, q) {
        var i :| 0 <= i < |rest| && rest[i].0 < q < rest[i].0 + rest[i].1;
        assert r[i + 1] == rest[i];
      }
      if StartsSpan(rest, q) {
        var i :| 0 <= i < |rest| && rest[i].0 == q;
        assert r[i + 1] == rest[i];
      }
    }
  }
}
