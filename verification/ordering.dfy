/** Python's ordering of `str` values and `sorted(set(values))`, which the
    frequency-comparison engine uses to list the distinct frequency texts and
    service numbers of a location. */
module Ordering {

  /** `a < b` on Python strings: code-point lexicographic order, where a proper
      prefix comes first. */
  predicate Below(a: string, b: string)
    decreases |a|
  {
    if |a| == 0 then |b| > 0
    else |b| > 0 && (a[0] < b[0] || (a[0] == b[0] && Below(a[1..], b[1..])))
  }

  lemma {:induction false} BelowIrreflexive(a: string)
    ensures !Below(a, a)
    decreases |a|
  {
    if |a| > 0 {
      BelowIrreflexive(a[1..]);
    }
  }

  lemma {:induction false} BelowTransitive(a: string, b: string, c: string)
    requires Below(a, b) && Below(b, c)
    ensures Below(a, c)
    decreases |a|
  {
    if |a| > 0 && a[0] == b[0] && b[0] == c[0] {
      BelowTransitive(a[1..], b[1..], c[1..]);
    }
  }

  /** Any two different strings are ordered one way or the other. */
  lemma {:induction false} BelowTotal(a: string, b: string)
    ensures a == b || Below(a, b) || Below(b, a)
    decreases |a|
  {
    if |a| > 0 && |b| > 0 && a[0] == b[0] {
      BelowTotal(a[1..], b[1..]);
      if a[1..] == b[1..] {
        assert a == [a[0]] + a[1..] && b == [b[0]] + b[1..];
      }
    }
  }

  /** Strictly ascending: sorted and without duplicates. */
  predicate Ascending(s: seq<string>) {
    forall i, j :: 0 <= i < j < |s| ==> Below(s[i], s[j])
  }

  /** Puts `x` into its place in an ascending sequence, unless it is already there. */
  function Insert(x: string, s: seq<string>): (r: seq<string>)
    requires Ascending(s)
    ensures Ascending(r)
    ensures forall y :: y in r <==> y == x || y in s
    decreases |s|
  {
    if |s| == 0 then [x]
    else if x == s[0] then s
    else if Below(x, s[0]) then
      assert forall j :: 0 < j < |s| ==> Below(x, s[j]) by {
        forall j | 0 < j < |s| {
          BelowTransitive(x, s[0], s[j]);
        }
      }
      [x] + s
    else
      var rest := Insert(x, s[1..]);
      BelowTotal(x, s[0]);
      assert forall y :: y in rest ==> Below(s[0], y);
      [s[0]] + rest
  }

  /** `sorted(set(xs))`: the distinct values of `xs` in ascending order. */
  function SortedSet(xs: seq<string>): (r: seq<string>)
    ensures Ascending(r)
    ensures forall y :: y in r <==> y in xs
  {
    if |xs| == 0 then [] else Insert(xs[|xs| - 1], SortedSet(xs[..|xs| - 1]))
  }

  /** The first element of an ascending sequence is its least. */
  lemma HeadIsLeast(s: seq<string>, y: string)
    requires Ascending(s) && y in s
    ensures y == s[0] || Below(s[0], y)
  {
  }

  /** An ascending sequence has as many distinct values as elements. */
  lemma {:induction false} AscendingCard(s: seq<string>)
    requires Ascending(s)
    ensures |set y | y in s| == |s|
  {
    if |s| > 0 {
      AscendingCard(s[1..]);
      assert (set y | y in s) == {s[0]} + (set y | y in s[1..]);
      BelowIrreflexive(s[0]);
      assert s[0] !in s[1..];
    }
  }

  /** An ascending sequence is fixed by its elements, so `SortedSet` is the
      only ascending listing of the distinct values. */
  lemma {:induction false} AscendingUnique(a: seq<string>, b: seq<string>)
    requires Ascending(a) && Ascending(b)
    requires forall y :: y in a <==> y in b
    ensures a == b
    decreases |a|
  {
    assert (set y | y in a) == (set y | y in b);
    AscendingCard(a);
    AscendingCard(b);
    if |a| > 0 {
      assert a[0] == b[0] by {
        HeadIsLeast(a, b[0]);
        HeadIsLeast(b, a[0]);
        if a[0] != b[0] {
          BelowTransitive(a[0], b[0], a[0]);
          BelowIrreflexive(a[0]);
        }
      }
      forall y | y in a[1..]
        ensures y in b[1..]
      {
        var i :| 1 <= i < |a| && a[i] == y;
        assert Below(a[0], a[i]);
        BelowIrreflexive(y);
        assert y in b && y != b[0];
      }
      forall y | y in b[1..]
        ensures y in a[1..]
      {
        var i :| 1 <= i < |b| && b[i] == y;
        assert Below(b[0], b[i]);
        BelowIrreflexive(y);
        assert y in a && y != a[0];
      }
      AscendingUnique(a[1..], b[1..]);
      assert a == [a[0]] + a[1..] && b == [b[0]] + b[1..];
    }
  }
}
