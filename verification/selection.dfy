/** The 0/1 rider-selection problem that both team builders hand to an
    integer-programming solver: one binary variable per row of the rider
    table, an objective (summed EV), an exact roster size, a budget cap, an
    optional cap on riders per team, and per-row pins (x == 1 for forced
    riders, x == 0 for excluded ones). A selection is a mask over the rows.

    The solver itself is replaced by an exhaustive include/exclude search over
    the rows, proved to return a feasible mask of maximal value, or None
    exactly when no mask is feasible. */
module Selection {
  import opened Common

  /** One row of a rider table, as the solvers read it: name ('Renner'),
      team ('Ploeg' / 'Team'), price ('Prijs') and expected value ('EV' or
      'CF_EV'). Prices and values are exact reals. */
  datatype Rider = Rider(name: string, team: string, price: real, ev: real)

  /** The rows of xs whose mask bit is set, in their original order. */
  function Filter<T>(xs: seq<T>, m: seq<bool>): (r: seq<T>)
    requires |xs| == |m|
    ensures |r| <= |xs|
    decreases |m|
  {
    if |m| == 0 then []
    else Filter(xs[..|xs| - 1], m[..|m| - 1]) + (if m[|m| - 1] then [xs[|xs| - 1]] else [])
  }

  function Names(rs: seq<Rider>): (ns: seq<string>)
    ensures |ns| == |rs|
    ensures forall i :: 0 <= i < |rs| ==> ns[i] == rs[i].name
  {
    seq(|rs|, i requires 0 <= i < |rs| => rs[i].name)
  }

  function SumPrice(rs: seq<Rider>): real
  {
    if rs == [] then 0.0 else SumPrice(rs[..|rs| - 1]) + rs[|rs| - 1].price
  }

  function SumEv(rs: seq<Rider>): real
  {
    if rs == [] then 0.0 else SumEv(rs[..|rs| - 1]) + rs[|rs| - 1].ev
  }

  /** How many of the rows belong to team t. */
  function TeamSize(rs: seq<Rider>, t: string): nat
  {
    if rs == [] then 0 else TeamSize(rs[..|rs| - 1], t) + (if rs[|rs| - 1].team == t then 1 else 0)
  }

  /** The integer program as the pages build it. */
  datatype Problem = Problem(
    riders: seq<Rider>,
    size: int,                 // lpSum(x) == size
    budget: real,              // lpSum(price * x) <= budget
    teamCap: Option<int>,      // for every team of the table: lpSum(x of that team) <= cap
    pinIn: seq<bool>,          // x[i] == 1
    pinOut: seq<bool>)         // x[i] == 0

  predicate WellFormed(p: Problem)
  {
    |p.pinIn| == |p.riders| && |p.pinOut| == |p.riders|
  }

  /** Mask m satisfies every constraint of p. */
  predicate Feasible(p: Problem, m: seq<bool>)
  {
    && WellFormed(p)
    && |m| == |p.riders|
    && |Filter(p.riders, m)| == p.size
    && SumPrice(Filter(p.riders, m)) <= p.budget
    && (p.teamCap.Some? ==>
          forall i :: 0 <= i < |m| ==> TeamSize(Filter(p.riders, m), p.riders[i].team) <= p.teamCap.value)
    && forall i :: 0 <= i < |m| ==> (p.pinIn[i] ==> m[i]) && (p.pinOut[i] ==> !m[i])
  }

  /** The objective: summed EV of the selected rows. */
  function Value(p: Problem, m: seq<bool>): real
    requires |m| == |p.riders|
  {
    SumEv(Filter(p.riders, m))
  }

  /** Of two candidate masks, the one with the larger value; the first on a tie. */
  function Better(p: Problem, a: Option<seq<bool>>, b: Option<seq<bool>>): (r: Option<seq<bool>>)
    requires a.Some? ==> |a.value| == |p.riders|
    requires b.Some? ==> |b.value| == |p.riders|
    ensures r == a || r == b
    ensures r.None? <==> a.None? && b.None?
    ensures r.Some? && a.Some? ==> Value(p, a.value) <= Value(p, r.value)
    ensures r.Some? && b.Some? ==> Value(p, b.value) <= Value(p, r.value)
  {
    if a.None? then b
    else if b.None? then a
    else if Value(p, b.value) > Value(p, a.value) then b
    else a
  }

  /** Exhaustive search over every completion of the decided prefix: each
      remaining row is first left out, then taken. Returns the best feasible
      completion, or None if there is none. */
  function Best(p: Problem, prefix: seq<bool>): (r: Option<seq<bool>>)
    requires |prefix| <= |p.riders|
    ensures r.Some? ==> Feasible(p, r.value) && prefix <= r.value
    decreases |p.riders| - |prefix|
  {
    if |prefix| == |p.riders| then
      if Feasible(p, prefix) then Some(prefix) else None
    else
      Better(p, Best(p, prefix + [false]), Best(p, prefix + [true]))
  }

  /** Every feasible completion of the prefix is matched or beaten by Best. */
  lemma {:induction false} BestIsOptimal(p: Problem, prefix: seq<bool>, m: seq<bool>)
    requires |prefix| <= |p.riders|
    requires prefix <= m && Feasible(p, m)
    ensures Best(p, prefix).Some?
    ensures Value(p, m) <= Value(p, Best(p, prefix).value)
    decreases |p.riders| - |prefix|
  {
    if |prefix| < |p.riders| {
      var next := prefix + [m[|prefix|]];
      assert next <= m by { assert next == m[..|prefix| + 1]; }
      BestIsOptimal(p, next, m);
    } else {
      assert prefix == m[..|prefix|] == m;
    }
  }

  /** The solver's contract: a feasible mask whose value no feasible mask
      exceeds (status 'Optimal'), or None when the program is infeasible. */
  function Optimum(p: Problem): (r: Option<seq<bool>>)
    ensures r.Some? ==> Feasible(p, r.value)
    ensures r.Some? ==> forall m :: Feasible(p, m) ==> Value(p, m) <= Value(p, r.value)
    ensures r.None? ==> forall m :: !Feasible(p, m)
  {
    var r := Best(p, []);
    assert forall m :: Feasible(p, m) ==> r.Some? && Value(p, m) <= Value(p, r.value) by {
      forall m | Feasible(p, m)
        ensures r.Some? && Value(p, m) <= Value(p, r.value)
      {
        BestIsOptimal(p, [], m);
      }
    }
    r
  }

  /** The loop that pins rows: a row whose name is in the force list gets
      x == 1, one whose name is in the exclude list gets x == 0 (both, when
      the name is in both lists). */
  method PinRows(riders: seq<Rider>, forceIn: seq<string>, forceOut: seq<string>)
    returns (pinIn: seq<bool>, pinOut: seq<bool>)
    ensures |pinIn| == |riders| && |pinOut| == |riders|
    ensures forall i :: 0 <= i < |riders| ==> (pinIn[i] <==> riders[i].name in forceIn)
    ensures forall i :: 0 <= i < |riders| ==> (pinOut[i] <==> riders[i].name in forceOut)
  {
    pinIn, pinOut := [], [];
    for i := 0 to |riders|
      invariant |pinIn| == i && |pinOut| == i
      invariant forall k :: 0 <= k < i ==> (pinIn[k] <==> riders[k].name in forceIn)
      invariant forall k :: 0 <= k < i ==> (pinOut[k] <==> riders[k].name in forceOut)
    {
      var renner := riders[i].name;
      pinIn := pinIn + [renner in forceIn];
      pinOut := pinOut + [renner in forceOut];
    }
  }

  /** Reading the solution back: the rows whose variable came out as 1, in
      table order. */
  method SelectedRows<T>(xs: seq<T>, m: seq<bool>) returns (out: seq<T>)
    requires |xs| == |m|
    ensures out == Filter(xs, m)
  {
    out := [];
    for i := 0 to |xs|
      invariant out == Filter(xs[..i], m[..i])
    {
      assert xs[..i + 1][..i] == xs[..i] && m[..i + 1][..i] == m[..i];
      if m[i] {
        out := out + [xs[i]];
      }
    }
    assert xs[..|xs|] == xs && m[..|m|] == m;
  }

  // ---- Properties of Filter used to read off the solution ----

  /** Reading the names off the selected rows is reading the selected names. */
  lemma {:induction false} FilterNames(rs: seq<Rider>, m: seq<bool>)
    requires |rs| == |m|
    ensures Filter(Names(rs), m) == Names(Filter(rs, m))
    decreases |m|
  {
    if |m| > 0 {
      assert Names(rs)[..|rs| - 1] == Names(rs[..|rs| - 1]);
      FilterNames(rs[..|rs| - 1], m[..|m| - 1]);
    }
  }

  /** Filtering a sequence with one more row appends that row when its bit is set. */
  lemma FilterSnoc<T>(xs: seq<T>, m: seq<bool>, x: T, b: bool)
    requires |xs| == |m|
    ensures Filter(xs + [x], m + [b]) == Filter(xs, m) + (if b then [x] else [])
  {
    assert (xs + [x])[..|xs|] == xs && (m + [b])[..|m|] == m;
  }

  /** A row whose bit is set is in the result. */
  lemma {:induction false} FilterKeeps<T>(xs: seq<T>, m: seq<bool>, i: int)
    requires |xs| == |m| && 0 <= i < |m| && m[i]
    ensures xs[i] in Filter(xs, m)
    decreases |m|
  {
    if i < |m| - 1 {
      FilterKeeps(xs[..|xs| - 1], m[..|m| - 1], i);
    }
  }

  /** Everything in the result is a row whose bit is set. */
  lemma {:induction false} FilterOrigin<T>(xs: seq<T>, m: seq<bool>, x: T) returns (i: int)
    requires |xs| == |m| && x in Filter(xs, m)
    ensures 0 <= i < |m| && m[i] && xs[i] == x
    decreases |m|
  {
    var n := |m| - 1;
    if m[n] && x == xs[n] {
      i := n;
    } else {
      i := FilterOrigin(xs[..n], m[..n], x);
    }
  }

  /** Rows with distinct values stay distinct after filtering. */
  lemma {:induction false} FilterDistinct<T>(xs: seq<T>, m: seq<bool>)
    requires |xs| == |m|
    requires forall i, j :: 0 <= i < j < |xs| ==> xs[i] != xs[j]
    ensures forall i, j :: 0 <= i < j < |Filter(xs, m)| ==> Filter(xs, m)[i] != Filter(xs, m)[j]
    decreases |m|
  {
    if |m| > 0 {
      var n := |m| - 1;
      FilterDistinct(xs[..n], m[..n]);
      if m[n] && xs[n] in Filter(xs[..n], m[..n]) {
        var k := FilterOrigin(xs[..n], m[..n], xs[n]);
        assert false;
      }
    }
  }
}
