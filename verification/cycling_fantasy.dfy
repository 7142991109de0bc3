/** The Cycling Fantasy race optimizer: expected points per starter
    (calculate_cf_ev), the classics profile of a rider
    (bepaal_klassieker_type) and the 9-rider team solver (solve_cf_team). */
module CyclingFantasy {
  import opened Common
  import opened Selection

  // ---------------------------------------------------------------------
  // Expected CF points per starter
  // ---------------------------------------------------------------------

  /** One row of the race table: the rider's name, team, price in credits
      and the integer skill columns (COB, HLL, SPR, AVG, MTN, ITT, GC, ...). */
  datatype Row = Row(name: string, team: string, price: int, stats: map<string, int>)

  /** The points table of the ranking simulation: place i earns CfPoints[i]. */
  const CfPoints: seq<int> := [45, 25, 22, 19, 17, 15, 14, 13, 12, 11, 10, 9, 8, 7, 6, 5, 4, 3, 2, 1]

  const RankingMethod := "Ranking (CF Punten)"
  const PowerMethod := "Macht 4 Curve"

  /** The row can be sorted on `stat`, with 'AVG' as the second key. */
  predicate HasKeys(r: Row, stat: string)
  {
    stat in r.stats && "AVG" in r.stats
  }

  /** a may stand before b when sorting on (stat desc, AVG desc). */
  predicate Precedes(a: Row, b: Row, stat: string)
    requires HasKeys(a, stat) && HasKeys(b, stat)
  {
    a.stats[stat] > b.stats[stat] || (a.stats[stat] == b.stats[stat] && a.stats["AVG"] >= b.stats["AVG"])
  }

  /** a must stand before b: strictly larger on stat, or equal on stat and
      strictly larger on AVG. */
  predicate Above(a: Row, b: Row, stat: string)
    requires HasKeys(a, stat) && HasKeys(b, stat)
  {
    a.stats[stat] > b.stats[stat] || (a.stats[stat] == b.stats[stat] && a.stats["AVG"] > b.stats["AVG"])
  }

  /** a and b agree on both sort keys (absent keys read 0). */
  predicate Tied(a: Row, b: Row, stat: string)
  {
    Get(a.stats, stat) == Get(b.stats, stat) && Get(a.stats, "AVG") == Get(b.stats, "AVG")
  }

  /** The rows tied with a, in their order in rows. */
  function Ties(rows: seq<Row>, a: Row, stat: string): seq<Row>
  {
    if rows == [] then [] else (if Tied(rows[0], a, stat) then [rows[0]] else []) + Ties(rows[1..], a, stat)
  }

  predicate AllHaveKeys(rows: seq<Row>, stat: string)
  {
    forall i :: 0 <= i < |rows| ==> HasKeys(rows[i], stat)
  }

  /** Ordered by stat descending, then AVG descending. */
  predicate SortedDesc(rows: seq<Row>, stat: string)
    requires AllHaveKeys(rows, stat)
  {
    forall i, j :: 0 <= i < j < |rows| ==> Precedes(rows[i], rows[j], stat)
  }

  /** Each row may stand before the next one. */
  predicate ChainSorted(rows: seq<Row>, stat: string)
    requires AllHaveKeys(rows, stat)
  {
    forall i :: 0 <= i < |rows| - 1 ==> Precedes(rows[i], rows[i + 1], stat)
  }

  /** Precedes is transitive, so a chain is sorted pairwise. */
  lemma {:induction false} ChainIsSorted(rows: seq<Row>, stat: string)
    requires AllHaveKeys(rows, stat) && ChainSorted(rows, stat)
    ensures SortedDesc(rows, stat)
    decreases |rows|
  {
    if |rows| > 1 {
      var tail := rows[1..];
      assert AllHaveKeys(tail, stat) && ChainSorted(tail, stat);
      ChainIsSorted(tail, stat);
      forall i, j | 0 <= i < j < |rows| ensures Precedes(rows[i], rows[j], stat) {
        if i > 0 {
          assert rows[i] == tail[i - 1] && rows[j] == tail[j - 1];
        } else if j > 1 {
          assert Precedes(rows[1], rows[j], stat) by { assert rows[1] == tail[0] && rows[j] == tail[j - 1]; }
        }
      }
    }
  }

  /** Places x after the leading rows that stand strictly above it, so
      before every row it ties with. */
  function InsertRow(x: Row, s: seq<Row>, stat: string): (r: seq<Row>)
    requires HasKeys(x, stat) && AllHaveKeys(s, stat)
    ensures multiset(r) == multiset(s) + multiset{x}
    ensures |r| == |s| + 1 && AllHaveKeys(r, stat)
  {
    if s == [] then [x]
    else if Above(s[0], x, stat) then
      assert s == [s[0]] + s[1..];
      [s[0]] + InsertRow(x, s[1..], stat)
    else
      [x] + s
  }

  /** Inserting into a sorted sequence keeps it sorted; the new first row is
      x or the old first row. */
  lemma {:induction false} InsertRowSorted(x: Row, s: seq<Row>, stat: string)
    requires HasKeys(x, stat) && AllHaveKeys(s, stat) && ChainSorted(s, stat)
    ensures ChainSorted(InsertRow(x, s, stat), stat)
    ensures InsertRow(x, s, stat)[0] == x || (|s| > 0 && InsertRow(x, s, stat)[0] == s[0])
    decreases |s|
  {
    if s == [] {
    } else if Above(s[0], x, stat) {
      var tail := s[1..];
      assert ChainSorted(tail, stat) by {
        forall i | 0 <= i < |tail| - 1
          ensures Precedes(tail[i], tail[i + 1], stat)
        {
          assert tail[i] == s[i + 1] && tail[i + 1] == s[i + 2];
        }
      }
      InsertRowSorted(x, tail, stat);
      var rest := InsertRow(x, tail, stat);
      var r := InsertRow(x, s, stat);
      assert r == [s[0]] + rest;
      forall i | 0 <= i < |r| - 1
        ensures Precedes(r[i], r[i + 1], stat)
      {
        if i > 0 {
          assert r[i] == rest[i - 1] && r[i + 1] == rest[i];
        } else if |tail| > 0 {
          assert Precedes(s[0], s[1], stat);
        }
      }
    } else {
      var r := InsertRow(x, s, stat);
      assert r == [x] + s;
      forall i | 0 <= i < |r| - 1
        ensures Precedes(r[i], r[i + 1], stat)
      {
        if i > 0 {
          assert r[i] == s[i - 1] && r[i + 1] == s[i];
        }
      }
    }
  }

  /** Inserting x puts it first among the rows it ties with and leaves
      their order otherwise unchanged. */
  lemma {:induction false} InsertRowTies(x: Row, s: seq<Row>, a: Row, stat: string)
    requires HasKeys(x, stat) && AllHaveKeys(s, stat)
    ensures Ties(InsertRow(x, s, stat), a, stat) == (if Tied(x, a, stat) then [x] else []) + Ties(s, a, stat)
    decreases |s|
  {
    if s == [] {
    } else if Above(s[0], x, stat) {
      InsertRowTies(x, s[1..], a, stat);
      var r := InsertRow(x, s, stat);
      assert r[0] == s[0] && r[1..] == InsertRow(x, s[1..], stat);
      assert !(Tied(x, a, stat) && Tied(s[0], a, stat));
    } else {
      var r := InsertRow(x, s, stat);
      assert r[0] == x && r[1..] == s;
    }
  }

  /** The sort_values step: a sorted permutation of the rows. */
  function SortRows(rows: seq<Row>, stat: string): (r: seq<Row>)
    requires AllHaveKeys(rows, stat)
    ensures multiset(r) == multiset(rows)
    ensures AllHaveKeys(r, stat) && ChainSorted(r, stat)
  {
    if rows == [] then []
    else
      assert rows == [rows[0]] + rows[1..];
      var sorted := SortRows(rows[1..], stat);
      InsertRowSorted(rows[0], sorted, stat);
      InsertRow(rows[0], sorted, stat)
  }

  /** The sort is stable: rows that tie on both keys keep their input order. */
  lemma {:induction false} SortRowsStable(rows: seq<Row>, a: Row, stat: string)
    requires AllHaveKeys(rows, stat)
    ensures Ties(SortRows(rows, stat), a, stat) == Ties(rows, a, stat)
    decreases |rows|
  {
    if rows != [] {
      assert AllHaveKeys(rows[1..], stat);
      SortRowsStable(rows[1..], a, stat);
      InsertRowTies(rows[0], SortRows(rows[1..], stat), a, stat);
    }
  }

  /** Points for the starter at position i of the sorted table. */
  function RankPoints(i: nat): (p: int)
    ensures 0 <= p <= 45
  {
    if i < |CfPoints| then CfPoints[i] else 0
  }

  /** (s / 100)^4 * 45, in exact arithmetic. */
  function PowerPoints(s: int): real
  {
    var x := s as real / 100.0;
    x * x * x * x * 45.0
  }

  function SumReal(xs: seq<real>): real
  {
    if xs == [] then 0.0 else SumReal(xs[..|xs| - 1]) + xs[|xs| - 1]
  }

  predicate NonIncreasing(xs: seq<real>)
  {
    forall i, j :: 0 <= i < j < |xs| ==> xs[j] <= xs[i]
  }

  /** The branch of the scoring loop a method name selects. The ranking test
      comes first, so a name containing both strings scores by rank. */
  datatype Scoring = ByRank | ByPower | Unscored

  function ScoringOf(evMethod: string): (k: Scoring)
    ensures k == ByRank <==> Contains(evMethod, RankingMethod)
    ensures k == ByPower <==> !Contains(evMethod, RankingMethod) && Contains(evMethod, PowerMethod)
  {
    if Contains(evMethod, RankingMethod) then ByRank
    else if Contains(evMethod, PowerMethod) then ByPower
    else Unscored
  }

  /** The scoring loop of calculate_cf_ev: writes CF_EV row by row into a
      column that starts at 0.0. */
  method ScoreRows(table: seq<Row>, stat: string, scoring: Scoring) returns (cfEv: seq<real>)
    requires AllHaveKeys(table, stat)
    ensures |cfEv| == |table|
    ensures scoring == ByRank ==>
              forall i :: 0 <= i < |cfEv| ==> cfEv[i] == RankPoints(i) as real
    ensures scoring == ByPower ==>
              forall i :: 0 <= i < |cfEv| && i < |table| ==> cfEv[i] == PowerPoints(Get(table[i].stats, stat))
    ensures scoring == Unscored ==>
              forall i :: 0 <= i < |cfEv| ==> cfEv[i] == 0.0
  {
    var ev := new real[|table|](_ => 0.0);
    for i := 0 to |table|
      invariant forall k :: i <= k < |table| ==> ev[k] == 0.0
      invariant scoring == Unscored ==> forall k :: 0 <= k < i ==> ev[k] == 0.0
      invariant scoring == ByRank ==> forall k :: 0 <= k < i ==> ev[k] == RankPoints(k) as real
      invariant scoring == ByPower ==> forall k :: 0 <= k < i ==> ev[k] == PowerPoints(table[k].stats[stat])
    {
      var val := 0.0;
      if scoring == ByRank {
        val := if i < |CfPoints| then CfPoints[i] as real else 0.0;
      } else if scoring == ByPower {
        val := PowerPoints(table[i].stats[stat]);
      }
      ev[i] := val;
    }
    cfEv := ev[..];
  }

  /** calculate_cf_ev: copies and sorts the table, then scores it. Returns
      the sorted table and, per row, its CF_EV. */
  method CalculateCfEv(rows: seq<Row>, stat: string, evMethod: string)
    returns (table: seq<Row>, cfEv: seq<real>)
    requires AllHaveKeys(rows, stat)
    ensures multiset(table) == multiset(rows)
    ensures AllHaveKeys(table, stat) && SortedDesc(table, stat)
    ensures forall a :: Ties(table, a, stat) == Ties(rows, a, stat)
    ensures |cfEv| == |table|
    ensures ScoringOf(evMethod) == ByRank ==>
              forall i :: 0 <= i < |cfEv| ==> cfEv[i] == RankPoints(i) as real
    ensures ScoringOf(evMethod) == ByPower ==>
              forall i :: 0 <= i < |cfEv| && i < |table| ==> cfEv[i] == PowerPoints(Get(table[i].stats, stat))
    ensures ScoringOf(evMethod) == Unscored ==>
              forall i :: 0 <= i < |cfEv| ==> cfEv[i] == 0.0
    ensures ScoringOf(evMethod) == ByRank ==> NonIncreasing(cfEv) && SumReal(cfEv) <= 248.0
    ensures (ScoringOf(evMethod) == ByPower && forall i :: 0 <= i < |rows| ==> rows[i].stats[stat] >= 0)
              ==> NonIncreasing(cfEv)
  {
    table := SortRows(rows, stat);
    ChainIsSorted(table, stat);
    forall a
      ensures Ties(table, a, stat) == Ties(rows, a, stat)
    {
      SortRowsStable(rows, a, stat);
    }
    var scoring := ScoringOf(evMethod);
    cfEv := ScoreRows(table, stat, scoring);
    if scoring == ByRank {
      RankingTotal(cfEv);
    } else if scoring == ByPower && forall i :: 0 <= i < |rows| ==> rows[i].stats[stat] >= 0 {
      PermutationKeepsNonNegative(rows, table, stat);
      PowerScoresNonIncreasing(table, stat, cfEv);
    }
  }

  /** Reordering the rows keeps every skill non-negative. */
  lemma PermutationKeepsNonNegative(rows: seq<Row>, table: seq<Row>, stat: string)
    requires multiset(table) == multiset(rows)
    requires AllHaveKeys(rows, stat) && AllHaveKeys(table, stat)
    requires forall i :: 0 <= i < |rows| ==> rows[i].stats[stat] >= 0
    ensures forall i :: 0 <= i < |table| ==> table[i].stats[stat] >= 0
  {
    forall i | 0 <= i < |table|
      ensures table[i].stats[stat] >= 0
    {
      assert table[i] in multiset(rows) && table[i] in rows;
    }
  }

  /** Power-curve scores of a table sorted on a non-negative skill never
      increase down the table. */
  lemma PowerScoresNonIncreasing(table: seq<Row>, stat: string, cfEv: seq<real>)
    requires AllHaveKeys(table, stat) && SortedDesc(table, stat)
    requires forall i :: 0 <= i < |table| ==> table[i].stats[stat] >= 0
    requires |cfEv| == |table|
    requires forall i :: 0 <= i < |cfEv| && i < |table| ==> cfEv[i] == PowerPoints(Get(table[i].stats, stat))
    ensures NonIncreasing(cfEv)
  {
    forall i, j | 0 <= i < j < |cfEv|
      ensures cfEv[j] <= cfEv[i]
    {
      PowerPointsMonotone(table[j].stats[stat], table[i].stats[stat]);
    }
  }

  /** The power curve grows with the skill, for non-negative skills. */
  lemma PowerPointsMonotone(b: int, a: int)
    requires 0 <= b <= a
    ensures 0.0 <= PowerPoints(b) <= PowerPoints(a)
  {
  }

  /** A skill in 0..100 earns between 0 and 45 power-curve points. */
  lemma PowerPointsRange(s: int)
    requires 0 <= s <= 100
    ensures 0.0 <= PowerPoints(s) <= 45.0
  {
    PowerPointsMonotone(s, 100);
    assert PowerPoints(100) == 45.0;
  }

  /** Ranking points never increase with the position. */
  lemma RankPointsNonIncreasing(i: nat, j: nat)
    requires i <= j
    ensures RankPoints(j) <= RankPoints(i)
    ensures |CfPoints| <= j ==> RankPoints(j) == 0
  {
  }

  /** The points earned by the first n places together. */
  function PointsUpTo(n: nat): int
  {
    if n == 0 then 0 else PointsUpTo(n - 1) + RankPoints(n - 1)
  }

  lemma {:induction false} PointsUpToMonotone(n: nat, k: nat)
    requires n <= k
    ensures PointsUpTo(n) <= PointsUpTo(k)
    decreases k - n
  {
    if n < k {
      PointsUpToMonotone(n, k - 1);
    }
  }

  // The total of the points table is added up place by place, in blocks of five
  // so that each proof stays small.

  /** The first 5 places are worth 128. */
  lemma PointsToFive()
    ensures PointsUpTo(5) == 128
  {
    assert CfPoints == [45, 25, 22, 19, 17, 15, 14, 13, 12, 11, 10, 9, 8, 7, 6, 5, 4, 3, 2, 1];
    assert PointsUpTo(1) == 45;
    assert PointsUpTo(2) == 70;
    assert PointsUpTo(3) == 92;
    assert PointsUpTo(4) == 111;
    assert PointsUpTo(5) == 128;
  }

  /** The first 10 places are worth 193. */
  lemma PointsToTen()
    ensures PointsUpTo(10) == 193
  {
    assert CfPoints == [45, 25, 22, 19, 17, 15, 14, 13, 12, 11, 10, 9, 8, 7, 6, 5, 4, 3, 2, 1];
    PointsToFive();
    assert PointsUpTo(6) == 143;
    assert PointsUpTo(7) == 157;
    assert PointsUpTo(8) == 170;
    assert PointsUpTo(9) == 182;
    assert PointsUpTo(10) == 193;
  }

  /** The first 15 places are worth 233. */
  lemma PointsToFifteen()
    ensures PointsUpTo(15) == 233
  {
    assert CfPoints == [45, 25, 22, 19, 17, 15, 14, 13, 12, 11, 10, 9, 8, 7, 6, 5, 4, 3, 2, 1];
    PointsToTen();
    assert PointsUpTo(11) == 203;
    assert PointsUpTo(12) == 212;
    assert PointsUpTo(13) == 220;
    assert PointsUpTo(14) == 227;
    assert PointsUpTo(15) == 233;
  }

  /** The whole points table is worth 248. */
  lemma PointsTableTotal()
    ensures PointsUpTo(20) == 248
  {
    assert CfPoints == [45, 25, 22, 19, 17, 15, 14, 13, 12, 11, 10, 9, 8, 7, 6, 5, 4, 3, 2, 1];
    PointsToFifteen();
    assert PointsUpTo(16) == 238;
    assert PointsUpTo(17) == 242;
    assert PointsUpTo(18) == 245;
    assert PointsUpTo(19) == 247;
    assert PointsUpTo(20) == 248;
  }


  lemma {:induction false} PointsUpToAtMost(n: nat)
    ensures PointsUpTo(n) <= 248
    ensures n >= |CfPoints| ==> PointsUpTo(n) == 248
  {
    if n > |CfPoints| {
      PointsUpToAtMost(n - 1);
    } else {
      PointsTableTotal();
      PointsUpToMonotone(n, 20);
    }
  }

  /** With the ranking method, CF_EV never increases down the sorted table,
      and the whole table holds at most 248 points. */
  lemma {:induction false} RankingTotal(cfEv: seq<real>)
    requires forall i :: 0 <= i < |cfEv| ==> cfEv[i] == RankPoints(i) as real
    ensures NonIncreasing(cfEv)
    ensures SumReal(cfEv) == PointsUpTo(|cfEv|) as real
    ensures SumReal(cfEv) <= 248.0
    decreases |cfEv|
  {
    forall i, j | 0 <= i < j < |cfEv| ensures cfEv[j] <= cfEv[i] {
      RankPointsNonIncreasing(i, j);
    }
    if cfEv != [] {
      RankingTotal(cfEv[..|cfEv| - 1]);
    }
    PointsUpToAtMost(|cfEv|);
  }

  // ---------------------------------------------------------------------
  // Classics profile of a rider
  // ---------------------------------------------------------------------

  /** `row.get(key, 0)`: a missing skill reads as 0. */
  function Get(row: map<string, int>, key: string): int
  {
    if key in row then row[key] else 0
  }

  /** A skill of at least this rating makes a rider an elite specialist. */
  const EliteThreshold := 85

  /** The profile labels in the order they are tried, with their skills. */
  const Labels: seq<string> := ["Kassei", "Heuvel", "Sprint", "Klimmer", "Tijdrit", "Klassement"]

  /** The skills behind the labels: COB, HLL, SPR, MTN, ITT and GC. */
  function ProfileValues(row: map<string, int>): (vs: seq<int>)
    ensures |vs| == |Labels|
  {
    [Get(row, "COB"), Get(row, "HLL"), Get(row, "SPR"), Get(row, "MTN"), Get(row, "ITT"), Get(row, "GC")]
  }

  function SumInts(xs: seq<int>): int
  {
    if xs == [] then 0 else SumInts(xs[..|xs| - 1]) + xs[|xs| - 1]
  }

  /** Python's max(..., key=...): the position of the first largest value. */
  function ArgMax(xs: seq<int>): (k: nat)
    requires |xs| > 0
    ensures k < |xs|
    ensures forall j :: 0 <= j < |xs| ==> xs[j] <= xs[k]
    ensures forall j :: 0 <= j < k ==> xs[j] < xs[k]
  {
    if |xs| == 1 then 0
    else
      var k := ArgMax(xs[..|xs| - 1]);
      if xs[|xs| - 1] > xs[k] then |xs| - 1 else k
  }

  /** bepaal_klassieker_type: the classics profile of one row. */
  function ClassicType(row: map<string, int>): (kind: string)
    ensures var cob, hll, spr := Get(row, "COB") >= EliteThreshold, Get(row, "HLL") >= EliteThreshold, Get(row, "SPR") >= EliteThreshold;
      && (cob && hll && spr ==> kind == "Allround / Multispecialist")
      && (cob && hll && !spr ==> kind == "Kassei / Heuvel")
      && (cob && !hll && spr ==> kind == "Kassei / Sprint")
      && (!cob && hll && spr ==> kind == "Heuvel / Sprint")
      && (cob && !hll && !spr ==> kind == "Kassei")
      && (!cob && hll && !spr ==> kind == "Heuvel")
      && (!cob && !hll && spr ==> kind == "Sprint")
    ensures var values := ProfileValues(row);
      && Get(row, "COB") < EliteThreshold && Get(row, "HLL") < EliteThreshold && Get(row, "SPR") < EliteThreshold ==>
      && (SumInts(values) == 0 ==> kind == "Onbekend")
      && (SumInts(values) != 0 ==>
            exists k :: 0 <= k < 6 && kind == Labels[k]
                        && (forall j :: 0 <= j < 6 ==> values[j] <= values[k])
                        && (forall j :: 0 <= j < k ==> values[j] < values[k]))
  {
    var cob, hll, spr := Get(row, "COB"), Get(row, "HLL"), Get(row, "SPR");
    var elite := (if cob >= EliteThreshold then ["Kassei"] else [])
               + (if hll >= EliteThreshold then ["Heuvel"] else [])
               + (if spr >= EliteThreshold then ["Sprint"] else []);
    if |elite| == 3 then "Allround / Multispecialist"
    else if |elite| == 2 then elite[0] + " / " + elite[1]
    else if |elite| == 1 then elite[0]
    else
      var values := ProfileValues(row);
      if SumInts(values) == 0 then "Onbekend"
      else Labels[ArgMax(values)]
  }

  // ---------------------------------------------------------------------
  // The 9-rider team solver
  // ---------------------------------------------------------------------

  /** A Cycling Fantasy team has exactly this many riders. */
  const RosterSize := 9

  /** A selection meeting every constraint of solve_cf_team: nine rows,
      total price within the budget, every row named in forceList taken and
      every row named in excludeList left out. */
  predicate Admissible(riders: seq<Rider>, totalBudget: real, forceList: seq<string>,
                       excludeList: seq<string>, m: seq<bool>)
  {
    && |m| == |riders|
    && |Filter(riders, m)| == RosterSize
    && SumPrice(Filter(riders, m)) <= totalBudget
    && forall i :: 0 <= i < |m| ==>
         (riders[i].name in forceList ==> m[i]) && (riders[i].name in excludeList ==> !m[i])
  }

  /** An admissible selection whose summed CF_EV no admissible selection exceeds. */
  ghost predicate BestAdmissible(riders: seq<Rider>, totalBudget: real, forceList: seq<string>,
                           excludeList: seq<string>, m: seq<bool>)
  {
    && Admissible(riders, totalBudget, forceList, excludeList, m)
    && forall m' :: Admissible(riders, totalBudget, forceList, excludeList, m') ==>
         SumEv(Filter(riders, m')) <= SumEv(Filter(riders, m))
  }

  predicate Distinct(xs: seq<string>)
  {
    forall i, j :: 0 <= i < j < |xs| ==> xs[i] != xs[j]
  }

  /** solve_cf_team: builds the integer program over the rows (name,
      price, CF_EV), solves it and reads back the names of the chosen rows,
      or None when the program has no optimal solution. */
  method SolveCfTeam(riders: seq<Rider>, totalBudget: real, forceList: seq<string>, excludeList: seq<string>)
    returns (team: Option<seq<string>>)
    ensures team.Some? ==>
              exists m :: BestAdmissible(riders, totalBudget, forceList, excludeList, m)
                          && team.value == Names(Filter(riders, m))
    ensures team.None? <==> forall m :: !Admissible(riders, totalBudget, forceList, excludeList, m)
    ensures team.Some? ==> |team.value| == RosterSize
    ensures team.Some? ==> forall x :: x in team.value ==> x in Names(riders)
    ensures team.Some? ==> Distinct(Names(riders)) ==> Distinct(team.value)
    ensures team.Some? ==>
              forall i :: 0 <= i < |riders| && riders[i].name in forceList ==> riders[i].name in team.value
    ensures team.Some? ==> forall x :: x in excludeList ==> x !in team.value
    ensures (exists i :: 0 <= i < |riders| && riders[i].name in forceList && riders[i].name in excludeList)
              ==> team.None?
  {
    var pinIn, pinOut := PinRows(riders, forceList, excludeList);
    var p := Problem(riders, RosterSize, totalBudget, None, pinIn, pinOut);
    assert forall m :: Feasible(p, m) <==> Admissible(riders, totalBudget, forceList, excludeList, m);
    var chosen := Optimum(p);
    if chosen.None? {
      return None;
    }
    var m := chosen.value;
    var names := SelectedRows(Names(riders), m);
    FilterNames(riders, m);
    assert BestAdmissible(riders, totalBudget, forceList, excludeList, m);
    forall i | 0 <= i < |riders| && riders[i].name in forceList
      ensures riders[i].name in names
    {
      FilterKeeps(Names(riders), m, i);
    }
    forall x | x in names
      ensures x in Names(riders) && x !in excludeList
    {
      var i := FilterOrigin(Names(riders), m, x);
    }
    if Distinct(Names(riders)) {
      FilterDistinct(Names(riders), m);
    }
    team := Some(names);
  }
}
