/** The Sporza Wielermanager team builder: the column check on an uploaded
    table, the team solver (solve_sporza_team) with its cap on riders per
    team, and the warning shown when a team is at that cap. */
module Sporza {
  import opened Common
  import opened Selection

  // ---------------------------------------------------------------------
  // Column check on upload
  // ---------------------------------------------------------------------

  const RequiredColumns: seq<string> := ["Renner", "Ploeg", "Prijs", "EV"]

  /** The columns of `wanted` that are not among `columns`, in wanted's order. */
  function Absent(wanted: seq<string>, columns: seq<string>): (missing: seq<string>)
    ensures forall c :: c in missing <==> c in wanted && c !in columns
    ensures exists keep :: |keep| == |wanted| && missing == Filter(wanted, keep)
  {
    if wanted == [] then []
    else
      var n := |wanted| - 1;
      var rest := Absent(wanted[..n], columns);
      var keep :| |keep| == n && rest == Filter(wanted[..n], keep);
      assert wanted[..n] + [wanted[n]] == wanted;
      FilterSnoc(wanted[..n], keep, wanted[n], wanted[n] !in columns);
      rest + (if wanted[n] !in columns then [wanted[n]] else [])
  }

  /** missing_cols: the required columns absent from the upload, in the
      order Renner, Ploeg, Prijs, EV. */
  function MissingColumns(columns: seq<string>): (missing: seq<string>)
    ensures forall c :: c in missing <==> c in RequiredColumns && c !in columns
    ensures exists keep :: |keep| == |RequiredColumns| && missing == Filter(RequiredColumns, keep)
    ensures missing == [] <==> forall c :: c in RequiredColumns ==> c in columns
  {
    var missing := Absent(RequiredColumns, columns);
    assert missing != [] ==> missing[0] in missing;
    missing
  }

  /** What the page keeps after an upload: the new table when no required
      column is missing, otherwise the table it held before; with the list
      of missing columns it reports. */
  function AfterUpload<T>(current: Option<T>, columns: seq<string>, table: T): (r: (Option<T>, seq<string>))
    ensures r.1 == MissingColumns(columns)
    ensures (forall c :: c in RequiredColumns ==> c in columns) ==> r.0 == Some(table)
    ensures (exists c :: c in RequiredColumns && c !in columns) ==> r.0 == current
  {
    var missing := MissingColumns(columns);
    if missing != [] then (current, missing) else (Some(table), missing)
  }

  // ---------------------------------------------------------------------
  // The team solver
  // ---------------------------------------------------------------------

  /** A selection meeting every constraint of solve_sporza_team: numRiders
      rows, total price within the budget, for every team of the table at
      most maxPerTeam of its rows, every row named in forceIn taken and every
      row named in forceOut left out. */
  predicate Admissible(riders: seq<Rider>, budget: real, numRiders: int, maxPerTeam: int,
                       forceIn: seq<string>, forceOut: seq<string>, m: seq<bool>)
  {
    && |m| == |riders|
    && |Filter(riders, m)| == numRiders
    && SumPrice(Filter(riders, m)) <= budget
    && (forall i :: 0 <= i < |m| ==> TeamSize(Filter(riders, m), riders[i].team) <= maxPerTeam)
    && forall i :: 0 <= i < |m| ==>
         (riders[i].name in forceIn ==> m[i]) && (riders[i].name in forceOut ==> !m[i])
  }

  /** An admissible selection whose summed EV no admissible selection exceeds. */
  ghost predicate BestAdmissible(riders: seq<Rider>, budget: real, numRiders: int, maxPerTeam: int,
                                 forceIn: seq<string>, forceOut: seq<string>, m: seq<bool>)
  {
    && Admissible(riders, budget, numRiders, maxPerTeam, forceIn, forceOut, m)
    && forall m' :: Admissible(riders, budget, numRiders, maxPerTeam, forceIn, forceOut, m') ==>
         SumEv(Filter(riders, m')) <= SumEv(Filter(riders, m))
  }

  /** solve_sporza_team: builds the integer program, solves it and returns
      the chosen rows in table order, or None when the program has no
      optimal solution. */
  method SolveSporzaTeam(riders: seq<Rider>, budget: real, numRiders: int, maxPerTeam: int,
                         forceIn: seq<string>, forceOut: seq<string>)
    returns (team: Option<seq<Rider>>)
    ensures team.Some? ==>
              exists m :: BestAdmissible(riders, budget, numRiders, maxPerTeam, forceIn, forceOut, m)
                          && team.value == Filter(riders, m)
    ensures team.None? <==> forall m :: !Admissible(riders, budget, numRiders, maxPerTeam, forceIn, forceOut, m)
    ensures team.Some? ==> |team.value| == numRiders
    ensures team.Some? ==> SumPrice(team.value) <= budget
    ensures team.Some? ==> forall r :: r in team.value ==> r in riders
    ensures team.Some? ==> forall r :: r in team.value ==> TeamSize(team.value, r.team) <= maxPerTeam
    ensures team.Some? ==> forall i :: 0 <= i < |riders| && riders[i].name in forceIn ==> riders[i] in team.value
    ensures team.Some? ==> forall r :: r in team.value ==> r.name !in forceOut
    ensures (exists i :: 0 <= i < |riders| && riders[i].name in forceIn && riders[i].name in forceOut)
              ==> team.None?
  {
    var pinIn, pinOut := PinRows(riders, forceIn, forceOut);
    var p := Problem(riders, numRiders, budget, Some(maxPerTeam), pinIn, pinOut);
    assert forall m :: Feasible(p, m) <==> Admissible(riders, budget, numRiders, maxPerTeam, forceIn, forceOut, m);
    var chosen := Optimum(p);
    if chosen.None? {
      return None;
    }
    var m := chosen.value;
    var rows := SelectedRows(riders, m);
    assert BestAdmissible(riders, budget, numRiders, maxPerTeam, forceIn, forceOut, m);
    forall i | 0 <= i < |riders| && riders[i].name in forceIn
      ensures riders[i] in rows
    {
      FilterKeeps(riders, m, i);
    }
    forall r | r in rows
      ensures r in riders && r.name !in forceOut && TeamSize(rows, r.team) <= maxPerTeam
    {
      var i := FilterOrigin(riders, m, r);
    }
    team := Some(rows);
  }

  // ---------------------------------------------------------------------
  // The at-limit warning
  // ---------------------------------------------------------------------

  /** ploeg_counts.max(): the largest number of rows of rs that belong to
      one team, where rs is team_df, the rows of the table whose name is in
      the chosen list. */
  function MaxCount(rs: seq<Rider>): (c: nat)
    requires rs != []
    ensures exists i :: 0 <= i < |rs| && TeamSize(rs, rs[i].team) == c
    ensures forall i :: 0 <= i < |rs| ==> TeamSize(rs, rs[i].team) <= c
  {
    if |rs| == 1 then
      TeamSize(rs, rs[0].team)
    else
      var n := |rs| - 1;
      var prev := MaxCount(rs[..n]);
      var last := TeamSize(rs, rs[n].team);
      var c := if last > prev then last else prev;
      assert forall i :: 0 <= i < |rs| ==> TeamSize(rs, rs[i].team) <= c by {
        forall i | 0 <= i < |rs|
          ensures TeamSize(rs, rs[i].team) <= c
        {
          if i < n {
            assert rs[..n][i] == rs[i];
          }
        }
      }
      var top :| 0 <= top < n && TeamSize(rs[..n], rs[..n][top].team) == prev;
      assert rs[..n][top] == rs[top];
      c
  }

  /** The warning shown for team_df (the rows of the table whose name is in
      the chosen list): None when no team reaches maxPloeg, otherwise the
      teams that have exactly maxPloeg rows. */
  function LimitWarning(rs: seq<Rider>, maxPloeg: int): (w: Option<set<string>>)
    ensures w.Some? <==> (exists i :: 0 <= i < |rs| && TeamSize(rs, rs[i].team) == maxPloeg)
                         && forall i :: 0 <= i < |rs| ==> TeamSize(rs, rs[i].team) <= maxPloeg
    ensures w.Some? ==> forall t :: t in w.value <==> exists i :: 0 <= i < |rs| && rs[i].team == t && TeamSize(rs, t) == maxPloeg
  {
    if rs != [] && MaxCount(rs) == maxPloeg then
      Some(set i | 0 <= i < |rs| && TeamSize(rs, rs[i].team) == maxPloeg :: rs[i].team)
    else
      None
  }
}
