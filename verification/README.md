# Klassieker app: team selection, scoring and start-list marking in Dafny

This project models the parts of the fantasy-cycling helper that carry logic:

- **Cycling Fantasy race optimizer** (`pages/Cycling_Fantasy.py`):
  - `calculate_cf_ev` sorts a race's starters on the chosen skill and then AVG, both descending. It then writes each row's expected CF points (`CF_EV`) in place. Under the ranking method that is the fixed 20-place points table. Under the power curve it is `(skill/100)^4 * 45`. Otherwise it is 0.
  - `bepaal_klassieker_type` gives a rider's classics profile: elite labels at a rating of 85 or more, or else the first largest of six skills.
  - `solve_cf_team` picks exactly 9 riders within the credit budget, respecting forced and excluded names. It maximises summed CF_EV.
- **Sporza team builder** (`pages/sporza_klassiekers.py`):
  - the required-column check on upload;
  - `solve_sporza_team`: a chosen roster size, a budget, at most `max_per_team` riders of every team in the table, forced in/out names, maximal summed EV;
  - the "at your limit" warning.
- **Start-list paste tool** (`updater.py`): a rider × race table of 0/1 marks kept in the session. Processing a pasted start list marks, in the chosen race's column, every master name that occurs in the text (both lower-cased). It also counts how many master names were found.

Both solvers hand an integer program to an external solver. Here the program is stated as data, `Selection.Problem`, and its meaning as `Selection.Feasible`. The solver is replaced by an exhaustive include/exclude search over the rows, `Selection.Best`. That search is proved to return a feasible selection of maximal value, or None exactly when nothing is feasible. The page-level methods `SolveCfTeam` and `SolveSporzaTeam` build the pins in a loop as the source does, call the solver and read back the chosen rows in a loop. Their contracts state feasibility, optimality and the forced/excluded/roster-size/budget/team-cap guarantees in the page's own terms.

Modules: `Common` (Option, ASCII lower-casing, substring test), `Selection` (the shared 0/1 program and its solver), `CyclingFantasy`, `Sporza`, `Updater`.

## Model

| member | source | states |
|---|---|---|
| `CyclingFantasy.SortRows` | pages/Cycling_Fantasy.py:100-101 | the sorted table is a permutation of the input rows, ordered by the chosen skill descending and then AVG descending |
| `CyclingFantasy.InsertRowTies` | pages/Cycling_Fantasy.py:101 | inserting a row puts it before every row it ties with on both sort keys, and leaves the order of those rows alone |
| `CyclingFantasy.SortRowsStable` | pages/Cycling_Fantasy.py:101 | rows that tie on both the skill and AVG keep their input order, as pandas' stable multi-key sort keeps them |
| `CyclingFantasy.CalculateCfEv` | pages/Cycling_Fantasy.py:99-114 | returns the input rows reordered (same multiset), sorted pairwise on (stat, AVG) descending, with rows that tie on both keys in their input order. Ranking method: row i gets `RankPoints(i)`. Otherwise the power method: `(stat/100)^4*45`. Neither method: every CF_EV is 0. Ranking: CF_EV never increases down the table and sums to at most 248. Power curve with non-negative skills: CF_EV never increases |
| `CyclingFantasy.InsertRowSorted` | pages/Cycling_Fantasy.py:101 | inserting a row into a table sorted on (stat, AVG) descending keeps it sorted |
| `CyclingFantasy.ScoreRows` | pages/Cycling_Fantasy.py:106-114 | the loop writes, per row i of the sorted table, RankPoints(i) under the ranking method, the power curve of the row's skill under the power method, and leaves 0.0 otherwise |
| `CyclingFantasy.PowerScoresNonIncreasing` | pages/Cycling_Fantasy.py:101-112 | on a table sorted on a non-negative skill, power-curve scores never increase down the table |
| `CyclingFantasy.RankPoints` | pages/Cycling_Fantasy.py:104-110 | the points for place i lie between 0 and 45 |
| `CyclingFantasy.RankPointsNonIncreasing` | pages/Cycling_Fantasy.py:104 | a later place never earns more than an earlier one, and places past the table earn 0 |
| `CyclingFantasy.PointsTableTotal` | pages/Cycling_Fantasy.py:104 | the 20-place points table sums to 248 |
| `CyclingFantasy.PointsUpToAtMost` | pages/Cycling_Fantasy.py:104-110 | the first n places together earn at most 248, and exactly 248 once n reaches 20 |
| `CyclingFantasy.RankingTotal` | pages/Cycling_Fantasy.py:107-110 | any table scored by rank is non-increasing and its total is at most 248 |
| `CyclingFantasy.PowerPointsMonotone` | pages/Cycling_Fantasy.py:112 | for non-negative skills, a higher skill never earns fewer power-curve points |
| `CyclingFantasy.PowerPointsRange` | pages/Cycling_Fantasy.py:112 | a skill between 0 and 100 earns between 0 and 45 power-curve points |
| `CyclingFantasy.ArgMax` | pages/Cycling_Fantasy.py:133 | the returned position holds a largest value and every earlier position holds a strictly smaller one (Python's `max` keeps the first maximum) |
| `CyclingFantasy.ClassicType` | pages/Cycling_Fantasy.py:119-133 | COB, HLL and SPR all ≥ 85 gives 'Allround / Multispecialist'. Exactly two elite gives their labels joined by ' / ' in the order Kassei, Heuvel, Sprint. Exactly one gives its label. With none elite: a zero sum of the six skills (missing ones read 0) gives 'Onbekend'; otherwise the label of the first largest skill in the order Kassei, Heuvel, Sprint, Klimmer, Tijdrit, Klassement |
| `CyclingFantasy.SolveCfTeam` | pages/Cycling_Fantasy.py:136-152 | any result is the names of an admissible selection with maximal CF_EV sum. None exactly when no admissible selection exists. Results have exactly 9 names, all from the input, pairwise distinct when the input names are. Every forced rider is in and no excluded name is. A name in both lists makes the result None |
| `Selection.PinRows` | pages/Cycling_Fantasy.py:144-147 | row i is pinned to 1 exactly when its name is in the force list, and to 0 exactly when it is in the exclude list |
| `Selection.Best` | pages/sporza_klassiekers.py:68-70 | any selection the search returns satisfies every constraint and extends the decided prefix |
| `Selection.BestIsOptimal` | pages/sporza_klassiekers.py:50-56 | every feasible completion of the prefix is matched or beaten in summed EV by what the search returns, so it returns something whenever a feasible completion exists |
| `Selection.Optimum` | pages/Cycling_Fantasy.py:137-150 | the solver's contract: a feasible selection whose objective no feasible selection exceeds, or None exactly when none is feasible |
| `Selection.SelectedRows` | pages/sporza_klassiekers.py:71-72 | reads back exactly the rows whose variable is 1, in table order |
| `Selection.FilterNames` | pages/Cycling_Fantasy.py:151 | reading names off the chosen rows equals choosing among the names |
| `Selection.FilterDistinct` | pages/Cycling_Fantasy.py:151 | chosen rows with distinct names stay distinct |
| `Sporza.MissingColumns` | pages/sporza_klassiekers.py:37-38 | lists exactly the required columns Renner, Ploeg, Prijs, EV absent from the upload, in that order. It is empty exactly when all four are present |
| `Sporza.AfterUpload` | pages/sporza_klassiekers.py:40-44 | the new table is stored only when no required column is missing; otherwise the previously held table stays |
| `Sporza.SolveSporzaTeam` | pages/sporza_klassiekers.py:49-74 | any result is the rows, in table order, of an admissible selection with maximal EV sum. None exactly when none exists. A result has exactly num_riders rows, all from the input. Its price total is within the budget. No team has more than max_per_team of them. Every forced rider is in and no forced-out name is. A name in both lists makes the result None |
| `Sporza.MaxCount` | pages/sporza_klassiekers.py:112-123 | over the rows of the table whose name is in the chosen list: some team has exactly this many of those rows, and no team has more |
| `Sporza.LimitWarning` | pages/sporza_klassiekers.py:112-124 | over the rows of the table whose name is in the chosen list: the warning fires exactly when the largest number of those rows in one team equals max_ploeg. It names exactly the teams that have max_ploeg of those rows |
| `Updater.Blank` | updater.py:24-27 | the new table has a cell for exactly every master name × each of the 17 race codes, all 0 |
| `Updater.MarkAllCell` | updater.py:29-31 | after marking, a cell exists and is 1 for every master name found in the text in the chosen race. Every other cell keeps its previous presence and value |
| `Updater.MarkAllFrame` | updater.py:29-31 | no cell disappears; cells of other races and of names not found keep their values |
| `Updater.MarkAllMonotone` | updater.py:26-31 | a 0/1 table stays 0/1 and a 1 is never turned back into 0 |
| `Updater.MarkAllIdempotent` | updater.py:29-31 | processing the same text for the same race a second time leaves the table as the first run left it |
| `Updater.CountFoundIsCardinality` | updater.py:23-32 | the counter equals the number of master-list entries found in the text, whether or not their cell was already 1 |
| `Updater.PasteTool.ProcessRace` | updater.py:20-35 | an empty paste changes nothing. Otherwise the table is created blank only if absent (an existing table is never reset), then marked for the race. Every found master name's cell is 1, and the count returned is the number of master-list entries found |
| `Common.Lower` | updater.py:30 | lower-casing keeps the length and lower-cases each ASCII letter |

## Left out

- Streamlit UI, buttons, metrics, charts, download buttons and `st.session_state` plumbing other than the start-list table and the Sporza upload store: presentation.
- CSV/Excel reading, column renaming, `load_static_data`, `process_startlist`, and the upload's `read_csv` exception path: file I/O.
- Fuzzy name matching (`thefuzz.process.extractOne`): a foreign library whose scoring is not visible.
- PuLP/CBC internals and the `timeLimit`: the solver is modelled by its contract. Under the time limit the source may return None, or a feasible team not proven optimal; the model always returns an optimum.
- Floating point: prices, budgets and EVs are exact reals. Python float rounding in sums and in the power curve is not modelled.
- The 'Waarde (EV/Credit)' column and the 0.x tie-breaker multipliers (pages/Cycling_Fantasy.py:116, 220-221): display-only floating-point values.
- CyclingFantasy.CalculateCfEv: a missing skill or AVG column raises KeyError in the source. The model requires both keys on every row.
- Sporza.SolveSporzaTeam: assumes every uploaded row has a Ploeg, Prijs and EV value (`Rider` holds a string team and exact numbers). The source never cleans the upload. A blank Ploeg cell reads as NaN and is matched by no `== ploeg` test, so a rider without a team is under no per-team cap; a blank Prijs or EV reaches the solver as NaN.
- Sporza.LimitWarning: assumes every row has a Ploeg value. In the source `value_counts()` drops NaN, so a rider without a team is never counted by the warning.
- Sporza.LimitWarning: returns the set of teams at the limit; the order in which the message lists them is not modelled.
- Updater.PasteTool.ProcessRace: table cells are keyed by (name, race), so repeated master names share one row. Python's Unicode `str.lower` is modelled as ASCII lower-casing.
- The caller's `if res:` test and the success/error messages around the solvers: presentation.
- app.py (team save/load, fuzzy renaming), Welkom.py (static text) and pages/Klassiekers - Scorito.py are not part of this model.
