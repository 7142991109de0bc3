/** The start-list paste tool: a rider x race table of 0/1 start marks kept
    across button presses. Pasting a race's start-list page marks every
    master name that occurs in the pasted text (both lower-cased) for that
    race, and reports how many master names were recognised. */
module Updater {
  import opened Common

  /** The 17 race codes, the columns of the table. */
  const Races: seq<string> := ["OHN", "KBK", "SB", "PN7", "TA7", "MSR", "BDP", "E3", "GW",
                                "DDV", "RVV", "SP", "PR", "BP", "AGR", "WP", "LBL"]

  /** The table as cells keyed by (rider name, race code). A key that is
      absent is a cell the table does not have. */
  type Matrix = map<(string, string), int>

  /** The table created on the first press: 0 for every master name and race. */
  function Blank(names: seq<string>): (m: Matrix)
    ensures forall n, r :: (n, r) in m <==> n in names && r in Races
    ensures forall k :: k in m ==> m[k] == 0
  {
    map n, r | n in names && r in Races :: (n, r) := 0
  }

  /** The master name occurs in the pasted text, ignoring case. */
  predicate Found(name: string, text: string)
  {
    Contains(Lower(text), Lower(name))
  }

  /** The marking loop over the first |names| master names: each name found
      in the text gets a 1 in the race's column. */
  function MarkAll(m: Matrix, names: seq<string>, race: string, text: string): Matrix
  {
    if names == [] then m
    else
      var before := MarkAll(m, names[..|names| - 1], race, text);
      var name := names[|names| - 1];
      if Found(name, text) then before[(name, race) := 1] else before
  }

  /** The loop's counter: how many entries of names are found in the text. */
  function CountFound(names: seq<string>, text: string): nat
  {
    if names == [] then 0
    else CountFound(names[..|names| - 1], text) + (if Found(names[|names| - 1], text) then 1 else 0)
  }

  /** Only cells 0 and 1 occur. */
  ghost predicate Binary(m: Matrix)
  {
    forall k :: k in m ==> m[k] == 0 || m[k] == 1
  }

  /** After marking, a cell of the race's column is 1 for every name found;
      every other cell is as before. */
  lemma {:induction false} MarkAllCell(m: Matrix, names: seq<string>, race: string, text: string, n: string, r: string)
    ensures (n, r) in MarkAll(m, names, race, text) <==>
            (n, r) in m || (r == race && n in names && Found(n, text))
    ensures (n, r) in MarkAll(m, names, race, text) ==>
            MarkAll(m, names, race, text)[(n, r)] ==
              if r == race && n in names && Found(n, text) then 1 else m[(n, r)]
    decreases |names|
  {
    if names != [] {
      var k := |names| - 1;
      MarkAllCell(m, names[..k], race, text, n, r);
      assert names == names[..k] + [names[k]];
      assert n in names <==> n in names[..k] || n == names[k];
    }
  }

  /** Cells of other races, and cells of names not found, keep their value;
      no key disappears. */
  lemma {:induction false} MarkAllFrame(m: Matrix, names: seq<string>, race: string, text: string)
    ensures m.Keys <= MarkAll(m, names, race, text).Keys
    ensures forall n, r :: (n, r) in m && (r != race || n !in names || !Found(n, text)) ==>
              MarkAll(m, names, race, text)[(n, r)] == m[(n, r)]
  {
    forall k | k in m
      ensures k in MarkAll(m, names, race, text)
      ensures (k.1 != race || k.0 !in names || !Found(k.0, text)) ==> MarkAll(m, names, race, text)[k] == m[k]
    {
      MarkAllCell(m, names, race, text, k.0, k.1);
    }
  }

  /** Marking keeps the table 0/1 and never turns a 1 back into 0. */
  lemma {:induction false} MarkAllMonotone(m: Matrix, names: seq<string>, race: string, text: string)
    ensures Binary(m) ==> Binary(MarkAll(m, names, race, text))
    ensures forall k :: k in m && m[k] == 1 ==> k in MarkAll(m, names, race, text) && MarkAll(m, names, race, text)[k] == 1
  {
    forall k | k in MarkAll(m, names, race, text)
      ensures k in m || MarkAll(m, names, race, text)[k] == 1
      ensures k in m ==> MarkAll(m, names, race, text)[k] == 1 || MarkAll(m, names, race, text)[k] == m[k]
    {
      MarkAllCell(m, names, race, text, k.0, k.1);
    }
    forall k | k in m
      ensures k in MarkAll(m, names, race, text)
    {
      MarkAllCell(m, names, race, text, k.0, k.1);
    }
  }

  /** Processing the same text for the same race again changes nothing. */
  lemma MarkAllIdempotent(m: Matrix, names: seq<string>, race: string, text: string)
    ensures MarkAll(MarkAll(m, names, race, text), names, race, text) == MarkAll(m, names, race, text)
  {
    var once := MarkAll(m, names, race, text);
    var twice := MarkAll(once, names, race, text);
    forall k | k in twice
      ensures k in once && twice[k] == once[k]
    {
      MarkAllCell(once, names, race, text, k.0, k.1);
      MarkAllCell(m, names, race, text, k.0, k.1);
    }
    forall k | k in once
      ensures k in twice
    {
      MarkAllCell(once, names, race, text, k.0, k.1);
    }
  }

  /** The counter counts list entries, so a name listed twice counts twice. */
  lemma {:induction false} CountFoundIsCardinality(names: seq<string>, text: string)
    ensures CountFound(names, text) == |set i | 0 <= i < |names| && Found(names[i], text)|
    decreases |names|
  {
    if names != [] {
      var k := |names| - 1;
      CountFoundIsCardinality(names[..k], text);
      var before := set i | 0 <= i < k && Found(names[..k][i], text);
      var after := set i | 0 <= i < |names| && Found(names[i], text);
      if Found(names[k], text) {
        assert after == before + {k};
      } else {
        assert after == before;
      }
    }
  }

  /** The session of the paste tool. */
  class PasteTool {
    /** st.session_state['matrix'], absent until the first processed paste. */
    var matrix: Option<Matrix>

    constructor ()
      ensures matrix == None
    {
      matrix := None;
    }

    /** The "Verwerk deze koers" button. With an empty paste nothing happens
        and None is returned; otherwise the table is created if absent, the
        race's column is marked, and the number of recognised names returned. */
    method ProcessRace(masterNames: seq<string>, race: string, paste: string) returns (found: Option<nat>)
      modifies this
      ensures paste == [] ==> matrix == old(matrix) && found == None
      ensures paste != [] ==>
                var base := if old(matrix).Some? then old(matrix).value else Blank(masterNames);
                matrix == Some(MarkAll(base, masterNames, race, paste))
      ensures paste != [] ==> found == Some(CountFound(masterNames, paste))
      ensures paste != [] ==>
                && matrix.Some?
                && forall n :: n in masterNames && Found(n, paste) ==> (n, race) in matrix.value && matrix.value[(n, race)] == 1
      ensures paste != [] ==> found == Some(|set i | 0 <= i < |masterNames| && Found(masterNames[i], paste)|)
    {
      if paste == [] {
        return None;
      }
      var gevonden := 0;
      if matrix.None? {
        matrix := Some(Blank(masterNames));
      }
      ghost var base := matrix.value;
      for i := 0 to |masterNames|
        invariant matrix.Some? && matrix.value == MarkAll(base, masterNames[..i], race, paste)
        invariant gevonden == CountFound(masterNames[..i], paste)
      {
        assert masterNames[..i + 1][..i] == masterNames[..i];
        var name := masterNames[i];
        if Contains(Lower(paste), Lower(name)) {
          matrix := Some(matrix.value[(name, race) := 1]);
          gevonden := gevonden + 1;
        }
      }
      assert masterNames[..|masterNames|] == masterNames;
      forall n | n in masterNames && Found(n, paste)
        ensures (n, race) in matrix.value && matrix.value[(n, race)] == 1
      {
        MarkAllCell(base, masterNames, race, paste, n, race);
      }
      CountFoundIsCardinality(masterNames, paste);
      found := Some(gevonden);
    }
  }
}
