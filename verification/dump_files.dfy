/** The two string filters around Volatility's `dumpfiles` plugin, shared by
    mp3.py and EVTX_Mem_Registry_Analyzer.py: `extract_evtx_offsets` picks
    the offsets of the event-log files out of a `filescan` JSON output, and
    `rename_and_move_evtx_files` decides which dumped files are event logs
    and what they are renamed to. */
module DumpFiles {
  import opened Frame
  import opened Text

  const EvtxExt := ".evtx"
  const DumpPrefix := "file.None."

  /** One element of the JSON output's `rows` array. */
  type JsonRow = seq<Value>

  /** `row[0]` and `row[4].lower()` both succeed: the row has at least five
      items and its fifth, the file path, is a string. */
  predicate WellFormed(row: JsonRow)
  {
    |row| >= 5 && row[4].Str?
  }

  /** The offset a row contributes: its first item when its lower-cased
      path mentions `.evtx`. */
  function OffsetOf(row: JsonRow): Option<Value>
  {
    if WellFormed(row) && Contains(Lower(row[4].s), EvtxExt) then Some(row[0]) else None
  }

  /** `extract_evtx_offsets` over the parsed `rows` (mp3.py lines 88-107):
      `None` is the `IndexError` or `AttributeError` the first malformed row
      raises, which ends the call. */
  method ExtractEvtxOffsets(rows: seq<JsonRow>) returns (r: Option<seq<Value>>)
    ensures r.None? <==> exists i :: 0 <= i < |rows| && !WellFormed(rows[i])
    ensures r.Some? ==> r.value == Kept(rows, OffsetOf)
  {
    var offsets: seq<Value> := [];
    var i := 0;
    while i < |rows|
      invariant 0 <= i <= |rows|
      invariant forall j :: 0 <= j < i ==> WellFormed(rows[j])
      invariant offsets == Kept(rows[..i], OffsetOf)
    {
      var row := rows[i];
      if !WellFormed(row) {
        return None;
      }
      assert rows[..i + 1] == rows[..i] + [row];
      KeptAppend(rows[..i], [row], OffsetOf);
      KeptOne(row, OffsetOf);
      if Contains(Lower(row[4].s), EvtxExt) {
        offsets := offsets + [row[0]];
      }
      i := i + 1;
    }
    assert rows[..i] == rows;
    return Some(offsets);
  }

  /** An offset is returned exactly when some row has it first and names an
      `.evtx` path, in any letter case. */
  lemma OffsetsFromEvtxRows(rows: seq<JsonRow>, v: Value)
    ensures v in Kept(rows, OffsetOf) <==>
      exists row: JsonRow :: row in rows && WellFormed(row) && Contains(Lower(row[4].s), EvtxExt) && row[0] == v
  {
    KeptFrom(rows, OffsetOf, v);
  }

  /** Offsets come in row order: the offsets of two runs of rows are the
      offsets of each, one after the other. */
  lemma OffsetsInRowOrder(a: seq<JsonRow>, b: seq<JsonRow>)
    ensures Kept(a + b, OffsetOf) == Kept(a, OffsetOf) + Kept(b, OffsetOf)
  {
    KeptAppend(a, b, OffsetOf);
  }

  /** A row whose path does not mention `.evtx` leaves no trace. */
  lemma OffsetsSkipOtherFiles(a: seq<JsonRow>, row: JsonRow, b: seq<JsonRow>)
    requires WellFormed(row) && !Contains(Lower(row[4].s), EvtxExt)
    ensures Kept(a + [row] + b, OffsetOf) == Kept(a + b, OffsetOf)
  {
    KeptSkips(a, row, b, OffsetOf);
  }

  /** The rename test of `rename_and_move_evtx_files`. */
  predicate IsDumpedLog(name: string)
  {
    StartsWith(name, DumpPrefix) && (EndsWith(name, ".dat") || EndsWith(name, ".vacb"))
  }

  /** The new name of a dumped file, if it is renamed. */
  function RenameTarget(name: string): (r: Option<string>)
    ensures r.Some? ==> StartsWith(r.value, DumpPrefix) && EndsWith(r.value, EvtxExt)
    ensures r.Some? ==> |r.value| == |name| + |EvtxExt| && r.value[..|name|] == name
  {
    if IsDumpedLog(name) then
      var n := name + EvtxExt;
      assert n[..|DumpPrefix|] == name[..|DumpPrefix|];
      assert n[|n| - |EvtxExt|..] == EvtxExt;
      Some(n)
    else None
  }

  /** Two files are never renamed to the same name. */
  lemma RenameTargetInjective(a: string, b: string)
    requires RenameTarget(a).Some? && RenameTarget(a) == RenameTarget(b)
    ensures a == b
  {
    var t := RenameTarget(a).value;
    assert a == t[..|a|] && b == t[..|b|];
  }

  /** A renamed file would not be renamed again: its new name ends with
      `.evtx`, not `.dat` or `.vacb`. */
  lemma RenameTargetIsFinal(name: string)
    requires RenameTarget(name).Some?
    ensures !IsDumpedLog(RenameTarget(name).value)
  {
    var t := RenameTarget(name).value;
    assert t[|t| - 4..][0] == 'e' && t[|t| - 5..][1] == 'e';
  }

  /** A listed name and what it becomes, if it is renamed. */
  function RenameOf(name: string): Option<(string, string)>
  {
    match RenameTarget(name)
    case Some(t) => Some((name, t))
    case None => None
  }

  /** The renames the loop over the dump directory's listing performs, in
      listing order (mp3.py lines 127-146). */
  function RenamePlan(listing: seq<string>): (plan: seq<(string, string)>)
    ensures |plan| <= |listing|
  {
    Kept(listing, RenameOf)
  }

  /** A file is renamed exactly when it is listed and passes the test, and
      its new name is its old name with `.evtx` appended. */
  lemma RenamePlanExact(listing: seq<string>, name: string, target: string)
    ensures (name, target) in RenamePlan(listing) <==>
      name in listing && IsDumpedLog(name) && target == name + EvtxExt
  {
    KeptFrom(listing, RenameOf, (name, target));
  }

  /** No two files of a listing without repeats are renamed to the same
      name, so no rename overwrites another's result. The second clause,
      that no new name is an old name, matters only when the dump and
      destination folders coincide: the code moves files from
      `artifacts/dumpfiles` to `artifacts`. */
  lemma RenamePlanNoClash(listing: seq<string>)
    requires NoDuplicates(listing)
    ensures var plan := RenamePlan(listing);
      && (forall i, j :: 0 <= i < j < |plan| ==> plan[i].1 != plan[j].1)
      && (forall p, q :: p in plan && q in plan ==> p.1 != q.0)
  {
    var plan := RenamePlan(listing);
    forall x, y | RenameOf(x).Some? && RenameOf(x) == RenameOf(y)
      ensures x == y
    {
      RenameTargetInjective(x, y);
    }
    KeptNoDuplicates(listing, RenameOf);
    forall i, j | 0 <= i < j < |plan|
      ensures plan[i].1 != plan[j].1
    {
      RenamePlanExact(listing, plan[i].0, plan[i].1);
      RenamePlanExact(listing, plan[j].0, plan[j].1);
      assert plan[i].0 == plan[i].1[..|plan[i].0|];
      assert plan[j].0 == plan[j].1[..|plan[j].0|];
    }
    forall p, q | p in plan && q in plan
      ensures p.1 != q.0
    {
      RenamePlanExact(listing, p.0, p.1);
      RenamePlanExact(listing, q.0, q.1);
      RenameTargetIsFinal(p.0);
    }
  }
}
