/** `merge_forensic_data` of mp3.py: every loadable CSV export gets the three
    normalised columns `Timeline (UTC)`, `ArtifactType` and `Description`
    (chosen by which marker columns it has), the `UserInfo` and
    `ProcessDetails` composites, and the normalised columns moved to the
    front; the loaded tables are then concatenated, a fixed list of raw
    columns is dropped, and the rows are sorted by timeline, missing first. */
module NormalizedMerge {
  import opened Frame
  import opened Text
  import opened RowSort

  const TimelineCol := "Timeline (UTC)"
  const TypeCol := "ArtifactType"
  const DescCol := "Description"
  const NormColumns: seq<string> := [TimelineCol, TypeCol, DescCol]

  /** Raw columns removed from the merged table. */
  const Excluded: seq<string> :=
    ["LastWriteTimestamp", "TimeCreated", "HivePath", "SourceFile", "MapDescription",
     "Description", "EventRecordId", "ChunkNumber", "ExtraDataOffset", "PluginDetailFile",
     "Keywords", "Comment", "PayloadData1", "PayloadData2", "PayloadData3", "PayloadData4",
     "PayloadData5", "PayloadData6", "ProcessId", "ThreadId", "ExecutableInfo",
     "UserId", "UserName", "Computer", "RemoteHost"]

  const UserInfoCol := "UserInfo"
  const UserKeys: seq<string> := ["UserId", "UserName", "Computer", "RemoteHost"]
  const ProcessCol := "ProcessDetails"
  const ProcessKeys: seq<string> := ["ProcessId", "ThreadId", "ExecutableInfo"]

  /** The three shapes of export the code recognises. */
  datatype Kind = Evtx | Registry | Unknown

  function KindOf(columns: seq<string>): Kind
  {
    if "TimeCreated" in columns then Evtx
    else if "LastWriteTimestamp" in columns then Registry
    else Unknown
  }

  function Label(k: Kind): string
  {
    match k
    case Evtx => "Evtx"
    case Registry => "Registry"
    case Unknown => "Unknown"
  }

  /** `pd.to_datetime(v, errors="coerce", utc=True)` on one cell: a missing
      cell stays missing and a cell `parse` rejects becomes missing. */
  function Coerce(parse: Value -> Option<int>, v: Value): Value
  {
    if v == Null then Null
    else match parse(v)
      case Some(t) => Time(t)
      case None => Null
  }

  /** The timeline cell each kind of export derives from a row. */
  function TimelineValue(k: Kind, parse: Value -> Option<int>, r: Row): Value
  {
    match k
    case Evtx => Coerce(parse, Cell(r, "TimeCreated"))
    case Registry => Coerce(parse, Cell(r, "LastWriteTimestamp"))
    case Unknown => Null
  }

  /** The description cell each kind of export derives from a row;
      `hasMap` says whether `MapDescription` is a column (`df.get`). */
  function DescriptionValue(k: Kind, hasMap: bool, toStr: Value -> string, r: Row): Value
  {
    match k
    case Evtx => if hasMap then Cell(r, "MapDescription") else Null
    case Registry => Str(toStr(Cell(r, "Description")) + " | " + toStr(Cell(r, "Comment")))
    case Unknown => Null
  }

  /** The classification step (lines 172-187): the three branches differ only
      in the cells they compute, so they share one sequence of assignments.
      `None` is the exception raised when a registry export lacks
      `Description` or `Comment` (`"".astype`). */
  function Normalize(t: Table, parse: Value -> Option<int>, toStr: Value -> string): Option<Table>
  {
    var k := KindOf(t.columns);
    if k == Registry && ("Description" !in t.columns || "Comment" !in t.columns) then None
    else
      var hasMap := "MapDescription" in t.columns;
      var timed := SetColumn(t, TimelineCol, r => TimelineValue(k, parse, r));
      var typed := SetColumn(timed, TypeCol, r => Str(Label(k)));
      Some(SetColumn(typed, DescCol, r => DescriptionValue(k, hasMap, toStr, r)))
  }

  /** `pd.notna(val) and val != ""` fails. */
  predicate IsBlank(v: Value)
  {
    v == Null || v == Str("")
  }

  /** The `"key: val"` pieces of the members that are neither missing nor
      empty, in the fixed key order. */
  function Pieces(r: Row, keys: seq<string>, toStr: Value -> string): (ps: seq<string>)
    ensures |ps| <= |keys|
    ensures |ps| == 0 <==> forall k :: k in keys ==> IsBlank(Cell(r, k))
    ensures forall k :: 0 <= k < |ps| ==> ps[k] != ""
    ensures forall k :: k in keys && !IsBlank(Cell(r, k)) ==> KeyValue(k, Cell(r, k), toStr) in ps
  {
    if |keys| == 0 then []
    else
      var head := if IsBlank(Cell(r, keys[0])) then [] else [KeyValue(keys[0], Cell(r, keys[0]), toStr)];
      var tail := Pieces(r, keys[1..], toStr);
      assert forall k :: k in keys <==> k == keys[0] || k in keys[1..] by {
        assert keys == [keys[0]] + keys[1..];
      }
      head + tail
  }

  /** The `UserInfo` / `ProcessDetails` value of one row. */
  function Composite(r: Row, keys: seq<string>, toStr: Value -> string): string
  {
    Join(" | ", Pieces(r, keys, toStr))
  }

  predicate AllIn(keys: seq<string>, columns: seq<string>)
  {
    forall k :: k in keys ==> k in columns
  }

  /** The composite column is built only when all of its members are columns. */
  function WithComposite(t: Table, name: string, keys: seq<string>, toStr: Value -> string): Table
  {
    if AllIn(keys, t.columns) then SetColumn(t, name, r => Str(Composite(r, keys, toStr))) else t
  }

  /** Both composites, `UserInfo` first (lines 189-212). */
  function Composed(n: Table, toStr: Value -> string): Table
  {
    WithComposite(WithComposite(n, UserInfoCol, UserKeys, toStr), ProcessCol, ProcessKeys, toStr)
  }

  /** Everything done to one file inside the `try` (lines 171-218). */
  function Prepare(t: Table, parse: Value -> Option<int>, toStr: Value -> string): Option<Table>
  {
    match Normalize(t, parse, toStr)
    case None => None
    case Some(n) =>
      var w := Composed(n, toStr);
      Some(Select(w, NormColumns + Without(w.columns, NormColumns)))
  }

  function Load(f: CsvFile, parse: Value -> Option<int>, toStr: Value -> string): Option<Table>
  {
    match f
    case Unreadable => None
    case Parsed(t) => Prepare(t, parse, toStr)
  }

  /** `all_dfs`: the prepared tables of the files that did not raise, in file order. */
  function Loaded(files: seq<CsvFile>, parse: Value -> Option<int>, toStr: Value -> string): (ts: seq<Table>)
    ensures |ts| <= |files|
  {
    Kept(files, LoadWith(parse, toStr))
  }

  function LoadWith(parse: Value -> Option<int>, toStr: Value -> string): CsvFile -> Option<Table>
  {
    f => Load(f, parse, toStr)
  }

  /** The column list of the merged table (lines 239-241). */
  function MergedColumns(loaded: seq<Table>): seq<string>
  {
    NormColumns + Without(FirstSeen(AllColumns(loaded)), NormColumns + Excluded)
  }

  /** The sort key: the row's instant, or nothing for NaT. */
  function TimelineKey(r: Row): Option<int>
  {
    match Cell(r, TimelineCol)
    case Time(t) => Some(t)
    case _ => None
  }

  /** The outcome of one run: `NoData` returns False and writes nothing;
      `Written` writes `output` as the one CSV file and returns True. */
  datatype MergeResult = NoData | Written(output: Table)

  /** Concatenation, column selection and sort over the loaded tables
      (lines 225-248). */
  function MergeTables(loaded: seq<Table>): MergeResult
  {
    if |loaded| == 0 then NoData
    else
      var selected := Select(Concat(loaded), MergedColumns(loaded));
      Written(Table(selected.columns, Sort(selected.rows, TimelineKey, true)))
  }

  function Merge(files: seq<CsvFile>, parse: Value -> Option<int>, toStr: Value -> string): MergeResult
  {
    MergeTables(Loaded(files, parse, toStr))
  }

  // ---------------------------------------------------------------------
  // What each step of Prepare does to one row and to the column list

  lemma NormalizeCell(t: Table, parse: Value -> Option<int>, toStr: Value -> string, i: nat, c: string)
    requires Normalize(t, parse, toStr).Some? && i < |t.rows|
    ensures var n := Normalize(t, parse, toStr).value;
      var k := KindOf(t.columns);
      && |n.rows| == |t.rows|
      && Cell(n.rows[i], c) ==
           if c == DescCol then DescriptionValue(k, "MapDescription" in t.columns, toStr, t.rows[i])
           else if c == TypeCol then Str(Label(k))
           else if c == TimelineCol then TimelineValue(k, parse, t.rows[i])
           else Cell(t.rows[i], c)
  {
    var k := KindOf(t.columns);
    var timed := SetColumn(t, TimelineCol, r => TimelineValue(k, parse, r));
    var typed := SetColumn(timed, TypeCol, r => Str(Label(k)));
    assert Cell(typed.rows[i], "Description") == Cell(t.rows[i], "Description");
    assert Cell(typed.rows[i], "Comment") == Cell(t.rows[i], "Comment");
    assert Cell(typed.rows[i], "MapDescription") == Cell(t.rows[i], "MapDescription");
  }

  lemma MembersNotNormalised()
    ensures forall k :: k in UserKeys ==> k != TimelineCol && k != TypeCol && k != DescCol
    ensures forall k :: k in ProcessKeys ==> k != TimelineCol && k != TypeCol && k != DescCol
  {
  }

  lemma NormalizeKeepsOthers(t: Table, parse: Value -> Option<int>, toStr: Value -> string, i: nat, keys: seq<string>)
    requires Normalize(t, parse, toStr).Some? && i < |t.rows|
    requires forall k :: k in keys ==> k != TimelineCol && k != TypeCol && k != DescCol
    ensures var n := Normalize(t, parse, toStr).value;
      |n.rows| == |t.rows| && forall k :: k in keys ==> Cell(n.rows[i], k) == Cell(t.rows[i], k)
  {
    forall k | k in keys
      ensures Cell(Normalize(t, parse, toStr).value.rows[i], k) == Cell(t.rows[i], k)
    {
      NormalizeCell(t, parse, toStr, i, k);
    }
  }

  lemma NormalizeColumns(t: Table, parse: Value -> Option<int>, toStr: Value -> string)
    requires Normalize(t, parse, toStr).Some?
    ensures var n := Normalize(t, parse, toStr).value;
      exists extra :: n.columns == t.columns + extra && forall c :: c in extra ==> c in NormColumns
  {
    var k := KindOf(t.columns);
    var timed := SetColumn(t, TimelineCol, r => TimelineValue(k, parse, r));
    var typed := SetColumn(timed, TypeCol, r => Str(Label(k)));
    var n := Normalize(t, parse, toStr).value;
    var e1 := if TimelineCol in t.columns then [] else [TimelineCol];
    var e2 := if TypeCol in timed.columns then [] else [TypeCol];
    var e3 := if DescCol in typed.columns then [] else [DescCol];
    assert n.columns == t.columns + (e1 + e2 + e3);
  }

  lemma ComposedCell(n: Table, toStr: Value -> string, i: nat, c: string)
    requires i < |n.rows|
    ensures var w := Composed(n, toStr);
      && |w.rows| == |n.rows|
      && Cell(w.rows[i], c) ==
           if c == ProcessCol && AllIn(ProcessKeys, n.columns) then Str(Composite(n.rows[i], ProcessKeys, toStr))
           else if c == UserInfoCol && AllIn(UserKeys, n.columns) then Str(Composite(n.rows[i], UserKeys, toStr))
           else Cell(n.rows[i], c)
  {
    var u := WithComposite(n, UserInfoCol, UserKeys, toStr);
    assert AllIn(ProcessKeys, u.columns) == AllIn(ProcessKeys, n.columns);
    CompositeReadsOnlyKeys(u.rows[i], n.rows[i], ProcessKeys, toStr);
  }

  lemma ComposedColumns(n: Table, toStr: Value -> string)
    ensures var w := Composed(n, toStr);
      && (exists extra :: w.columns == n.columns + extra && forall c :: c in extra ==> c == UserInfoCol || c == ProcessCol)
      && forall c :: c in w.columns <==>
           || c in n.columns
           || (c == UserInfoCol && AllIn(UserKeys, n.columns))
           || (c == ProcessCol && AllIn(ProcessKeys, n.columns))
  {
    var u := WithComposite(n, UserInfoCol, UserKeys, toStr);
    var w := Composed(n, toStr);
    assert AllIn(ProcessKeys, u.columns) == AllIn(ProcessKeys, n.columns);
    var e1 := if AllIn(UserKeys, n.columns) && UserInfoCol !in n.columns then [UserInfoCol] else [];
    var e2 := if AllIn(ProcessKeys, u.columns) && ProcessCol !in u.columns then [ProcessCol] else [];
    assert u.columns == n.columns + e1;
    assert w.columns == n.columns + (e1 + e2);
  }

  lemma PreparedCell(t: Table, parse: Value -> Option<int>, toStr: Value -> string, i: nat, c: string)
    requires Prepare(t, parse, toStr).Some? && i < |t.rows|
    requires c in NormColumns || c == UserInfoCol || c == ProcessCol
    ensures var n := Normalize(t, parse, toStr).value;
      var w := Composed(n, toStr);
      var p := Prepare(t, parse, toStr).value;
      && |p.rows| == |t.rows|
      && (c in w.columns ==> Cell(p.rows[i], c) == Cell(w.rows[i], c))
      && (c in NormColumns ==> c in w.columns)
  {
    var n := Normalize(t, parse, toStr).value;
    NormalizeColumns(t, parse, toStr);
    ComposedColumns(n, toStr);
    NormalizeCell(t, parse, toStr, i, c);
  }

  // ---------------------------------------------------------------------
  // Properties of one prepared file

  /** The row count is kept and every row carries the type its export's
      columns call for; `TimeCreated` wins over `LastWriteTimestamp`. */
  lemma PreparedArtifactType(t: Table, parse: Value -> Option<int>, toStr: Value -> string)
    requires Prepare(t, parse, toStr).Some?
    ensures var p := Prepare(t, parse, toStr).value;
      && |p.rows| == |t.rows|
      && forall i :: 0 <= i < |p.rows| ==>
           Cell(p.rows[i], TypeCol) ==
             Str(if "TimeCreated" in t.columns then "Evtx"
                 else if "LastWriteTimestamp" in t.columns then "Registry"
                 else "Unknown")
  {
    var p := Prepare(t, parse, toStr).value;
    forall i | 0 <= i < |p.rows|
      ensures Cell(p.rows[i], TypeCol) == Str(Label(KindOf(t.columns)))
    {
      PreparedTypeAt(t, parse, toStr, i);
    }
  }

  lemma PreparedTypeAt(t: Table, parse: Value -> Option<int>, toStr: Value -> string, i: nat)
    requires Prepare(t, parse, toStr).Some? && i < |t.rows|
    ensures var p := Prepare(t, parse, toStr).value;
      |p.rows| == |t.rows| && Cell(p.rows[i], TypeCol) == Str(Label(KindOf(t.columns)))
  {
    var n := Normalize(t, parse, toStr).value;
    PreparedCell(t, parse, toStr, i, TypeCol);
    NormalizeCell(t, parse, toStr, i, TypeCol);
    ComposedCell(n, toStr, i, TypeCol);
  }

  /** The timeline comes only from `TimeCreated` (event logs) or
      `LastWriteTimestamp` (registry), coerced; otherwise it is missing. */
  lemma PreparedTimeline(t: Table, parse: Value -> Option<int>, toStr: Value -> string)
    requires Prepare(t, parse, toStr).Some?
    ensures var p := Prepare(t, parse, toStr).value;
      forall i :: 0 <= i < |p.rows| ==>
        Cell(p.rows[i], TimelineCol) ==
          if "TimeCreated" in t.columns then Coerce(parse, Cell(t.rows[i], "TimeCreated"))
          else if "LastWriteTimestamp" in t.columns then Coerce(parse, Cell(t.rows[i], "LastWriteTimestamp"))
          else Null
  {
    var p := Prepare(t, parse, toStr).value;
    forall i | 0 <= i < |p.rows|
      ensures Cell(p.rows[i], TimelineCol) == TimelineValue(KindOf(t.columns), parse, t.rows[i])
    {
      PreparedTimelineAt(t, parse, toStr, i);
    }
  }

  lemma PreparedTimelineAt(t: Table, parse: Value -> Option<int>, toStr: Value -> string, i: nat)
    requires Prepare(t, parse, toStr).Some? && i < |t.rows|
    ensures var p := Prepare(t, parse, toStr).value;
      |p.rows| == |t.rows| && Cell(p.rows[i], TimelineCol) == TimelineValue(KindOf(t.columns), parse, t.rows[i])
  {
    var n := Normalize(t, parse, toStr).value;
    PreparedCell(t, parse, toStr, i, TimelineCol);
    NormalizeCell(t, parse, toStr, i, TimelineCol);
    ComposedCell(n, toStr, i, TimelineCol);
  }

  lemma PreparedSize(t: Table, parse: Value -> Option<int>, toStr: Value -> string)
    requires Prepare(t, parse, toStr).Some?
    ensures |Prepare(t, parse, toStr).value.rows| == |t.rows|
  {
  }

  /** A derived timeline cell is an instant or missing. */
  lemma TimelineValueKind(k: Kind, parse: Value -> Option<int>, r: Row)
    ensures TimelineValue(k, parse, r).Null? || TimelineValue(k, parse, r).Time?
  {
  }

  /** Event-log description is `MapDescription` (missing when there is no
      such column); registry description is `Description | Comment` as text;
      an unrecognised export has none. */
  lemma PreparedDescription(t: Table, parse: Value -> Option<int>, toStr: Value -> string)
    requires Prepare(t, parse, toStr).Some?
    ensures var p := Prepare(t, parse, toStr).value;
      forall i :: 0 <= i < |p.rows| ==>
        Cell(p.rows[i], DescCol) ==
          if "TimeCreated" in t.columns then
            (if "MapDescription" in t.columns then Cell(t.rows[i], "MapDescription") else Null)
          else if "LastWriteTimestamp" in t.columns then
            Str(toStr(Cell(t.rows[i], "Description")) + " | " + toStr(Cell(t.rows[i], "Comment")))
          else Null
  {
    var n := Normalize(t, parse, toStr).value;
    var p := Prepare(t, parse, toStr).value;
    forall i | 0 <= i < |p.rows|
      ensures Cell(p.rows[i], DescCol) ==
        DescriptionValue(KindOf(t.columns), "MapDescription" in t.columns, toStr, t.rows[i])
    {
      PreparedCell(t, parse, toStr, i, DescCol);
      NormalizeCell(t, parse, toStr, i, DescCol);
      ComposedCell(n, toStr, i, DescCol);
    }
  }

  /** A file is dropped exactly when it is a registry export (no
      `TimeCreated`, has `LastWriteTimestamp`) lacking `Description` or `Comment`. */
  lemma PrepareFailsIff(t: Table, parse: Value -> Option<int>, toStr: Value -> string)
    ensures Prepare(t, parse, toStr).None? <==>
      && "TimeCreated" !in t.columns
      && "LastWriteTimestamp" in t.columns
      && ("Description" !in t.columns || "Comment" !in t.columns)
  {
  }

  /** A prepared file has a `UserInfo` / `ProcessDetails` column exactly when
      it had one already or has all of that composite's members. */
  lemma PreparedCompositeColumns(t: Table, parse: Value -> Option<int>, toStr: Value -> string)
    requires Prepare(t, parse, toStr).Some?
    ensures var p := Prepare(t, parse, toStr).value;
      && (UserInfoCol in p.columns <==> UserInfoCol in t.columns || AllIn(UserKeys, t.columns))
      && (ProcessCol in p.columns <==> ProcessCol in t.columns || AllIn(ProcessKeys, t.columns))
  {
    CompositesNotNormalised();
    PreparedColumns(t, parse, toStr);
  }

  lemma CompositesNotNormalised()
    ensures UserInfoCol !in NormColumns && ProcessCol !in NormColumns
  {
  }

  /** The composites hold, row by row, the composite of the original row's
      members whenever all members are columns. */
  lemma PreparedComposites(t: Table, parse: Value -> Option<int>, toStr: Value -> string)
    requires Prepare(t, parse, toStr).Some?
    ensures var p := Prepare(t, parse, toStr).value;
      forall i :: 0 <= i < |p.rows| ==>
        && (AllIn(UserKeys, t.columns) ==>
              Cell(p.rows[i], UserInfoCol) == Str(Composite(t.rows[i], UserKeys, toStr)))
        && (AllIn(ProcessKeys, t.columns) ==>
              Cell(p.rows[i], ProcessCol) == Str(Composite(t.rows[i], ProcessKeys, toStr)))
  {
    var p := Prepare(t, parse, toStr).value;
    forall i | 0 <= i < |p.rows|
      ensures AllIn(UserKeys, t.columns) ==>
                Cell(p.rows[i], UserInfoCol) == Str(Composite(t.rows[i], UserKeys, toStr))
      ensures AllIn(ProcessKeys, t.columns) ==>
                Cell(p.rows[i], ProcessCol) == Str(Composite(t.rows[i], ProcessKeys, toStr))
    {
      if AllIn(UserKeys, t.columns) {
        PreparedCompositeAt(t, parse, toStr, i, UserInfoCol, UserKeys);
      }
      if AllIn(ProcessKeys, t.columns) {
        PreparedCompositeAt(t, parse, toStr, i, ProcessCol, ProcessKeys);
      }
    }
  }

  lemma PreparedCompositeAt(t: Table, parse: Value -> Option<int>, toStr: Value -> string, i: nat,
                            name: string, keys: seq<string>)
    requires Prepare(t, parse, toStr).Some? && i < |t.rows|
    requires (name, keys) == (UserInfoCol, UserKeys) || (name, keys) == (ProcessCol, ProcessKeys)
    requires AllIn(keys, t.columns)
    ensures var p := Prepare(t, parse, toStr).value;
      |p.rows| == |t.rows| && Cell(p.rows[i], name) == Str(Composite(t.rows[i], keys, toStr))
  {
    var n := Normalize(t, parse, toStr).value;
    NormalizeColumns(t, parse, toStr);
    ComposedColumns(n, toStr);
    assert AllIn(keys, n.columns);
    PreparedCell(t, parse, toStr, i, name);
    ComposedCell(n, toStr, i, name);
    MembersNotNormalised();
    NormalizeKeepsOthers(t, parse, toStr, i, keys);
    CompositeReadsOnlyKeys(n.rows[i], t.rows[i], keys, toStr);
  }

  /** The normalised columns come first, in their fixed order, followed by the
      file's other columns in their original order and then the new composites. */
  lemma PreparedColumns(t: Table, parse: Value -> Option<int>, toStr: Value -> string)
    requires Prepare(t, parse, toStr).Some?
    ensures var p := Prepare(t, parse, toStr).value;
      && |p.columns| >= 3
      && p.columns[..3] == NormColumns
      && (forall c :: c in p.columns[3..] ==> c !in NormColumns)
      && (var others := Without(t.columns, NormColumns);
          |others| <= |p.columns| - 3 && p.columns[3..3 + |others|] == others)
      && forall c :: c in p.columns <==>
           || c in NormColumns || c in t.columns
           || (c == UserInfoCol && AllIn(UserKeys, t.columns))
           || (c == ProcessCol && AllIn(ProcessKeys, t.columns))
  {
    var n := Normalize(t, parse, toStr).value;
    var w := Composed(n, toStr);
    NormalizeColumns(t, parse, toStr);
    ComposedColumns(n, toStr);
    var e1 :| n.columns == t.columns + e1 && forall c :: c in e1 ==> c in NormColumns;
    MembersNotNormalised();
    AllInAppend(UserKeys, t.columns, e1);
    AllInAppend(ProcessKeys, t.columns, e1);
    var e2 :| w.columns == n.columns + e2 && forall c :: c in e2 ==> c == UserInfoCol || c == ProcessCol;
    LayoutOrder(t.columns, e1, e2, n.columns, w.columns);
    LayoutMembers(t.columns, e1, n.columns, w.columns);
  }

  lemma AllInAppend(keys: seq<string>, cols: seq<string>, extra: seq<string>)
    requires forall c :: c in extra ==> c in NormColumns
    requires forall k :: k in keys ==> k != TimelineCol && k != TypeCol && k != DescCol
    ensures AllIn(keys, cols + extra) == AllIn(keys, cols)
  {
  }

  /** The column order behind PreparedColumns, on plain lists. */
  lemma LayoutOrder(cols: seq<string>, e1: seq<string>, e2: seq<string>, ncols: seq<string>, wcols: seq<string>)
    requires ncols == cols + e1 && wcols == ncols + e2
    ensures var pcols := NormColumns + Without(wcols, NormColumns);
      && |pcols| >= 3
      && pcols[..3] == NormColumns
      && (forall c :: c in pcols[3..] ==> c !in NormColumns)
      && (var others := Without(cols, NormColumns);
          |others| <= |pcols| - 3 && pcols[3..3 + |others|] == others)
  {
    assert wcols == cols + (e1 + e2);
    FrontLayout(NormColumns, cols, e1 + e2);
  }

  /** The column membership behind PreparedColumns, on plain lists. */
  lemma LayoutMembers(cols: seq<string>, e1: seq<string>, ncols: seq<string>, wcols: seq<string>)
    requires ncols == cols + e1 && forall c :: c in e1 ==> c in NormColumns
    requires forall c :: c in wcols <==>
      || c in ncols
      || (c == UserInfoCol && AllIn(UserKeys, ncols))
      || (c == ProcessCol && AllIn(ProcessKeys, ncols))
    requires AllIn(UserKeys, ncols) == AllIn(UserKeys, cols)
    requires AllIn(ProcessKeys, ncols) == AllIn(ProcessKeys, cols)
    ensures forall c :: c in NormColumns + Without(wcols, NormColumns) <==>
      || c in NormColumns || c in cols
      || (c == UserInfoCol && AllIn(UserKeys, cols))
      || (c == ProcessCol && AllIn(ProcessKeys, cols))
  {
  }

  /** The composites read nothing but their members. */
  lemma {:induction false} CompositeReadsOnlyKeys(r1: Row, r2: Row, keys: seq<string>, toStr: Value -> string)
    requires forall k :: k in keys ==> Cell(r1, k) == Cell(r2, k)
    ensures Composite(r1, keys, toStr) == Composite(r2, keys, toStr)
  {
    PiecesReadOnlyKeys(r1, r2, keys, toStr);
  }

  lemma {:induction false} PiecesReadOnlyKeys(r1: Row, r2: Row, keys: seq<string>, toStr: Value -> string)
    requires forall k :: k in keys ==> Cell(r1, k) == Cell(r2, k)
    ensures Pieces(r1, keys, toStr) == Pieces(r2, keys, toStr)
  {
    if |keys| > 0 {
      assert keys[0] in keys;
      PiecesReadOnlyKeys(r1, r2, keys[1..], toStr);
    }
  }

  /** A composite is the empty string exactly when every member is missing
      or empty. */
  lemma CompositeEmptyIff(r: Row, keys: seq<string>, toStr: Value -> string)
    ensures Composite(r, keys, toStr) == "" <==> forall k :: k in keys ==> IsBlank(Cell(r, k))
  {
    JoinEmptyIff(" | ", Pieces(r, keys, toStr));
  }

  /** Every member that is neither missing nor empty shows up in the
      composite as `key: value`. */
  lemma CompositeMentions(r: Row, keys: seq<string>, toStr: Value -> string, k: string)
    requires k in keys && !IsBlank(Cell(r, k))
    ensures IsInfix(KeyValue(k, Cell(r, k), toStr), Composite(r, keys, toStr))
  {
    var ps := Pieces(r, keys, toStr);
    var m :| 0 <= m < |ps| && ps[m] == KeyValue(k, Cell(r, k), toStr);
    JoinContainsPart(" | ", ps, m);
  }

  /** The members that are neither missing nor empty, in key order. */
  function Present(r: Row, keys: seq<string>): seq<string>
  {
    Kept(keys, k => if IsBlank(Cell(r, k)) then None else Some(k))
  }

  /** A key is present exactly when it is a member whose cell is neither
      missing nor empty. */
  lemma PresentIff(r: Row, keys: seq<string>, k: string)
    ensures k in Present(r, keys) <==> k in keys && !IsBlank(Cell(r, k))
  {
    KeptFrom(keys, k => if IsBlank(Cell(r, k)) then None else Some(k), k);
  }

  /** One piece per present member, in the same order, and nothing else:
      piece `j` is `key: value` for the `j`-th present member. */
  lemma {:induction false} PiecesExact(r: Row, keys: seq<string>, toStr: Value -> string)
    ensures var ks := Present(r, keys);
      var ps := Pieces(r, keys, toStr);
      && |ps| == |ks|
      && forall j :: 0 <= j < |ps| ==> ps[j] == KeyValue(ks[j], Cell(r, ks[j]), toStr)
    decreases |keys|
  {
    if |keys| > 0 {
      PiecesExact(r, keys[1..], toStr);
      var k := keys[0];
      var blank := IsBlank(Cell(r, k));
      assert Present(r, keys) == (if blank then [] else [k]) + Present(r, keys[1..]);
      assert Pieces(r, keys, toStr) ==
        (if blank then [] else [KeyValue(k, Cell(r, k), toStr)]) + Pieces(r, keys[1..], toStr);
    }
  }

  /** The composite is `" | ".join` of exactly those pieces. */
  lemma CompositeExact(r: Row, keys: seq<string>, toStr: Value -> string)
    ensures var ks := Present(r, keys);
      Composite(r, keys, toStr) ==
        Join(" | ", seq(|ks|, j requires 0 <= j < |ks| => KeyValue(ks[j], Cell(r, ks[j]), toStr)))
  {
    PiecesExact(r, keys, toStr);
    var ks := Present(r, keys);
    assert Pieces(r, keys, toStr) == seq(|ks|, j requires 0 <= j < |ks| => KeyValue(ks[j], Cell(r, ks[j]), toStr));
  }

  lemma PiecesAppend(r: Row, a: seq<string>, b: seq<string>, toStr: Value -> string)
    ensures Pieces(r, a + b, toStr) == Pieces(r, a, toStr) + Pieces(r, b, toStr)
  {
    KeptAppend(a, b, k => if IsBlank(Cell(r, k)) then None else Some(k));
    PiecesExact(r, a, toStr);
    PiecesExact(r, b, toStr);
    PiecesExact(r, a + b, toStr);
    var pa, pb, pab := Pieces(r, a, toStr), Pieces(r, b, toStr), Pieces(r, a + b, toStr);
    var ka, kb := Present(r, a), Present(r, b);
    assert Present(r, a + b) == ka + kb;
    assert forall j :: 0 <= j < |pab| ==> pab[j] == (pa + pb)[j] by {
      forall j | 0 <= j < |pab|
        ensures pab[j] == (pa + pb)[j]
      {
        if j >= |pa| {
          assert (ka + kb)[j] == kb[j - |pa|];
        }
      }
    }
  }

  /** The composite of two runs of members is the two composites in order,
      with one `" | "` between them when both are non-empty. */
  lemma CompositeAppend(r: Row, a: seq<string>, b: seq<string>, toStr: Value -> string)
    ensures var x, y := Composite(r, a, toStr), Composite(r, b, toStr);
      Composite(r, a + b, toStr) == if x == "" then y else if y == "" then x else x + " | " + y
  {
    var pa, pb := Pieces(r, a, toStr), Pieces(r, b, toStr);
    PiecesAppend(r, a, b, toStr);
    JoinAppend(" | ", pa, pb);
    JoinEmptyIff(" | ", pa);
    JoinEmptyIff(" | ", pb);
  }

  /** A single member gives its `key: value`, or nothing when it is blank. */
  lemma CompositeOne(r: Row, k: string, toStr: Value -> string)
    ensures Composite(r, [k], toStr) ==
      if IsBlank(Cell(r, k)) then "" else KeyValue(k, Cell(r, k), toStr)
  {
    assert [k][1..] == [];
  }

  // ---------------------------------------------------------------------
  // Loading: which files contribute

  /** Loading a list of files is loading each part in turn. */
  lemma LoadedAppend(a: seq<CsvFile>, b: seq<CsvFile>, parse: Value -> Option<int>, toStr: Value -> string)
    ensures Loaded(a + b, parse, toStr) == Loaded(a, parse, toStr) + Loaded(b, parse, toStr)
  {
    KeptAppend(a, b, LoadWith(parse, toStr));
  }

  /** A file that fails to load is skipped and the others load as before. */
  lemma LoadedSkipsFailure(a: seq<CsvFile>, f: CsvFile, b: seq<CsvFile>, parse: Value -> Option<int>, toStr: Value -> string)
    requires Load(f, parse, toStr).None?
    ensures Loaded(a + [f] + b, parse, toStr) == Loaded(a + b, parse, toStr)
  {
    KeptSkips(a, f, b, LoadWith(parse, toStr));
  }

  lemma LoadedOne(f: CsvFile, parse: Value -> Option<int>, toStr: Value -> string)
    ensures Loaded([f], parse, toStr) == match Load(f, parse, toStr) case Some(p) => [p] case None => []
  {
    KeptOne(f, LoadWith(parse, toStr));
  }

  /** The loaded tables are exactly the prepared tables of the files that load. */
  lemma LoadedFrom(files: seq<CsvFile>, parse: Value -> Option<int>, toStr: Value -> string, t: Table)
    ensures t in Loaded(files, parse, toStr) <==> exists f :: f in files && Load(f, parse, toStr) == Some(t)
  {
    KeptFrom(files, LoadWith(parse, toStr), t);
  }

  /** Nothing is written exactly when no file loads. */
  lemma MergeNoDataIff(files: seq<CsvFile>, parse: Value -> Option<int>, toStr: Value -> string)
    ensures Merge(files, parse, toStr).NoData? <==> forall f :: f in files ==> Load(f, parse, toStr).None?
  {
    var loaded := Loaded(files, parse, toStr);
    if |loaded| > 0 {
      LoadedFrom(files, parse, toStr, loaded[0]);
    } else {
      forall f | f in files
        ensures Load(f, parse, toStr).None?
      {
        if Load(f, parse, toStr).Some? {
          LoadedFrom(files, parse, toStr, Load(f, parse, toStr).value);
        }
      }
    }
  }

  /** Every loaded table starts with the normalised columns. */
  lemma LoadedNormFirst(files: seq<CsvFile>, parse: Value -> Option<int>, toStr: Value -> string, t: Table)
    requires t in Loaded(files, parse, toStr)
    ensures |t.columns| >= 3 && t.columns[..3] == NormColumns
  {
    LoadedFrom(files, parse, toStr, t);
    var f :| f in files && Load(f, parse, toStr) == Some(t);
    PreparedColumns(f.table, parse, toStr);
  }

  // ---------------------------------------------------------------------
  // The merged table

  /** The columns: the normalised three in order, then every other column of
      the loaded tables in first-seen order, without duplicates and without
      the excluded raw columns (`Description` survives only as the normalised
      column). */
  lemma MergedColumnsExact(loaded: seq<Table>)
    ensures var cols := MergedColumns(loaded);
      && |cols| >= 3
      && cols[..3] == NormColumns
      && cols[3..] == FirstSeen(Without(AllColumns(loaded), NormColumns + Excluded))
      && NoDuplicates(cols)
      && (forall c :: c in Excluded && c != DescCol ==> c !in cols)
      && forall c :: c in cols <==>
           c in NormColumns || (c !in Excluded && exists t :: t in loaded && c in t.columns)
  {
    var cols := MergedColumns(loaded);
    var all := AllColumns(loaded);
    NormNotExcluded();
    assert cols[..3] == NormColumns;
    WithoutFirstSeen(all, NormColumns + Excluded);
    PrependWithout(NormColumns, FirstSeen(all), Excluded);
  }

  lemma NormNotExcluded()
    ensures NoDuplicates(NormColumns)
    ensures TimelineCol !in Excluded && TypeCol !in Excluded
  {
  }

  /** The rows: as many as the loaded tables hold together, ordered by
      timeline with every missing timeline first, and a rearrangement of the
      loaded rows laid out on the merged columns. */
  lemma MergedRows(loaded: seq<Table>)
    requires MergeTables(loaded).Written?
    requires forall t :: t in loaded ==> |t.columns| >= 3 && t.columns[..3] == NormColumns
    ensures var out := MergeTables(loaded).output;
      && out.columns == MergedColumns(loaded)
      && |out.rows| == TotalRows(loaded)
      && SortedBy(out.rows, TimelineKey, true)
      && multiset(out.rows) == multiset(ConcatRows(loaded, out.columns))
  {
    var cols := MergedColumns(loaded);
    var wide := FirstSeen(AllColumns(loaded));
    MergedColumnsInUnion(loaded);
    ConcatRowsNarrow(loaded, wide, cols);
    var selected := Select(Concat(loaded), cols);
    assert Concat(loaded) == Table(wide, ConcatRows(loaded, wide));
    assert selected.rows == ConcatRows(loaded, cols);
    var sorted := Sort(selected.rows, TimelineKey, true);
    assert MergeTables(loaded) == Written(Table(cols, sorted));
  }

  lemma MergedColumnsInUnion(loaded: seq<Table>)
    requires |loaded| > 0
    requires forall t :: t in loaded ==> |t.columns| >= 3 && t.columns[..3] == NormColumns
    ensures forall c :: c in MergedColumns(loaded) ==> c in FirstSeen(AllColumns(loaded))
  {
    MergedColumnsExact(loaded);
    forall c | c in MergedColumns(loaded)
      ensures c in FirstSeen(AllColumns(loaded))
    {
      if c in NormColumns {
        var t := loaded[0];
        assert t in loaded && c in t.columns[..3];
      }
    }
  }

  /** Every loaded table starts with the normalised columns. */
  lemma LoadedShape(files: seq<CsvFile>, parse: Value -> Option<int>, toStr: Value -> string)
    ensures forall t :: t in Loaded(files, parse, toStr) ==> |t.columns| >= 3 && t.columns[..3] == NormColumns
  {
    forall t | t in Loaded(files, parse, toStr)
      ensures |t.columns| >= 3 && t.columns[..3] == NormColumns
    {
      LoadedNormFirst(files, parse, toStr, t);
    }
  }

  /** No row with a missing timeline follows a row with a present one. */
  lemma MergedNullsFirst(files: seq<CsvFile>, parse: Value -> Option<int>, toStr: Value -> string, i: nat, j: nat)
    requires Merge(files, parse, toStr).Written?
    requires var out := Merge(files, parse, toStr).output;
      i < j < |out.rows| && !Cell(out.rows[j], TimelineCol).Time?
    ensures !Cell(Merge(files, parse, toStr).output.rows[i], TimelineCol).Time?
  {
    var loaded := Loaded(files, parse, toStr);
    var out := MergeTables(loaded).output;
    LoadedShape(files, parse, toStr);
    MergedRows(loaded);
    NullKeysLead(out.rows, TimelineKey, i, j);
  }

  /** Every merged row is a row of some loaded table laid out on the merged
      columns. */
  lemma MergedRowFrom(loaded: seq<Table>, o: Row)
    requires MergeTables(loaded).Written?
    requires forall t :: t in loaded ==> |t.columns| >= 3 && t.columns[..3] == NormColumns
    requires o in MergeTables(loaded).output.rows
    ensures exists t, r :: t in loaded && r in t.rows && o == Reindex(r, MergedColumns(loaded))
  {
    var out := MergeTables(loaded).output;
    MergedRows(loaded);
    assert o in multiset(out.rows);
    ConcatRowsFrom(loaded, out.columns, o);
  }

  /** Every merged row has an artifact type naming one of the three kinds and
      a timeline that is an instant or missing. */
  lemma MergedCells(files: seq<CsvFile>, parse: Value -> Option<int>, toStr: Value -> string, o: Row)
    requires Merge(files, parse, toStr).Written?
    requires o in Merge(files, parse, toStr).output.rows
    ensures exists k :: Cell(o, TypeCol) == Str(Label(k))
    ensures Cell(o, TimelineCol).Null? || Cell(o, TimelineCol).Time?
  {
    var loaded := Loaded(files, parse, toStr);
    LoadedShape(files, parse, toStr);
    MergedRowFrom(loaded, o);
    var t, r :| t in loaded && r in t.rows && o == Reindex(r, MergedColumns(loaded));
    LoadedFrom(files, parse, toStr, t);
    var f :| f in files && Load(f, parse, toStr) == Some(t);
    RowCells(f.table, parse, toStr, r);
    assert TypeCol in MergedColumns(loaded) && TimelineCol in MergedColumns(loaded);
  }

  /** The artifact type and timeline of any row of a prepared table. */
  lemma RowCells(src: Table, parse: Value -> Option<int>, toStr: Value -> string, r: Row)
    requires Prepare(src, parse, toStr).Some? && r in Prepare(src, parse, toStr).value.rows
    ensures Cell(r, TypeCol) == Str(Label(KindOf(src.columns)))
    ensures Cell(r, TimelineCol).Null? || Cell(r, TimelineCol).Time?
  {
    var p := Prepare(src, parse, toStr).value;
    var i :| 0 <= i < |p.rows| && p.rows[i] == r;
    PreparedSize(src, parse, toStr);
    PreparedTypeAt(src, parse, toStr, i);
    PreparedTimelineAt(src, parse, toStr, i);
    TimelineValueKind(KindOf(src.columns), parse, src.rows[i]);
  }
}
