/** `merge_forensic_data` of EVTX_Mem_Registry_Analyzer.py: the first event-log
    export and the first registry export are tagged with a `Data_Source`
    label, and each is meant to become a three-column timeline entry whose
    time and description columns are picked by keywords in the column names.
    As written, the function reads `timeline_entries` before assigning it, so
    no run ever reaches the timeline; `IntendedMerge` is the run the code
    evidently means. */
module KeywordTimeline {
  import opened Frame
  import opened Text
  import opened RowSort

  const TimeWords: seq<string> := ["time", "date", "created", "modified", "accessed"]
  const DescWords: seq<string> := ["message", "description", "details", "data", "value", "path"]

  const StampCol := "Timestamp"
  const DescCol := "Description"
  const EntryColumns: seq<string> := [StampCol, DescCol, SourceCol]

  /** Some keyword occurs in the lower-cased column name. */
  predicate Mentions(name: string, words: seq<string>)
  {
    exists k :: 0 <= k < |words| && Contains(Lower(name), words[k])
  }

  /** The first column, in column order, whose name mentions a keyword. */
  function FirstMentioned(cols: seq<string>, words: seq<string>): (r: Option<string>)
    ensures r.None? <==> forall c :: c in cols ==> !Mentions(c, words)
    ensures r.Some? ==> r.value in cols && Mentions(r.value, words)
    ensures r.Some? ==> forall k :: 0 <= k < FirstIndex(cols, r.value) ==> !Mentions(cols[k], words)
  {
    if |cols| == 0 then None
    else if Mentions(cols[0], words) then Some(cols[0])
    else
      var r := FirstMentioned(cols[1..], words);
      assert forall c :: c in cols <==> c == cols[0] || c in cols[1..] by {
        assert cols == [cols[0]] + cols[1..];
      }
      if r.Some? then
        assert FirstIndex(cols, r.value) == 1 + FirstIndex(cols[1..], r.value);
        r
      else r
  }

  /** Searching a column list made of two parts finds the first part's match
      if it has one and the second part's otherwise. */
  lemma {:induction false} FirstMentionedAppend(a: seq<string>, b: seq<string>, words: seq<string>)
    ensures FirstMentioned(a + b, words) ==
      if FirstMentioned(a, words).Some? then FirstMentioned(a, words) else FirstMentioned(b, words)
    decreases |a|
  {
    if |a| == 0 {
      assert a + b == b;
    } else {
      assert (a + b)[0] == a[0];
      assert (a + b)[1..] == a[1..] + b;
      FirstMentionedAppend(a[1..], b, words);
    }
  }

  /** `Data_Source` names no time keyword. */
  lemma SourceColNamesNoTime()
    ensures !Mentions(SourceCol, TimeWords)
  {
    var h := "data_source";
    assert Lower(SourceCol) == h;
    NoTimeNoModified(h);
    NoDate(h);
    NoCreated(h);
    NoAccessed(h);
    forall k | 0 <= k < |TimeWords|
      ensures !Contains(h, TimeWords[k])
    {
      ContainsIsInfix(h, TimeWords[k]);
    }
  }

  lemma NoTimeNoModified(h: string)
    requires h == "data_source"
    ensures !IsInfix("time", h) && !IsInfix("modified", h)
  {
    MissingCharNotInfix(h, "time", 'm');
    MissingCharNotInfix(h, "modified", 'm');
  }

  lemma NoDate(h: string)
    requires h == "data_source"
    ensures !IsInfix("date", h)
  {
    forall i | 0 <= i <= |h| - 4
      ensures !InfixAt("date", h, i)
    {
      if i == 0 {
        assert h[3] == 'a';
      } else {
        assert h[i..i + 4][0] == h[i] != 'd';
      }
    }
  }

  lemma NoCreated(h: string)
    requires h == "data_source"
    ensures !IsInfix("created", h)
  {
    forall i | 0 <= i <= |h| - 7
      ensures !InfixAt("created", h, i)
    {
      assert h[i..i + 7][0] == h[i] != 'c';
    }
  }

  lemma NoAccessed(h: string)
    requires h == "data_source"
    ensures !IsInfix("accessed", h)
  {
    forall i | 0 <= i <= |h| - 8
      ensures !InfixAt("accessed", h, i)
    {
      assert h[i..i + 8][1] == h[i + 1] != 'c';
    }
  }

  /** `Data_Source` names a description keyword ("data"). */
  lemma SourceColNamesData()
    ensures Mentions(SourceCol, DescWords)
  {
    assert Lower(SourceCol) == "data_source";
    assert Contains("data_source", DescWords[3]);
  }

  /** `Timestamp` names no description keyword. */
  lemma StampColNamesNoDescription()
    ensures !Mentions(StampCol, DescWords)
  {
    var h := "timestamp";
    assert Lower(StampCol) == h;
    StampNoDescWords(h);
    forall k | 0 <= k < |DescWords|
      ensures !Contains(h, DescWords[k])
    {
      ContainsIsInfix(h, DescWords[k]);
    }
  }

  /** Each description keyword has a letter `timestamp` lacks. */
  lemma StampNoDescWords(h: string)
    requires h == "timestamp"
    ensures forall k :: 0 <= k < |DescWords| ==> !IsInfix(DescWords[k], h)
  {
    MissingCharNotInfix(h, "message", 'g');
    MissingCharNotInfix(h, "description", 'd');
    MissingCharNotInfix(h, "details", 'd');
    MissingCharNotInfix(h, "data", 'd');
    MissingCharNotInfix(h, "value", 'v');
    MissingCharNotInfix(h, "path", 'h');
  }

  /** The `"k: v"` piece of every listed column of a row, in order. */
  function SummaryPieces(r: Row, cols: seq<string>, toStr: Value -> string): (ps: seq<string>)
    ensures |ps| == |cols|
    ensures forall k :: 0 <= k < |ps| ==> ps[k] == KeyValue(cols[k], Cell(r, cols[k]), toStr)
  {
    seq(|cols|, k requires 0 <= k < |cols| => KeyValue(cols[k], Cell(r, cols[k]), toStr))
  }

  /** The description built from a whole row when no column qualifies: every
      column but `Data_Source`, missing cells included, joined by `" | "`. */
  function Summary(r: Row, cols: seq<string>, toStr: Value -> string): string
  {
    Join(" | ", SummaryPieces(r, Without(cols, [SourceCol]), toStr))
  }

  /** Every column other than `Data_Source` shows up in the summary as
      `column: value`, whatever its value. */
  lemma SummaryMentions(r: Row, cols: seq<string>, toStr: Value -> string, c: string)
    requires c in cols && c != SourceCol
    ensures IsInfix(KeyValue(c, Cell(r, c), toStr), Summary(r, cols, toStr))
  {
    var kept := Without(cols, [SourceCol]);
    var k :| 0 <= k < |kept| && kept[k] == c;
    JoinContainsPart(" | ", SummaryPieces(r, kept, toStr), k);
  }

  lemma SummaryPiecesAppend(r: Row, a: seq<string>, b: seq<string>, toStr: Value -> string)
    ensures SummaryPieces(r, a + b, toStr) == SummaryPieces(r, a, toStr) + SummaryPieces(r, b, toStr)
  {
    var pa, pb := SummaryPieces(r, a, toStr), SummaryPieces(r, b, toStr);
    assert forall k :: 0 <= k < |a| + |b| ==> SummaryPieces(r, a + b, toStr)[k] == (pa + pb)[k] by {
      forall k | 0 <= k < |a| + |b|
        ensures SummaryPieces(r, a + b, toStr)[k] == (pa + pb)[k]
      {
        if k >= |a| {
          assert (a + b)[k] == b[k - |a|];
        }
      }
    }
  }

  /** Every summary piece is non-empty: it holds at least the `": "`. */
  lemma SummaryPiecesNonEmpty(r: Row, cols: seq<string>, toStr: Value -> string)
    ensures forall k :: 0 <= k < |cols| ==> SummaryPieces(r, cols, toStr)[k] != ""
  {
    var ps := SummaryPieces(r, cols, toStr);
    forall k | 0 <= k < |ps|
      ensures ps[k] != ""
    {
      assert |ps[k]| >= 2;
    }
  }

  /** The summary of a row over two runs of columns is the two summaries in
      column order, with one `" | "` between them when both are non-empty. */
  lemma SummaryAppend(r: Row, a: seq<string>, b: seq<string>, toStr: Value -> string)
    ensures var x, y := Summary(r, a, toStr), Summary(r, b, toStr);
      Summary(r, a + b, toStr) == if x == "" then y else if y == "" then x else x + " | " + y
  {
    var wa, wb := Without(a, [SourceCol]), Without(b, [SourceCol]);
    WithoutAppend(a, b, [SourceCol]);
    SummaryPiecesAppend(r, wa, wb, toStr);
    var pa, pb := SummaryPieces(r, wa, toStr), SummaryPieces(r, wb, toStr);
    JoinAppend(" | ", pa, pb);
    SummaryPiecesNonEmpty(r, wa, toStr);
    SummaryPiecesNonEmpty(r, wb, toStr);
    JoinEmptyIff(" | ", pa);
    JoinEmptyIff(" | ", pb);
  }

  /** One column gives its `column: value`, missing or not, except that
      `Data_Source` gives nothing. With `SummaryAppend` this fixes the
      summary of every column list. */
  lemma SummaryOne(r: Row, c: string, toStr: Value -> string)
    ensures Summary(r, [c], toStr) == if c == SourceCol then "" else KeyValue(c, Cell(r, c), toStr)
  {
    WithoutSnoc([], c, [SourceCol]);
    assert [] + [c] == [c];
  }

  /** The summary is empty exactly when `Data_Source` is the only column. */
  lemma SummaryEmptyIff(r: Row, cols: seq<string>, toStr: Value -> string)
    ensures Summary(r, cols, toStr) == "" <==> forall c :: c in cols ==> c == SourceCol
  {
    var kept := Without(cols, [SourceCol]);
    var ps := SummaryPieces(r, kept, toStr);
    forall k | 0 <= k < |ps|
      ensures ps[k] != ""
    {
      assert |ps[k]| >= 2;
    }
    JoinEmptyIff(" | ", ps);
    if |kept| > 0 {
      assert kept[0] in kept;
    } else {
      forall c | c in cols
        ensures c == SourceCol
      {
        assert c !in kept;
      }
    }
  }

  /** The `Timestamp` cell of a tagged row: the first time column's cell, or
      the moment of the run. */
  function StampValue(timeCol: Option<string>, now: int, r: Row): Value
  {
    match timeCol
    case Some(c) => Cell(r, c)
    case None => Time(now)
  }

  /** The `Description` cell of a stamped row: the first description column's
      cell, or the summary of the row. */
  function DescValue(descCol: Option<string>, cols: seq<string>, toStr: Value -> string, r: Row): Value
  {
    match descCol
    case Some(c) => Cell(r, c)
    case None => Str(Summary(r, cols, toStr))
  }

  /** One timeline entry (lines 210-240), from a table already tagged with
      its `Data_Source`. */
  function Entry(tagged: Table, now: int, toStr: Value -> string): Table
  {
    var timeCol := FirstMentioned(tagged.columns, TimeWords);
    var descCol := FirstMentioned(tagged.columns, DescWords);
    var stamped := SetColumn(tagged, StampCol, r => StampValue(timeCol, now, r));
    var described := SetColumn(stamped, DescCol, r => DescValue(descCol, stamped.columns, toStr, r));
    Select(described, EntryColumns)
  }

  /** A tagged table's columns are its own plus `Data_Source` when it lacked one. */
  lemma TagColumns(t: Table, tag: string)
    ensures Tag(t, tag).columns == t.columns + (if SourceCol in t.columns then [] else [SourceCol])
  {
  }

  /** The time column of a tagged table is the one of the untagged table:
      `Data_Source` never qualifies. */
  lemma TaggedTimeColumn(t: Table, tag: string)
    ensures FirstMentioned(Tag(t, tag).columns, TimeWords) == FirstMentioned(t.columns, TimeWords)
  {
    SourceColNamesNoTime();
    var extra := if SourceCol in t.columns then [] else [SourceCol];
    FirstMentionedAppend(t.columns, extra, TimeWords);
    assert t.columns + [] == t.columns;
    assert FirstMentioned(extra, TimeWords) == None by {
      if extra != [] {
        assert extra[1..] == [];
      }
    }
  }

  /** A tagged table always has a description column: the first one of the
      untagged table if there is one, `Data_Source` otherwise. */
  lemma TaggedDescColumn(t: Table, tag: string)
    ensures FirstMentioned(Tag(t, tag).columns, DescWords) ==
      if FirstMentioned(t.columns, DescWords).Some? then FirstMentioned(t.columns, DescWords)
      else Some(SourceCol)
  {
    SourceColNamesData();
    var extra := if SourceCol in t.columns then [] else [SourceCol];
    FirstMentionedAppend(t.columns, extra, DescWords);
    assert t.columns + [] == t.columns;
  }

  /** Every entry has exactly the columns `Timestamp`, `Description`,
      `Data_Source`, one row per source row, and the source's tag. */
  lemma EntryShape(t: Table, tag: string, now: int, toStr: Value -> string)
    ensures var e := Entry(Tag(t, tag), now, toStr);
      && e.columns == EntryColumns
      && |e.rows| == |t.rows|
      && forall i :: 0 <= i < |e.rows| ==> Cell(e.rows[i], SourceCol) == Str(tag)
  {
    var e := Entry(Tag(t, tag), now, toStr);
    forall i | 0 <= i < |e.rows|
      ensures Cell(e.rows[i], SourceCol) == Str(tag)
    {
      EntryCells(t, tag, now, toStr, i);
    }
  }

  /** What each cell of an entry row holds. */
  lemma EntryCells(t: Table, tag: string, now: int, toStr: Value -> string, i: nat)
    requires i < |t.rows|
    ensures var tagged := Tag(t, tag);
      var e := Entry(tagged, now, toStr);
      var timeCol := FirstMentioned(tagged.columns, TimeWords);
      var descCol := FirstMentioned(tagged.columns, DescWords);
      var stampedRow := tagged.rows[i][StampCol := StampValue(timeCol, now, tagged.rows[i])];
      && |e.rows| == |t.rows|
      && Cell(e.rows[i], SourceCol) == Str(tag)
      && Cell(e.rows[i], StampCol) == StampValue(timeCol, now, tagged.rows[i])
      && descCol.Some?
      && Cell(e.rows[i], DescCol) == Cell(stampedRow, descCol.value)
  {
    var tagged := Tag(t, tag);
    TaggedDescColumn(t, tag);
    assert |tagged.rows| == |t.rows| && Cell(tagged.rows[i], SourceCol) == Str(tag);
    EntryRowCells(tagged, now, toStr, i);
  }

  /** The cells of an entry row, for any table that has a description column. */
  lemma EntryRowCells(tagged: Table, now: int, toStr: Value -> string, i: nat)
    requires i < |tagged.rows| && FirstMentioned(tagged.columns, DescWords).Some?
    ensures var e := Entry(tagged, now, toStr);
      var timeCol := FirstMentioned(tagged.columns, TimeWords);
      var descCol := FirstMentioned(tagged.columns, DescWords);
      var stampedRow := tagged.rows[i][StampCol := StampValue(timeCol, now, tagged.rows[i])];
      && |e.rows| == |tagged.rows|
      && Cell(e.rows[i], SourceCol) == Cell(tagged.rows[i], SourceCol)
      && Cell(e.rows[i], StampCol) == StampValue(timeCol, now, tagged.rows[i])
      && Cell(e.rows[i], DescCol) == Cell(stampedRow, descCol.value)
  {
    var timeCol := FirstMentioned(tagged.columns, TimeWords);
    var descCol := FirstMentioned(tagged.columns, DescWords);
    var stamped := SetColumn(tagged, StampCol, r => StampValue(timeCol, now, r));
    assert stamped.rows[i] == tagged.rows[i][StampCol := StampValue(timeCol, now, tagged.rows[i])];
    var described := SetColumn(stamped, DescCol, r => DescValue(descCol, stamped.columns, toStr, r));
    assert Entry(tagged, now, toStr) == Select(described, EntryColumns);
    SelectCells(described, EntryColumns, i, SourceCol);
    SelectCells(described, EntryColumns, i, StampCol);
    SelectCells(described, EntryColumns, i, DescCol);
  }

  /** The timestamp is the cell of the first column, in the source's order,
      whose name mentions a time keyword; with no such column it is the
      moment of the run. */
  lemma EntryTimestamp(t: Table, tag: string, now: int, toStr: Value -> string)
    ensures var e := Entry(Tag(t, tag), now, toStr);
      && |e.rows| == |t.rows|
      && forall i :: 0 <= i < |e.rows| ==>
           Cell(e.rows[i], StampCol) ==
             match FirstMentioned(t.columns, TimeWords)
             case Some(c) => Cell(t.rows[i], c)
             case None => Time(now)
  {
    var e := Entry(Tag(t, tag), now, toStr);
    TaggedTimeColumn(t, tag);
    SourceColNamesNoTime();
    forall i | 0 <= i < |e.rows|
      ensures Cell(e.rows[i], StampCol) ==
        match FirstMentioned(t.columns, TimeWords)
        case Some(c) => Cell(t.rows[i], c)
        case None => Time(now)
    {
      EntryCells(t, tag, now, toStr, i);
    }
  }

  /** The description is the cell of the first column whose name mentions a
      description keyword; a source without one falls back to `Data_Source`
      (which mentions "data"), so the entry carries the tag and the
      row summary is never used. */
  lemma EntryDescription(t: Table, tag: string, now: int, toStr: Value -> string)
    ensures var e := Entry(Tag(t, tag), now, toStr);
      && |e.rows| == |t.rows|
      && forall i :: 0 <= i < |e.rows| ==>
           Cell(e.rows[i], DescCol) ==
             match FirstMentioned(t.columns, DescWords)
             case Some(c) => if c == SourceCol then Str(tag) else Cell(t.rows[i], c)
             case None => Str(tag)
  {
    var e := Entry(Tag(t, tag), now, toStr);
    forall i | 0 <= i < |e.rows|
      ensures Cell(e.rows[i], DescCol) ==
        match FirstMentioned(t.columns, DescWords)
        case Some(c) => if c == SourceCol then Str(tag) else Cell(t.rows[i], c)
        case None => Str(tag)
    {
      EntryDescriptionAt(t, tag, now, toStr, i);
    }
  }

  lemma EntryDescriptionAt(t: Table, tag: string, now: int, toStr: Value -> string, i: nat)
    requires i < |t.rows|
    ensures var e := Entry(Tag(t, tag), now, toStr);
      && |e.rows| == |t.rows|
      && Cell(e.rows[i], DescCol) ==
           match FirstMentioned(t.columns, DescWords)
           case Some(c) => if c == SourceCol then Str(tag) else Cell(t.rows[i], c)
           case None => Str(tag)
  {
    var tagged := Tag(t, tag);
    EntryCells(t, tag, now, toStr, i);
    TaggedDescColumn(t, tag);
    StampColNamesNoDescription();
    var c := FirstMentioned(tagged.columns, DescWords).value;
    assert c != StampCol;
    assert Cell(tagged.rows[i], c) == if c == SourceCol then Str(tag) else Cell(t.rows[i], c);
  }

  // ---------------------------------------------------------------------
  // One run of merge_forensic_data

  /** `pd.read_csv(files[0])` tagged with its label, if there is a first file
      and it reads; later files are never looked at. */
  function FirstTagged(files: seq<CsvFile>, tag: string): seq<Table>
  {
    if |files| == 0 then []
    else match files[0]
      case Parsed(t) => [Tag(t, tag)]
      case Unreadable => []
  }

  /** `all_dfs`: the event-log table, then the registry table. */
  function Sources(evtxFiles: seq<CsvFile>, regFiles: seq<CsvFile>): seq<Table>
  {
    FirstTagged(evtxFiles, "EVTX") + FirstTagged(regFiles, "Registry")
  }

  /** What a run leaves behind: its return value, the data sheets saved to the
      workbook, and the combined timeline if one was built. */
  datatype AnalyzerRun = AnalyzerRun(succeeded: bool, sheets: seq<Table>, timeline: Option<Table>)

  /** The function as written (lines 144-264). With no data it returns False
      before opening the workbook. Otherwise the data sheets are saved, and
      the read of `timeline_entries` at line 197, which is only assigned at
      line 208, raises; leaving the `with` block still saves the workbook, and
      the handler at line 262 returns False. */
  function AnalyzerMerge(evtxFiles: seq<CsvFile>, regFiles: seq<CsvFile>): (run: AnalyzerRun)
    ensures !run.succeeded && run.timeline.None?
    ensures |run.sheets| <= 2
    ensures forall k :: 0 <= k < |run.sheets| ==> SourceCol in run.sheets[k].columns
  {
    var dfs := Sources(evtxFiles, regFiles);
    if |dfs| == 0 then AnalyzerRun(false, [], None)
    else AnalyzerRun(false, dfs, None)
  }

  /** Only the first file of each kind matters. */
  lemma AnalyzerFirstFilesOnly(evtxFiles: seq<CsvFile>, regFiles: seq<CsvFile>)
    requires |evtxFiles| > 0 && |regFiles| > 0
    ensures AnalyzerMerge(evtxFiles, regFiles) == AnalyzerMerge(evtxFiles[..1], regFiles[..1])
  {
    assert evtxFiles[..1][0] == evtxFiles[0] && regFiles[..1][0] == regFiles[0];
  }

  /** The workbook gets a sheet exactly for each first file that reads, the
      event log's first, each labelled by its kind on every row. */
  lemma AnalyzerSheets(evtxFiles: seq<CsvFile>, regFiles: seq<CsvFile>)
    ensures var sheets := AnalyzerMerge(evtxFiles, regFiles).sheets;
      var e := |evtxFiles| > 0 && evtxFiles[0].Parsed?;
      var r := |regFiles| > 0 && regFiles[0].Parsed?;
      && |sheets| == (if e then 1 else 0) + (if r then 1 else 0)
      && (e ==> |sheets[0].rows| == |evtxFiles[0].table.rows|
                && forall i :: 0 <= i < |sheets[0].rows| ==> Cell(sheets[0].rows[i], SourceCol) == Str("EVTX"))
      && (r ==> var last := sheets[|sheets| - 1];
                |last.rows| == |regFiles[0].table.rows|
                && forall i :: 0 <= i < |last.rows| ==> Cell(last.rows[i], SourceCol) == Str("Registry"))
  {
  }

  // ---------------------------------------------------------------------
  // The timeline the run is meant to build (lines 205-254)

  /** `pd.to_datetime` on one cell: missing and already-converted cells pass
      through, anything else must parse or the whole conversion fails. */
  function Convert(parse: Value -> Option<int>, v: Value): Option<Value>
  {
    match v
    case Null => Some(Null)
    case Time(t) => Some(Time(t))
    case _ =>
      match parse(v)
      case Some(t) => Some(Time(t))
      case None => None
  }

  /** Converting the `Timestamp` column of all rows, or `None` when some
      cell does not convert and the exception leaves the table alone. */
  function ConvertStamps(rows: seq<Row>, parse: Value -> Option<int>): (r: Option<seq<Row>>)
    ensures r.None? <==> exists i :: 0 <= i < |rows| && Convert(parse, Cell(rows[i], StampCol)).None?
    ensures r.Some? ==> |r.value| == |rows|
    ensures r.Some? ==> forall i :: 0 <= i < |rows| ==>
      && Cell(r.value[i], StampCol) == Convert(parse, Cell(rows[i], StampCol)).value
      && forall c :: c != StampCol ==> Cell(r.value[i], c) == Cell(rows[i], c)
  {
    if |rows| == 0 then Some([])
    else
      match Convert(parse, Cell(rows[0], StampCol))
      case None => None
      case Some(v) =>
        match ConvertStamps(rows[1..], parse)
        case None =>
          assert forall i :: 0 < i < |rows| ==> rows[i] == rows[1..][i - 1];
          None
        case Some(rest) =>
          assert forall i :: 0 < i < |rows| ==> rows[i] == rows[1..][i - 1];
          Some([rows[0][StampCol := v]] + rest)
  }

  /** The sort key of the converted timeline. */
  function StampKey(r: Row): Option<int>
  {
    match Cell(r, StampCol)
    case Time(t) => Some(t)
    case _ => None
  }

  /** `timeline_entries`, one per loaded table. */
  function Entries(dfs: seq<Table>, now: int, toStr: Value -> string): (es: seq<Table>)
    ensures |es| == |dfs|
    ensures forall k :: 0 <= k < |es| ==> es[k].columns == EntryColumns && |es[k].rows| == |dfs[k].rows|
  {
    seq(|dfs|, k requires 0 <= k < |dfs| => Entry(dfs[k], now, toStr))
  }

  /** The combined timeline: the entries concatenated, then, if every
      timestamp converts, converted and sorted by time with missing times
      last; otherwise left as concatenated. */
  function CombinedTimeline(dfs: seq<Table>, parse: Value -> Option<int>, now: int, toStr: Value -> string): Table
  {
    var combined := Concat(Entries(dfs, now, toStr));
    match ConvertStamps(combined.rows, parse)
    case Some(rows) => Table(combined.columns, Sort(rows, StampKey, false))
    case None => combined
  }

  /** The run with the timeline built before the workbook is written: it
      returns True whenever some data loaded, and saves the timeline as a
      further sheet and as its own file. */
  function IntendedMerge(evtxFiles: seq<CsvFile>, regFiles: seq<CsvFile>,
                         parse: Value -> Option<int>, now: int, toStr: Value -> string): AnalyzerRun
  {
    var dfs := Sources(evtxFiles, regFiles);
    if |dfs| == 0 then AnalyzerRun(false, [], None)
    else
      var tl := CombinedTimeline(dfs, parse, now, toStr);
      AnalyzerRun(true, dfs + [tl], Some(tl))
  }

  /** The corrected run succeeds, and builds a timeline, exactly when some
      first file reads; the as-written run never does. */
  lemma IntendedSucceedsIff(evtxFiles: seq<CsvFile>, regFiles: seq<CsvFile>,
                            parse: Value -> Option<int>, now: int, toStr: Value -> string)
    ensures var run := IntendedMerge(evtxFiles, regFiles, parse, now, toStr);
      && (run.succeeded <==> (|evtxFiles| > 0 && evtxFiles[0].Parsed?) || (|regFiles| > 0 && regFiles[0].Parsed?))
      && run.timeline.Some? == run.succeeded
      && run.sheets[..|Sources(evtxFiles, regFiles)|] == AnalyzerMerge(evtxFiles, regFiles).sheets
  {
  }

  /** The corrected timeline has the three entry columns and one row per
      loaded row; when every timestamp converts it is ordered by time with
      missing times last and holds the converted rows, otherwise it is the
      entries' rows in order. */
  lemma IntendedTimeline(dfs: seq<Table>, parse: Value -> Option<int>, now: int, toStr: Value -> string)
    requires |dfs| > 0
    ensures var tl := CombinedTimeline(dfs, parse, now, toStr);
      var es := Entries(dfs, now, toStr);
      && tl.columns == EntryColumns
      && |tl.rows| == TotalRows(dfs)
      && match ConvertStamps(ConcatRows(es, EntryColumns), parse)
         case Some(rows) => SortedBy(tl.rows, StampKey, false) && multiset(tl.rows) == multiset(rows)
         case None => tl.rows == ConcatRows(es, EntryColumns)
  {
    var es := Entries(dfs, now, toStr);
    SameColumnsUnion(es, EntryColumns);
    EntriesRows(dfs, es);
  }

  /** Tables that all have the same distinct columns concatenate to those
      columns. */
  lemma SameColumnsUnion(ts: seq<Table>, cols: seq<string>)
    requires |ts| > 0 && NoDuplicates(cols)
    requires forall k :: 0 <= k < |ts| ==> ts[k].columns == cols
    ensures FirstSeen(AllColumns(ts)) == cols
  {
    AllColumnsOfSame(ts, cols);
    FirstSeenDistinctPrefix(cols, AllColumns(ts[1..]));
  }

  lemma {:induction false} AllColumnsOfSame(ts: seq<Table>, cols: seq<string>)
    requires |ts| > 0
    requires forall k :: 0 <= k < |ts| ==> ts[k].columns == cols
    ensures AllColumns(ts) == cols + AllColumns(ts[1..])
    ensures forall c :: c in AllColumns(ts[1..]) ==> c in cols
  {
    forall c | c in AllColumns(ts[1..])
      ensures c in cols
    {
      var t :| t in ts[1..] && c in t.columns;
      var k :| 0 <= k < |ts[1..]| && ts[1..][k] == t;
      assert ts[k + 1] == t;
    }
  }

  lemma {:induction false} EntriesRows(dfs: seq<Table>, es: seq<Table>)
    requires |es| == |dfs|
    requires forall k :: 0 <= k < |es| ==> |es[k].rows| == |dfs[k].rows|
    ensures TotalRows(es) == TotalRows(dfs)
  {
    if |es| > 0 {
      EntriesRows(dfs[1..], es[1..]);
    }
  }
}
