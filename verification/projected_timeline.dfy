/** `merge_forensic_data` of mergeTest.py: the event-log CSV, the Volatility
    JSON outputs and the registry CSV are loaded, and a timeline is built from
    three fixed projections (event log, `pslist`, registry), each with a
    `Source` label, concatenated in that order without sorting. */
module ProjectedTimeline {
  import opened Frame

  const LabelCol := "Source"
  const EvtxCols: seq<string> := ["TimeCreated", "EventID", "Message"]
  const PslistCols: seq<string> := ["start_time", "process_name", "pid"]
  const RegCols: seq<string> := ["LastWriteTime", "KeyPath", "ValueName"]
  const Pslist := "pslist"

  /** What became of one Volatility output file: it was missing, it was not
      valid JSON (both only warned about), its JSON could not be turned into
      a DataFrame (an exception that ends the run), or a table. */
  datatype VolOutput = Missing | InvalidJson | Unframeable | Frame(table: Table)

  /** `False`, or `True` with the timeline CSV if one was written. */
  datatype ProjectedRun = Failed | Done(timeline: Option<Table>)

  /** What one source contributes to the timeline: nothing (empty table), an
      exception (a projected column is missing), or the projection of its
      `source` table onto `cols`, labelled `tag`. */
  datatype Part = Skip | Raise | Take(source: Table, cols: seq<string>, tag: string)

  /** `pd.read_csv(path) if path else pd.DataFrame()`: `None` when the read
      raises. */
  function ReadCsv(f: Option<CsvFile>): Option<Table>
  {
    match f
    case None => Some(Table([], []))
    case Some(Unreadable) => None
    case Some(Parsed(t)) => Some(t)
  }

  /** `df[cols].copy()` with `Source` set to `tag`. */
  function Projection(t: Table, cols: seq<string>, tag: string): Table
  {
    SetColumn(Select(t, cols), LabelCol, r => Str(tag))
  }

  /** The part a source contributes (lines 140-155). */
  function PartOf(t: Table, cols: seq<string>, tag: string): (p: Part)
    ensures p.Skip? <==> IsEmpty(t)
    ensures p.Raise? <==> !IsEmpty(t) && exists k :: 0 <= k < |cols| && cols[k] !in t.columns
    ensures p.Take? ==> p == Take(t, cols, tag)
  {
    if IsEmpty(t) then Skip
    else if AllIn(cols, t.columns) then Take(t, cols, tag)
    else Raise
  }

  /** What a source puts on the timeline: nothing when it is empty, a
      `KeyError` when a projected column is missing, and otherwise one row
      per source row holding the projected cells, `Source` set to the tag,
      and no other cell. */
  lemma PartContribution(t: Table, cols: seq<string>, tag: string)
    ensures var p := PartOf(t, cols, tag);
      && (p.Skip? <==> IsEmpty(t))
      && (p.Raise? <==> !IsEmpty(t) && exists k :: 0 <= k < |cols| && cols[k] !in t.columns)
      && (p.Take? ==>
            var e := EntryOf(p).value;
            && |e.rows| == |t.rows|
            && forall j, c :: 0 <= j < |e.rows| ==>
                 Cell(e.rows[j], c) ==
                   if c == LabelCol then Str(tag) else if c in cols then Cell(t.rows[j], c) else Null)
  {
    var p := PartOf(t, cols, tag);
    if p.Take? {
      var e := EntryOf(p).value;
      forall j, c | 0 <= j < |e.rows|
        ensures Cell(e.rows[j], c) ==
          if c == LabelCol then Str(tag) else if c in cols then Cell(t.rows[j], c) else Null
      {
        ProjectionCell(t, cols, tag, j, c);
      }
    }
  }

  /** Every name in `keys` is one of the `columns`. */
  predicate AllIn(keys: seq<string>, columns: seq<string>)
  {
    forall k :: k in keys ==> k in columns
  }

  /** The `pslist` table as loaded and tagged, if there is one. */
  function PslistTable(vol: map<string, VolOutput>): Option<Table>
  {
    if Pslist in vol && vol[Pslist].Frame? then Some(Tag(vol[Pslist].table, "Memory_" + Pslist))
    else None
  }

  /** The entries of the parts that have one, in order. */
  function Taken(parts: seq<Part>): (ts: seq<Table>)
    ensures |ts| <= |parts|
  {
    Kept(parts, EntryOf)
  }

  function EntryOf(p: Part): Option<Table>
  {
    if p.Take? then Some(Projection(p.source, p.cols, p.tag)) else None
  }

  /** The CSV sources are tagged only when they are not empty. */
  function TagIfAny(t: Table, tag: string): Table
  {
    if IsEmpty(t) then t else Tag(t, tag)
  }

  /** The three parts, in timeline order. */
  function Parts(evtx: Table, vol: map<string, VolOutput>, reg: Table): seq<Part>
  {
    [ PartOf(TagIfAny(evtx, "EVTX"), EvtxCols, "EVTX"),
      match PslistTable(vol) case Some(t) => PartOf(t, PslistCols, "Memory_Process") case None => Skip,
      PartOf(TagIfAny(reg, "Registry"), RegCols, "Registry") ]
  }

  /** The whole run (lines 94-167). The Excel workbook is not modelled. */
  function ProjectedMerge(evtx: Option<CsvFile>, vol: map<string, VolOutput>, reg: Option<CsvFile>): ProjectedRun
  {
    var e := ReadCsv(evtx);
    var r := ReadCsv(reg);
    if e.None? || r.None? || exists p :: p in vol && vol[p].Unframeable? then Failed
    else MergeParts(Parts(e.value, vol, r.value))
  }

  /** Lines 157-167: any raised part ends the run; otherwise the entries
      are concatenated, if there are any. */
  function MergeParts(parts: seq<Part>): ProjectedRun
  {
    if exists k :: 0 <= k < |parts| && parts[k].Raise? then Failed
    else
      var entries := Taken(parts);
      if |entries| == 0 then Done(None) else Done(Some(Concat(entries)))
  }

  // ---------------------------------------------------------------------
  // Properties

  /** The run fails exactly when a CSV cannot be read, some Volatility
      output cannot be framed, or a non-empty source lacks one of the columns
      projected from it. */
  lemma ProjectedFailsIff(evtx: Option<CsvFile>, vol: map<string, VolOutput>, reg: Option<CsvFile>)
    ensures ProjectedMerge(evtx, vol, reg).Failed? <==>
      || ReadCsv(evtx).None? || ReadCsv(reg).None?
      || (exists p :: p in vol && vol[p].Unframeable?)
      || (!IsEmpty(ReadCsv(evtx).value) && !AllIn(EvtxCols, ReadCsv(evtx).value.columns))
      || (PslistTable(vol).Some? && !IsEmpty(PslistTable(vol).value)
          && !AllIn(PslistCols, PslistTable(vol).value.columns))
      || (!IsEmpty(ReadCsv(reg).value) && !AllIn(RegCols, ReadCsv(reg).value.columns))
  {
    if ReadCsv(evtx).Some? && ReadCsv(reg).Some? {
      var e := ReadCsv(evtx).value;
      var r := ReadCsv(reg).value;
      var parts := Parts(e, vol, r);
      PartsStatus(e, vol, r);
      assert (exists k :: 0 <= k < |parts| && parts[k].Raise?) <==>
        parts[0].Raise? || parts[1].Raise? || parts[2].Raise?;
    }
  }

  /** Which of the three parts are skipped and which raise, in terms of the
      loaded tables. */
  lemma PartsStatus(e: Table, vol: map<string, VolOutput>, r: Table)
    ensures var parts := Parts(e, vol, r);
      var ps := PslistTable(vol);
      && |parts| == 3
      && (parts[0].Skip? <==> IsEmpty(e))
      && (parts[0].Raise? <==> !IsEmpty(e) && !AllIn(EvtxCols, e.columns))
      && (parts[1].Skip? <==> ps.None? || IsEmpty(ps.value))
      && (parts[1].Raise? <==> ps.Some? && !IsEmpty(ps.value) && !AllIn(PslistCols, ps.value.columns))
      && (parts[2].Skip? <==> IsEmpty(r))
      && (parts[2].Raise? <==> !IsEmpty(r) && !AllIn(RegCols, r.columns))
  {
    TaggedPart(e, EvtxCols, "EVTX");
    TaggedPart(r, RegCols, "Registry");
  }

  /** Tagging a non-empty table changes neither its emptiness nor whether a
      projection that does not mention `Data_Source` finds its columns. */
  lemma TaggedPart(t: Table, cols: seq<string>, tag: string)
    requires SourceCol !in cols
    ensures var u := TagIfAny(t, tag);
      && IsEmpty(u) == IsEmpty(t)
      && (AllIn(cols, u.columns) <==> AllIn(cols, t.columns))
      && |u.rows| == |t.rows|
      && forall j, c :: 0 <= j < |t.rows| && c != SourceCol ==> Cell(u.rows[j], c) == Cell(t.rows[j], c)
  {
  }

  /** Nothing is written, yet the run succeeds, exactly when no read fails and
      all three sources are empty. */
  lemma ProjectedNoTimelineIff(evtx: Option<CsvFile>, vol: map<string, VolOutput>, reg: Option<CsvFile>)
    ensures ProjectedMerge(evtx, vol, reg) == Done(None) <==>
      && ReadCsv(evtx).Some? && ReadCsv(reg).Some?
      && (forall p :: p in vol ==> !vol[p].Unframeable?)
      && IsEmpty(ReadCsv(evtx).value)
      && (PslistTable(vol).None? || IsEmpty(PslistTable(vol).value))
      && IsEmpty(ReadCsv(reg).value)
  {
    if ReadCsv(evtx).Some? && ReadCsv(reg).Some? {
      var e := ReadCsv(evtx).value;
      var r := ReadCsv(reg).value;
      var parts := Parts(e, vol, r);
      PartsStatus(e, vol, r);
      MergePartsNone(parts);
      assert (forall k :: 0 <= k < |parts| ==> parts[k].Skip?) <==>
        parts[0].Skip? && parts[1].Skip? && parts[2].Skip?;
    }
  }

  /** Merging parts writes nothing exactly when every part is skipped. */
  lemma MergePartsNone(parts: seq<Part>)
    ensures MergeParts(parts) == Done(None) <==> forall k :: 0 <= k < |parts| ==> parts[k].Skip?
  {
    TakenEmptyIff(parts);
  }

  lemma TakenEmptyIff(parts: seq<Part>)
    ensures |Taken(parts)| == 0 <==> forall k :: 0 <= k < |parts| ==> !parts[k].Take?
  {
    KeptEmptyIff(parts, EntryOf);
  }

  /** Volatility outputs that are missing or not valid JSON are skipped: the
      run is the same as without them. */
  lemma ProjectedSkipsUnreadable(evtx: Option<CsvFile>, vol: map<string, VolOutput>, reg: Option<CsvFile>, p: string)
    requires p in vol && (vol[p].Missing? || vol[p].InvalidJson?)
    ensures ProjectedMerge(evtx, vol, reg) == ProjectedMerge(evtx, vol - {p}, reg)
  {
    var w := vol - {p};
    assert PslistTable(vol) == PslistTable(w);
    if exists q :: q in vol && vol[q].Unframeable? {
      var q :| q in vol && vol[q].Unframeable?;
      assert q in w && w[q].Unframeable?;
    }
  }

  /** Of the Volatility outputs only `pslist` reaches the timeline: any
      other plugin's table can be replaced without changing the run. */
  lemma ProjectedOnlyPslist(evtx: Option<CsvFile>, vol: map<string, VolOutput>, reg: Option<CsvFile>,
                            p: string, t: Table, u: Table)
    requires p != Pslist
    ensures ProjectedMerge(evtx, vol[p := Frame(t)], reg) == ProjectedMerge(evtx, vol[p := Frame(u)], reg)
  {
    var v1, v2 := vol[p := Frame(t)], vol[p := Frame(u)];
    assert PslistTable(v1) == PslistTable(v2);
    assert (exists q :: q in v1 && v1[q].Unframeable?) <==> (exists q :: q in v2 && v2[q].Unframeable?) by {
      forall q | q in v1
        ensures v1[q].Unframeable? <==> v2[q].Unframeable?
      {
      }
    }
  }

  /** The number of rows a source puts on the timeline. */
  function Contribution(t: Option<Table>): nat
  {
    match t
    case Some(u) => if IsEmpty(u) then 0 else |u.rows|
    case None => 0
  }

  /** The cell a projected row holds in column `c`. */
  function ProjectedCell(row: Row, cols: seq<string>, tag: string, c: string): Value
  {
    if c == LabelCol then Str(tag) else if c in cols then Cell(row, c) else Null
  }

  /** The layout of a timeline built from the event-log table `e`, the
      `pslist` table `ps` and the registry table `r`: their contributions in
      that order, each row projected and labelled. */
  ghost predicate Layout(tl: Table, e: Table, ps: Option<Table>, r: Table)
  {
    var ne, np, nr := Contribution(Some(e)), Contribution(ps), Contribution(Some(r));
    && |tl.rows| == ne + np + nr
    && Placed(tl, 0, e, ne, EvtxCols, "EVTX")
    && (ps.Some? ==> Placed(tl, ne, ps.value, np, PslistCols, "Memory_Process"))
    && Placed(tl, ne + np, r, nr, RegCols, "Registry")
  }

  /** The timeline holds the event-log rows, then the `pslist` rows, then the
      registry rows, in their own order: each row carries the source's
      projected cells, its `Source` label, and nothing else. */
  lemma ProjectedRows(evtx: Option<CsvFile>, vol: map<string, VolOutput>, reg: Option<CsvFile>)
    requires ProjectedMerge(evtx, vol, reg).Done? && ProjectedMerge(evtx, vol, reg).timeline.Some?
    ensures Layout(ProjectedMerge(evtx, vol, reg).timeline.value,
                   ReadCsv(evtx).value, PslistTable(vol), ReadCsv(reg).value)
  {
    var e, r := ReadCsv(evtx).value, ReadCsv(reg).value;
    ProjectedTimelineIs(evtx, vol, reg);
    PartsRows(e, vol, r);
  }

  lemma ProjectedTimelineIs(evtx: Option<CsvFile>, vol: map<string, VolOutput>, reg: Option<CsvFile>)
    requires ProjectedMerge(evtx, vol, reg).Done? && ProjectedMerge(evtx, vol, reg).timeline.Some?
    ensures var parts := Parts(ReadCsv(evtx).value, vol, ReadCsv(reg).value);
      && |parts| == 3 && !parts[0].Raise? && !parts[1].Raise? && !parts[2].Raise?
      && ProjectedMerge(evtx, vol, reg).timeline.value == Concat(Taken(parts))
  {
  }

  /** The timeline built from three parts none of which raised. */
  lemma PartsRows(e: Table, vol: map<string, VolOutput>, r: Table)
    requires var parts := Parts(e, vol, r);
      !parts[0].Raise? && !parts[1].Raise? && !parts[2].Raise?
    ensures Layout(Concat(Taken(Parts(e, vol, r))), e, PslistTable(vol), r)
  {
    var parts := Parts(e, vol, r);
    var ps := PslistTable(vol);
    PartsMatch(e, vol, r);
    PartsLayout(parts, e, ps, r);
  }

  /** Part `p` stands for the table `t` projected onto `cols` and labelled
      `tag`: it is skipped exactly when `t` is empty, and otherwise its
      source agrees with `t` on every column but `Data_Source`, which the
      projection leaves out. */
  ghost predicate Matches(p: Part, t: Table, cols: seq<string>, tag: string)
  {
    && SourceCol !in cols
    && (p.Skip? <==> IsEmpty(t))
    && (p.Take? ==>
          && p.cols == cols && p.tag == tag && |p.source.rows| == |t.rows|
          && forall j, c :: 0 <= j < |t.rows| && c != SourceCol ==> Cell(p.source.rows[j], c) == Cell(t.rows[j], c))
  }

  lemma PartsMatch(e: Table, vol: map<string, VolOutput>, r: Table)
    ensures var parts := Parts(e, vol, r);
      var ps := PslistTable(vol);
      && |parts| == 3
      && Matches(parts[0], e, EvtxCols, "EVTX")
      && (ps.Some? ==> Matches(parts[1], ps.value, PslistCols, "Memory_Process"))
      && (ps.None? ==> parts[1].Skip?)
      && Matches(parts[2], r, RegCols, "Registry")
  {
    TaggedPart(e, EvtxCols, "EVTX");
    TaggedPart(r, RegCols, "Registry");
  }

  /** Three parts that stand for `e`, `ps` and `r` lay the timeline out as
      `Layout` says. */
  lemma PartsLayout(parts: seq<Part>, e: Table, ps: Option<Table>, r: Table)
    requires |parts| == 3 && !parts[0].Raise? && !parts[1].Raise? && !parts[2].Raise?
    requires Matches(parts[0], e, EvtxCols, "EVTX")
    requires ps.Some? ==> Matches(parts[1], ps.value, PslistCols, "Memory_Process")
    requires ps.None? ==> parts[1].Skip?
    requires Matches(parts[2], r, RegCols, "Registry")
    ensures Layout(Concat(Taken(parts)), e, ps, r)
  {
    PartsOffsets(parts);
    TakenPrefixRows(parts, 0);
    SourcePlaced(parts, 0, e, EvtxCols, "EVTX");
    SourcePlaced(parts, 2, r, RegCols, "Registry");
    if ps.Some? {
      SourcePlaced(parts, 1, ps.value, PslistCols, "Memory_Process");
    }
    assert PartRows(parts[1]) == Contribution(ps);
    LayoutOfPlaced(Concat(Taken(parts)), e, ps, r,
      TotalRows(Taken(parts[..1])), TotalRows(Taken(parts[..2])));
  }

  /** The three placements, at offsets that add up, make the layout. */
  lemma LayoutOfPlaced(tl: Table, e: Table, ps: Option<Table>, r: Table, o1: nat, o2: nat)
    requires o1 == Contribution(Some(e)) && o2 == o1 + Contribution(ps)
    requires |tl.rows| == o2 + Contribution(Some(r))
    requires Placed(tl, 0, e, Contribution(Some(e)), EvtxCols, "EVTX")
    requires ps.Some? ==> Placed(tl, o1, ps.value, Contribution(ps), PslistCols, "Memory_Process")
    requires Placed(tl, o2, r, Contribution(Some(r)), RegCols, "Registry")
    ensures Layout(tl, e, ps, r)
  {
  }

  /** Part `k`, standing for `t`, puts the projections of `t`'s rows at its
      offset. */
  lemma SourcePlaced(parts: seq<Part>, k: nat, t: Table, cols: seq<string>, tag: string)
    requires k < |parts| && !parts[k].Raise? && Matches(parts[k], t, cols, tag)
    ensures PartRows(parts[k]) == Contribution(Some(t))
    ensures Placed(Concat(Taken(parts)), TotalRows(Taken(parts[..k])), t, Contribution(Some(t)), cols, tag)
  {
    var tl := Concat(Taken(parts));
    var off := TotalRows(Taken(parts[..k]));
    TakenPrefixRows(parts, k);
    if parts[k].Take? {
      var u := parts[k].source;
      SourcePart(parts, k, u, cols, tag);
      PlacedUntagged(tl, off, u, t, |t.rows|, cols, tag);
    }
  }

  /** The parts of a successful run contribute their row counts in order. */
  lemma PartsOffsets(parts: seq<Part>)
    requires |parts| == 3
    ensures TotalRows(Taken(parts[..0])) == 0
    ensures TotalRows(Taken(parts[..1])) == PartRows(parts[0])
    ensures TotalRows(Taken(parts[..2])) == PartRows(parts[0]) + PartRows(parts[1])
    ensures TotalRows(Taken(parts)) == PartRows(parts[0]) + PartRows(parts[1]) + PartRows(parts[2])
  {
    assert parts[..1] == [parts[0]];
    assert parts[..2] == [parts[0]] + [parts[1]];
    assert parts == parts[..2] + [parts[2]];
    TakenOne(parts[0]);
    TakenOne(parts[1]);
    TakenOne(parts[2]);
    TakenAppend([parts[0]], [parts[1]]);
    TakenAppend(parts[..2], [parts[2]]);
    TotalRowsAppend(Taken([parts[0]]), Taken([parts[1]]));
    TotalRowsAppend(Taken(parts[..2]), Taken([parts[2]]));
  }

  function PartRows(p: Part): nat
  {
    if p.Take? then |p.source.rows| else 0
  }

  lemma TakenOne(p: Part)
    ensures Taken([p]) == if p.Take? then [EntryOf(p).value] else []
    ensures TotalRows(Taken([p])) == PartRows(p)
  {
    KeptOne(p, EntryOf);
    if p.Take? {
      assert |EntryOf(p).value.rows| == |p.source.rows|;
    }
  }

  lemma TakenAppend(a: seq<Part>, b: seq<Part>)
    ensures Taken(a + b) == Taken(a) + Taken(b)
  {
    KeptAppend(a, b, EntryOf);
  }

  /** The rows part `k` puts on the timeline: the projections of the rows
      of the table `u` it was built from. */
  lemma SourcePart(parts: seq<Part>, k: nat, u: Table, cols: seq<string>, tag: string)
    requires k < |parts| && parts[k] == Take(u, cols, tag)
    ensures Placed(Concat(Taken(parts)), TotalRows(Taken(parts[..k])), u, |u.rows|, cols, tag)
  {
    TakenPrefixRows(parts, k);
    var tl := Concat(Taken(parts));
    var off := TotalRows(Taken(parts[..k]));
    forall i, c | 0 <= i < |u.rows|
      ensures Cell(tl.rows[off + i], c) == ProjectedCell(u.rows[i], cols, tag, c)
    {
      PlacedRow(parts, k, u, cols, tag, i, c);
    }
    assert Placed(tl, off, u, |u.rows|, cols, tag);
  }

  /** Part `k`'s rows come after those of the parts before it and before the end. */
  lemma TakenPrefixRows(parts: seq<Part>, k: nat)
    requires k < |parts|
    ensures TotalRows(Taken(parts[..k])) + PartRows(parts[k]) <= TotalRows(Taken(parts))
    ensures |Concat(Taken(parts)).rows| == TotalRows(Taken(parts))
  {
    var pre, post := parts[..k], parts[k + 1..];
    assert parts == (pre + [parts[k]]) + post;
    TakenAppend(pre + [parts[k]], post);
    TakenAppend(pre, [parts[k]]);
    TakenOne(parts[k]);
    TotalRowsAppend(Taken(pre + [parts[k]]), Taken(post));
    TotalRowsAppend(Taken(pre), Taken([parts[k]]));
  }

  lemma PlacedRow(parts: seq<Part>, k: nat, u: Table, cols: seq<string>, tag: string, i: nat, c: string)
    requires k < |parts| && parts[k] == Take(u, cols, tag)
    requires i < |u.rows|
    ensures var tl := Concat(Taken(parts));
      var off := TotalRows(Taken(parts[..k]));
      off + i < |tl.rows| && Cell(tl.rows[off + i], c) == ProjectedCell(u.rows[i], cols, tag, c)
  {
    ProjectionNullOutside(u, cols, tag);
    ProjectionCell(u, cols, tag, i, c);
    EntryRowAt(parts, k, i, c);
  }

  /** Placement read through a tagging: the projection does not see
      `Data_Source`, so the untagged rows can stand in for the tagged ones. */
  lemma PlacedUntagged(tl: Table, off: nat, u: Table, t: Table, n: nat, cols: seq<string>, tag: string)
    requires SourceCol !in cols && |u.rows| == |t.rows|
    requires forall j, c :: 0 <= j < |t.rows| && c != SourceCol ==> Cell(u.rows[j], c) == Cell(t.rows[j], c)
    requires Placed(tl, off, u, n, cols, tag)
    ensures Placed(tl, off, t, n, cols, tag)
  {
    forall i, c | 0 <= i < n
      ensures Cell(tl.rows[off + i], c) == ProjectedCell(t.rows[i], cols, tag, c)
    {
      assert ProjectedCell(u.rows[i], cols, tag, c) == ProjectedCell(t.rows[i], cols, tag, c);
    }
  }

  /** Rows `off` to `off + n` of `tl` are the projections of the first `n`
      rows of `t`. */
  ghost predicate Placed(tl: Table, off: nat, t: Table, n: nat, cols: seq<string>, tag: string)
  {
    && n <= |t.rows| && off + n <= |tl.rows|
    && forall i, c {:trigger ProjectedCell(t.rows[i], cols, tag, c)} ::
         0 <= i < n ==> Cell(tl.rows[off + i], c) == ProjectedCell(t.rows[i], cols, tag, c)
  }

  lemma ProjectionNullOutside(t: Table, cols: seq<string>, tag: string)
    ensures NullOutside(Projection(t, cols, tag))
  {
    var p := Projection(t, cols, tag);
    forall j, c | 0 <= j < |p.rows| && c !in p.columns
      ensures Cell(p.rows[j], c) == Null
    {
      ProjectionCell(t, cols, tag, j, c);
    }
  }

  /** `df[cols]` with `Source` set: the listed cells, the label, nothing else. */
  lemma ProjectionCell(t: Table, cols: seq<string>, tag: string, j: nat, c: string)
    requires j < |t.rows|
    ensures var p := Projection(t, cols, tag);
      && |p.rows| == |t.rows|
      && p.columns == cols + (if LabelCol in cols then [] else [LabelCol])
      && Cell(p.rows[j], c) == ProjectedCell(t.rows[j], cols, tag, c)
  {
  }

  /** The cells of a table's rows outside its columns are all missing. */
  ghost predicate NullOutside(t: Table)
  {
    forall j, c :: 0 <= j < |t.rows| && c !in t.columns ==> Cell(t.rows[j], c) == Null
  }

  /** Row `j` of the `k`-th taken entry, as it appears in the concatenation. */
  lemma EntryRowAt(parts: seq<Part>, k: nat, j: nat, c: string)
    requires k < |parts| && parts[k].Take? && j < |EntryOf(parts[k]).value.rows|
    requires NullOutside(EntryOf(parts[k]).value)
    ensures var tl := Concat(Taken(parts));
      var off := TotalRows(Taken(parts[..k]));
      off + j < |tl.rows| && Cell(tl.rows[off + j], c) == Cell(EntryOf(parts[k]).value.rows[j], c)
  {
    var pre, post := parts[..k], parts[k + 1..];
    assert parts == pre + [parts[k]] + post;
    TakenAppend(pre + [parts[k]], post);
    TakenAppend(pre, [parts[k]]);
    TakenOne(parts[k]);
    var entry := EntryOf(parts[k]).value;
    assert Taken(parts) == Taken(pre) + [entry] + Taken(post);
    ConcatAt(Taken(pre), entry, Taken(post), j, c);
  }
}
