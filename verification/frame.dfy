/** The slice of a pandas DataFrame that the merge code uses: an ordered
    column list, rows as maps from column name to cell, column assignment,
    column selection, and `pd.concat` with its first-seen union of columns. */
module Frame {

  datatype Option<+T> = None | Some(value: T)

  /** A cell: pandas' missing value (NaN, None or NaT), a string, an integer,
      or a timezone-aware instant produced by `pd.to_datetime`. */
  datatype Value = Null | Str(s: string) | Num(n: int) | Time(instant: int)

  /** A row maps column names to cells; a name the row lacks reads as missing. */
  type Row = map<string, Value>

  datatype Table = Table(columns: seq<string>, rows: seq<Row>)

  /** What `pd.read_csv` makes of one input file: a table, or an exception. */
  datatype CsvFile = Parsed(table: Table) | Unreadable

  function Cell(r: Row, c: string): Value
  {
    if c in r then r[c] else Null
  }

  /** The `f"{key}: {val}"` piece both merge versions build descriptions from. */
  function KeyValue(key: string, v: Value, toStr: Value -> string): string
  {
    key + ": " + toStr(v)
  }

  /** A table is empty, in pandas' sense, when it has no rows or no columns. */
  predicate IsEmpty(t: Table)
  {
    |t.rows| == 0 || |t.columns| == 0
  }

  /** `df[name] = <per-row value>`: an existing column is overwritten where it
      stands, a new one is appended; the value is computed from the row as it
      was before the assignment. */
  function SetColumn(t: Table, name: string, f: Row -> Value): (r: Table)
    ensures |r.rows| == |t.rows|
    ensures r.columns == if name in t.columns then t.columns else t.columns + [name]
    ensures forall i, c :: 0 <= i < |r.rows| ==>
      Cell(r.rows[i], c) == if c == name then f(t.rows[i]) else Cell(t.rows[i], c)
  {
    Table(if name in t.columns then t.columns else t.columns + [name],
          seq(|t.rows|, i requires 0 <= i < |t.rows| => t.rows[i][name := f(t.rows[i])]))
  }

  /** The provenance column every merge adds to a loaded table. */
  const SourceCol := "Data_Source"

  /** `df['Data_Source'] = tag`. */
  function Tag(t: Table, tag: string): Table
  {
    SetColumn(t, SourceCol, r => Str(tag))
  }

  /** A row laid out on `cols`: each listed column keeps its cell or reads as
      missing, and nothing else survives. */
  function Reindex(r: Row, cols: seq<string>): (o: Row)
    ensures forall c :: Cell(o, c) == if c in cols then Cell(r, c) else Null
  {
    map c | c in cols :: Cell(r, c)
  }

  /** `df[cols]` where every name in `cols` is a column. */
  function Select(t: Table, cols: seq<string>): (r: Table)
    ensures r.columns == cols && |r.rows| == |t.rows|
    ensures forall i :: 0 <= i < |r.rows| ==> r.rows[i] == Reindex(t.rows[i], cols)
  {
    Table(cols, seq(|t.rows|, i requires 0 <= i < |t.rows| => Reindex(t.rows[i], cols)))
  }

  /** What `df[cols]` holds: the same number of rows, each with the listed
      cells of its source row and no other cell. */
  lemma SelectCells(t: Table, cols: seq<string>, i: nat, c: string)
    requires i < |t.rows|
    ensures var r := Select(t, cols);
      && r.columns == cols && |r.rows| == |t.rows|
      && Cell(r.rows[i], c) == if c in cols then Cell(t.rows[i], c) else Null
  {
  }

  predicate NoDuplicates<T(==)>(xs: seq<T>)
  {
    forall i, j :: 0 <= i < j < |xs| ==> xs[i] != xs[j]
  }

  /** Position of the first occurrence of `x`. */
  function FirstIndex<T(==)>(xs: seq<T>, x: T): (k: nat)
    requires x in xs
    ensures k < |xs| && xs[k] == x && x !in xs[..k]
  {
    if xs[0] == x then 0
    else
      var k := 1 + FirstIndex(xs[1..], x);
      assert xs[..k] == [xs[0]] + xs[1..][..k - 1];
      k
  }

  /** The first occurrence of an element of a prefix lies in that prefix. */
  lemma FirstIndexInPrefix<T>(xs: seq<T>, n: nat, x: T)
    requires n <= |xs| && x in xs[..n]
    ensures FirstIndex(xs, x) == FirstIndex(xs[..n], x)
  {
    var a, b := FirstIndex(xs, x), FirstIndex(xs[..n], x);
    assert xs[..n][..b] == xs[..b];
  }

  /** The distinct elements of `xs`, ordered by first occurrence: the column
      index `pd.concat(..., sort=False)` builds. */
  function FirstSeen<T(==,!new)>(xs: seq<T>): (r: seq<T>)
    ensures NoDuplicates(r)
    ensures forall x :: x in r <==> x in xs
    decreases |xs|
  {
    if |xs| == 0 then []
    else
      var init := xs[..|xs| - 1];
      var last := xs[|xs| - 1];
      assert forall x :: x in xs <==> x in init || x == last by {
        assert xs == init + [last];
      }
      var seen := FirstSeen(init);
      if last in seen then seen else seen + [last]
  }

  /** Every name of `r` occurs in `xs`, and `r` lists them in the order of
      their first occurrence there. */
  predicate InFirstOrder<T(==,!new)>(r: seq<T>, xs: seq<T>)
  {
    && (forall k :: 0 <= k < |r| ==> r[k] in xs)
    && forall i, j :: 0 <= i < j < |r| ==> FirstIndex(xs, r[i]) < FirstIndex(xs, r[j])
  }

  /** The first-seen union lists names in the order of their first occurrence. */
  lemma {:induction false} FirstSeenOrder<T(!new)>(xs: seq<T>)
    ensures InFirstOrder(FirstSeen(xs), xs)
    decreases |xs|
  {
    if |xs| > 0 {
      var init := xs[..|xs| - 1];
      var last := xs[|xs| - 1];
      var seen := FirstSeen(init);
      FirstSeenOrder(init);
      assert forall x :: x in xs <==> x in init || x == last by {
        assert xs == init + [last];
      }
      assert forall k :: 0 <= k < |seen| ==> FirstIndex(xs, seen[k]) == FirstIndex(init, seen[k]) by {
        forall k | 0 <= k < |seen| {
          FirstIndexInPrefix(xs, |xs| - 1, seen[k]);
        }
      }
      if last !in seen {
        assert FirstIndex(xs, last) == |xs| - 1 by {
          assert xs[..|xs| - 1] == init;
        }
        var r := seen + [last];
        assert FirstSeen(xs) == r;
        forall i, j | 0 <= i < j < |r|
          ensures FirstIndex(xs, r[i]) < FirstIndex(xs, r[j])
        {
          assert r[i] == seen[i];
          assert FirstIndex(xs, seen[i]) == FirstIndex(init, seen[i]);
          if j == |seen| {
            assert r[j] == last;
            assert seen[i] in init;
            assert FirstIndex(init, seen[i]) < |init|;
            assert FirstIndex(xs, last) == |init|;
          } else {
            assert r[j] == seen[j];
            assert FirstIndex(xs, seen[j]) == FirstIndex(init, seen[j]);
            assert InFirstOrder(seen, init);
            assert FirstIndex(init, seen[i]) < FirstIndex(init, seen[j]);
          }
        }
      } else {
        assert FirstSeen(xs) == seen;
      }
    }
  }

  lemma SnocInit<T>(xs: seq<T>, x: T)
    ensures (xs + [x])[..|xs|] == xs && (xs + [x])[|xs|] == x
  {
  }

  lemma SnocSplit<T>(a: seq<T>, b: seq<T>)
    requires |b| > 0
    ensures a + b == (a + b[..|b| - 1]) + [b[|b| - 1]]
    ensures b == b[..|b| - 1] + [b[|b| - 1]]
  {
  }

  /** `FirstSeen(xs + more)` is `xs` when `xs` is distinct and `more` repeats
      only names of `xs`. */
  lemma {:induction false} FirstSeenDistinctPrefix<T(!new)>(xs: seq<T>, more: seq<T>)
    requires NoDuplicates(xs)
    requires forall c :: c in more ==> c in xs
    ensures FirstSeen(xs + more) == xs
    decreases |more|
  {
    if |more| == 0 {
      assert xs + more == xs;
      FirstSeenDistinct(xs);
    } else {
      var init, last := more[..|more| - 1], more[|more| - 1];
      SnocSplit(xs, more);
      FirstSeenDistinctPrefix(xs, init);
      FirstSeenSnoc(xs + init, last);
    }
  }

  /** A distinct list is its own first-seen union. */
  lemma {:induction false} FirstSeenDistinct<T(!new)>(xs: seq<T>)
    requires NoDuplicates(xs)
    ensures FirstSeen(xs) == xs
    decreases |xs|
  {
    if |xs| > 0 {
      var init, last := xs[..|xs| - 1], xs[|xs| - 1];
      SnocSplit([], xs);
      assert NoDuplicates(init);
      assert last !in init;
      FirstSeenDistinct(init);
      FirstSeenSnoc(init, last);
    }
  }

  lemma FirstSeenSnoc<T(!new)>(xs: seq<T>, x: T)
    ensures FirstSeen(xs + [x]) == if x in xs then FirstSeen(xs) else FirstSeen(xs) + [x]
  {
    SnocInit(xs, x);
  }

  /** `[x for x in xs if x not in drop]`. */
  function Without<T(==,!new)>(xs: seq<T>, drop: seq<T>): (r: seq<T>)
    ensures forall x :: x in r <==> x in xs && x !in drop
    ensures NoDuplicates(xs) ==> NoDuplicates(r)
    decreases |xs|
  {
    if |xs| == 0 then []
    else
      var rest := Without(xs[1..], drop);
      assert forall x :: x in xs <==> x == xs[0] || x in xs[1..] by {
        assert xs == [xs[0]] + xs[1..];
      }
      if xs[0] in drop then rest else [xs[0]] + rest
  }

  /** The `Some` results of `f` over `xs`, in order: the tables a loop keeps
      when it skips the inputs that fail. */
  function Kept<A, B>(xs: seq<A>, f: A -> Option<B>): (ys: seq<B>)
    ensures |ys| <= |xs|
  {
    if |xs| == 0 then []
    else (match f(xs[0]) case Some(y) => [y] case None => []) + Kept(xs[1..], f)
  }

  lemma {:induction false} KeptAppend<A, B>(a: seq<A>, b: seq<A>, f: A -> Option<B>)
    ensures Kept(a + b, f) == Kept(a, f) + Kept(b, f)
    decreases |a|
  {
    if |a| == 0 {
      assert a + b == b;
    } else {
      var head := match f(a[0]) case Some(y) => [y] case None => [];
      assert (a + b)[0] == a[0] && (a + b)[1..] == a[1..] + b;
      assert Kept(a + b, f) == head + Kept(a[1..] + b, f);
      KeptAppend(a[1..], b, f);
      assert Kept(a, f) == head + Kept(a[1..], f);
    }
  }

  lemma KeptOne<A, B>(x: A, f: A -> Option<B>)
    ensures Kept([x], f) == match f(x) case Some(y) => [y] case None => []
  {
    assert [x][1..] == [];
  }

  /** An input that fails leaves no trace. */
  lemma KeptSkips<A, B>(a: seq<A>, x: A, b: seq<A>, f: A -> Option<B>)
    requires f(x).None?
    ensures Kept(a + [x] + b, f) == Kept(a + b, f)
  {
    KeptAppend(a + [x], b, f);
    KeptAppend(a, [x], f);
    KeptAppend(a, b, f);
    KeptOne(x, f);
  }

  /** What is kept is exactly the results of the inputs that succeed. */
  lemma {:induction false} KeptFrom<A, B>(xs: seq<A>, f: A -> Option<B>, y: B)
    ensures y in Kept(xs, f) <==> exists x :: x in xs && f(x) == Some(y)
    decreases |xs|
  {
    if |xs| > 0 {
      KeptFrom(xs[1..], f, y);
      assert forall x :: x in xs <==> x == xs[0] || x in xs[1..] by {
        assert xs == [xs[0]] + xs[1..];
      }
    }
  }

  /** Filtering a list without repeats through a map that never sends two
      inputs to the same output keeps it without repeats. */
  lemma {:induction false} KeptNoDuplicates<A, B>(xs: seq<A>, f: A -> Option<B>)
    requires NoDuplicates(xs)
    requires forall x, y :: f(x).Some? && f(x) == f(y) ==> x == y
    ensures NoDuplicates(Kept(xs, f))
    decreases |xs|
  {
    if |xs| > 0 {
      KeptNoDuplicates(xs[1..], f);
      var rest := Kept(xs[1..], f);
      if f(xs[0]).Some? {
        var y := f(xs[0]).value;
        KeptFrom(xs[1..], f, y);
        assert y !in rest;
        assert Kept(xs, f) == [y] + rest;
      }
    }
  }

  /** Nothing is kept exactly when every input fails. */
  lemma {:induction false} KeptEmptyIff<A, B>(xs: seq<A>, f: A -> Option<B>)
    ensures |Kept(xs, f)| == 0 <==> forall k :: 0 <= k < |xs| ==> f(xs[k]).None?
    decreases |xs|
  {
    if |xs| > 0 {
      KeptEmptyIff(xs[1..], f);
      assert forall k :: 0 < k < |xs| ==> xs[k] == xs[1..][k - 1];
    }
  }

  /** Filtering distributes over concatenation. */
  lemma {:induction false} WithoutAppend<T(!new)>(a: seq<T>, b: seq<T>, drop: seq<T>)
    ensures Without(a + b, drop) == Without(a, drop) + Without(b, drop)
    decreases |a|
  {
    if |a| == 0 {
      assert a + b == b;
    } else {
      assert (a + b)[0] == a[0];
      assert (a + b)[1..] == a[1..] + b;
      WithoutAppend(a[1..], b, drop);
    }
  }

  lemma WithoutSnoc<T(!new)>(xs: seq<T>, x: T, drop: seq<T>)
    ensures Without(xs + [x], drop) == if x in drop then Without(xs, drop) else Without(xs, drop) + [x]
  {
    WithoutAppend(xs, [x], drop);
    assert [x][1..] == [];
  }

  /** Moving `front` ahead of the other names of `xs + extra`: the other
      names of `xs` come right after `front`, in their own order. */
  lemma FrontLayout<T(!new)>(front: seq<T>, xs: seq<T>, extra: seq<T>)
    ensures var r := front + Without(xs + extra, front);
      var others := Without(xs, front);
      && r[..|front|] == front
      && (forall c :: c in r[|front|..] ==> c !in front)
      && |front| + |others| <= |r|
      && r[|front|..|front| + |others|] == others
  {
    WithoutAppend(xs, extra, front);
    var r := front + Without(xs + extra, front);
    assert r[|front|..] == Without(xs + extra, front);
    assert r[..|front|] == front;
  }

  /** A distinct prefix followed by the names of a distinct list that are
      neither in the prefix nor in `more`. */
  lemma PrependWithout<T(!new)>(pre: seq<T>, xs: seq<T>, more: seq<T>)
    requires NoDuplicates(pre) && NoDuplicates(xs)
    ensures var r := pre + Without(xs, pre + more);
      && NoDuplicates(r)
      && forall c :: c in r <==> c in pre || (c in xs && c !in more)
  {
    var tail := Without(xs, pre + more);
    var r := pre + tail;
    forall i, j | 0 <= i < j < |r|
      ensures r[i] != r[j]
    {
      if j >= |pre| {
        assert r[j] == tail[j - |pre|] && r[j] in tail;
        if i < |pre| {
          assert r[i] in pre + more;
        } else {
          assert r[i] == tail[i - |pre|];
        }
      }
    }
    forall c
      ensures c in r <==> c in pre || (c in xs && c !in more)
    {
      assert c in pre + more <==> c in pre || c in more;
    }
  }

  /** Dropping names after taking the first-seen union is the same as taking
      the first-seen union of what is left after dropping them. */
  lemma {:induction false} WithoutFirstSeen<T(!new)>(xs: seq<T>, drop: seq<T>)
    ensures Without(FirstSeen(xs), drop) == FirstSeen(Without(xs, drop))
    decreases |xs|
  {
    if |xs| > 0 {
      var init := xs[..|xs| - 1];
      var last := xs[|xs| - 1];
      assert xs == init + [last];
      WithoutFirstSeen(init, drop);
      var seen := FirstSeen(init);
      WithoutSnoc(init, last, drop);
      if last !in seen {
        WithoutSnoc(seen, last, drop);
      }
      if last !in drop {
        var w := Without(init, drop);
        assert (w + [last])[..|w|] == w;
      }
    }
  }


  /** Every table's columns, one table after the other. */
  function AllColumns(ts: seq<Table>): (cs: seq<string>)
    ensures forall c :: c in cs <==> exists t :: t in ts && c in t.columns
  {
    if |ts| == 0 then []
    else
      assert forall t :: t in ts <==> t == ts[0] || t in ts[1..] by {
        assert ts == [ts[0]] + ts[1..];
      }
      ts[0].columns + AllColumns(ts[1..])
  }

  function TotalRows(ts: seq<Table>): nat
  {
    if |ts| == 0 then 0 else |ts[0].rows| + TotalRows(ts[1..])
  }

  lemma {:induction false} TotalRowsAppend(a: seq<Table>, b: seq<Table>)
    ensures TotalRows(a + b) == TotalRows(a) + TotalRows(b)
    decreases |a|
  {
    if |a| == 0 {
      assert a + b == b;
    } else {
      assert (a + b)[1..] == a[1..] + b;
      TotalRowsAppend(a[1..], b);
    }
  }

  /** The rows of all tables in order, each laid out on `cols`. */
  function ConcatRows(ts: seq<Table>, cols: seq<string>): (rows: seq<Row>)
    ensures |rows| == TotalRows(ts)
  {
    if |ts| == 0 then [] else Select(ts[0], cols).rows + ConcatRows(ts[1..], cols)
  }

  /** `pd.concat(ts, ignore_index=True, sort=False)`: the columns are the
      first-seen union, and a row's cells for columns its table lacks are missing. */
  function Concat(ts: seq<Table>): Table
  {
    var cols := FirstSeen(AllColumns(ts));
    Table(cols, ConcatRows(ts, cols))
  }

  /** Row `j` of table `k` sits after all rows of the tables before it. */
  lemma {:induction false} ConcatRowsOffset(ts: seq<Table>, cols: seq<string>, k: nat, j: nat)
    requires k < |ts| && j < |ts[k].rows|
    ensures TotalRows(ts[..k]) + j < TotalRows(ts)
    ensures ConcatRows(ts, cols)[TotalRows(ts[..k]) + j] == Reindex(ts[k].rows[j], cols)
    decreases k
  {
    if k == 0 {
      assert ts[..0] == [];
    } else {
      ConcatRowsOffset(ts[1..], cols, k - 1, j);
      var pre := ts[..k];
      assert pre[0] == ts[0] && pre[1..] == ts[1..][..k - 1];
    }
  }

  /** A row of a table in the middle of a concatenation keeps its cells, at
      an offset of all the rows before it, as long as its table reads
      missing outside its columns. */
  lemma ConcatAt(pre: seq<Table>, x: Table, post: seq<Table>, j: nat, c: string)
    requires j < |x.rows|
    requires c !in x.columns ==> Cell(x.rows[j], c) == Null
    ensures var tl := Concat(pre + [x] + post);
      TotalRows(pre) + j < |tl.rows| && Cell(tl.rows[TotalRows(pre) + j], c) == Cell(x.rows[j], c)
  {
    var es := pre + [x] + post;
    var cols := FirstSeen(AllColumns(es));
    ConcatRowsMiddle(pre, x, post, cols, j);
    if c in x.columns {
      ColumnInUnion(es, |pre|, c);
    }
    assert Cell(Reindex(x.rows[j], cols), c) == Cell(x.rows[j], c);
  }

  lemma ConcatRowsMiddle(pre: seq<Table>, x: Table, post: seq<Table>, cols: seq<string>, j: nat)
    requires j < |x.rows|
    ensures var rows := ConcatRows(pre + [x] + post, cols);
      TotalRows(pre) + j < |rows| && rows[TotalRows(pre) + j] == Reindex(x.rows[j], cols)
  {
    var es := pre + [x] + post;
    assert es[|pre|] == x && es[..|pre|] == pre;
    ConcatRowsOffset(es, cols, |pre|, j);
  }

  /** Every column of an input is a column of the concatenation. */
  lemma ColumnInUnion(ts: seq<Table>, k: nat, c: string)
    requires k < |ts| && c in ts[k].columns
    ensures c in FirstSeen(AllColumns(ts))
  {
    assert ts[k] in ts;
    assert c in AllColumns(ts);
  }

  /** Every concatenated row is some input row laid out on the new columns. */
  lemma {:induction false} ConcatRowsFrom(ts: seq<Table>, cols: seq<string>, o: Row)
    requires o in ConcatRows(ts, cols)
    ensures exists t, r :: t in ts && r in t.rows && o == Reindex(r, cols)
  {
    var head := Select(ts[0], cols).rows;
    if o in head {
      var i :| 0 <= i < |head| && head[i] == o;
      assert ts[0] in ts && ts[0].rows[i] in ts[0].rows;
    } else {
      ConcatRowsFrom(ts[1..], cols, o);
      var t, r :| t in ts[1..] && r in t.rows && o == Reindex(r, cols);
      assert t in ts;
    }
  }

  /** Laying rows out on some columns and then on a subset of those is the same
      as laying them out on the subset directly. */
  lemma {:induction false} ConcatRowsNarrow(ts: seq<Table>, wide: seq<string>, narrow: seq<string>)
    requires forall c :: c in narrow ==> c in wide
    ensures Select(Table(wide, ConcatRows(ts, wide)), narrow).rows == ConcatRows(ts, narrow)
  {
    var lhs := Select(Table(wide, ConcatRows(ts, wide)), narrow).rows;
    var rhs := ConcatRows(ts, narrow);
    assert |lhs| == |rhs|;
    forall i | 0 <= i < |lhs|
      ensures lhs[i] == rhs[i]
    {
      ConcatRowsAt(ts, wide, narrow, i);
    }
  }

  lemma {:induction false} ConcatRowsAt(ts: seq<Table>, wide: seq<string>, narrow: seq<string>, i: nat)
    requires forall c :: c in narrow ==> c in wide
    requires i < TotalRows(ts)
    ensures Reindex(ConcatRows(ts, wide)[i], narrow) == ConcatRows(ts, narrow)[i]
  {
    if i < |ts[0].rows| {
      var r := ts[0].rows[i];
      assert ConcatRows(ts, wide)[i] == Reindex(r, wide);
      assert ConcatRows(ts, narrow)[i] == Reindex(r, narrow);
      assert Reindex(Reindex(r, wide), narrow) == Reindex(r, narrow);
    } else {
      ConcatRowsAt(ts[1..], wide, narrow, i - |ts[0].rows|);
    }
  }
}
