/** The layout computation of the oligonucleotide alignment chart: each
    distinct compound gets a row of the plot, the canvas is sized from the
    extent of the data, and every nucleotide row is joined with the vertical
    coordinate of its compound. */
module OligoAlign {
  import opened Table

  /** Approximate pixel diameter of one marker. */
  const CircleDiameter: int := 25
  /** Horizontal padding for axes and labels. */
  const XPadding: int := 20
  /** Vertical padding per plotted compound. */
  const YPaddingPerRow: int := 10
  /** Vertical distance between two compound rows, in row units. */
  const RowSpacing: real := 1.2
  /** Vertical coordinate of the first compound row. */
  const RowOffset: real := 0.5

  /** An entry of the two-column registry table (`compound_id`, `y_coord`). */
  type Entry = (string, real)

  /** A row of the right join of the input table with the registry. A
      registry key that no input row carries yields a row whose input
      columns are null. */
  datatype JoinedRow =
    | Matched(row: Row, yCoord: real)
    | Unmatched(compoundId: string, yCoord: real)

  /** The layout handed to the chart encoding: the joined data and the canvas
      size. */
  datatype Layout = Layout(data: seq<JoinedRow>, width: int, height: int)

  /** The table has no rows: the span of the position column is undefined. */
  datatype AlignError = EmptyTable

  datatype Result<T> = Success(value: T) | Failure(error: AlignError)

  // ---------------------------------------------------------------- rows

  /** The vertical coordinate of the compound at enumeration index `i`. */
  function YCoord(i: nat): (y: real)
    ensures y >= RowOffset
    ensures y == RowOffset <==> i == 0
    ensures RowOffset + RowSpacing * i as real <= y < RowOffset + RowSpacing * (i + 1) as real
  {
    i as real * RowSpacing + RowOffset
  }

  /** The registry dictionary, built by enumerating `ids` and inserting each
      identifier with the coordinate of its index (a later duplicate would
      overwrite an earlier one, as a dictionary comprehension does). */
  function Registry(ids: seq<string>): (m: map<string, real>)
    ensures m.Keys == set x | x in ids
  {
    if ids == [] then map[]
    else
      var init := ids[..|ids| - 1];
      assert ids == init + [ids[|ids| - 1]];
      Registry(init)[ids[|ids| - 1] := YCoord(|ids| - 1)]
  }

  /** The identifier at enumeration index `i` is mapped to `i*1.2 + 0.5`. */
  lemma {:induction false} RegistryAt(ids: seq<string>, i: nat)
    requires Distinct(ids) && i < |ids|
    ensures ids[i] in Registry(ids)
    ensures Registry(ids)[ids[i]] == i as real * RowSpacing + RowOffset
  {
    if i < |ids| - 1 {
      var init := ids[..|ids| - 1];
      assert init[i] == ids[i];
      RegistryAt(init, i);
    }
  }

  /** The registry has exactly one entry per distinct identifier. */
  lemma {:induction false} RegistrySize(ids: seq<string>)
    requires Distinct(ids)
    ensures |Registry(ids)| == |ids|
  {
    if ids != [] {
      var init := ids[..|ids| - 1];
      RegistrySize(init);
      assert ids[|ids| - 1] !in init by {
        forall k | 0 <= k < |init| ensures init[k] != ids[|ids| - 1] {
          assert init[k] == ids[k];
        }
      }
    }
  }

  /** Coordinates increase strictly with the enumeration index, consecutive
      compounds are exactly 1.2 apart, and no two compounds share a row. */
  lemma {:induction false} RegistrySpacing(ids: seq<string>)
    requires Distinct(ids)
    ensures forall i, j :: 0 <= i < j < |ids| ==> Registry(ids)[ids[i]] < Registry(ids)[ids[j]]
    ensures forall i :: 0 < i < |ids| ==> Registry(ids)[ids[i]] == Registry(ids)[ids[i - 1]] + RowSpacing
    ensures forall a, b :: a in Registry(ids) && b in Registry(ids) && a != b ==>
              Registry(ids)[a] != Registry(ids)[b]
  {
    forall i | 0 <= i < |ids| ensures Registry(ids)[ids[i]] == i as real * RowSpacing + RowOffset {
      RegistryAt(ids, i);
    }
    forall a, b | a in Registry(ids) && b in Registry(ids) && a != b
      ensures Registry(ids)[a] != Registry(ids)[b]
    {
      var i :| 0 <= i < |ids| && ids[i] == a;
      var j :| 0 <= j < |ids| && ids[j] == b;
      assert i != j;
    }
  }

  /** The registry as a two-column table: its keys and its values, in
      insertion order. */
  function RegistryTable(ids: seq<string>): (t: seq<Entry>)
    requires Distinct(ids)
    ensures |t| == |ids|
    ensures forall i :: 0 <= i < |t| ==> t[i].0 == ids[i] && t[i].1 == YCoord(i)
    ensures forall i :: 0 <= i < |t| ==> t[i].0 in Registry(ids) && t[i].1 == Registry(ids)[t[i].0]
  {
    var t := seq(|ids|, i requires 0 <= i < |ids| => (ids[i], YCoord(i)));
    assert forall i :: 0 <= i < |t| ==> t[i].0 in Registry(ids) && t[i].1 == Registry(ids)[t[i].0] by {
      forall i | 0 <= i < |t| ensures t[i].0 in Registry(ids) && t[i].1 == Registry(ids)[t[i].0] {
        RegistryAt(ids, i);
      }
    }
    t
  }

  // ---------------------------------------------------------------- scale

  /** The largest value of the position column. */
  function MaxPosition(rows: seq<Row>): (m: int)
    requires |rows| > 0
    ensures exists k :: 0 <= k < |rows| && rows[k].position == m
    ensures forall k :: 0 <= k < |rows| ==> rows[k].position <= m
  {
    if |rows| == 1 then rows[0].position
    else
      var rest := MaxPosition(rows[1..]);
      assert forall k :: 1 <= k < |rows| ==> rows[k] == rows[1..][k - 1];
      if rows[0].position >= rest then rows[0].position else rest
  }

  /** The smallest value of the position column. */
  function MinPosition(rows: seq<Row>): (m: int)
    requires |rows| > 0
    ensures exists k :: 0 <= k < |rows| && rows[k].position == m
    ensures forall k :: 0 <= k < |rows| ==> m <= rows[k].position
  {
    if |rows| == 1 then rows[0].position
    else
      var rest := MinPosition(rows[1..]);
      assert forall k :: 1 <= k < |rows| ==> rows[k] == rows[1..][k - 1];
      if rows[0].position <= rest then rows[0].position else rest
  }

  /** The horizontal extent `max(position) - min(position)`: it bounds the
      distance between any two positions and is attained by some pair; it is
      zero exactly when all rows share one position. */
  function MaxWidth(rows: seq<Row>): (w: int)
    requires |rows| > 0
    ensures w >= 0
    ensures forall i, j :: 0 <= i < |rows| && 0 <= j < |rows| ==>
              rows[i].position - rows[j].position <= w
    ensures exists i, j :: 0 <= i < |rows| && 0 <= j < |rows| &&
              rows[i].position - rows[j].position == w
    ensures w == 0 <==> forall i :: 0 <= i < |rows| ==> rows[i].position == rows[0].position
  {
    MaxPosition(rows) - MinPosition(rows)
  }

  /** Canvas width: one marker diameter per position step plus padding. */
  function ChartWidth(maxWidth: int): (w: int)
    ensures maxWidth >= 0 ==> w >= XPadding
    ensures (w - XPadding) % CircleDiameter == 0
    ensures w == XPadding <==> maxWidth == 0
  {
    maxWidth * CircleDiameter + XPadding
  }

  /** Canvas height: one marker diameter plus ten pixels of padding per
      compound. */
  function ChartHeight(maxHeight: nat): (h: int)
    ensures h == (CircleDiameter + YPaddingPerRow) * maxHeight
    ensures h >= 0
    ensures h == 0 <==> maxHeight == 0
  {
    maxHeight * CircleDiameter + YPaddingPerRow * maxHeight
  }

  /** The canvas width is at least the padding, grows in whole marker
      diameters, and is exactly the padding when all positions coincide. */
  lemma {:induction false} ChartWidthBounds(rows: seq<Row>)
    requires |rows| > 0
    ensures ChartWidth(MaxWidth(rows)) >= XPadding
    ensures (ChartWidth(MaxWidth(rows)) - XPadding) % CircleDiameter == 0
    ensures ChartWidth(MaxWidth(rows)) == XPadding <==>
              forall i :: 0 <= i < |rows| ==> rows[i].position == rows[0].position
  {
  }

  /** The canvas height is 35 pixels per distinct compound. */
  lemma {:induction false} ChartHeightPerCompound(ids: seq<string>, rows: seq<Row>)
    requires IsEnumeration(ids, rows)
    ensures ChartHeight(|Registry(ids)|) == (CircleDiameter + YPaddingPerRow) * |CompoundIds(rows)|
    ensures ChartHeight(|Registry(ids)|) >= 0
  {
    RegistrySize(ids);
    EnumerationLength(ids, rows);
  }

  // ---------------------------------------------------------------- join

  /** Every row of one compound, tagged with that compound's coordinate. */
  function Attach(rows: seq<Row>, y: real): (out: seq<JoinedRow>)
    ensures |out| == |rows|
    ensures forall k :: 0 <= k < |out| ==> out[k] == Matched(rows[k], y)
  {
    if rows == [] then [] else [Matched(rows[0], y)] + Attach(rows[1..], y)
  }

  /** The joined rows for one registry entry: the input rows of that
      compound, or a single row with null input columns when there are none. */
  function JoinEntry(rows: seq<Row>, e: Entry): (out: seq<JoinedRow>)
    ensures |out| >= 1
    ensures forall o :: o in out ==> JoinedId(o) == e.0 && o.yCoord == e.1
    ensures InputRows(out) == Select(rows, e.0)
    ensures out == [Unmatched(e.0, e.1)] <==> e.0 !in CompoundIds(rows)
    ensures e.0 in CompoundIds(rows) ==> forall o :: o in out ==> o.Matched?
    ensures e.0 in CompoundIds(rows) ==> |out| == |Select(rows, e.0)|
  {
    var matches := Select(rows, e.0);
    InputRowsAttach(matches, e.1);
    assert e.0 in CompoundIds(rows) ==> matches != [] by {
      if e.0 in CompoundIds(rows) {
        var r :| r in rows && r.compoundId == e.0;
        assert r in matches;
      }
    }
    if matches == [] then [Unmatched(e.0, e.1)]
    else
      var out := Attach(matches, e.1);
      assert out[0].Matched?;
      out
  }

  /** The right join of the input table with the registry table on
      `compound_id`: every registry entry is kept, with all its matching input
      rows. */
  function RightJoin(rows: seq<Row>, table: seq<Entry>): (out: seq<JoinedRow>)
    ensures |out| >= |table|
    ensures forall o :: o in out ==> (JoinedId(o), o.yCoord) in table
  {
    if table == [] then [] else JoinEntry(rows, table[0]) + RightJoin(rows, table[1..])
  }

  /** The `compound_id` column of a joined row. */
  function JoinedId(o: JoinedRow): string
  {
    if o.Matched? then o.row.compoundId else o.compoundId
  }

  /** A right join keeps every registry entry: each key appears in the
      output with its coordinate, matched or not. */
  lemma {:induction false} RightJoinKeepsEntries(rows: seq<Row>, table: seq<Entry>)
    ensures forall e :: e in table ==>
              exists o :: o in RightJoin(rows, table) && JoinedId(o) == e.0 && o.yCoord == e.1
  {
    if table != [] {
      var head := JoinEntry(rows, table[0]);
      var tail := RightJoin(rows, table[1..]);
      RightJoinKeepsEntries(rows, table[1..]);
      assert RightJoin(rows, table) == head + tail;
      forall e | e in table
        ensures exists o :: o in head + tail && JoinedId(o) == e.0 && o.yCoord == e.1
      {
        if e == table[0] {
          assert head[0] in head + tail;
        } else {
          assert e in table[1..];
          var o :| o in tail && JoinedId(o) == e.0 && o.yCoord == e.1;
          assert o in head + tail;
        }
      }
    }
  }

  /** The input rows carried by the joined rows. */
  function InputRows(out: seq<JoinedRow>): (s: seq<Row>)
    ensures |s| <= |out|
    ensures (forall o :: o in out ==> o.Matched?) ==> |s| == |out|
  {
    if out == [] then []
    else if out[0].Matched? then [out[0].row] + InputRows(out[1..])
    else InputRows(out[1..])
  }

  lemma {:induction false} InputRowsAppend(a: seq<JoinedRow>, b: seq<JoinedRow>)
    ensures InputRows(a + b) == InputRows(a) + InputRows(b)
  {
    if a == [] {
      assert a + b == b;
    } else {
      var ab := a + b;
      assert ab[0] == a[0];
      assert ab[1..] == a[1..] + b;
      InputRowsAppend(a[1..], b);
    }
  }

  lemma {:induction false} InputRowsAttach(rows: seq<Row>, y: real)
    ensures InputRows(Attach(rows, y)) == rows
  {
    if rows != [] {
      InputRowsAttach(rows[1..], y);
    }
  }

  /** Joining only depends on the rows of compounds the table mentions. */
  lemma {:induction false} RightJoinExclude(rows: seq<Row>, table: seq<Entry>, id: string)
    requires forall e :: e in table ==> e.0 != id
    ensures RightJoin(Exclude(rows, id), table) == RightJoin(rows, table)
  {
    if table != [] {
      SelectAfterExclude(rows, id, table[0].0);
      RightJoinExclude(rows, table[1..], id);
    }
  }

  /** Keys of a registry table, without duplicates. */
  predicate DistinctKeys(table: seq<Entry>)
  {
    forall i, j :: 0 <= i < j < |table| ==> table[i].0 != table[j].0
  }

  /** The set of keys of a registry table. */
  function Keys(table: seq<Entry>): set<string>
  {
    set e | e in table :: e.0
  }

  /** The entries after the first of a duplicate-free table are duplicate-free,
      and none of them has the first key. */
  lemma {:induction false} TableTail(table: seq<Entry>)
    requires DistinctKeys(table) && table != []
    ensures DistinctKeys(table[1..])
    ensures forall x :: x in table[1..] ==> x.0 != table[0].0
    ensures Keys(table) == {table[0].0} + Keys(table[1..])
  {
    var rest := table[1..];
    forall x | x in rest ensures x.0 != table[0].0 {
      var j :| 0 <= j < |rest| && rest[j] == x;
      assert table[j + 1] == x;
    }
    forall i, j | 0 <= i < j < |rest| ensures rest[i].0 != rest[j].0 {
      assert rest[i] == table[i + 1] && rest[j] == table[j + 1];
    }
    assert table == [table[0]] + rest;
  }

  /** The right join with a table whose keys are distinct and are exactly the
      table's compounds keeps every input row once, drops none, adds no null
      row, and tags each row with the entry of its own compound. */
  lemma {:induction false} RightJoinPreservesRows(rows: seq<Row>, table: seq<Entry>)
    requires DistinctKeys(table)
    requires Keys(table) == CompoundIds(rows)
    decreases |table|
    ensures multiset(InputRows(RightJoin(rows, table))) == multiset(rows)
    ensures forall o :: o in RightJoin(rows, table) ==>
              o.Matched? && (o.row.compoundId, o.yCoord) in table
  {
    if table == [] {
      NoIdsNoRows(rows);
    } else {
      var e, rest := table[0], table[1..];
      var others := Exclude(rows, e.0);
      TableTail(table);
      assert e.0 in CompoundIds(rows) by {
        assert e in table;
      }
      var r0 :| r0 in rows && r0.compoundId == e.0;
      var matches := Select(rows, e.0);
      assert r0 in matches;
      ExcludeIds(rows, e.0);
      assert e.0 !in Keys(rest);
      assert Keys(rest) == CompoundIds(others);
      RightJoinExclude(rows, rest, e.0);
      RightJoinPreservesRows(others, rest);
      var head := Attach(matches, e.1);
      var tail := RightJoin(rows, rest);
      assert RightJoin(rows, table) == head + tail;
      JoinHead(matches, e, table);
      forall o | o in tail ensures o.Matched? && (o.row.compoundId, o.yCoord) in table {
        assert (o.row.compoundId, o.yCoord) in rest;
      }
      calc {
        multiset(InputRows(head + tail));
        { InputRowsAppend(head, tail); }
        multiset(InputRows(head) + InputRows(tail));
        { InputRowsAttach(matches, e.1); }
        multiset(matches) + multiset(others);
        { SelectExcludePartition(rows, e.0); }
        multiset(rows);
      }
    }
  }

  /** The rows joined to one entry of the table all carry that entry. */
  lemma {:induction false} JoinHead(matches: seq<Row>, e: Entry, table: seq<Entry>)
    requires e in table
    requires forall r :: r in matches ==> r.compoundId == e.0
    ensures forall o :: o in Attach(matches, e.1) ==>
              o.Matched? && (o.row.compoundId, o.yCoord) in table
  {
    var head := Attach(matches, e.1);
    forall o | o in head ensures o.Matched? && (o.row.compoundId, o.yCoord) in table {
      var k :| 0 <= k < |head| && head[k] == o;
      assert matches[k] in matches;
    }
  }

  /** The keys of the registry table are the enumerated identifiers. */
  lemma RegistryTableKeys(ids: seq<string>)
    requires Distinct(ids)
    ensures Keys(RegistryTable(ids)) == set x | x in ids
  {
    var table := RegistryTable(ids);
    forall x | x in ids ensures x in Keys(table) {
      var i :| 0 <= i < |ids| && ids[i] == x;
      assert table[i] in table;
    }
  }

  /** An entry of the registry table holds the registry value of its key,
      which is `i*1.2 + 0.5` for the key's enumeration index `i`. */
  lemma EntryCoordinate(ids: seq<string>, e: Entry)
    requires Distinct(ids) && e in RegistryTable(ids)
    ensures e.0 in Registry(ids) && e.1 == Registry(ids)[e.0]
    ensures exists i :: 0 <= i < |ids| && ids[i] == e.0 && e.1 == i as real * RowSpacing + RowOffset
  {
    var table := RegistryTable(ids);
    var i :| 0 <= i < |table| && table[i] == e;
    RegistryAt(ids, i);
  }

  /** The join keeps the input rows, adds no null row, and puts each row on
      the coordinate `i*1.2 + 0.5` of its compound's enumeration index `i`,
      which is the registry value of that compound. */
  lemma {:induction false} JoinWithRegistry(rows: seq<Row>, ids: seq<string>)
    requires IsEnumeration(ids, rows)
    ensures |RightJoin(rows, RegistryTable(ids))| == |rows|
    ensures multiset(InputRows(RightJoin(rows, RegistryTable(ids)))) == multiset(rows)
    ensures forall o :: o in RightJoin(rows, RegistryTable(ids)) ==>
              && o.Matched?
              && o.row.compoundId in Registry(ids)
              && o.yCoord == Registry(ids)[o.row.compoundId]
              && exists i :: 0 <= i < |ids| && ids[i] == o.row.compoundId && o.yCoord == i as real * RowSpacing + RowOffset
  {
    var table := RegistryTable(ids);
    var out := RightJoin(rows, table);
    RegistryTableKeys(ids);
    RightJoinPreservesRows(rows, table);
    forall o | o in out
      ensures && o.Matched?
              && o.row.compoundId in Registry(ids)
              && o.yCoord == Registry(ids)[o.row.compoundId]
              && exists i :: 0 <= i < |ids| && ids[i] == o.row.compoundId && o.yCoord == i as real * RowSpacing + RowOffset
    {
      EntryCoordinate(ids, (o.row.compoundId, o.yCoord));
    }
    assert |InputRows(out)| == |out|;
    assert |multiset(InputRows(out))| == |multiset(rows)|;
  }

  // ---------------------------------------------------------------- layout

  /** The layout of the alignment chart for `rows`, with the distinct
      compounds enumerated in the order `ids`. */
  function Align(rows: seq<Row>, ids: seq<string>): (res: Result<Layout>)
    requires IsEnumeration(ids, rows)
    ensures res.Failure? <==> rows == []
    ensures res.Success? ==>
      && res.value.width == (MaxPosition(rows) - MinPosition(rows)) * CircleDiameter + XPadding
      && res.value.height == (CircleDiameter + YPaddingPerRow) * |CompoundIds(rows)|
      && |res.value.data| == |rows|
      && multiset(InputRows(res.value.data)) == multiset(rows)
      && forall o :: o in res.value.data ==>
           o.Matched? && exists i :: 0 <= i < |ids| && ids[i] == o.row.compoundId && o.yCoord == i as real * RowSpacing + RowOffset
  {
    if rows == [] then Failure(EmptyTable)
    else
      var maxWidth := MaxWidth(rows);
      var registry := Registry(ids);
      var maxHeight := |registry|;
      var data := RightJoin(rows, RegistryTable(ids));
      ChartHeightPerCompound(ids, rows);
      JoinWithRegistry(rows, ids);
      Success(Layout(data, ChartWidth(maxWidth), ChartHeight(maxHeight)))
  }

  /** The canvas size and the plotted rows do not depend on the order in
      which the distinct compounds happen to be enumerated. */
  lemma {:induction false} AlignSizeIndependentOfOrder(rows: seq<Row>, ids1: seq<string>, ids2: seq<string>)
    requires IsEnumeration(ids1, rows) && IsEnumeration(ids2, rows)
    requires rows != []
    ensures Align(rows, ids1).Success? && Align(rows, ids2).Success?
    ensures Align(rows, ids1).value.width == Align(rows, ids2).value.width
    ensures Align(rows, ids1).value.height == Align(rows, ids2).value.height
    ensures multiset(InputRows(Align(rows, ids1).value.data))
         == multiset(InputRows(Align(rows, ids2).value.data))
  {
  }

  /** Three nucleotides of two compounds: two of `seq1`, one of `seq2`. */
  function ExampleRows(): seq<Row>
  {
    [Row(1, "A", "seq1", "DNA", "A", "none"),
     Row(2, "T", "seq1", "DNA", "T", "phosphate"),
     Row(1, "G", "seq2", "RNA", "G", "none")]
  }

  lemma ExampleSelect()
    ensures Select(ExampleRows(), "seq1") == ExampleRows()[..2]
    ensures Select(ExampleRows(), "seq2") == ExampleRows()[2..]
  {
    var rows := ExampleRows();
    assert "seq1" != "seq2" by {
      assert "seq1"[3] != "seq2"[3];
    }
    assert rows[1..] == [rows[1], rows[2]] && rows[1..][1..] == [rows[2]];
    assert [rows[2]][1..] == [];
    assert Select([rows[2]], "seq1") == [];
    assert Select([rows[2]], "seq2") == [rows[2]];
  }

  lemma ExampleEnumeration()
    ensures IsEnumeration(["seq1", "seq2"], ExampleRows())
  {
    assert CompoundIds(ExampleRows()) == {"seq1", "seq2"};
  }

  lemma ExampleJoin()
    ensures
      var rows := ExampleRows();
      RightJoin(rows, RegistryTable(["seq1", "seq2"]))
        == [Matched(rows[0], 0.5), Matched(rows[1], 0.5), Matched(rows[2], 1.7)]
  {
    var rows := ExampleRows();
    var ids := ["seq1", "seq2"];
    ExampleEnumeration();
    ExampleSelect();
    var table := RegistryTable(ids);
    assert table == [("seq1", 0.5), ("seq2", 1.7)];
    assert rows[..2] == [rows[0], rows[1]] && rows[2..] == [rows[2]];
    assert Attach(rows[..2], 0.5) == [Matched(rows[0], 0.5), Matched(rows[1], 0.5)];
    assert Attach(rows[2..], 1.7) == [Matched(rows[2], 1.7)];
    assert JoinEntry(rows, table[0]) == [Matched(rows[0], 0.5), Matched(rows[1], 0.5)];
    assert JoinEntry(rows, table[1]) == [Matched(rows[2], 1.7)];
    assert table[1..][1..] == [];
    assert RightJoin(rows, table[1..]) == JoinEntry(rows, table[1]);
  }

  /** With the enumeration `seq1`, `seq2`, the rows of `seq1` sit at 0.5 and
      the row of `seq2` at 1.7, the positions span 1, and the canvas is 45 by
      70. */
  lemma TwoCompoundExample()
    ensures
      var rows := ExampleRows();
      Align(rows, ["seq1", "seq2"])
        == Success(Layout([Matched(rows[0], 0.5), Matched(rows[1], 0.5), Matched(rows[2], 1.7)], 45, 70))
  {
    var rows := ExampleRows();
    ExampleEnumeration();
    ExampleJoin();
    assert rows[1..] == [rows[1], rows[2]] && rows[1..][1..] == [rows[2]];
    assert MaxPosition(rows[1..][1..]) == 1;
    assert MaxPosition(rows[1..]) == 2;
    assert MaxPosition(rows) == 2;
    assert MinPosition(rows[1..][1..]) == 1;
    assert MinPosition(rows[1..]) == 1;
    assert MinPosition(rows) == 1;
    assert ChartWidth(MaxWidth(rows)) == 45;
    RegistrySize(["seq1", "seq2"]);
    assert ChartHeight(|Registry(["seq1", "seq2"])|) == 70;
  }
}
