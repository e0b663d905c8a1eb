/** The input table of the alignment view: one row per nucleotide of each
    oligonucleotide, and the per-compound selections that the join uses. */
module Table {

  /** One row of the validated input table (the six required columns). */
  datatype Row = Row(
    position: int,
    nucleotide: string,
    compoundId: string,
    sugar: string,
    base: string,
    linker: string)

  /** The set of values of the `compound_id` column. */
  function CompoundIds(rows: seq<Row>): set<string>
  {
    set r | r in rows :: r.compoundId
  }

  /** No identifier occurs twice. */
  predicate Distinct(ids: seq<string>)
  {
    forall i, j :: 0 <= i < j < |ids| ==> ids[i] != ids[j]
  }

  /** `ids` is an enumeration of the distinct `compound_id` values: each one
      exactly once, in some order (the order of a unique-value extraction). */
  predicate IsEnumeration(ids: seq<string>, rows: seq<Row>)
  {
    Distinct(ids) && (set x | x in ids) == CompoundIds(rows)
  }

  /** The rows of compound `id`, in table order. */
  function Select(rows: seq<Row>, id: string): (s: seq<Row>)
    ensures forall r :: r in s ==> r in rows && r.compoundId == id
    ensures forall r :: r in rows && r.compoundId == id ==> r in s
  {
    if rows == [] then []
    else if rows[0].compoundId == id then [rows[0]] + Select(rows[1..], id)
    else Select(rows[1..], id)
  }

  /** The rows of every compound other than `id`, in table order. */
  function Exclude(rows: seq<Row>, id: string): (s: seq<Row>)
    ensures forall r :: r in s ==> r in rows && r.compoundId != id
    ensures forall r :: r in rows && r.compoundId != id ==> r in s
  {
    if rows == [] then []
    else if rows[0].compoundId != id then [rows[0]] + Exclude(rows[1..], id)
    else Exclude(rows[1..], id)
  }

  /** A table has identifiers exactly when it has rows. */
  lemma {:induction false} NoIdsNoRows(rows: seq<Row>)
    ensures CompoundIds(rows) == {} <==> rows == []
  {
    if rows != [] {
      assert rows[0].compoundId in CompoundIds(rows);
    }
  }

  /** Excluding a compound removes exactly that identifier. */
  lemma {:induction false} ExcludeIds(rows: seq<Row>, id: string)
    ensures CompoundIds(Exclude(rows, id)) == CompoundIds(rows) - {id}
  {
    var others := Exclude(rows, id);
    forall x | x in CompoundIds(rows) - {id} ensures x in CompoundIds(others) {
      var r :| r in rows && r.compoundId == x;
      assert r in others;
    }
  }

  /** Splitting the table on one compound loses and duplicates nothing. */
  lemma {:induction false} SelectExcludePartition(rows: seq<Row>, id: string)
    ensures multiset(Select(rows, id)) + multiset(Exclude(rows, id)) == multiset(rows)
  {
    if rows != [] {
      SelectExcludePartition(rows[1..], id);
      assert rows == [rows[0]] + rows[1..];
    }
  }

  /** Removing compound `id` does not change the rows of any other compound. */
  lemma {:induction false} SelectAfterExclude(rows: seq<Row>, id: string, other: string)
    requires other != id
    ensures Select(Exclude(rows, id), other) == Select(rows, other)
  {
    if rows != [] {
      SelectAfterExclude(rows[1..], id, other);
    }
  }

  /** The distinct identifiers in order of first appearance: the enumeration a
      unique-value extraction yields when it keeps the table's order. */
  function FirstAppearance(rows: seq<Row>): (ids: seq<string>)
    ensures IsEnumeration(ids, rows)
  {
    if rows == [] then []
    else
      var prefix := rows[..|rows| - 1];
      var earlier := FirstAppearance(prefix);
      var id := rows[|rows| - 1].compoundId;
      assert rows == prefix + [rows[|rows| - 1]];
      assert CompoundIds(rows) == CompoundIds(prefix) + {id};
      if id in earlier then earlier else earlier + [id]
  }

  /** An enumeration has exactly as many entries as there are distinct
      identifiers. */
  lemma {:induction false} EnumerationLength(ids: seq<string>, rows: seq<Row>)
    requires IsEnumeration(ids, rows)
    ensures |ids| == |CompoundIds(rows)|
  {
    DistinctCardinality(ids);
  }

  /** A duplicate-free sequence has as many elements as its element set. */
  lemma {:induction false} DistinctCardinality(ids: seq<string>)
    requires Distinct(ids)
    ensures |set x | x in ids| == |ids|
  {
    if ids != [] {
      var init := ids[..|ids| - 1];
      var last := ids[|ids| - 1];
      DistinctCardinality(init);
      assert ids == init + [last];
      assert last !in init by {
        forall k | 0 <= k < |init| ensures init[k] != last {
          assert ids[k] == init[k];
        }
      }
      assert (set x | x in ids) == (set x | x in init) + {last};
    }
  }
}
