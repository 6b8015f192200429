/** The collection view's `rows` input and the diffable snapshot built from it
    (`CollectionView.snapshot()`). */
module Snapshots {
  import opened Basics

  /** `CollectionViewRow`: one section identifier and the items shown in it, in order. */
  datatype Row<S, I> = Row(section: S, items: seq<I>)

  /** One section of an `NSDiffableDataSourceSnapshot`. */
  datatype SnapshotSection<S, I> = SnapshotSection(id: S, items: seq<I>)

  /** An `NSDiffableDataSourceSnapshot`: its sections in display order. */
  datatype Snapshot<S, I> = Snapshot(sections: seq<SnapshotSection<S, I>>)

  /** `appendSections([id])`: a new, empty section after the existing ones. */
  function AppendSection<S, I>(snap: Snapshot<S, I>, id: S): (r: Snapshot<S, I>)
    ensures |r.sections| == |snap.sections| + 1
  {
    Snapshot(snap.sections + [SnapshotSection(id, [])])
  }

  /** `appendItems(items, toSection: id)`: the items go to the end of the section named `id`. */
  function AppendItems<S(==), I>(snap: Snapshot<S, I>, items: seq<I>, id: S): (r: Snapshot<S, I>)
    ensures |r.sections| == |snap.sections|
    ensures forall i :: 0 <= i < |r.sections| ==> r.sections[i].id == snap.sections[i].id
    ensures forall i :: 0 <= i < |r.sections| && snap.sections[i].id != id ==>
              r.sections[i] == snap.sections[i]
  {
    Snapshot(seq(|snap.sections|, i requires 0 <= i < |snap.sections| =>
      var sec := snap.sections[i];
      if sec.id == id then SnapshotSection(id, sec.items + items) else sec))
  }

  /** `snapshot()`: starting from an empty snapshot, each row in turn appends its section and
      then appends its items to that section. */
  function MakeSnapshot<S(==), I>(rows: seq<Row<S, I>>): (r: Snapshot<S, I>)
    ensures |r.sections| == |rows|
    decreases |rows|
  {
    if rows == [] then Snapshot([])
    else
      var row := rows[|rows| - 1];
      AppendItems(AppendSection(MakeSnapshot(rows[..|rows| - 1]), row.section), row.items, row.section)
  }

  /** The rows name pairwise different sections, as a diffable snapshot requires. */
  ghost predicate DistinctSections<S, I>(rows: seq<Row<S, I>>)
  {
    DistinctBy(rows, (row: Row<S, I>) => row.section)
  }

  /** The snapshot lists the sections in exactly the order of the rows. */
  lemma {:induction false} SectionOrderFollowsRows<S, I>(rows: seq<Row<S, I>>)
    ensures forall i :: 0 <= i < |rows| ==> MakeSnapshot(rows).sections[i].id == rows[i].section
    decreases |rows|
  {
    if rows != [] {
      SectionOrderFollowsRows(rows[..|rows| - 1]);
    }
  }

  /** With distinct sections, section `i` of the snapshot is row `i`'s section holding
      exactly row `i`'s items, in order. */
  lemma {:induction false} SnapshotMatchesRows<S, I>(rows: seq<Row<S, I>>)
    requires DistinctSections(rows)
    ensures forall i :: 0 <= i < |rows| ==>
              MakeSnapshot(rows).sections[i] == SnapshotSection(rows[i].section, rows[i].items)
    decreases |rows|
  {
    if rows != [] {
      var n := |rows| - 1;
      var prefix := rows[..n];
      assert DistinctSections(prefix) by {
        forall i, j | 0 <= i < j < |prefix| ensures prefix[i].section != prefix[j].section {
          assert prefix[i] == rows[i] && prefix[j] == rows[j];
        }
      }
      SnapshotMatchesRows(prefix);
      var row := rows[n];
      var before := AppendSection(MakeSnapshot(prefix), row.section);
      var after := AppendItems(before, row.items, row.section);
      assert after == MakeSnapshot(rows);
      forall i | 0 <= i < |rows|
        ensures after.sections[i] == SnapshotSection(rows[i].section, rows[i].items)
      {
        if i < n {
          assert prefix[i] == rows[i];
          assert before.sections[i] == MakeSnapshot(prefix).sections[i];
          assert before.sections[i].id != row.section;
        } else {
          assert before.sections[i] == SnapshotSection(row.section, []);
          assert after.sections[i] == SnapshotSection(row.section, [] + row.items);
        }
      }
    }
  }
}
