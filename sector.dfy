/** The backend's SectorService: `findAllGroupedByArea` folds the rows of the area/sector join into
    one group per area, in order of first appearance, each listing its sectors in row order. The
    query itself is not modelled; its rows are the input. */
module SectorService {
  import opened Common

  /** A row of the query: `a.id AS "areaId", a.name AS "areaName", s.id AS "sectorId", s.name AS "sectorName"`. */
  datatype AreaSectorRow = AreaSectorRow(areaId: int, areaName: string, sectorId: int, sectorName: string)

  /** `{ id, name }` pushed onto a group's `sectors`. */
  datatype SectorRef = SectorRef(id: int, name: string)

  /** `{ areaId, areaName, sectors }`, one value of the `grouped` Map. */
  datatype AreaGroup = AreaGroup(areaId: int, areaName: string, sectors: seq<SectorRef>)

  function RefOf(row: AreaSectorRow): SectorRef {
    SectorRef(row.sectorId, row.sectorName)
  }

  function AreaIds(groups: seq<AreaGroup>): (r: seq<int>)
    ensures |r| == |groups|
  {
    seq(|groups|, k requires 0 <= k < |groups| => groups[k].areaId)
  }

  function RowAreaIds(rows: seq<AreaSectorRow>): (r: seq<int>)
    ensures |r| == |rows|
  {
    seq(|rows|, k requires 0 <= k < |rows| => rows[k].areaId)
  }

  /** One turn of the loop: open a group for a new area, then push the row's sector onto its area's group. */
  function AddRow(groups: seq<AreaGroup>, row: AreaSectorRow): seq<AreaGroup> {
    match IndexOf(AreaIds(groups), row.areaId)
    case None => groups + [AreaGroup(row.areaId, row.areaName, [RefOf(row)])]
    case Some(k) => groups[k := groups[k].(sectors := groups[k].sectors + [RefOf(row)])]
  }

  /** `Array.from(grouped.values())` after the loop has seen `rows`. */
  function Grouped(rows: seq<AreaSectorRow>): seq<AreaGroup>
    decreases |rows|
  {
    if rows == [] then [] else AddRow(Grouped(rows[..|rows| - 1]), rows[|rows| - 1])
  }

  /** The sectors of the rows of area `a`, in row order. */
  function SectorsIn(rows: seq<AreaSectorRow>, a: int): seq<SectorRef>
    decreases |rows|
  {
    if rows == [] then []
    else SectorsIn(rows[..|rows| - 1], a) + (if rows[|rows| - 1].areaId == a then [RefOf(rows[|rows| - 1])] else [])
  }

  /** The row at which area `a` first appears. */
  function FirstRow(rows: seq<AreaSectorRow>, a: int): Option<nat> {
    IndexOf(RowAreaIds(rows), a)
  }

  function TotalSectors(groups: seq<AreaGroup>): nat
    decreases |groups|
  {
    if groups == [] then 0 else TotalSectors(groups[..|groups| - 1]) + |groups[|groups| - 1].sectors|
  }

  /** `position` is the index the Map keeps: it has a key for the area of every group, and that
      key leads to the group's position. */
  ghost predicate Indexes(position: map<int, nat>, groups: seq<AreaGroup>) {
    && (forall a :: a in position <==> a in AreaIds(groups))
    && (forall a :: a in position ==> IndexOf(AreaIds(groups), a) == Some(position[a]))
  }

  /** Opening a group for a new area at the end keeps the index up to date. */
  lemma OpenGroup(position: map<int, nat>, groups: seq<AreaGroup>, row: AreaSectorRow)
    requires Indexes(position, groups) && row.areaId !in position
    ensures Indexes(position[row.areaId := |groups|], groups + [AreaGroup(row.areaId, row.areaName, [])])
  {
    var a := row.areaId;
    var p, g := position[a := |groups|], groups + [AreaGroup(a, row.areaName, [])];
    assert AreaIds(g) == AreaIds(groups) + [a];
    forall b | b in p ensures IndexOf(AreaIds(g), b) == Some(p[b]) {
      IndexOfAppend(AreaIds(groups), a, b);
    }
  }

  /** Pushing a sector onto a group changes no area id, so the index stays valid. */
  lemma PushKeepsIndexes(position: map<int, nat>, groups: seq<AreaGroup>, k: nat, x: SectorRef)
    requires Indexes(position, groups) && k < |groups|
    ensures Indexes(position, groups[k := groups[k].(sectors := groups[k].sectors + [x])])
  {
    assert AreaIds(groups[k := groups[k].(sectors := groups[k].sectors + [x])]) == AreaIds(groups);
  }

  /** One turn of the loop, opening a group when the area is new and pushing onto the group the
      index leads to, is `AddRow`, and it keeps the index up to date. */
  lemma LoopStep(position: map<int, nat>, groups: seq<AreaGroup>, row: AreaSectorRow)
    requires Indexes(position, groups)
    ensures var isNew := row.areaId !in position;
      var p := if isNew then position[row.areaId := |groups|] else position;
      var g := if isNew then groups + [AreaGroup(row.areaId, row.areaName, [])] else groups;
      && row.areaId in p && p[row.areaId] < |g|
      && var k := p[row.areaId];
         var g' := g[k := g[k].(sectors := g[k].sectors + [RefOf(row)])];
         Indexes(p, g') && g' == AddRow(groups, row)
  {
    var a := row.areaId;
    if a !in position {
      var p, g := position[a := |groups|], groups + [AreaGroup(a, row.areaName, [])];
      OpenGroup(position, groups, row);
      PushKeepsIndexes(p, g, |groups|, RefOf(row));
      assert IndexOf(AreaIds(groups), a) == None;
      assert [] + [RefOf(row)] == [RefOf(row)];
      assert g[|groups| := g[|groups|].(sectors := [] + [RefOf(row)])] ==
             groups + [AreaGroup(a, row.areaName, [RefOf(row)])];
    } else {
      PushKeepsIndexes(position, groups, position[a], RefOf(row));
    }
  }

  /** findAllGroupedByArea: a loop over the rows filling a Map keyed by area id, whose values keep
      insertion order. The Map is a `map` from area id to the group's position plus the sequence of
      groups. */
  method FindAllGroupedByArea(rows: seq<AreaSectorRow>) returns (groups: seq<AreaGroup>)
    ensures groups == Grouped(rows)
  {
    var position: map<int, nat> := map[];
    groups := [];
    for i := 0 to |rows|
      invariant groups == Grouped(rows[..i])
      invariant Indexes(position, groups)
    {
      var row := rows[i];
      LoopStep(position, groups, row);
      GroupedAppend(rows[..i], row);
      assert rows[..i + 1] == rows[..i] + [row];
      if row.areaId !in position {
        position := position[row.areaId := |groups|];
        groups := groups + [AreaGroup(row.areaId, row.areaName, [])];
      }
      var k := position[row.areaId];
      groups := groups[k := groups[k].(sectors := groups[k].sectors + [RefOf(row)])];
    }
    assert rows[..|rows|] == rows;
  }

  lemma RowAreaIdsAppend(rows: seq<AreaSectorRow>, row: AreaSectorRow)
    ensures RowAreaIds(rows + [row]) == RowAreaIds(rows) + [row.areaId]
  {
  }

  lemma GroupedAppend(rows: seq<AreaSectorRow>, row: AreaSectorRow)
    ensures Grouped(rows + [row]) == AddRow(Grouped(rows), row)
  {
    assert (rows + [row])[..|rows|] == rows;
  }

  lemma SectorsInAppend(rows: seq<AreaSectorRow>, row: AreaSectorRow, a: int)
    ensures SectorsIn(rows + [row], a) == SectorsIn(rows, a) + (if row.areaId == a then [RefOf(row)] else [])
  {
    assert (rows + [row])[..|rows|] == rows;
  }

  /** An area with no row has no sectors; one with a row has at least one. */
  lemma {:induction false} SectorsInEmptyIff(rows: seq<AreaSectorRow>, a: int)
    ensures SectorsIn(rows, a) == [] <==> a !in RowAreaIds(rows)
    decreases |rows|
  {
    if rows != [] {
      var init, row := rows[..|rows| - 1], rows[|rows| - 1];
      assert rows == init + [row];
      SectorsInEmptyIff(init, a);
      SectorsInAppend(init, row, a);
      RowAreaIdsAppend(init, row);
    }
  }

  /** The groups' area ids are distinct and are exactly the area ids of the rows. */
  lemma {:induction false} GroupedAreaIds(rows: seq<AreaSectorRow>)
    ensures Distinct(AreaIds(Grouped(rows)))
    ensures forall a :: a in AreaIds(Grouped(rows)) <==> a in RowAreaIds(rows)
    decreases |rows|
  {
    if rows != [] {
      var init, row := rows[..|rows| - 1], rows[|rows| - 1];
      assert rows == init + [row];
      GroupedAreaIds(init);
      GroupedAppend(init, row);
      RowAreaIdsAppend(init, row);
      var g0 := Grouped(init);
      match IndexOf(AreaIds(g0), row.areaId)
      case None =>
        assert AreaIds(Grouped(rows)) == AreaIds(g0) + [row.areaId];
      case Some(k) =>
        assert AreaIds(Grouped(rows)) == AreaIds(g0);
    }
  }

  /** Each group holds the sectors of exactly its area's rows, in row order. */
  lemma {:induction false} GroupedSectors(rows: seq<AreaSectorRow>)
    ensures forall k :: 0 <= k < |Grouped(rows)| ==>
              Grouped(rows)[k].sectors == SectorsIn(rows, Grouped(rows)[k].areaId)
    decreases |rows|
  {
    if rows != [] {
      var init, row := rows[..|rows| - 1], rows[|rows| - 1];
      assert rows == init + [row];
      GroupedSectors(init);
      GroupedAreaIds(init);
      GroupedAppend(init, row);
      var g0, g := Grouped(init), Grouped(rows);
      forall k | 0 <= k < |g| ensures g[k].sectors == SectorsIn(rows, g[k].areaId) {
        SectorsInAppend(init, row, g[k].areaId);
        match IndexOf(AreaIds(g0), row.areaId)
        case None =>
          if k < |g0| {
            assert AreaIds(g0)[k] == g0[k].areaId;
          } else {
            SectorsInEmptyIff(init, row.areaId);
          }
        case Some(j) =>
          if k != j {
            assert AreaIds(g0)[k] != AreaIds(g0)[j];
          }
      }
    }
  }

  /** A group's name is the area name of the first row of its area. */
  lemma {:induction false} GroupedAreaNames(rows: seq<AreaSectorRow>)
    ensures forall k :: 0 <= k < |Grouped(rows)| ==>
              FirstRow(rows, Grouped(rows)[k].areaId).Some? &&
              Grouped(rows)[k].areaName == rows[FirstRow(rows, Grouped(rows)[k].areaId).value].areaName
    decreases |rows|
  {
    if rows != [] {
      var init, row := rows[..|rows| - 1], rows[|rows| - 1];
      assert rows == init + [row];
      GroupedAreaNames(init);
      GroupedAreaIds(init);
      GroupedAppend(init, row);
      RowAreaIdsAppend(init, row);
      var g0, g := Grouped(init), Grouped(rows);
      forall k | 0 <= k < |g|
        ensures FirstRow(rows, g[k].areaId).Some? &&
                g[k].areaName == rows[FirstRow(rows, g[k].areaId).value].areaName
      {
        IndexOfAppend(RowAreaIds(init), row.areaId, g[k].areaId);
        if k < |g0| {
          assert g[k].areaId == g0[k].areaId && g[k].areaName == g0[k].areaName;
          assert AreaIds(g0)[k] == g0[k].areaId;
        }
      }
    }
  }

  /** After one more row, the old groups keep their first rows and a newly opened group's first
      row is the new one. */
  lemma FirstRowStep(init: seq<AreaSectorRow>, row: AreaSectorRow)
    ensures var g0, g := Grouped(init), Grouped(init + [row]);
      && |g0| <= |g| <= |g0| + 1
      && forall k :: 0 <= k < |g| ==>
           FirstRow(init + [row], g[k].areaId) ==
           if k < |g0| then FirstRow(init, g0[k].areaId) else Some(|init|)
  {
    GroupedAreaIds(init);
    GroupedAppend(init, row);
    RowAreaIdsAppend(init, row);
    var g0, g := Grouped(init), Grouped(init + [row]);
    assert forall k :: 0 <= k < |g0| ==> g[k].areaId == g0[k].areaId && AreaIds(g0)[k] == g0[k].areaId;
    forall k | 0 <= k < |g|
      ensures FirstRow(init + [row], g[k].areaId) ==
              if k < |g0| then FirstRow(init, g0[k].areaId) else Some(|init|)
    {
      IndexOfAppend(RowAreaIds(init), row.areaId, g[k].areaId);
    }
  }

  /** Groups come in the order in which their areas first appear among the rows. */
  lemma {:induction false} GroupedOrder(rows: seq<AreaSectorRow>)
    ensures forall k :: 0 <= k < |Grouped(rows)| ==> FirstRow(rows, Grouped(rows)[k].areaId).Some?
    ensures forall i, j :: 0 <= i < j < |Grouped(rows)| ==>
              FirstRow(rows, Grouped(rows)[i].areaId).value < FirstRow(rows, Grouped(rows)[j].areaId).value
    decreases |rows|
  {
    if rows != [] {
      var init, row := rows[..|rows| - 1], rows[|rows| - 1];
      assert rows == init + [row];
      GroupedOrder(init);
      FirstRowStep(init, row);
      var g0, g := Grouped(init), Grouped(rows);
      forall i, j | 0 <= i < j < |g|
        ensures FirstRow(rows, g[i].areaId).value < FirstRow(rows, g[j].areaId).value
      {
        if j == |g0| {
          assert FirstRow(init, g0[i].areaId).value < |init|;
        }
      }
    }
  }

  /** One group per distinct area id of the rows, and no group is empty. */
  lemma GroupsCoverAreas(rows: seq<AreaSectorRow>)
    ensures var g := Grouped(rows);
      && (forall i, j :: 0 <= i < j < |g| ==> g[i].areaId != g[j].areaId)
      && (forall a :: a in AreaIds(g) <==> a in RowAreaIds(rows))
      && (forall k :: 0 <= k < |g| ==> g[k].sectors != [])
  {
    var g := Grouped(rows);
    GroupedAreaIds(rows);
    GroupedSectors(rows);
    forall i, j | 0 <= i < j < |g| ensures g[i].areaId != g[j].areaId {
      assert AreaIds(g)[i] != AreaIds(g)[j];
    }
    forall k | 0 <= k < |g| ensures g[k].sectors != [] {
      assert AreaIds(g)[k] == g[k].areaId;
      SectorsInEmptyIff(rows, g[k].areaId);
    }
  }

  lemma {:induction false} TotalSectorsAppend(groups: seq<AreaGroup>, g: AreaGroup)
    ensures TotalSectors(groups + [g]) == TotalSectors(groups) + |g.sectors|
  {
    assert (groups + [g])[..|groups|] == groups;
  }

  lemma {:induction false} TotalSectorsPush(groups: seq<AreaGroup>, k: nat, x: SectorRef)
    requires k < |groups|
    ensures TotalSectors(groups[k := groups[k].(sectors := groups[k].sectors + [x])]) == TotalSectors(groups) + 1
    decreases |groups|
  {
    var n := |groups| - 1;
    var g' := groups[k := groups[k].(sectors := groups[k].sectors + [x])];
    if k < n {
      TotalSectorsPush(groups[..n], k, x);
      assert g'[..n] == groups[..n][k := groups[k].(sectors := groups[k].sectors + [x])];
    } else {
      assert g'[..n] == groups[..n];
    }
  }

  /** Each row contributes exactly one sector entry: the groups hold as many entries as there are rows. */
  lemma {:induction false} GroupedTotal(rows: seq<AreaSectorRow>)
    ensures TotalSectors(Grouped(rows)) == |rows|
    decreases |rows|
  {
    if rows != [] {
      var n := |rows| - 1;
      GroupedTotal(rows[..n]);
      var g0 := Grouped(rows[..n]);
      match IndexOf(AreaIds(g0), rows[n].areaId)
      case None => TotalSectorsAppend(g0, AreaGroup(rows[n].areaId, rows[n].areaName, [RefOf(rows[n])]));
      case Some(k) => TotalSectorsPush(g0, k, RefOf(rows[n]));
    }
  }
}
