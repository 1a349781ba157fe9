/**
 * The field model (localization/FieldMap.java): a square SpaceMap sized from the
 * field's size in millimetres, border walls, static fills, the robot's cell, and
 * the transforms between field millimetres and matrix indices.
 */
module FieldMaps {
  import opened Wrappers
  import opened SpaceMaps
  import opened CoordinateUtils

  /** Millimetres per grid cell (getScale). */
  const Scale := 75

  /** Java's integer division by Scale, which truncates toward zero (Dafny's rounds toward minus infinity for negative a). */
  function ScaleDiv(a: int): (q: int)
    ensures a >= 0 ==> 0 <= q * Scale <= a < q * Scale + Scale
    ensures a < 0 ==> q * Scale - Scale < a <= q * Scale <= 0
  {
    if a >= 0 then a / Scale else -((-a) / Scale)
  }

  /** One static-fill write: space written (with permission) at a matrix cell. */
  datatype Fill = Fill(space: Space, at: Coords)

  /** What a cell holds after the writes ws, starting from o: the space of the last write there. */
  function LastWrite(ws: seq<Fill>, p: Coords, o: Space): Space {
    if ws == [] then o
    else if ws[|ws| - 1].at == p then ws[|ws| - 1].space
    else LastWrite(ws[..|ws| - 1], p, o)
  }

  lemma LastWriteAppend(ws: seq<Fill>, f: Fill, p: Coords, o: Space)
    ensures LastWrite(ws + [f], p, o) == if f.at == p then f.space else LastWrite(ws, p, o)
  {
    assert (ws + [f])[..|ws|] == ws;
  }

  lemma {:induction false} LastWriteConcat(ws: seq<Fill>, vs: seq<Fill>, p: Coords, o: Space)
    ensures LastWrite(ws + vs, p, o) == LastWrite(vs, p, LastWrite(ws, p, o))
    decreases |vs|
  {
    if vs == [] {
      assert ws + vs == ws;
    } else {
      var last := vs[|vs| - 1];
      var front := vs[..|vs| - 1];
      assert ws + vs == (ws + front) + [last];
      LastWriteAppend(ws + front, last, p, o);
      LastWriteAppend(front, last, p, LastWrite(ws, p, o));
      assert front + [last] == vs;
      LastWriteConcat(ws, front, p, o);
    }
  }

  /** A cell that no write targets keeps its value; one that some write targets holds a written space. */
  lemma {:induction false} LastWriteUntouched(ws: seq<Fill>, p: Coords, o: Space)
    ensures (forall k :: 0 <= k < |ws| ==> ws[k].at != p) ==> LastWrite(ws, p, o) == o
    ensures (exists k :: 0 <= k < |ws| && ws[k].at == p) ==>
      exists k :: 0 <= k < |ws| && ws[k].at == p && LastWrite(ws, p, o) == ws[k].space
    decreases |ws|
  {
    if ws != [] {
      var prefix := ws[..|ws| - 1];
      LastWriteUntouched(prefix, p, o);
      if ws[|ws| - 1].at != p {
        if exists k :: 0 <= k < |ws| && ws[k].at == p {
          var k :| 0 <= k < |ws| && ws[k].at == p;
          assert prefix[k].at == p;
          var k' :| 0 <= k' < |prefix| && prefix[k'].at == p && LastWrite(prefix, p, o) == prefix[k'].space;
          assert ws[k'] == prefix[k'];
        }
        if forall k :: 0 <= k < |ws| ==> ws[k].at != p {
          assert forall k :: 0 <= k < |prefix| ==> prefix[k].at == ws[k].at;
        }
      }
    }
  }

  /** A square occupancy map of the field, with the robot's last known pose. */
  class FieldMap {
    const fieldSize: int
    const fieldTransform: int
    const spaceMap: SpaceMap
    var robotPositionGL: Option<GLPosition>

    ghost predicate Valid() {
      spaceMap.Valid() && fieldSize >= 1 &&
      spaceMap.height == fieldSize && spaceMap.width == fieldSize &&
      spaceMap.minRange == 1 && spaceMap.maxRange == fieldSize - 2
    }

    /**
     * Sizes the grid fieldSizeMM / Scale square with the interior range [1, fieldSize - 2],
     * sets the border walls, then writes the joined static fills with permission.
     */
    constructor (fieldSizeMM: int, staticCoordsGL: Option<map<Space, seq<GLPosition>>>, staticCoordsInt: Option<map<Space, seq<Coords>>>)
      requires fieldSizeMM >= Scale
      ensures Valid() && fresh(spaceMap) && fresh(spaceMap.grid)
      ensures fieldSize == fieldSizeMM / Scale && fieldTransform == fieldSizeMM / 2
      ensures robotPositionGL == None
      ensures forall i, j :: 0 <= i < fieldSize && 0 <= j < fieldSize ==>
        spaceMap.grid[i, j] == LastWrite(StaticFillWrites(JoinCoordinateHashtables(staticCoordsInt, staticCoordsGL), AllSpaces),
                                         Coords(i, j), if spaceMap.IsBorder(i, j) then Wall else Clear)
    {
      fieldSize := fieldSizeMM / Scale;
      fieldTransform := fieldSizeMM / 2;
      spaceMap := new SpaceMap.Ranged(fieldSizeMM / Scale, fieldSizeMM / Scale, 1, fieldSizeMM / Scale - 2);
      robotPositionGL := None;
      new;
      spaceMap.SetWalls();
      InitializeStaticFills(staticCoordsGL, staticCoordsInt);
    }

    /**
     * Field coordinates to matrix indices: (fieldTransform - v) / Scale on each axis with
     * truncating division, then rounded into the range or into the grid.
     */
    function FieldToMatrix(xyPair: Coords, roundToRange: bool): (r: Coords)
      requires Valid()
      ensures !roundToRange || fieldSize >= 2 ==> spaceMap.InBounds(r)
      ensures roundToRange && fieldSize >= 3 ==> 1 <= r.x <= fieldSize - 2 && 1 <= r.y <= fieldSize - 2
    {
      var raw := Coords(ScaleDiv(fieldTransform - xyPair.x), ScaleDiv(fieldTransform - xyPair.y));
      if roundToRange then spaceMap.RoundToRange(Some(raw)) else spaceMap.RoundToBounds(Some(raw))
    }

    /** A pose to matrix indices: its translation rounded to integers, then rounded into the range. */
    function FieldToMatrixGL(glCoords: GLPosition): (r: Coords)
      requires Valid()
      ensures fieldSize >= 2 ==> spaceMap.InBounds(r)
      ensures fieldSize >= 3 ==> !spaceMap.IsBorder(r.x, r.y)
      ensures fieldSize == 1 ==> -1 <= r.x <= 1 && -1 <= r.y <= 1
    {
      FieldToMatrix(ConvertGLtoInt(glCoords), true)
    }

    /**
     * On a one-cell grid the range is [1, -1], so range rounding clamps into [-1, 1]:
     * the cell is in the grid exactly when both raw indices are 0.
     */
    lemma OneCellGridInBounds(xyPair: Coords)
      requires Valid() && fieldSize == 1
      ensures spaceMap.InBounds(FieldToMatrix(xyPair, true)) <==>
        ScaleDiv(fieldTransform - xyPair.x) == 0 && ScaleDiv(fieldTransform - xyPair.y) == 0
    {
    }

    /** Matrix indices back to field coordinates: fieldTransform - v * Scale on each axis. */
    function MatrixToField(xyPair: Coords): Coords {
      Coords(fieldTransform - xyPair.x * Scale, fieldTransform - xyPair.y * Scale)
    }

    /** Every cell's own field coordinates map back to the cell, under either rounding policy where it applies. */
    lemma MatrixFieldRoundTrip(c: Coords, roundToRange: bool)
      requires Valid() && spaceMap.InBounds(c)
      requires roundToRange ==> 1 <= c.x <= fieldSize - 2 && 1 <= c.y <= fieldSize - 2
      ensures FieldToMatrix(MatrixToField(c), roundToRange) == c
    {
      var f := MatrixToField(c);
      assert fieldTransform - f.x == c.x * Scale;
      assert fieldTransform - f.y == c.y * Scale;
      assert ScaleDiv(c.x * Scale) == c.x;
      assert ScaleDiv(c.y * Scale) == c.y;
    }

    /**
     * The quantisation bound: a field coordinate whose cell lies in the grid before
     * rounding comes back from matrix indices within Scale of where it was; when the cell
     * also lies in the range, rounding to the range gives the same cell.
     */
    lemma QuantisationBound(v: Coords)
      requires Valid()
      requires fieldTransform - fieldSize * Scale < v.x < fieldTransform + Scale
      requires fieldTransform - fieldSize * Scale < v.y < fieldTransform + Scale
      ensures -Scale < MatrixToField(FieldToMatrix(v, false)).x - v.x < Scale
      ensures -Scale < MatrixToField(FieldToMatrix(v, false)).y - v.y < Scale
      ensures 1 <= ScaleDiv(fieldTransform - v.x) <= fieldSize - 2 && 1 <= ScaleDiv(fieldTransform - v.y) <= fieldSize - 2 ==>
        FieldToMatrix(v, true) == FieldToMatrix(v, false)
    {
      var qx := ScaleDiv(fieldTransform - v.x);
      var qy := ScaleDiv(fieldTransform - v.y);
      assert spaceMap.InBounds(Coords(qx, qy));
      assert FieldToMatrix(v, false) == Coords(qx, qy);
    }

    /** A field coordinate at the field's edge lands on the wall border when rounded to bounds. */
    lemma FillsMayLandOnWalls()
      requires Valid()
      ensures FieldToMatrix(Coords(fieldTransform, fieldTransform), false) == Coords(0, 0)
      ensures spaceMap.IsBorder(0, 0)
    {
      assert ScaleDiv(0) == 0;
    }

    /** The writes of one space's fill list: each pair rounded to bounds, in list order. */
    function SpaceFillWrites(space: Space, coordsList: seq<Coords>): (ws: seq<Fill>)
      requires Valid()
      ensures |ws| == |coordsList|
      ensures forall k :: 0 <= k < |ws| ==> ws[k] == Fill(space, FieldToMatrix(coordsList[k], false))
    {
      if coordsList == [] then []
      else SpaceFillWrites(space, coordsList[..|coordsList| - 1]) + [Fill(space, FieldToMatrix(coordsList[|coordsList| - 1], false))]
    }

    /** The writes of all static fills, key by key in the order ks. */
    function StaticFillWrites(joined: map<Space, seq<Coords>>, ks: seq<Space>): seq<Fill>
      requires Valid()
    {
      if ks == [] then []
      else
        var s := ks[|ks| - 1];
        StaticFillWrites(joined, ks[..|ks| - 1]) + (if s in joined then SpaceFillWrites(s, joined[s]) else [])
    }

    /** Every static fill lands inside the grid. */
    lemma {:induction false} StaticFillsInBounds(joined: map<Space, seq<Coords>>, ks: seq<Space>)
      requires Valid()
      ensures forall k :: 0 <= k < |StaticFillWrites(joined, ks)| ==> spaceMap.InBounds(StaticFillWrites(joined, ks)[k].at)
      decreases |ks|
    {
      if ks != [] {
        StaticFillsInBounds(joined, ks[..|ks| - 1]);
      }
    }

    lemma SpaceFillWritesStep(space: Space, coordsList: seq<Coords>, n: nat)
      requires Valid() && n < |coordsList|
      ensures SpaceFillWrites(space, coordsList[..n + 1]) ==
        SpaceFillWrites(space, coordsList[..n]) + [Fill(space, FieldToMatrix(coordsList[n], false))]
    {
      assert coordsList[..n + 1][..n] == coordsList[..n];
    }

    lemma StaticFillWritesStep(joined: map<Space, seq<Coords>>, ks: seq<Space>, k: nat)
      requires Valid() && k < |ks|
      ensures StaticFillWrites(joined, ks[..k + 1]) ==
        StaticFillWrites(joined, ks[..k]) + (if ks[k] in joined then SpaceFillWrites(ks[k], joined[ks[k]]) else [])
    {
      assert ks[..k + 1][..k] == ks[..k];
    }

    /** Writes one space's fill list: each pair rounded to bounds, written with permission, in list order. */
    method WriteSpaceFills(space: Space, coordsList: seq<Coords>)
      requires Valid()
      modifies spaceMap.grid
      ensures forall i, j :: 0 <= i < fieldSize && 0 <= j < fieldSize ==>
        spaceMap.grid[i, j] == LastWrite(SpaceFillWrites(space, coordsList), Coords(i, j), old(spaceMap.grid[i, j]))
    {
      var n := 0;
      while n < |coordsList|
        invariant 0 <= n <= |coordsList|
        invariant forall i, j :: 0 <= i < fieldSize && 0 <= j < fieldSize ==>
          spaceMap.grid[i, j] == LastWrite(SpaceFillWrites(space, coordsList[..n]), Coords(i, j), old(spaceMap.grid[i, j]))
      {
        var xyPair := FieldToMatrix(coordsList[n], false);
        ghost var prev := SpaceFillWrites(space, coordsList[..n]);
        ghost var next := prev + [Fill(space, xyPair)];
        SpaceFillWritesStep(space, coordsList, n);
        spaceMap.SetSpace(space, xyPair, true);
        forall i, j | 0 <= i < fieldSize && 0 <= j < fieldSize
          ensures spaceMap.grid[i, j] == LastWrite(next, Coords(i, j), old(spaceMap.grid[i, j]))
        {
          LastWriteAppend(prev, Fill(space, xyPair), Coords(i, j), old(spaceMap.grid[i, j]));
        }
        n := n + 1;
      }
      assert coordsList[..n] == coordsList;
    }

    /** Writes the joined static fills, key by key, each pair rounded to bounds and written with permission. */
    method InitializeStaticFills(coordsGL: Option<map<Space, seq<GLPosition>>>, coordsInt: Option<map<Space, seq<Coords>>>)
      requires Valid()
      modifies spaceMap.grid
      ensures forall i, j :: 0 <= i < fieldSize && 0 <= j < fieldSize ==>
        spaceMap.grid[i, j] == LastWrite(StaticFillWrites(JoinCoordinateHashtables(coordsInt, coordsGL), AllSpaces), Coords(i, j), old(spaceMap.grid[i, j]))
    {
      var joinedCoords := JoinCoordinateHashtables(coordsInt, coordsGL);
      WriteStaticFills(joinedCoords);
    }

    /** Writes every key's fill list of a joined table, key by key in declaration order. */
    method WriteStaticFills(joinedCoords: map<Space, seq<Coords>>)
      requires Valid()
      modifies spaceMap.grid
      ensures forall i, j :: 0 <= i < fieldSize && 0 <= j < fieldSize ==>
        spaceMap.grid[i, j] == LastWrite(StaticFillWrites(joinedCoords, AllSpaces), Coords(i, j), old(spaceMap.grid[i, j]))
    {
      var k := 0;
      while k < |AllSpaces|
        invariant 0 <= k <= |AllSpaces|
        invariant forall i, j :: 0 <= i < fieldSize && 0 <= j < fieldSize ==>
          spaceMap.grid[i, j] == LastWrite(StaticFillWrites(joinedCoords, AllSpaces[..k]), Coords(i, j), old(spaceMap.grid[i, j]))
      {
        var space := AllSpaces[k];
        ghost var done := StaticFillWrites(joinedCoords, AllSpaces[..k]);
        StaticFillWritesStep(joinedCoords, AllSpaces, k);
        if space in joinedCoords {
          ghost var fills := SpaceFillWrites(space, joinedCoords[space]);
          WriteSpaceFills(space, joinedCoords[space]);
          forall i, j | 0 <= i < fieldSize && 0 <= j < fieldSize
            ensures spaceMap.grid[i, j] == LastWrite(done + fills, Coords(i, j), old(spaceMap.grid[i, j]))
          {
            LastWriteConcat(done, fills, Coords(i, j), old(spaceMap.grid[i, j]));
          }
        } else {
          assert done + [] == done;
        }
        k := k + 1;
      }
      assert AllSpaces[..k] == AllSpaces;
    }

    /**
     * Records the pose and moves the robot to its range-rounded cell: exactly one robot cell remains.
     * The pose's cell must lie in the grid, which always holds from two cells per side up.
     */
    method SetRobotPosition(position: GLPosition)
      requires Valid() && spaceMap.InBounds(FieldToMatrixGL(position))
      modifies this`robotPositionGL, spaceMap.grid
      ensures robotPositionGL == Some(position)
      ensures forall i, j :: 0 <= i < fieldSize && 0 <= j < fieldSize ==>
        (spaceMap.grid[i, j] == Robot <==> Coords(i, j) == FieldToMatrixGL(position))
      ensures forall i, j :: 0 <= i < fieldSize && 0 <= j < fieldSize && Coords(i, j) != FieldToMatrixGL(position) ==>
        spaceMap.grid[i, j] == if old(spaceMap.grid[i, j]) == Robot then Clear else old(spaceMap.grid[i, j])
    {
      robotPositionGL := Some(position);
      var robotCoords := FieldToMatrixGL(position);
      spaceMap.SetRobotPosition(robotCoords);
    }

    /** A null pose changes nothing; otherwise the robot moves to the pose's cell. */
    method Update(position: Option<GLPosition>)
      requires Valid() && (position.Some? ==> spaceMap.InBounds(FieldToMatrixGL(position.value)))
      modifies this`robotPositionGL, spaceMap.grid
      ensures position.None? ==> robotPositionGL == old(robotPositionGL) && unchanged(spaceMap.grid)
      ensures position.Some? ==> robotPositionGL == position
      ensures position.Some? ==> forall i, j :: 0 <= i < fieldSize && 0 <= j < fieldSize ==>
        (spaceMap.grid[i, j] == Robot <==> Coords(i, j) == FieldToMatrixGL(position.value))
      ensures position.Some? ==> forall i, j :: 0 <= i < fieldSize && 0 <= j < fieldSize && Coords(i, j) != FieldToMatrixGL(position.value) ==>
        spaceMap.grid[i, j] == if old(spaceMap.grid[i, j]) == Robot then Clear else old(spaceMap.grid[i, j])
    {
      if position.Some? {
        SetRobotPosition(position.value);
      }
    }
  }
}
