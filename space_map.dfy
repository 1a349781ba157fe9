/**
 * The occupancy grid of the field (localization/SpaceMap.java): a height x width
 * matrix of Space values with two clamping policies, border walls, writes that
 * protect static cells, category scans and grid diffing.
 */
module SpaceMaps {
  import opened Wrappers

  function Min(a: int, b: int): int { if a <= b then a else b }
  function Max(a: int, b: int): int { if a <= b then b else a }

  /** The kinds of cell on the map, in the order the enumeration declares them. */
  datatype Space = Wall | ImageTarget | Clear | Robot | Obstacle | TargetLocation | PfPath | PfStart | PfEnd
  {
    /** Whether the robot can move through a cell of this kind. */
    predicate Passable() {
      !(this == Wall || this == Obstacle)
    }

    /** Static kinds are written or overwritten only when a write explicitly allows it. */
    predicate IsStatic() {
      this == Wall || this == ImageTarget || this == Robot
    }
  }

  /** Every Space value, in declaration order (the order in which the map overloads visit keys). */
  const AllSpaces: seq<Space> := [Wall, ImageTarget, Clear, Robot, Obstacle, TargetLocation, PfPath, PfStart, PfEnd]

  /** AllSpaces lists every Space value. */
  lemma AllSpacesComplete()
    ensures forall s: Space :: s in AllSpaces
  {
    forall s: Space
      ensures s in AllSpaces
    {
      match s
      case Wall => assert AllSpaces[0] == s;
      case ImageTarget => assert AllSpaces[1] == s;
      case Clear => assert AllSpaces[2] == s;
      case Robot => assert AllSpaces[3] == s;
      case Obstacle => assert AllSpaces[4] == s;
      case TargetLocation => assert AllSpaces[5] == s;
      case PfPath => assert AllSpaces[6] == s;
      case PfStart => assert AllSpaces[7] == s;
      case PfEnd => assert AllSpaces[8] == s;
    }
  }

  /** A two-element integer coordinate array; in matrix coordinates x is the row and y the column. */
  datatype Coords = Coords(x: int, y: int)

  /** Row-major order on matrix coordinates: the order in which the grid scans visit cells. */
  predicate Before(a: Coords, b: Coords) {
    a.x < b.x || (a.x == b.x && a.y < b.y)
  }

  predicate RowMajorSorted(s: seq<Coords>) {
    forall k, l :: 0 <= k < l < |s| ==> Before(s[k], s[l])
  }

  /** The median of a, b and v, as both rounding policies compute it: v clamped between a and b. */
  function Median(a: int, b: int, v: int): (r: int)
    ensures Min(a, b) <= r <= Max(a, b)
    ensures Min(a, b) <= v <= Max(a, b) ==> r == v
    ensures v < Min(a, b) ==> r == Min(a, b)
    ensures v > Max(a, b) ==> r == Max(a, b)
  {
    Max(Min(a, b), Min(Max(a, b), v))
  }

  /** The value a cell holds after a single-cell write of newSpace. */
  function SetCell(oldSpace: Space, newSpace: Space, allowStatic: bool): (r: Space)
    ensures allowStatic || (!oldSpace.IsStatic() && !newSpace.IsStatic()) ==> r == newSpace
    ensures !allowStatic && (oldSpace.IsStatic() || newSpace.IsStatic()) ==> r == oldSpace
  {
    if !(newSpace.IsStatic() || oldSpace.IsStatic()) || allowStatic then newSpace else oldSpace
  }

  /** The value a cell holds after an add of newSpace: only a clear cell is ever overwritten. */
  function AddCell(oldSpace: Space, newSpace: Space, allowStatic: bool): (r: Space)
    ensures r != oldSpace ==> oldSpace == Clear && r == newSpace
    ensures oldSpace == Clear && (allowStatic || !newSpace.IsStatic()) ==> r == newSpace
    ensures oldSpace == Clear && newSpace.IsStatic() && !allowStatic ==> r == Clear
  {
    if oldSpace == Clear then SetCell(oldSpace, newSpace, allowStatic) else oldSpace
  }

  /** The value of the cell at p after the map overload of setSpace has visited the keys in ks. */
  function MapSetCell(o: Space, ks: seq<Space>, coordMap: map<Space, seq<Coords>>, p: Coords, allowStatic: bool): Space
  {
    if ks == [] then o
    else
      var prev := MapSetCell(o, ks[..|ks| - 1], coordMap, p, allowStatic);
      var s := ks[|ks| - 1];
      if s in coordMap && p in coordMap[s] then SetCell(prev, s, allowStatic) else prev
  }

  /** The value of the cell at p after the map overload of addSpace has visited the keys in ks. */
  function MapAddCell(o: Space, ks: seq<Space>, coordMap: map<Space, seq<Coords>>, p: Coords, allowStatic: bool): Space
  {
    if ks == [] then o
    else
      var prev := MapAddCell(o, ks[..|ks| - 1], coordMap, p, allowStatic);
      var s := ks[|ks| - 1];
      if s in coordMap && p in coordMap[s] then AddCell(prev, s, allowStatic) else prev
  }

  /** Whether getDifferences reports a cell holding a here and b in the other map. */
  predicate Differs(a: Space, b: Space, requireStateChange: bool) {
    a != b && (!requireStateChange || a.Passable() != b.Passable())
  }

  /** A cell written by the map overload of setSpace without permission keeps a static value. */
  lemma {:induction false} MapSetKeepsStatic(o: Space, ks: seq<Space>, coordMap: map<Space, seq<Coords>>, p: Coords)
    requires o.IsStatic()
    ensures MapSetCell(o, ks, coordMap, p, false) == o
    decreases |ks|
  {
    if ks != [] {
      MapSetKeepsStatic(o, ks[..|ks| - 1], coordMap, p);
    }
  }

  /** Without permission, the map overload of setSpace never writes a static space into a cell. */
  lemma {:induction false} MapSetWritesNoStatic(o: Space, ks: seq<Space>, coordMap: map<Space, seq<Coords>>, p: Coords)
    requires !o.IsStatic()
    ensures !MapSetCell(o, ks, coordMap, p, false).IsStatic()
    decreases |ks|
  {
    if ks != [] {
      MapSetWritesNoStatic(o, ks[..|ks| - 1], coordMap, p);
    }
  }

  /** The map overload of addSpace changes only cells that were clear. */
  lemma {:induction false} MapAddOnlyClear(o: Space, ks: seq<Space>, coordMap: map<Space, seq<Coords>>, p: Coords, allowStatic: bool)
    requires o != Clear
    ensures MapAddCell(o, ks, coordMap, p, allowStatic) == o
    decreases |ks|
  {
    if ks != [] {
      MapAddOnlyClear(o, ks[..|ks| - 1], coordMap, p, allowStatic);
    }
  }

  /** A cell listed under no key is left alone by both map overloads. */
  lemma {:induction false} MapUnlistedUnchanged(o: Space, ks: seq<Space>, coordMap: map<Space, seq<Coords>>, p: Coords, allowStatic: bool)
    requires forall s :: s in coordMap ==> p !in coordMap[s]
    ensures MapSetCell(o, ks, coordMap, p, allowStatic) == o
    ensures MapAddCell(o, ks, coordMap, p, allowStatic) == o
    decreases |ks|
  {
    if ks != [] {
      MapUnlistedUnchanged(o, ks[..|ks| - 1], coordMap, p, allowStatic);
    }
  }

  /**
   * Discrepancy in the list overload of setSpace: the code passes false instead of
   * allowStatic to the single-cell write, so a permitted static write onto a clear
   * cell is dropped, and a permitted clear of a wall cell is dropped too.
   */
  lemma SetSpaceListAsWrittenDropsPermittedWrites()
    ensures SetCell(Clear, Wall, false) == Clear && SetCell(Clear, Wall, true) == Wall
    ensures SetCell(Wall, Clear, false) == Wall && SetCell(Wall, Clear, true) == Clear
  {
  }

  /**
   * The same discrepancy seen through the map overload of setSpace: a map asking for a
   * wall at p, with permission, leaves a clear p clear as written, but puts the wall
   * there once permission is passed on.
   */
  lemma MapSetAsWrittenDropsPermittedWrites(p: Coords)
    ensures MapSetCell(Clear, AllSpaces, map[Wall := [p]], p, false) == Clear
    ensures MapSetCell(Clear, AllSpaces, map[Wall := [p]], p, true) == Wall
  {
    var m := map[Wall := [p]];
    assert AllSpaces[..1] == [Wall] && [Wall][..0] == [];
    MapSetAbsentKeys(Clear, AllSpaces, m, p, false, 1);
    MapSetAbsentKeys(Clear, AllSpaces, m, p, true, 1);
  }

  /** Keys after position n that the map does not hold leave the cell as the first n keys left it. */
  lemma {:induction false} MapSetAbsentKeys(o: Space, ks: seq<Space>, coordMap: map<Space, seq<Coords>>, p: Coords, allowStatic: bool, n: nat)
    requires n <= |ks| && forall k :: n <= k < |ks| ==> ks[k] !in coordMap
    ensures MapSetCell(o, ks, coordMap, p, allowStatic) == MapSetCell(o, ks[..n], coordMap, p, allowStatic)
    decreases |ks|
  {
    if n < |ks| {
      var front := ks[..|ks| - 1];
      assert front[..n] == ks[..n];
      MapSetAbsentKeys(o, front, coordMap, p, allowStatic, n);
    } else {
      assert ks[..n] == ks;
    }
  }

  /** A grid of Space values with a rounding range, mutated in place. */
  class SpaceMap {
    const grid: array2<Space>
    const height: int
    const width: int
    const minRange: int
    const maxRange: int

    ghost predicate Valid() {
      grid.Length0 == height && grid.Length1 == width && 0 <= minRange && maxRange <= height - 1
    }

    predicate InBounds(p: Coords) {
      0 <= p.x < height && 0 <= p.y < width
    }

    predicate IsBorder(i: int, j: int) {
      i == 0 || i == height - 1 || j == 0 || j == width - 1
    }

    /** A map of clear cells whose range is the whole height. */
    constructor (xHeight: nat, yWidth: nat)
      ensures Valid() && fresh(grid)
      ensures height == xHeight && width == yWidth && minRange == 0 && maxRange == xHeight - 1
      ensures forall i, j :: 0 <= i < height && 0 <= j < width ==> grid[i, j] == Clear
    {
      grid := new Space[xHeight, yWidth]((_, _) => Clear);
      height, width := xHeight, yWidth;
      minRange, maxRange := 0, xHeight - 1;
    }

    /** A map of clear cells whose range is clamped into [0, height - 1]. */
    constructor Ranged(xHeight: nat, yWidth: nat, minR: int, maxR: int)
      ensures Valid() && fresh(grid)
      ensures height == xHeight && width == yWidth
      ensures minRange == Max(0, minR) && maxRange == Min(xHeight - 1, maxR)
      ensures forall i, j :: 0 <= i < height && 0 <= j < width ==> grid[i, j] == Clear
    {
      grid := new Space[xHeight, yWidth]((_, _) => Clear);
      height, width := xHeight, yWidth;
      minRange, maxRange := Max(0, minR), Min(xHeight - 1, maxR);
    }

    /** A deep copy of another map: same dimensions, range and cells, but its own grid. */
    constructor Copy(other: SpaceMap)
      requires other.Valid()
      ensures Valid() && fresh(grid)
      ensures height == other.height && width == other.width
      ensures minRange == other.minRange && maxRange == other.maxRange
      ensures forall i, j :: 0 <= i < height && 0 <= j < width ==> grid[i, j] == other.grid[i, j]
    {
      var copy := DeepCopy(other.grid);
      grid := copy;
      height, width := other.height, other.width;
      minRange, maxRange := other.minRange, other.maxRange;
    }

    /** A freshly allocated copy of a grid, cell by cell. */
    static method DeepCopy(src: array2<Space>) returns (dst: array2<Space>)
      ensures fresh(dst) && dst.Length0 == src.Length0 && dst.Length1 == src.Length1
      ensures forall i, j :: 0 <= i < src.Length0 && 0 <= j < src.Length1 ==> dst[i, j] == src[i, j]
    {
      dst := new Space[src.Length0, src.Length1];
      var r := 0;
      while r < src.Length0
        invariant 0 <= r <= src.Length0
        invariant forall i, j :: 0 <= i < r && 0 <= j < src.Length1 ==> dst[i, j] == src[i, j]
      {
        var c := 0;
        while c < src.Length1
          invariant 0 <= c <= src.Length1
          invariant forall i, j :: 0 <= i < r && 0 <= j < src.Length1 ==> dst[i, j] == src[i, j]
          invariant forall j :: 0 <= j < c ==> dst[r, j] == src[r, j]
        {
          dst[r, c] := src[r, c];
          c := c + 1;
        }
        r := r + 1;
      }
    }

    /**
     * The cells where this map and another differ, in row-major order; with
     * requireStateChange, only those whose passable flag differs. (The source skips
     * rows that compare equal as a whole; that shortcut finds no cell of its own.)
     */
    method GetDifferences(other: SpaceMap, requireStateChange: bool) returns (diffList: seq<Coords>)
      requires Valid() && other.Valid() && other.height >= height && other.width >= width
      ensures forall p :: p in diffList <==>
        InBounds(p) && Differs(grid[p.x, p.y], other.grid[p.x, p.y], requireStateChange)
      ensures RowMajorSorted(diffList)
    {
      diffList := [];
      var r := 0;
      while r < height
        invariant 0 <= r <= height
        invariant forall p :: p in diffList <==>
          InBounds(p) && p.x < r && Differs(grid[p.x, p.y], other.grid[p.x, p.y], requireStateChange)
        invariant RowMajorSorted(diffList)
        invariant forall p :: p in diffList ==> p.x < r
      {
        var c := 0;
        while c < width
          invariant 0 <= c <= width
          invariant forall p :: p in diffList <==>
            InBounds(p) && Before(p, Coords(r, c)) && Differs(grid[p.x, p.y], other.grid[p.x, p.y], requireStateChange)
          invariant RowMajorSorted(diffList)
          invariant forall p :: p in diffList ==> Before(p, Coords(r, c))
        {
          if Differs(grid[r, c], other.grid[r, c], requireStateChange) {
            diffList := diffList + [Coords(r, c)];
          }
          c := c + 1;
        }
        r := r + 1;
      }
    }

    /** Rounds coordinates into the grid; a missing pair counts as (0, 0). */
    function RoundToBounds(coords: Option<Coords>): (r: Coords)
      ensures height >= 1 && width >= 1 ==> InBounds(r)
      ensures coords.Some? && InBounds(coords.value) ==> r == coords.value
      ensures coords.None? ==> r == Coords(0, 0)
    {
      var c := if coords.None? then Coords(0, 0) else coords.value;
      Coords(Median(height - 1, 0, c.x), Median(width - 1, 0, c.y))
    }

    /** Whether both coordinates lie between minRange and maxRange (in either order). */
    predicate InRange(p: Coords) {
      Min(minRange, maxRange) <= p.x <= Max(minRange, maxRange) &&
      Min(minRange, maxRange) <= p.y <= Max(minRange, maxRange)
    }

    /** Rounds both coordinates into the range; a missing pair counts as (0, 0). */
    function RoundToRange(coords: Option<Coords>): (r: Coords)
      ensures InRange(r)
      ensures coords.Some? && InRange(coords.value) ==> r == coords.value
      ensures Valid() && minRange <= maxRange < width ==> InBounds(r)
    {
      var c := if coords.None? then Coords(0, 0) else coords.value;
      Coords(Median(maxRange, minRange, c.x), Median(maxRange, minRange, c.y))
    }

    /** Both rounding policies are idempotent, and a missing pair rounds as (0, 0) does. */
    lemma RoundingIdempotent(coords: Option<Coords>)
      ensures RoundToBounds(Some(RoundToBounds(coords))) == RoundToBounds(coords)
      ensures RoundToRange(Some(RoundToRange(coords))) == RoundToRange(coords)
      ensures RoundToBounds(None) == RoundToBounds(Some(Coords(0, 0)))
      ensures RoundToRange(None) == RoundToRange(Some(Coords(0, 0)))
    {
    }

    /** The space at a cell. */
    function GetSpace(coords: Coords): Space
      reads grid
      requires Valid() && InBounds(coords)
    {
      grid[coords.x, coords.y]
    }

    /**
     * Applies a per-cell update to every cell in row-major order; the update sees
     * the cell's coordinates and its value before the visit.
     */
    method ApplyToSpaceMap(f: (Coords, Space) -> Space)
      requires Valid()
      modifies grid
      ensures forall i, j :: 0 <= i < height && 0 <= j < width ==> grid[i, j] == f(Coords(i, j), old(grid[i, j]))
    {
      var r := 0;
      while r < height
        invariant 0 <= r <= height
        invariant forall i, j :: 0 <= i < r && 0 <= j < width ==> grid[i, j] == f(Coords(i, j), old(grid[i, j]))
        invariant forall i, j :: r <= i < height && 0 <= j < width ==> grid[i, j] == old(grid[i, j])
      {
        var c := 0;
        while c < width
          invariant 0 <= c <= width
          invariant forall i, j :: 0 <= i < r && 0 <= j < width ==> grid[i, j] == f(Coords(i, j), old(grid[i, j]))
          invariant forall j :: 0 <= j < c ==> grid[r, j] == f(Coords(r, j), old(grid[r, j]))
          invariant forall j :: c <= j < width ==> grid[r, j] == old(grid[r, j])
          invariant forall i, j :: r < i < height && 0 <= j < width ==> grid[i, j] == old(grid[i, j])
        {
          grid[r, c] := f(Coords(r, c), grid[r, c]);
          c := c + 1;
        }
        r := r + 1;
      }
    }

    /** Fills one row with a space, as Arrays.fill does. */
    method FillRow(row: int, s: Space)
      requires Valid() && 0 <= row < height
      modifies grid
      ensures forall i, j :: 0 <= i < height && 0 <= j < width ==>
        grid[i, j] == if i == row then s else old(grid[i, j])
    {
      var c := 0;
      while c < width
        invariant 0 <= c <= width
        invariant forall i, j :: 0 <= i < height && 0 <= j < width ==>
          grid[i, j] == if i == row && j < c then s else old(grid[i, j])
      {
        grid[row, c] := s;
        c := c + 1;
      }
    }

    /** Sets the border rows and columns to walls; no other cell changes. */
    method SetWalls()
      requires Valid() && height >= 1 && width >= 1
      modifies grid
      ensures forall i, j :: 0 <= i < height && 0 <= j < width ==>
        grid[i, j] == if IsBorder(i, j) then Wall else old(grid[i, j])
    {
      FillRow(0, Wall);
      FillRow(height - 1, Wall);
      var r := 0;
      while r < height
        invariant 0 <= r <= height
        invariant forall i, j :: 0 <= i < height && 0 <= j < width ==>
          grid[i, j] == if i == 0 || i == height - 1 || (i < r && (j == 0 || j == width - 1)) then Wall else old(grid[i, j])
      {
        grid[r, 0] := Wall;
        grid[r, width - 1] := Wall;
        r := r + 1;
      }
    }

    /** Writes newSpace at one cell unless the write would touch a static space without permission. */
    method SetSpace(newSpace: Space, coords: Coords, allowStatic: bool)
      requires Valid() && InBounds(coords)
      modifies grid
      ensures forall i, j :: 0 <= i < height && 0 <= j < width ==>
        grid[i, j] == if Coords(i, j) == coords then SetCell(old(grid[i, j]), newSpace, allowStatic) else old(grid[i, j])
    {
      var oldSpace := GetSpace(coords);
      if !(newSpace.IsStatic() || oldSpace.IsStatic()) || allowStatic {
        grid[coords.x, coords.y] := newSpace;
      }
    }

    /**
     * The list overload of setSpace as the source has it: every cell write is made
     * with allowStatic = false, whatever the caller passed.
     */
    method SetSpaceListAsWritten(newSpace: Space, coords: seq<Coords>, allowStatic: bool)
      requires Valid() && forall p :: p in coords ==> InBounds(p)
      modifies grid
      ensures forall i, j :: 0 <= i < height && 0 <= j < width ==>
        grid[i, j] == if Coords(i, j) in coords then SetCell(old(grid[i, j]), newSpace, false) else old(grid[i, j])
    {
      if newSpace.IsStatic() && !allowStatic {
        return;
      }
      var k := 0;
      while k < |coords|
        invariant 0 <= k <= |coords|
        invariant forall i, j :: 0 <= i < height && 0 <= j < width ==>
          grid[i, j] == if Coords(i, j) in coords[..k] then SetCell(old(grid[i, j]), newSpace, false) else old(grid[i, j])
      {
        assert coords[..k + 1] == coords[..k] + [coords[k]];
        SetSpace(newSpace, coords[k], false);
        k := k + 1;
      }
      assert coords[..k] == coords;
    }

    /** The list overload of setSpace with the caller's allowStatic passed on to every cell write. */
    method SetSpaceList(newSpace: Space, coords: seq<Coords>, allowStatic: bool)
      requires Valid() && forall p :: p in coords ==> InBounds(p)
      modifies grid
      ensures forall i, j :: 0 <= i < height && 0 <= j < width ==>
        grid[i, j] == if Coords(i, j) in coords then SetCell(old(grid[i, j]), newSpace, allowStatic) else old(grid[i, j])
    {
      if newSpace.IsStatic() && !allowStatic {
        return;
      }
      var k := 0;
      while k < |coords|
        invariant 0 <= k <= |coords|
        invariant forall i, j :: 0 <= i < height && 0 <= j < width ==>
          grid[i, j] == if Coords(i, j) in coords[..k] then SetCell(old(grid[i, j]), newSpace, allowStatic) else old(grid[i, j])
      {
        assert coords[..k + 1] == coords[..k] + [coords[k]];
        SetSpace(newSpace, coords[k], allowStatic);
        k := k + 1;
      }
      assert coords[..k] == coords;
    }

    /** The map overload of setSpace: each key's list is written in key order, static keys only with permission. */
    method SetSpaceMap(coordMap: map<Space, seq<Coords>>, allowStatic: bool)
      requires Valid() && forall s, p :: s in coordMap && p in coordMap[s] ==> InBounds(p)
      modifies grid
      ensures forall i, j :: 0 <= i < height && 0 <= j < width ==>
        grid[i, j] == MapSetCell(old(grid[i, j]), AllSpaces, coordMap, Coords(i, j), allowStatic)
    {
      var k := 0;
      while k < |AllSpaces|
        invariant 0 <= k <= |AllSpaces|
        invariant forall i, j :: 0 <= i < height && 0 <= j < width ==>
          grid[i, j] == MapSetCell(old(grid[i, j]), AllSpaces[..k], coordMap, Coords(i, j), allowStatic)
      {
        var space := AllSpaces[k];
        assert AllSpaces[..k + 1][..k] == AllSpaces[..k];
        if space in coordMap && !(space.IsStatic() && !allowStatic) {
          SetSpaceList(space, coordMap[space], allowStatic);
        }
        k := k + 1;
      }
      assert AllSpaces[..k] == AllSpaces;
    }

    /**
     * The map overload of setSpace as the source has it: it goes through the list
     * overload as written, so every cell write is made without permission and the
     * result does not depend on allowStatic.
     */
    method SetSpaceMapAsWritten(coordMap: map<Space, seq<Coords>>, allowStatic: bool)
      requires Valid() && forall s, p :: s in coordMap && p in coordMap[s] ==> InBounds(p)
      modifies grid
      ensures forall i, j :: 0 <= i < height && 0 <= j < width ==>
        grid[i, j] == MapSetCell(old(grid[i, j]), AllSpaces, coordMap, Coords(i, j), false)
    {
      var k := 0;
      while k < |AllSpaces|
        invariant 0 <= k <= |AllSpaces|
        invariant forall i, j :: 0 <= i < height && 0 <= j < width ==>
          grid[i, j] == MapSetCell(old(grid[i, j]), AllSpaces[..k], coordMap, Coords(i, j), false)
      {
        var space := AllSpaces[k];
        assert AllSpaces[..k + 1][..k] == AllSpaces[..k];
        if space in coordMap && !(space.IsStatic() && !allowStatic) {
          SetSpaceListAsWritten(space, coordMap[space], allowStatic);
        }
        k := k + 1;
      }
      assert AllSpaces[..k] == AllSpaces;
    }

    /** Writes newSpace at one cell, but only if that cell is clear. */
    method AddSpace(newSpace: Space, coords: Coords, allowStatic: bool)
      requires Valid() && InBounds(coords)
      modifies grid
      ensures forall i, j :: 0 <= i < height && 0 <= j < width ==>
        grid[i, j] == if Coords(i, j) == coords then AddCell(old(grid[i, j]), newSpace, allowStatic) else old(grid[i, j])
    {
      if GetSpace(coords) == Clear {
        SetSpace(newSpace, coords, allowStatic);
      }
    }

    /** Adds newSpace at every listed cell that is clear. */
    method AddSpaceList(newSpace: Space, coords: seq<Coords>, allowStatic: bool)
      requires Valid() && forall p :: p in coords ==> InBounds(p)
      modifies grid
      ensures forall i, j :: 0 <= i < height && 0 <= j < width ==>
        grid[i, j] == if Coords(i, j) in coords then AddCell(old(grid[i, j]), newSpace, allowStatic) else old(grid[i, j])
    {
      var k := 0;
      while k < |coords|
        invariant 0 <= k <= |coords|
        invariant forall i, j :: 0 <= i < height && 0 <= j < width ==>
          grid[i, j] == if Coords(i, j) in coords[..k] then AddCell(old(grid[i, j]), newSpace, allowStatic) else old(grid[i, j])
      {
        assert coords[..k + 1] == coords[..k] + [coords[k]];
        AddSpace(newSpace, coords[k], allowStatic);
        k := k + 1;
      }
      assert coords[..k] == coords;
    }

    /** The map overload of addSpace: each key's list is added in key order. */
    method AddSpaceMap(coordMap: map<Space, seq<Coords>>, allowStatic: bool)
      requires Valid() && forall s, p :: s in coordMap && p in coordMap[s] ==> InBounds(p)
      modifies grid
      ensures forall i, j :: 0 <= i < height && 0 <= j < width ==>
        grid[i, j] == MapAddCell(old(grid[i, j]), AllSpaces, coordMap, Coords(i, j), allowStatic)
    {
      var k := 0;
      while k < |AllSpaces|
        invariant 0 <= k <= |AllSpaces|
        invariant forall i, j :: 0 <= i < height && 0 <= j < width ==>
          grid[i, j] == MapAddCell(old(grid[i, j]), AllSpaces[..k], coordMap, Coords(i, j), allowStatic)
      {
        var space := AllSpaces[k];
        assert AllSpaces[..k + 1][..k] == AllSpaces[..k];
        if space in coordMap {
          AddSpaceList(space, coordMap[space], allowStatic);
        }
        k := k + 1;
      }
      assert AllSpaces[..k] == AllSpaces;
    }

    /**
     * clearSpace on a list as the source has it: through the list overload of setSpace
     * as written, so a static cell is never cleared, whatever allowStatic says.
     */
    method ClearSpaceListAsWritten(coordsList: seq<Coords>, allowStatic: bool)
      requires Valid() && forall p :: p in coordsList ==> InBounds(p)
      modifies grid
      ensures forall i, j :: 0 <= i < height && 0 <= j < width ==>
        grid[i, j] == if Coords(i, j) in coordsList && !old(grid[i, j]).IsStatic() then Clear else old(grid[i, j])
    {
      SetSpaceListAsWritten(Clear, coordsList, allowStatic);
    }

    /** Clears the listed cells, static ones only with permission. */
    method ClearSpaceList(coordsList: seq<Coords>, allowStatic: bool)
      requires Valid() && forall p :: p in coordsList ==> InBounds(p)
      modifies grid
      ensures forall i, j :: 0 <= i < height && 0 <= j < width ==>
        grid[i, j] == if Coords(i, j) in coordsList && (allowStatic || !old(grid[i, j]).IsStatic()) then Clear else old(grid[i, j])
    {
      SetSpaceList(Clear, coordsList, allowStatic);
    }

    /** Clears every non-static cell, and with permission every cell. */
    method ClearAllSpaces(allowStatic: bool)
      requires Valid()
      modifies grid
      ensures forall i, j :: 0 <= i < height && 0 <= j < width ==>
        grid[i, j] == if allowStatic || !old(grid[i, j]).IsStatic() then Clear else old(grid[i, j])
    {
      ApplyToSpaceMap((p: Coords, s: Space) => if !s.IsStatic() || allowStatic then SetCell(s, Clear, allowStatic) else s);
    }

    /** Clears exactly the cells holding space; a static space only with permission. */
    method ClearSpace(space: Space, allowStatic: bool)
      requires Valid()
      modifies grid
      ensures forall i, j :: 0 <= i < height && 0 <= j < width ==>
        grid[i, j] == if old(grid[i, j]) == space && (allowStatic || !space.IsStatic()) then Clear else old(grid[i, j])
    {
      if space.IsStatic() && !allowStatic {
        return;
      }
      ApplyToSpaceMap((p: Coords, s: Space) => if s == space then SetCell(s, Clear, allowStatic) else s);
    }

    /** All cells holding space, in row-major order. */
    method CoordsOf(space: Space) returns (coordsList: seq<Coords>)
      requires Valid()
      ensures forall p :: p in coordsList <==> InBounds(p) && grid[p.x, p.y] == space
      ensures RowMajorSorted(coordsList)
    {
      coordsList := [];
      var r := 0;
      while r < height
        invariant 0 <= r <= height
        invariant forall p :: p in coordsList <==> InBounds(p) && p.x < r && grid[p.x, p.y] == space
        invariant RowMajorSorted(coordsList)
        invariant forall p :: p in coordsList ==> p.x < r
      {
        var c := 0;
        while c < width
          invariant 0 <= c <= width
          invariant forall p :: p in coordsList <==> InBounds(p) && Before(p, Coords(r, c)) && grid[p.x, p.y] == space
          invariant RowMajorSorted(coordsList)
          invariant forall p :: p in coordsList ==> Before(p, Coords(r, c))
        {
          if grid[r, c] == space {
            coordsList := coordsList + [Coords(r, c)];
          }
          c := c + 1;
        }
        r := r + 1;
      }
    }

    /** Moves the robot: every robot cell is cleared, then the robot is written at robotCoords. */
    method SetRobotPosition(robotCoords: Coords)
      requires Valid() && InBounds(robotCoords)
      modifies grid
      ensures forall i, j :: 0 <= i < height && 0 <= j < width ==>
        (grid[i, j] == Robot <==> Coords(i, j) == robotCoords)
      ensures forall i, j :: 0 <= i < height && 0 <= j < width && Coords(i, j) != robotCoords ==>
        grid[i, j] == if old(grid[i, j]) == Robot then Clear else old(grid[i, j])
    {
      ClearSpace(Robot, true);
      SetSpace(Robot, robotCoords, true);
    }

    /** The first robot cell in row-major order, or None when the map holds no robot. */
    method GetRobotPosition() returns (position: Option<Coords>)
      requires Valid()
      ensures position.None? ==> forall i, j :: 0 <= i < height && 0 <= j < width ==> grid[i, j] != Robot
      ensures position.Some? ==> InBounds(position.value) && grid[position.value.x, position.value.y] == Robot
      ensures position.Some? ==> forall p :: InBounds(p) && Before(p, position.value) ==> grid[p.x, p.y] != Robot
    {
      var positionList := CoordsOf(Robot);
      if |positionList| > 0 {
        position := Some(positionList[0]);
        assert positionList[0] in positionList;
        forall p | InBounds(p) && Before(p, positionList[0])
          ensures grid[p.x, p.y] != Robot
        {
          forall k | 0 < k < |positionList|
            ensures positionList[k] != p
          {
            assert Before(positionList[0], positionList[k]);
          }
          assert p !in positionList;
        }
      } else {
        position := None;
        forall i, j | 0 <= i < height && 0 <= j < width
          ensures grid[i, j] != Robot
        {
          assert Coords(i, j) !in positionList;
        }
      }
    }
  }
}
