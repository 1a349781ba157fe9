/**
 * Merging of the two representations in which static fills are supplied
 * (localization/CoordinateUtils.java): pose translations and integer pairs.
 * Every function here builds a fresh result; values cannot alias, so the deep
 * copies of the source are plain copies.
 */
module CoordinateUtils {
  import opened Wrappers
  import opened SpaceMaps

  /** The translation (x, y) of an OpenGLMatrix pose in field millimetres; rotation and z are not modelled. */
  datatype GLPosition = GLPosition(x: real, y: real)

  /** A nullable list read as a list: null counts as empty. */
  function OrEmpty<T>(list: Option<seq<T>>): seq<T> {
    if list.Some? then list.value else []
  }

  /** Math.round: the closest integer, with ties rounded up. */
  function Round(v: real): (r: int)
    ensures v - 0.5 < r as real <= v + 0.5
  {
    (v + 0.5).Floor
  }

  /** The x and y of a pose's translation, each rounded to the closest integer. */
  function ConvertGLtoInt(matrix: GLPosition): (r: Coords)
    ensures matrix.x - 0.5 < r.x as real <= matrix.x + 0.5
    ensures matrix.y - 0.5 < r.y as real <= matrix.y + 0.5
  {
    Coords(Round(matrix.x), Round(matrix.y))
  }

  /** Converts a list of poses element by element, keeping length and order. */
  function ConvertGLtoIntList(matrices: seq<GLPosition>): (r: seq<Coords>)
    ensures |r| == |matrices|
    ensures forall i :: 0 <= i < |matrices| ==> r[i] == ConvertGLtoInt(matrices[i])
  {
    if matrices == [] then [] else [ConvertGLtoInt(matrices[0])] + ConvertGLtoIntList(matrices[1..])
  }

  /** The converted poses followed by the integer pairs; a null list counts as empty. */
  function JoinCoordinateArrayLists(coordsGL: Option<seq<GLPosition>>, coordsInt: Option<seq<Coords>>): (r: seq<Coords>)
    ensures |r| == |OrEmpty(coordsGL)| + |OrEmpty(coordsInt)|
    ensures r[..|OrEmpty(coordsGL)|] == ConvertGLtoIntList(OrEmpty(coordsGL))
    ensures r[|OrEmpty(coordsGL)|..] == OrEmpty(coordsInt)
  {
    var joined := if coordsGL.Some? then ConvertGLtoIntList(coordsGL.value) else [];
    if coordsInt.Some? then joined + coordsInt.value else joined
  }

  /** A copy of a table of integer pairs; a null table yields an empty one. */
  function DeepCopyCoordsInt(coordsInt: Option<map<Space, seq<Coords>>>): (r: map<Space, seq<Coords>>)
    ensures coordsInt.None? ==> r == map[]
    ensures coordsInt.Some? ==> r.Keys == coordsInt.value.Keys
    ensures coordsInt.Some? ==> forall s :: s in r ==> r[s] == coordsInt.value[s]
  {
    if coordsInt.None? then map[] else map s | s in coordsInt.value :: coordsInt.value[s]
  }

  function Lookup<T>(table: map<Space, seq<T>>, s: Space): Option<seq<T>> {
    if s in table then Some(table[s]) else None
  }

  /** The list the join stores for space s: converted poses first, then the integer pairs. */
  function JoinedAt(coordsInt: Option<map<Space, seq<Coords>>>, coordsGL: Option<map<Space, seq<GLPosition>>>, s: Space): seq<Coords> {
    var gl := if coordsGL.Some? then coordsGL.value else map[];
    JoinCoordinateArrayLists(Lookup(gl, s), Lookup(DeepCopyCoordsInt(coordsInt), s))
  }

  /** The joined list of every space is its converted poses followed by its integer pairs. */
  lemma JoinedAtSplit(coordsInt: Option<map<Space, seq<Coords>>>, coordsGL: Option<map<Space, seq<GLPosition>>>)
    ensures forall s :: (JoinedAt(coordsInt, coordsGL, s) ==
      ConvertGLtoIntList(OrEmpty(if coordsGL.Some? then Lookup(coordsGL.value, s) else None))
      + OrEmpty(if coordsInt.Some? then Lookup(coordsInt.value, s) else None))
  {
    forall s ensures JoinedAt(coordsInt, coordsGL, s) ==
      ConvertGLtoIntList(OrEmpty(if coordsGL.Some? then Lookup(coordsGL.value, s) else None))
      + OrEmpty(if coordsInt.Some? then Lookup(coordsInt.value, s) else None)
    {
      var gl := OrEmpty(if coordsGL.Some? then Lookup(coordsGL.value, s) else None);
      var ints := OrEmpty(if coordsInt.Some? then Lookup(coordsInt.value, s) else None);
      var j := JoinedAt(coordsInt, coordsGL, s);
      assert OrEmpty(Lookup(DeepCopyCoordsInt(coordsInt), s)) == ints;
      assert j == j[..|gl|] + j[|gl|..];
    }
  }

  /**
   * Merges the two tables into one table of integer pairs, visiting every Space value.
   * A space gets a key when its joined list is non-empty; a key already present in
   * the integer table stays, even with an empty list.
   */
  function JoinCoordinateHashtables(coordsInt: Option<map<Space, seq<Coords>>>, coordsGL: Option<map<Space, seq<GLPosition>>>): (r: map<Space, seq<Coords>>)
    ensures forall s :: s in r <==> (coordsInt.Some? && s in coordsInt.value) || JoinedAt(coordsInt, coordsGL, s) != []
    ensures forall s :: s in r ==>
      r[s] == ConvertGLtoIntList(OrEmpty(if coordsGL.Some? then Lookup(coordsGL.value, s) else None))
              + OrEmpty(if coordsInt.Some? then Lookup(coordsInt.value, s) else None)
  {
    AllSpacesComplete();
    JoinedAtSplit(coordsInt, coordsGL);
    var newCoordsInt := DeepCopyCoordsInt(coordsInt);
    map s | s in AllSpaces && (s in newCoordsInt || JoinedAt(coordsInt, coordsGL, s) != []) :: JoinedAt(coordsInt, coordsGL, s)
  }

  /** A null pose table is joined as an empty one. */
  lemma JoinNullGLIsEmpty(coordsInt: Option<map<Space, seq<Coords>>>)
    ensures JoinCoordinateHashtables(coordsInt, None) == JoinCoordinateHashtables(coordsInt, Some(map[]))
  {
  }

  /** The joined list of each key is as long as the two lists it came from together. */
  lemma JoinedLength(coordsInt: Option<map<Space, seq<Coords>>>, coordsGL: Option<map<Space, seq<GLPosition>>>, s: Space)
    requires s in JoinCoordinateHashtables(coordsInt, coordsGL)
    ensures |JoinCoordinateHashtables(coordsInt, coordsGL)[s]|
      == |OrEmpty(if coordsGL.Some? then Lookup(coordsGL.value, s) else None)|
       + |OrEmpty(if coordsInt.Some? then Lookup(coordsInt.value, s) else None)|
  {
  }
}
