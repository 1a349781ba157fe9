/**
 * Detection fusion (localization/DetectionMapper.java): a list of tracked detections,
 * each with a confidence, matched against each round of potential detections and
 * emitted onto the map once confident.
 */
module DetectionMappers {
  import opened Wrappers
  import opened SpaceMaps
  import opened CoordinateUtils
  import FieldMaps

  /** A detection is confident strictly above this confidence. */
  const ConfidenceThreshold := 4
  /** Increments never raise a confidence above this. */
  const MaxConfidence := 10
  /** Half the side, in field millimetres, of the box in which a potential matches a tracked detection. */
  const ProximityRange := FieldMaps.Scale

  /** A tracked detection: its space, last field position, grid cell and confidence. */
  datatype MappedDetection = MappedDetection(space: Space, fieldPosition: GLPosition, matrixPosition: Coords, confidence: int)
  {
    predicate IsConfident() { confidence > ConfidenceThreshold }

    /** Condemned: removed at the next purge. */
    predicate IsUnderConfident() { confidence < 0 }

    /** One more confirmation, never past the cap. */
    function IncreaseConfidence(): (r: MappedDetection)
      ensures r.space == space && r.fieldPosition == fieldPosition && r.matrixPosition == matrixPosition
      ensures confidence < MaxConfidence ==> r.confidence == confidence + 1
      ensures confidence >= MaxConfidence ==> r.confidence == MaxConfidence
    {
      this.(confidence := Min(confidence + 1, MaxConfidence))
    }

    /** The per-axis box test: both translation components within ProximityRange. */
    predicate WithinProximityRange(otherFieldPos: GLPosition) {
      var dx := fieldPosition.x - otherFieldPos.x;
      var dy := fieldPosition.y - otherFieldPos.y;
      -(ProximityRange as real) <= dx <= ProximityRange as real &&
      -(ProximityRange as real) <= dy <= ProximityRange as real
    }

    /**
     * Takes a potential's field position unconditionally and its cell when the cell differs,
     * returning the replaced cell in that case only.
     */
    function UpdateWithPotential(potential: PotentialDetection): (r: (MappedDetection, Option<Coords>))
      ensures r.0.fieldPosition == potential.fieldPosition && r.0.matrixPosition == potential.matrixPosition
      ensures r.0.space == space && r.0.confidence == confidence
      ensures r.1.Some? <==> matrixPosition != potential.matrixPosition
      ensures r.1.Some? ==> r.1.value == matrixPosition
    {
      var moved := this.(fieldPosition := potential.fieldPosition);
      if matrixPosition != potential.matrixPosition then
        (moved.(matrixPosition := potential.matrixPosition), Some(matrixPosition))
      else
        (moved, None)
    }
  }

  /** A detection from the current frame, not yet tracked. */
  datatype PotentialDetection = PotentialDetection(fieldPosition: GLPosition, matrixPosition: Coords, space: Space, potentialUsed: bool)

  /** A new tracked detection made from a potential, with confidence 0. */
  function NewMapped(potential: PotentialDetection): (m: MappedDetection)
    ensures m.space == potential.space && m.fieldPosition == potential.fieldPosition
    ensures m.matrixPosition == potential.matrixPosition && m.confidence == 0
    ensures !m.IsConfident() && !m.IsUnderConfident()
  {
    MappedDetection(potential.space, potential.fieldPosition, potential.matrixPosition, 0)
  }

  /** What matching one tracked detection against one potential yields. */
  datatype CloseResult = CloseResult(entry: MappedDetection, removed: Option<Coords>, matched: bool)

  /**
   * A potential matches a tracked detection iff it lies in the proximity box and has the same
   * space; a match adds a capped confirmation and moves the detection to the potential.
   */
  function UpdateIfClose(mapped: MappedDetection, potential: PotentialDetection): (r: CloseResult)
    ensures r.matched <==> mapped.WithinProximityRange(potential.fieldPosition) && potential.space == mapped.space
    ensures !r.matched ==> r.entry == mapped && r.removed == None
    ensures r.matched ==> r.entry == MappedDetection(mapped.space, potential.fieldPosition, potential.matrixPosition,
                                                      Min(mapped.confidence + 1, MaxConfidence))
    ensures r.removed.Some? <==> r.matched && mapped.matrixPosition != potential.matrixPosition
    ensures r.removed.Some? ==> r.removed.value == mapped.matrixPosition
  {
    if mapped.WithinProximityRange(potential.fieldPosition) && potential.space == mapped.space then
      var (entry, removed) := mapped.IncreaseConfidence().UpdateWithPotential(potential);
      CloseResult(entry, removed, true)
    else
      CloseResult(mapped, None, false)
  }

  function OptionToSeq<T>(o: Option<T>): seq<T> {
    if o.Some? then [o.value] else []
  }

  /** One potential matched against every tracked detection in list order. */
  datatype MatchResult = MatchResult(entries: seq<MappedDetection>, removed: seq<Coords>, matched: bool)

  /** Matching does not stop at the first match: every tracked detection is compared with the potential. */
  function MatchAll(l: seq<MappedDetection>, potential: PotentialDetection): (r: MatchResult)
    ensures |r.entries| == |l|
  {
    if l == [] then MatchResult([], [], false)
    else
      var prev := MatchAll(l[..|l| - 1], potential);
      var c := UpdateIfClose(l[|l| - 1], potential);
      MatchResult(prev.entries + [c.entry], prev.removed + OptionToSeq(c.removed), prev.matched || c.matched)
  }

  /** The k-th entry after a match is the k-th tracked detection compared with the potential. */
  lemma {:induction false} MatchAllEntryAt(l: seq<MappedDetection>, potential: PotentialDetection, k: nat)
    requires k < |l|
    ensures MatchAll(l, potential).entries[k] == UpdateIfClose(l[k], potential).entry
    decreases |l|
  {
    var n := |l| - 1;
    if k < n {
      MatchAllEntryAt(l[..n], potential, k);
    }
  }

  /** The potential is used iff some tracked detection matched it. */
  lemma {:induction false} MatchAllMatched(l: seq<MappedDetection>, potential: PotentialDetection)
    ensures MatchAll(l, potential).matched <==> exists k :: 0 <= k < |l| && UpdateIfClose(l[k], potential).matched
    decreases |l|
  {
    if l != [] {
      var n := |l| - 1;
      var init := l[..n];
      MatchAllMatched(init, potential);
      if exists k :: 0 <= k < |l| && UpdateIfClose(l[k], potential).matched {
        var k :| 0 <= k < |l| && UpdateIfClose(l[k], potential).matched;
        if k < n {
          assert init[k] == l[k];
        }
      }
      if MatchAll(init, potential).matched {
        var k :| 0 <= k < n && UpdateIfClose(init[k], potential).matched;
        assert l[k] == init[k];
      }
    }
  }

  /** Every tracked detection is compared with the potential, and the potential is used iff one of them matched. */
  lemma MatchAllMeaning(l: seq<MappedDetection>, potential: PotentialDetection)
    ensures forall k :: 0 <= k < |l| ==> MatchAll(l, potential).entries[k] == UpdateIfClose(l[k], potential).entry
    ensures MatchAll(l, potential).matched <==> exists k :: 0 <= k < |l| && UpdateIfClose(l[k], potential).matched
  {
    forall k | 0 <= k < |l|
      ensures MatchAll(l, potential).entries[k] == UpdateIfClose(l[k], potential).entry
    {
      MatchAllEntryAt(l, potential, k);
    }
    MatchAllMatched(l, potential);
  }

  /** The tracked list and removed cells after a round of potentials. */
  datatype Round = Round(entries: seq<MappedDetection>, removed: seq<Coords>)

  /**
   * Each potential in turn is matched against the whole current list (including detections
   * appended for earlier potentials of the same round); an unused potential is appended.
   */
  function UpdateMapped(l: seq<MappedDetection>, ps: seq<PotentialDetection>): (r: Round)
    ensures |l| <= |r.entries| <= |l| + |ps|
  {
    if ps == [] then Round(l, [])
    else
      var prev := UpdateMapped(l, ps[..|ps| - 1]);
      var p := ps[|ps| - 1];
      var m := MatchAll(prev.entries, p);
      Round(m.entries + (if p.potentialUsed || m.matched then [] else [NewMapped(p)]), prev.removed + m.removed)
  }

  /**
   * The potentials of a round that are appended as new detections, in order: those neither
   * flagged used nor matched by the list as the earlier potentials of the round left it.
   */
  function UnusedPotentials(l: seq<MappedDetection>, ps: seq<PotentialDetection>): (u: seq<PotentialDetection>)
    ensures |u| <= |ps|
  {
    if ps == [] then []
    else
      var n := |ps| - 1;
      UnusedPotentials(l, ps[..n]) +
        (if ps[n].potentialUsed || MatchAll(UpdateMapped(l, ps[..n]).entries, ps[n]).matched then [] else [ps[n]])
  }

  /**
   * A round grows the list by exactly the unused potentials: the tracked detections keep
   * their places and spaces, and after them come the detections made from the unused
   * potentials, in order, each with its potential's space (later potentials of the same
   * round may still match and move them).
   */
  lemma {:induction false} UpdateMappedGrowth(l: seq<MappedDetection>, ps: seq<PotentialDetection>)
    ensures |UpdateMapped(l, ps).entries| == |l| + |UnusedPotentials(l, ps)|
    ensures forall k :: 0 <= k < |l| ==> UpdateMapped(l, ps).entries[k].space == l[k].space
    ensures forall j :: 0 <= j < |UnusedPotentials(l, ps)| ==>
      UpdateMapped(l, ps).entries[|l| + j].space == UnusedPotentials(l, ps)[j].space
    decreases |ps|
  {
    if ps != [] {
      var n := |ps| - 1;
      var prev := UpdateMapped(l, ps[..n]);
      var p := ps[n];
      var m := MatchAll(prev.entries, p);
      UpdateMappedGrowth(l, ps[..n]);
      MatchAllMeaning(prev.entries, p);
      var es := UpdateMapped(l, ps).entries;
      assert forall k :: 0 <= k < |prev.entries| ==> es[k].space == prev.entries[k].space by {
        forall k | 0 <= k < |prev.entries|
          ensures es[k].space == prev.entries[k].space
        {
          assert es[k] == m.entries[k];
        }
      }
    }
  }

  /** The tracked list without its condemned detections, in order. */
  function WithoutCondemned(l: seq<MappedDetection>): (r: seq<MappedDetection>)
    ensures |r| <= |l|
  {
    if l == [] then []
    else WithoutCondemned(l[..|l| - 1]) + (if l[|l| - 1].IsUnderConfident() then [] else [l[|l| - 1]])
  }

  /** The purge keeps exactly the detections that are not condemned. */
  lemma {:induction false} WithoutCondemnedMeaning(l: seq<MappedDetection>)
    ensures forall m :: m in WithoutCondemned(l) <==> m in l && !m.IsUnderConfident()
    decreases |l|
  {
    if l != [] {
      var init := l[..|l| - 1];
      WithoutCondemnedMeaning(init);
      assert l == init + [l[|l| - 1]];
    }
  }

  /** One more entry extends the purge and the report of unconfident cells by that entry alone. */
  lemma PurgeStep(l: seq<MappedDetection>, j: nat)
    requires j < |l|
    ensures WithoutCondemned(l[..j + 1]) == WithoutCondemned(l[..j]) + (if l[j].IsUnderConfident() then [] else [l[j]])
    ensures NotConfidentPositions(l[..j + 1]) == NotConfidentPositions(l[..j]) + (if l[j].IsConfident() then [] else [l[j].matrixPosition])
  {
    assert l[..j + 1][..j] == l[..j];
  }

  /**
   * One step of the in-place purge: with the purged prefix followed by the unvisited suffix,
   * the next entry sits at index i; dropping it (when condemned) or stepping past it (otherwise)
   * gives the same shape one entry further on.
   */
  lemma PurgeLoopStep(l: seq<MappedDetection>, j: nat, list: seq<MappedDetection>, i: nat)
    requires j < |l| && i == |WithoutCondemned(l[..j])| && list == WithoutCondemned(l[..j]) + l[j..]
    ensures i < |list| && list[i] == l[j]
    ensures l[j].IsUnderConfident() ==>
      i == |WithoutCondemned(l[..j + 1])| && list[..i] + list[i + 1..] == WithoutCondemned(l[..j + 1]) + l[j + 1..]
    ensures !l[j].IsUnderConfident() ==>
      i + 1 == |WithoutCondemned(l[..j + 1])| && list == WithoutCondemned(l[..j + 1]) + l[j + 1..]
  {
    var kept := WithoutCondemned(l[..j]);
    PurgeStep(l, j);
    assert l[j..] == [l[j]] + l[j + 1..];
    assert list[i] == l[j..][0];
    if l[j].IsUnderConfident() {
      assert list[..i] == kept;
      assert list[i + 1..] == l[j + 1..];
    } else {
      assert list == kept + [l[j]] + l[j + 1..];
    }
  }

  /** One step of the in-place match: the matched prefix grows by the entry at k. */
  lemma MatchLoopStep(l: seq<MappedDetection>, k: nat, p: PotentialDetection, list: seq<MappedDetection>)
    requires k < |l| && |list| == |l| && list == MatchAll(l[..k], p).entries + l[k..]
    ensures list[k] == l[k]
    ensures list[k := UpdateIfClose(l[k], p).entry] == MatchAll(l[..k + 1], p).entries + l[k + 1..]
  {
    MatchAllStep(l, k, p);
    assert l[k..] == [l[k]] + l[k + 1..];
    assert list[k] == l[k..][0];
  }

  /** One more entry extends a match by that entry's own comparison. */
  lemma MatchAllStep(l: seq<MappedDetection>, k: nat, p: PotentialDetection)
    requires k < |l|
    ensures MatchAll(l[..k + 1], p).entries == MatchAll(l[..k], p).entries + [UpdateIfClose(l[k], p).entry]
    ensures MatchAll(l[..k + 1], p).removed == MatchAll(l[..k], p).removed + OptionToSeq(UpdateIfClose(l[k], p).removed)
    ensures MatchAll(l[..k + 1], p).matched == (MatchAll(l[..k], p).matched || UpdateIfClose(l[k], p).matched)
  {
    assert l[..k + 1][..k] == l[..k];
  }

  /** The cells of the detections that are not confident, in list order. */
  function NotConfidentPositions(l: seq<MappedDetection>): (r: seq<Coords>)
    ensures |r| <= |l|
  {
    if l == [] then []
    else NotConfidentPositions(l[..|l| - 1]) + (if l[|l| - 1].IsConfident() then [] else [l[|l| - 1].matrixPosition])
  }

  /** The cell of every unconfident detection is reported, and nothing else is. */
  lemma {:induction false} NotConfidentPositionsMeaning(l: seq<MappedDetection>)
    ensures forall k :: 0 <= k < |l| && !l[k].IsConfident() ==> l[k].matrixPosition in NotConfidentPositions(l)
    ensures forall c :: c in NotConfidentPositions(l) ==>
      exists k :: 0 <= k < |l| && !l[k].IsConfident() && l[k].matrixPosition == c
    decreases |l|
  {
    if l != [] {
      var n := |l| - 1;
      var init := l[..n];
      NotConfidentPositionsMeaning(init);
      var r := NotConfidentPositions(l);
      assert r == NotConfidentPositions(init) + (if l[n].IsConfident() then [] else [l[n].matrixPosition]);
      forall k | 0 <= k < |l| && !l[k].IsConfident()
        ensures l[k].matrixPosition in r
      {
        if k < n {
          assert init[k] == l[k];
        }
      }
      forall c | c in r
        ensures exists k :: 0 <= k < |l| && !l[k].IsConfident() && l[k].matrixPosition == c
      {
        if c in NotConfidentPositions(init) {
          var k :| 0 <= k < n && !init[k].IsConfident() && init[k].matrixPosition == c;
          assert l[k] == init[k];
        } else {
          assert !l[n].IsConfident() && l[n].matrixPosition == c;
        }
      }
    }
  }

  /** The first entry before n, other than i itself, that shares i's cell. */
  function FirstConflict(l: seq<MappedDetection>, i: nat, n: nat): (r: Option<nat>)
    requires i < |l| && n <= |l|
    ensures r.None? ==> forall k :: 0 <= k < n && k != i ==> l[k].matrixPosition != l[i].matrixPosition
    ensures r.Some? ==> r.value < n && r.value != i && l[r.value].matrixPosition == l[i].matrixPosition
    ensures r.Some? ==> forall k :: 0 <= k < r.value && k != i ==> l[k].matrixPosition != l[i].matrixPosition
  {
    if n == 0 then None
    else
      var prev := FirstConflict(l, i, n - 1);
      if prev.Some? then prev
      else if n - 1 != i && l[n - 1].matrixPosition == l[i].matrixPosition then Some(n - 1)
      else None
  }

  /**
   * Entry i is mapped when it is confident and, if another entry shares its cell, its confidence
   * is at least that of the first such entry.
   */
  predicate Mappable(l: seq<MappedDetection>, i: nat)
    requires i < |l|
  {
    l[i].IsConfident() &&
    match FirstConflict(l, i, |l|)
    case None => true
    case Some(k) => l[i].confidence >= l[k].confidence
  }

  /** Only a confident entry is mapped, and a confident entry alone in its cell always is. */
  lemma MappableMeaning(l: seq<MappedDetection>, i: nat)
    requires i < |l|
    ensures Mappable(l, i) ==> l[i].IsConfident()
    ensures (forall k :: 0 <= k < |l| && k != i ==> l[k].matrixPosition != l[i].matrixPosition) ==>
      (Mappable(l, i) <==> l[i].IsConfident())
  {
    if FirstConflict(l, i, |l|).Some? {
      var k := FirstConflict(l, i, |l|).value;
      assert k != i && l[k].matrixPosition == l[i].matrixPosition;
    }
  }

  /** A confident entry whose confidence is the highest in its cell is always mapped. */
  lemma HighestConfidenceIsMapped(l: seq<MappedDetection>, i: nat)
    requires i < |l| && l[i].IsConfident()
    requires forall k :: 0 <= k < |l| && l[k].matrixPosition == l[i].matrixPosition ==> l[k].confidence <= l[i].confidence
    ensures Mappable(l, i)
  {
  }

  /** Two confident entries sharing a cell with equal confidence are both mapped. */
  lemma EqualConfidenceMapsBoth(l: seq<MappedDetection>, i: nat, j: nat)
    requires i < |l| && j < |l| && i != j
    requires l[i].IsConfident() && l[i].matrixPosition == l[j].matrixPosition && l[i].confidence == l[j].confidence
    requires forall k :: 0 <= k < |l| && k != i && k != j ==> l[k].matrixPosition != l[i].matrixPosition
    ensures Mappable(l, i) && Mappable(l, j)
  {
    var ci := FirstConflict(l, i, |l|);
    var cj := FirstConflict(l, j, |l|);
    assert l[j].matrixPosition == l[i].matrixPosition;
    assert ci.Some? && ci.value == j;
    assert cj.Some? && cj.value == i;
  }

  /** The space-to-cells map emitted for the first n entries, appended in list order. */
  function MapMapped(l: seq<MappedDetection>, n: nat): (r: map<Space, seq<Coords>>)
    requires n <= |l|
    ensures forall s :: s in r ==> r[s] != []
    ensures forall i :: 0 <= i < n && Mappable(l, i) ==> l[i].space in r && l[i].matrixPosition in r[l[i].space]
    ensures forall s, c :: s in r && c in r[s] ==>
      exists i :: 0 <= i < n && Mappable(l, i) && l[i].space == s && l[i].matrixPosition == c
  {
    if n == 0 then map[]
    else
      var prev := MapMapped(l, n - 1);
      var m := l[n - 1];
      if Mappable(l, n - 1) then
        prev[m.space := (if m.space in prev then prev[m.space] else []) + [m.matrixPosition]]
      else prev
  }

  /** A tracked detection's confidence stays within [lo, MaxConfidence] through a match. */
  lemma MatchKeepsBounds(l: seq<MappedDetection>, p: PotentialDetection, lo: int)
    requires lo <= 0
    requires forall k :: 0 <= k < |l| ==> lo <= l[k].confidence <= MaxConfidence
    ensures forall k :: 0 <= k < |l| ==> lo <= MatchAll(l, p).entries[k].confidence <= MaxConfidence
    ensures forall k :: 0 <= k < |l| ==> MatchAll(l, p).entries[k].space == l[k].space
  {
    MatchAllMeaning(l, p);
  }

  /**
   * A round of matching keeps every confidence in [0, MaxConfidence] and never lowers the
   * confidence of an entry that was already tracked.
   */
  lemma {:induction false} UpdateMappedBounds(l: seq<MappedDetection>, ps: seq<PotentialDetection>)
    requires forall k :: 0 <= k < |l| ==> 0 <= l[k].confidence <= MaxConfidence
    ensures forall k :: 0 <= k < |UpdateMapped(l, ps).entries| ==> 0 <= UpdateMapped(l, ps).entries[k].confidence <= MaxConfidence
    ensures forall k :: 0 <= k < |l| ==>
      UpdateMapped(l, ps).entries[k].space == l[k].space && l[k].confidence <= UpdateMapped(l, ps).entries[k].confidence
    decreases |ps|
  {
    if ps != [] {
      var prev := UpdateMapped(l, ps[..|ps| - 1]);
      UpdateMappedBounds(l, ps[..|ps| - 1]);
      var p := ps[|ps| - 1];
      MatchKeepsBounds(prev.entries, p, 0);
      MatchAllMeaning(prev.entries, p);
      var r := UpdateMapped(l, ps);
      forall k | 0 <= k < |l|
        ensures r.entries[k].space == l[k].space && l[k].confidence <= r.entries[k].confidence
      {
        assert r.entries[k] == MatchAll(prev.entries, p).entries[k];
      }
    }
  }

  /** After a full update every tracked detection's confidence lies in [0, MaxConfidence]. */
  lemma UpdateConfidenceInBounds(l: seq<MappedDetection>, ps: seq<PotentialDetection>)
    requires forall k :: 0 <= k < |l| ==> l[k].confidence <= MaxConfidence
    ensures forall m :: m in UpdateMapped(WithoutCondemned(l), ps).entries ==> 0 <= m.confidence <= MaxConfidence
  {
    var purged := WithoutCondemned(l);
    WithoutCondemnedMeaning(l);
    forall k | 0 <= k < |purged|
      ensures 0 <= purged[k].confidence <= MaxConfidence
    {
      assert purged[k] in purged;
    }
    UpdateMappedBounds(purged, ps);
  }

  /** Matching against a one-entry list. */
  lemma MatchOne(m: MappedDetection, p: PotentialDetection)
    ensures MatchAll([m], p) == MatchResult([UpdateIfClose(m, p).entry], OptionToSeq(UpdateIfClose(m, p).removed), UpdateIfClose(m, p).matched)
  {
    assert [m][..0] == [];
  }

  /** A round of one potential: match it, then append it when unused. */
  lemma RoundOfOne(l: seq<MappedDetection>, p: PotentialDetection)
    ensures UpdateMapped(l, [p]) == Round(MatchAll(l, p).entries + (if p.potentialUsed || MatchAll(l, p).matched then [] else [NewMapped(p)]),
                                          MatchAll(l, p).removed)
  {
    assert [p][..0] == [];
  }

  /**
   * Two unused potentials of the same space in one round, the second within range of the first:
   * the second matches the detection appended for the first, leaving one entry with confidence 1.
   */
  lemma NearbyPotentialsMerge(p1: PotentialDetection, p2: PotentialDetection)
    requires !p1.potentialUsed && !p2.potentialUsed && p1.space == p2.space
    requires NewMapped(p1).WithinProximityRange(p2.fieldPosition)
    ensures UpdateMapped([], [p1, p2]).entries == [MappedDetection(p1.space, p2.fieldPosition, p2.matrixPosition, 1)]
    ensures UpdateMapped([], [p1, p2]).removed == if p1.matrixPosition != p2.matrixPosition then [p1.matrixPosition] else []
  {
    var m1 := NewMapped(p1);
    assert [p1, p2][..1] == [p1];
    RoundOfOne([], p1);
    assert UpdateMapped([], [p1]) == Round([m1], []);
    MatchOne(m1, p2);
    assert UpdateIfClose(m1, p2).matched;
  }

  /** One whole update, as a value: the purge, the round of matching, then the emitted map. */
  function UpdateEntries(l: seq<MappedDetection>, ps: seq<PotentialDetection>): seq<MappedDetection> {
    UpdateMapped(WithoutCondemned(l), ps).entries
  }

  lemma WithoutCondemnedOne(m: MappedDetection)
    ensures WithoutCondemned([m]) == if m.IsUnderConfident() then [] else [m]
  {
    assert [m][..0] == [];
  }

  /** The list after n updates, each with the single potential p, from an empty list. */
  function Sightings(p: PotentialDetection, n: nat): seq<MappedDetection> {
    if n == 0 then [] else UpdateEntries(Sightings(p, n - 1), [p])
  }

  /** After n >= 1 sightings of the same unused potential there is one entry, with confidence n - 1 (capped). */
  lemma {:induction false} SightingsCount(p: PotentialDetection, n: nat)
    requires !p.potentialUsed && n >= 1
    ensures Sightings(p, n) == [NewMapped(p).(confidence := Min(n - 1, MaxConfidence))]
  {
    if n == 1 {
      assert WithoutCondemned([]) == [];
      RoundOfOne([], p);
      assert Sightings(p, 1) == UpdateMapped([], [p]).entries;
    } else {
      SightingsCount(p, n - 1);
      OneMoreSighting(p, n - 2);
    }
  }

  /** A tracked detection of p seen again as p gains one confidence, up to the cap. */
  lemma OneMoreSighting(p: PotentialDetection, k: nat)
    requires !p.potentialUsed
    ensures UpdateEntries([NewMapped(p).(confidence := Min(k, MaxConfidence))], [p]) ==
            [NewMapped(p).(confidence := Min(k + 1, MaxConfidence))]
  {
    var m := NewMapped(p).(confidence := Min(k, MaxConfidence));
    var e := NewMapped(p).(confidence := Min(k + 1, MaxConfidence));
    assert m.WithinProximityRange(p.fieldPosition);
    assert UpdateIfClose(m, p) == CloseResult(e, None, true);
    MatchOne(m, p);
    assert MatchAll([m], p) == MatchResult([e], [], true);
    RoundOfOne([m], p);
    assert UpdateMapped([m], [p]) == Round([e], []);
    WithoutCondemnedOne(m);
  }

  /** A detection seen in every update is first mapped at the sixth update, and never before. */
  lemma ConfidentAtSixthSighting(p: PotentialDetection, n: nat)
    requires !p.potentialUsed && n >= 1
    ensures |Sightings(p, n)| == 1
    ensures Mappable(Sightings(p, n), 0) <==> n >= 6
  {
    SightingsCount(p, n);
    MappableMeaning(Sightings(p, n), 0);
  }

  /**
   * On every update, whatever the list and the round of potentials, each detection that
   * is not confident has its cell among the removed cells, and each one whose confidence
   * has dropped below zero is purged before matching.
   */
  lemma UnconfidentReportedEachUpdate(l: seq<MappedDetection>, ps: seq<PotentialDetection>)
    ensures forall k :: 0 <= k < |l| && !l[k].IsConfident() ==>
      l[k].matrixPosition in UpdateMapped(WithoutCondemned(l), ps).removed + NotConfidentPositions(l)
    ensures forall k :: 0 <= k < |l| && l[k].IsUnderConfident() ==> l[k] !in WithoutCondemned(l)
  {
    NotConfidentPositionsMeaning(l);
    WithoutCondemnedMeaning(l);
  }

  /** The tracked detections, owned by the mapper. */
  class DetectionMapper {
    var mappedList: seq<MappedDetection>

    /** Every confidence is at most MaxConfidence. */
    ghost predicate Valid()
      reads this
    {
      forall k :: 0 <= k < |mappedList| ==> mappedList[k].confidence <= MaxConfidence
    }

    constructor ()
      ensures Valid() && mappedList == []
    {
      mappedList := [];
    }

    /**
     * Purge, match the round of potentials, then emit the map: the removed cells are the ones
     * replaced during matching followed by the ones of the detections that were not confident.
     */
    method Update(potentialList: seq<PotentialDetection>) returns (removedList: seq<Coords>, coordMap: map<Space, seq<Coords>>)
      requires Valid()
      modifies this
      ensures Valid()
      ensures mappedList == UpdateEntries(old(mappedList), potentialList)
      ensures removedList == UpdateMapped(WithoutCondemned(old(mappedList)), potentialList).removed + NotConfidentPositions(old(mappedList))
      ensures coordMap == MapMapped(mappedList, |mappedList|)
      ensures forall k :: 0 <= k < |mappedList| ==> 0 <= mappedList[k].confidence
    {
      var underConfidentList := RemoveUnderConfident();
      removedList := UpdateMappedRecognitions(potentialList);
      removedList := removedList + underConfidentList;
      coordMap := MapMappedRecognitions();
      UpdateConfidenceInBounds(old(mappedList), potentialList);
      assert forall k :: 0 <= k < |mappedList| ==> mappedList[k] in mappedList;
    }

    /** Reports the cells of unconfident detections and drops the condemned ones, keeping the order. */
    method RemoveUnderConfident() returns (removedCoords: seq<Coords>)
      modifies this
      ensures mappedList == WithoutCondemned(old(mappedList))
      ensures removedCoords == NotConfidentPositions(old(mappedList))
    {
      removedCoords := [];
      var list := mappedList;
      ghost var original := mappedList;
      ghost var j := 0;
      var i := 0;
      assert original[..0] == [];
      while i < |list|
        invariant 0 <= j <= |original|
        invariant i == |WithoutCondemned(original[..j])|
        invariant list == WithoutCondemned(original[..j]) + original[j..]
        invariant removedCoords == NotConfidentPositions(original[..j])
        decreases |original| - j
      {
        PurgeLoopStep(original, j, list, i);
        PurgeStep(original, j);
        var mappedDetection := list[i];
        if !mappedDetection.IsConfident() {
          removedCoords := removedCoords + [mappedDetection.matrixPosition];
        }
        if !mappedDetection.IsConfident() && mappedDetection.IsUnderConfident() {
          // removal shifts the rest down, so the same index is examined next
          list := list[..i] + list[i + 1..];
        } else {
          i := i + 1;
        }
        j := j + 1;
      }
      assert j == |original| by { assert |list| == i + |original| - j; }
      assert original[..j] == original;
      mappedList := list;
    }

    /** Matches every potential against the whole list in turn, appending the unused ones. */
    method UpdateMappedRecognitions(potentialList: seq<PotentialDetection>) returns (removedPositions: seq<Coords>)
      modifies this
      ensures mappedList == UpdateMapped(old(mappedList), potentialList).entries
      ensures removedPositions == UpdateMapped(old(mappedList), potentialList).removed
    {
      removedPositions := [];
      var n := 0;
      while n < |potentialList|
        invariant 0 <= n <= |potentialList|
        invariant mappedList == UpdateMapped(old(mappedList), potentialList[..n]).entries
        invariant removedPositions == UpdateMapped(old(mappedList), potentialList[..n]).removed
      {
        var potentialDetection := potentialList[n];
        assert potentialList[..n + 1][..n] == potentialList[..n];
        var removedNow, potentialUsed := MatchPotential(potentialDetection);
        removedPositions := removedPositions + removedNow;
        if !potentialUsed {
          mappedList := mappedList + [NewMapped(potentialDetection)];
        }
        n := n + 1;
      }
      assert potentialList[..n] == potentialList;
    }

    /** Compares one potential with every entry, reporting replaced cells and whether any entry matched. */
    method MatchPotential(potentialDetection: PotentialDetection) returns (removedPositions: seq<Coords>, potentialUsed: bool)
      modifies this
      ensures mappedList == MatchAll(old(mappedList), potentialDetection).entries
      ensures removedPositions == MatchAll(old(mappedList), potentialDetection).removed
      ensures potentialUsed == (potentialDetection.potentialUsed || MatchAll(old(mappedList), potentialDetection).matched)
    {
      var list := mappedList;
      ghost var original := mappedList;
      removedPositions := [];
      potentialUsed := potentialDetection.potentialUsed;
      var k := 0;
      assert original[..0] == [];
      while k < |list|
        invariant |list| == |original| && 0 <= k <= |list|
        invariant list == MatchAll(original[..k], potentialDetection).entries + original[k..]
        invariant removedPositions == MatchAll(original[..k], potentialDetection).removed
        invariant potentialUsed == (potentialDetection.potentialUsed || MatchAll(original[..k], potentialDetection).matched)
      {
        MatchLoopStep(original, k, potentialDetection, list);
        MatchAllStep(original, k, potentialDetection);
        var c := UpdateIfClose(list[k], potentialDetection);
        if c.removed.Some? {
          removedPositions := removedPositions + [c.removed.value];
        }
        if c.matched {
          potentialUsed := true;
        }
        list := list[k := c.entry];
        k := k + 1;
      }
      assert original[..k] == original;
      assert list == MatchAll(original, potentialDetection).entries;
      mappedList := list;
    }

    /** Whether entry i is mapped: confident, and not beaten by the first entry sharing its cell. */
    method ShouldMap(i: nat) returns (r: bool)
      requires i < |mappedList|
      ensures r == Mappable(mappedList, i)
    {
      var mappedDetection := mappedList[i];
      if !mappedDetection.IsConfident() {
        return false;
      }
      var k := 0;
      while k < |mappedList|
        invariant 0 <= k <= |mappedList|
        invariant FirstConflict(mappedList, i, k).None?
      {
        var otherDetection := mappedList[k];
        if k != i && mappedDetection.matrixPosition == otherDetection.matrixPosition {
          return mappedDetection.confidence >= otherDetection.confidence;
        }
        k := k + 1;
      }
      return true;
    }

    /** The space-to-cells map of the mapped entries, in list order. */
    method MapMappedRecognitions() returns (coordMap: map<Space, seq<Coords>>)
      ensures coordMap == MapMapped(mappedList, |mappedList|)
    {
      coordMap := map[];
      var i := 0;
      while i < |mappedList|
        invariant 0 <= i <= |mappedList|
        invariant coordMap == MapMapped(mappedList, i)
      {
        var mapIt := ShouldMap(i);
        if mapIt {
          var space := mappedList[i].space;
          var existing := if space in coordMap then coordMap[space] else [];
          coordMap := coordMap[space := existing + [mappedList[i].matrixPosition]];
        }
        i := i + 1;
      }
    }

    /** Lowers by one the confidence of exactly the entries the predicate reports as gone. */
    method MarkDisappearances(isDetectionGone: GLPosition -> bool)
      requires Valid()
      modifies this
      ensures Valid()
      ensures |mappedList| == |old(mappedList)|
      ensures forall k :: 0 <= k < |mappedList| ==>
        mappedList[k] == old(mappedList)[k].(confidence := old(mappedList)[k].confidence - (if isDetectionGone(old(mappedList)[k].fieldPosition) then 1 else 0))
    {
      var i := 0;
      while i < |mappedList|
        invariant 0 <= i <= |mappedList| == |old(mappedList)|
        invariant forall k :: 0 <= k < i ==>
          mappedList[k] == old(mappedList)[k].(confidence := old(mappedList)[k].confidence - (if isDetectionGone(old(mappedList)[k].fieldPosition) then 1 else 0))
        invariant forall k :: i <= k < |mappedList| ==> mappedList[k] == old(mappedList)[k]
      {
        var mappedDetection := mappedList[i];
        if isDetectionGone(mappedDetection.fieldPosition) {
          mappedList := mappedList[i := mappedDetection.(confidence := mappedDetection.confidence - 1)];
        }
        i := i + 1;
      }
    }
  }
}
