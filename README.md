# FTC 6069 localization and control core, modelled in Dafny

This project models the localization core of the FTC team 6069 robot code for the 2021-2022
season, together with two small control-side state machines:

- **SpaceMap** (`space_map.dfy`, module `SpaceMaps`): the occupancy grid. It is a
  `height x width` array of `Space` values. Each kind of space is passable or not, and static or
  not. The model covers the two clamping policies (to the grid's bounds and to its range), the
  border walls and grid diffing. It covers every overload of the writes that protect static
  cells: `setSpace`, `addSpace` and `clearSpace`. It also covers the category scan `getSpace(Space)`,
  the cell read `getSpace(coords)` and the single-robot-cell update. The grid is an `array2`,
  mutated in place by methods with frame conditions.
- **CoordinateUtils** (`coordinate_utils.dfy`): how static fills given as poses and as integer
  pairs are merged, with null arguments treated as empty. A pose (`OpenGLMatrix`) is reduced to
  its translation's x and y. `Math.round` is "floor of v + 0.5".
- **FieldMap** (`field_map.dfy`, module `FieldMaps`): the field model. It sizes the grid from
  the field's size in millimetres at 75 mm per cell (`Scale`, which `getScale` returns), sets the
  walls and writes the static fills. It places the robot and converts field to matrix
  coordinates with Java's truncating division.
- **DetectionMapper** (`detection_mapper.dfy`, module `DetectionMappers`): detection fusion. A
  list of tracked detections, each with a confidence, is purged, matched against a round of
  potential detections (a per-axis box test of 75 mm plus equal space) and emitted onto the map
  once confident. Same-cell conflicts are resolved by confidence.
- **GamepadController** (`gamepad_controller.dfy`, module `Gamepads`): the four-state
  edge detector per gamepad button.
- **AutoQueue** (`auto_queue.dfy`, module `AutoQueues`): a FIFO of abstract autonomous actions
  plus the action currently running.

Each class whose fields the source updates in place is a Dafny `class`. This covers
`SpaceMap`, `FieldMap`, `DetectionMapper`, `GamepadController` and `AutoQueue`. The Java
`MappedDetection` objects are private to the mapper and never shared, so they are values in
the mapper's sequence, and Java object identity in `shouldMap` is the list index. Pure
computations are functions, and properties that relate several calls are lemmas.

Some behaviours of the code are easy to misread, and the model states them as the code has them:

- A detection seen in every update gets confidence 0 on the first update. It becomes confident
  (confidence 5 against the threshold `> 4`) and is mapped on the sixth update, not after five
  sightings (`DetectionMappers.ConfidentAtSixthSighting`).
- A detection that is not confident has its cell reported as removed on every update while it
  stays unconfident, not only once (`DetectionMappers.UnconfidentReportedEachUpdate`, for any
  list and round of potentials, matching what `DetectionMappers.DetectionMapper.Update` reports).

Where the code and its documentation disagree, the model follows the code:

- The comment at DetectionMapper.java:146-147 says that of two detections with equal
  confidence in one cell, the one checked last is mapped. `shouldMap` compares with `>=`, so
  both are mapped (`DetectionMappers.EqualConfidenceMapsBoth`).

## Model

| member | source | states |
|---|---|---|
| SpaceMaps.AllSpacesComplete | TeamCode/src/main/java/localization/SpaceMap.java:454-486 | the enumeration's value list names every kind of space |
| SpaceMaps.Median | TeamCode/src/main/java/localization/SpaceMap.java:141-147 | the max-of-min clamp returns v when v lies between the two bounds, and the nearer bound otherwise, whichever order the bounds come in |
| SpaceMaps.SetCell | TeamCode/src/main/java/localization/SpaceMap.java:233-238 | a single-cell write takes effect iff allowStatic is set or neither the old nor the new space is static; otherwise the cell keeps its old space |
| SpaceMaps.AddCell | TeamCode/src/main/java/localization/SpaceMap.java:282-288 | an add changes a cell only if it was CLEAR; a CLEAR cell takes the new space when permitted or when the space is not static, and stays CLEAR for a static space without permission |
| SpaceMaps.MapSetKeepsStatic | TeamCode/src/main/java/localization/SpaceMap.java:263-273 | without permission, the map overload of setSpace never changes a static cell, whatever the map lists |
| SpaceMaps.MapSetWritesNoStatic | TeamCode/src/main/java/localization/SpaceMap.java:263-273 | without permission, the map overload of setSpace never puts a static space into a non-static cell |
| SpaceMaps.MapAddOnlyClear | TeamCode/src/main/java/localization/SpaceMap.java:311-317 | the map overload of addSpace leaves every non-CLEAR cell unchanged |
| SpaceMaps.MapUnlistedUnchanged | TeamCode/src/main/java/localization/SpaceMap.java:263-317 | a cell that no key of the map lists is left alone by both map overloads |
| SpaceMaps.MapSetAsWrittenDropsPermittedWrites | TeamCode/src/main/java/localization/SpaceMap.java:263-273 | through the map overload as written, a permitted WALL for a CLEAR cell is dropped; with permission passed on it is written |
| SpaceMaps.SetSpaceListAsWrittenDropsPermittedWrites | TeamCode/src/main/java/localization/SpaceMap.java:247-255 | a write of WALL onto a CLEAR cell, and of CLEAR onto a WALL cell, happens with permission and is dropped without it |
| SpaceMaps.SpaceMap.constructor | TeamCode/src/main/java/localization/SpaceMap.java:41-51 | a new map has the given size, every cell CLEAR, range [0, height-1] |
| SpaceMaps.SpaceMap.Ranged | TeamCode/src/main/java/localization/SpaceMap.java:59-72 | the ranged constructor stores max(0, minRange) and min(height-1, maxRange), every cell CLEAR |
| SpaceMaps.SpaceMap.Copy | TeamCode/src/main/java/localization/SpaceMap.java:79-85 | the copy has the same size, range and cells as the original, in a freshly allocated grid |
| SpaceMaps.SpaceMap.DeepCopy | TeamCode/src/main/java/localization/SpaceMap.java:126-132 | the copied grid is fresh, has the same dimensions and is equal cell by cell |
| SpaceMaps.SpaceMap.GetDifferences | TeamCode/src/main/java/localization/SpaceMap.java:101-118 | a cell is in the result iff it is in bounds and the two maps differ there (with requireStateChange, also in passability); the result is in row-major order |
| SpaceMaps.SpaceMap.RoundToBounds | TeamCode/src/main/java/localization/SpaceMap.java:141-147 | the result is inside the grid, an in-bounds input is returned unchanged, and null gives (0,0) |
| SpaceMaps.SpaceMap.RoundToRange | TeamCode/src/main/java/localization/SpaceMap.java:157-163 | both coordinates land in [minRange, maxRange], an in-range input is unchanged, and the result is in bounds when the range fits the grid |
| SpaceMaps.SpaceMap.RoundingIdempotent | TeamCode/src/main/java/localization/SpaceMap.java:141-163 | both rounding policies are idempotent, and null rounds like (0,0) |
| SpaceMaps.SpaceMap.ApplyToSpaceMap | TeamCode/src/main/java/localization/SpaceMap.java:174-184 | every cell is replaced by the per-cell update applied to its coordinates and its previous value |
| SpaceMaps.SpaceMap.FillRow | TeamCode/src/main/java/localization/SpaceMap.java:216-217 | one row becomes the given space; no other row changes |
| SpaceMaps.SpaceMap.SetWalls | TeamCode/src/main/java/localization/SpaceMap.java:214-223 | every cell of row 0, row height-1, column 0 and column width-1 is WALL, and no other cell changes |
| SpaceMaps.SpaceMap.SetSpace | TeamCode/src/main/java/localization/SpaceMap.java:233-238 | only the target cell can change, and it follows the static rule |
| SpaceMaps.SpaceMap.SetSpaceListAsWritten | TeamCode/src/main/java/localization/SpaceMap.java:247-255 | as the code is written, each listed cell is written as a single-cell write without permission, whatever allowStatic says; unlisted cells are unchanged |
| SpaceMaps.SpaceMap.SetSpaceList | TeamCode/src/main/java/localization/SpaceMap.java:247-255 | each listed cell is written under the static rule with the caller's allowStatic; unlisted cells are unchanged |
| SpaceMaps.SpaceMap.SetSpaceMapAsWritten | TeamCode/src/main/java/localization/SpaceMap.java:263-273 | as the code is written, each cell ends as the key-by-key writes without permission leave it, whatever allowStatic says: no static space is written and no static cell changes |
| SpaceMaps.SpaceMap.SetSpaceMap | TeamCode/src/main/java/localization/SpaceMap.java:263-273 | each cell ends as the key-by-key sequence of permitted writes leaves it; static keys are skipped without permission |
| SpaceMaps.SpaceMap.AddSpace | TeamCode/src/main/java/localization/SpaceMap.java:282-288 | only the target cell can change, and only if it was CLEAR |
| SpaceMaps.SpaceMap.AddSpaceList | TeamCode/src/main/java/localization/SpaceMap.java:297-303 | every listed cell that was CLEAR takes the new space under the static rule; all other cells are unchanged |
| SpaceMaps.SpaceMap.AddSpaceMap | TeamCode/src/main/java/localization/SpaceMap.java:311-317 | each cell ends as the key-by-key sequence of adds leaves it |
| SpaceMaps.SpaceMap.ClearSpaceListAsWritten | TeamCode/src/main/java/localization/SpaceMap.java:325-328 | as the code is written, a listed cell becomes CLEAR iff it is not static, whatever allowStatic says; all others are unchanged |
| SpaceMaps.SpaceMap.ClearSpaceList | TeamCode/src/main/java/localization/SpaceMap.java:325-328 | a listed cell becomes CLEAR iff permission is given or it is not static; all others are unchanged |
| SpaceMaps.SpaceMap.ClearAllSpaces | TeamCode/src/main/java/localization/SpaceMap.java:336-348 | every non-static cell becomes CLEAR, and with permission every cell does |
| SpaceMaps.SpaceMap.ClearSpace | TeamCode/src/main/java/localization/SpaceMap.java:357-372 | exactly the cells holding the space become CLEAR; a static space without permission is a no-op |
| SpaceMaps.SpaceMap.CoordsOf | TeamCode/src/main/java/localization/SpaceMap.java:380-391 | a cell is listed iff it holds the space, in row-major order |
| SpaceMaps.SpaceMap.SetRobotPosition | TeamCode/src/main/java/localization/SpaceMap.java:409-412 | afterwards exactly one cell is ROBOT, the given one; old robot cells become CLEAR and nothing else changes |
| SpaceMaps.SpaceMap.GetRobotPosition | TeamCode/src/main/java/localization/SpaceMap.java:420-426 | null iff no cell is ROBOT; otherwise the first ROBOT cell in row-major order |
| CoordinateUtils.Round | TeamCode/src/main/java/localization/CoordinateUtils.java:137-138 | the result is within half a unit of the input, with ties rounded up |
| CoordinateUtils.ConvertGLtoInt | TeamCode/src/main/java/localization/CoordinateUtils.java:133-141 | each axis of the pose's translation is rounded to the closest integer |
| CoordinateUtils.ConvertGLtoIntList | TeamCode/src/main/java/localization/CoordinateUtils.java:116-123 | the list keeps its length and order, with each pose converted |
| CoordinateUtils.JoinCoordinateArrayLists | TeamCode/src/main/java/localization/CoordinateUtils.java:88-102 | the converted poses come first, then the integer pairs; null counts as empty, so the length is the sum |
| CoordinateUtils.DeepCopyCoordsInt | TeamCode/src/main/java/localization/CoordinateUtils.java:157-176 | null gives an empty table; otherwise the copy has the same keys and equal lists |
| CoordinateUtils.JoinedAtSplit | TeamCode/src/main/java/localization/CoordinateUtils.java:60-74 | the list joined for each space is its converted poses followed by its integer pairs, with a missing list counted as empty |
| CoordinateUtils.JoinCoordinateHashtables | TeamCode/src/main/java/localization/CoordinateUtils.java:45-77 | a space is a key iff the integer table had it or its join is non-empty; each value is the converted poses followed by the integer pairs |
| CoordinateUtils.JoinNullGLIsEmpty | TeamCode/src/main/java/localization/CoordinateUtils.java:50 | a null pose table joins like an empty one |
| CoordinateUtils.JoinedLength | TeamCode/src/main/java/localization/CoordinateUtils.java:69-74 | every joined list is as long as its two sources together |
| FieldMaps.ScaleDiv | TeamCode/src/main/java/localization/FieldMap.java:281-282 | Java's division by 75 truncates toward zero: the quotient times 75 lies within 75 of the dividend, on the zero side |
| FieldMaps.LastWriteUntouched | TeamCode/src/main/java/localization/FieldMap.java:202-213 | a cell no static fill targets keeps its value; a targeted cell holds the space of one of the fills aimed at it |
| FieldMaps.FieldMap.constructor | TeamCode/src/main/java/localization/FieldMap.java:145-157 | the grid is fieldSizeMM/75 square, the transform is fieldSizeMM/2 and the range is [1, fieldSize-2]; each cell is a wall on the border, otherwise CLEAR, overwritten by the last static fill aimed at it |
| FieldMaps.FieldMap.FieldToMatrix | TeamCode/src/main/java/localization/FieldMap.java:279-290 | with bounds rounding, or on a grid of at least 2 cells per side, the result is a valid index; with range rounding it is inside the walls once the grid is at least 3 cells wide |
| FieldMaps.FieldMap.FieldToMatrixGL | TeamCode/src/main/java/localization/FieldMap.java:298-300 | a pose lands on a valid index once the grid is at least 2 cells wide, inside the border walls once it is at least 3 wide, and in [-1, 1] on a 1-cell grid |
| FieldMaps.FieldMap.OneCellGridInBounds | TeamCode/src/main/java/localization/FieldMap.java:279-290 | on a 1-cell grid, a range-rounded cell is in the grid iff both truncated raw indices are 0 |
| FieldMaps.FieldMap.MatrixFieldRoundTrip | TeamCode/src/main/java/localization/FieldMap.java:279-325 | converting a cell to field coordinates and back returns the same cell |
| FieldMaps.FieldMap.QuantisationBound | TeamCode/src/main/java/localization/FieldMap.java:310-325 | a field coordinate whose cell lies in the grid comes back from matrix coordinates within 75 mm; when that cell also lies in the range [1, fieldSize - 2], rounding to the range gives the same cell |
| FieldMaps.FieldMap.FillsMayLandOnWalls | TeamCode/src/main/java/localization/FieldMap.java:202-213 | rounding to bounds puts a fill at the field's corner onto the wall cell (0,0) |
| FieldMaps.FieldMap.SpaceFillWrites | TeamCode/src/main/java/localization/FieldMap.java:204-212 | one write per listed pair, in list order, each at the pair rounded to bounds |
| FieldMaps.FieldMap.StaticFillsInBounds | TeamCode/src/main/java/localization/FieldMap.java:207-211 | every static fill lands inside the grid |
| FieldMaps.FieldMap.WriteSpaceFills | TeamCode/src/main/java/localization/FieldMap.java:204-212 | each cell holds the space of the last write of the list aimed at it, or its old value |
| FieldMaps.FieldMap.InitializeStaticFills | TeamCode/src/main/java/localization/FieldMap.java:192-216 | each cell holds the space of the last joined fill aimed at it, or its old value |
| FieldMaps.FieldMap.WriteStaticFills | TeamCode/src/main/java/localization/FieldMap.java:202-213 | each cell holds the space of the last fill of the table, key by key in declaration order, aimed at it, or its old value |
| FieldMaps.FieldMap.SetRobotPosition | TeamCode/src/main/java/localization/FieldMap.java:255-259 | the pose is recorded; exactly one ROBOT cell remains, at the pose's range-rounded cell; old ROBOT cells become CLEAR and nothing else changes |
| FieldMaps.FieldMap.Update | TeamCode/src/main/java/localization/FieldMap.java:228-233 | a null pose changes nothing; otherwise the pose is recorded, exactly one ROBOT cell remains, at the pose's cell, old ROBOT cells become CLEAR and nothing else changes |
| DetectionMappers.MappedDetection.IncreaseConfidence | TeamCode/src/main/java/localization/DetectionMapper.java:263 | confidence goes up by one but never past 10 |
| DetectionMappers.MappedDetection.UpdateWithPotential | TeamCode/src/main/java/localization/DetectionMapper.java:244-254 | the field position is always overwritten; the old cell is returned, and replaced, iff the new cell differs |
| DetectionMappers.NewMapped | TeamCode/src/main/java/localization/DetectionMapper.java:201-219 | a new tracked detection takes the potential's space and positions, with confidence 0 |
| DetectionMappers.UpdateIfClose | TeamCode/src/main/java/localization/DetectionMapper.java:107-118 | a match happens iff both axes are within 75 mm and the spaces are equal; a match adds a capped confirmation and moves the entry, and otherwise nothing changes |
| DetectionMappers.MatchAllMeaning | TeamCode/src/main/java/localization/DetectionMapper.java:88-93 | every tracked entry is compared with the potential, each entry becoming its own comparison's result; the potential is used iff some entry matched |
| DetectionMappers.UpdateMapped | TeamCode/src/main/java/localization/DetectionMapper.java:84-99 | matching never drops an entry and appends at most one per potential |
| DetectionMappers.UpdateMappedGrowth | TeamCode/src/main/java/localization/DetectionMapper.java:84-99 | a round grows the list by exactly the unused potentials (neither flagged used nor matched by the list as the earlier potentials left it); tracked entries keep their places and spaces, and the appended entries follow in potential order with their potentials' spaces |
| DetectionMappers.WithoutCondemnedMeaning | TeamCode/src/main/java/localization/DetectionMapper.java:58-71 | the purge keeps exactly the entries with non-negative confidence |
| DetectionMappers.NotConfidentPositionsMeaning | TeamCode/src/main/java/localization/DetectionMapper.java:58-71 | the cell of every entry that is not confident is reported, and nothing else is |
| DetectionMappers.FirstConflict | TeamCode/src/main/java/localization/DetectionMapper.java:154-161 | finds the first other entry in list order that shares the cell, or reports that none does |
| DetectionMappers.MappableMeaning | TeamCode/src/main/java/localization/DetectionMapper.java:149-163 | only confident entries are mapped, and a confident entry alone in its cell always is |
| DetectionMappers.HighestConfidenceIsMapped | TeamCode/src/main/java/localization/DetectionMapper.java:149-163 | a confident entry with the highest confidence in its cell is always mapped |
| DetectionMappers.EqualConfidenceMapsBoth | TeamCode/src/main/java/localization/DetectionMapper.java:140-163 | two confident entries alone in one cell with equal confidence are both mapped |
| DetectionMappers.MapMapped | TeamCode/src/main/java/localization/DetectionMapper.java:125-138 | a cell is listed under a space iff some mapped entry of that space has that cell, and no key has an empty list |
| DetectionMappers.MatchKeepsBounds | TeamCode/src/main/java/localization/DetectionMapper.java:107-118 | matching keeps each entry's space and keeps its confidence within the cap |
| DetectionMappers.UpdateMappedBounds | TeamCode/src/main/java/localization/DetectionMapper.java:84-99 | a round keeps every confidence in [0, 10], and no tracked entry loses confidence or changes space |
| DetectionMappers.UpdateConfidenceInBounds | TeamCode/src/main/java/localization/DetectionMapper.java:44-50 | after a whole update every confidence lies in [0, 10] |
| DetectionMappers.NearbyPotentialsMerge | TeamCode/src/main/java/localization/DetectionMapper.java:84-99 | a second nearby potential of the same space in one round matches the entry made for the first, leaving one entry with confidence 1 |
| DetectionMappers.SightingsCount | TeamCode/src/main/java/localization/DetectionMapper.java:44-50 | after n sightings of the same detection there is one entry, with confidence n-1 capped at 10 |
| DetectionMappers.OneMoreSighting | TeamCode/src/main/java/localization/DetectionMapper.java:44-50 | a tracked detection seen again at its own position gains exactly one confidence, up to the cap of 10 |
| DetectionMappers.ConfidentAtSixthSighting | TeamCode/src/main/java/localization/DetectionMapper.java:44-50 | a detection seen in every update is mapped from the sixth update on, and never before |
| DetectionMappers.UnconfidentReportedEachUpdate | TeamCode/src/main/java/localization/DetectionMapper.java:44-71 | for any list and any round of potentials, every unconfident entry's cell is among the cells the update reports removed, and every entry with negative confidence is purged |
| DetectionMappers.DetectionMapper.constructor | TeamCode/src/main/java/localization/DetectionMapper.java:31-33 | the mapper starts with no tracked detections |
| DetectionMappers.DetectionMapper.Update | TeamCode/src/main/java/localization/DetectionMapper.java:44-50 | purge, then match, then emit; the removed list is the matching removals followed by the unconfident cells; all confidences end in [0, 10] |
| DetectionMappers.DetectionMapper.RemoveUnderConfident | TeamCode/src/main/java/localization/DetectionMapper.java:58-71 | the list loses exactly its condemned entries, in order, and the unconfident cells are returned |
| DetectionMappers.DetectionMapper.UpdateMappedRecognitions | TeamCode/src/main/java/localization/DetectionMapper.java:84-99 | the list and removed cells are those of a round in which each potential sees the entries added for earlier ones |
| DetectionMappers.DetectionMapper.MatchPotential | TeamCode/src/main/java/localization/DetectionMapper.java:88-93 | one potential is compared with every entry; the replaced cells and the used flag are returned |
| DetectionMappers.DetectionMapper.ShouldMap | TeamCode/src/main/java/localization/DetectionMapper.java:149-163 | false when not confident; true with no other entry in the cell; otherwise the confidence is compared with the first conflicting entry using >= |
| DetectionMappers.DetectionMapper.MapMappedRecognitions | TeamCode/src/main/java/localization/DetectionMapper.java:125-138 | the emitted map lists the cells of the mapped entries, grouped by space in list order |
| DetectionMappers.DetectionMapper.MarkDisappearances | TeamCode/src/main/java/localization/DetectionMapper.java:169-179 | exactly the entries the predicate reports gone lose one confidence, with no lower bound; the length, positions and spaces are unchanged |
| Gamepads.ToggleButtonListIndexed | TeamCode/src/main/java/teamcode/GamepadController.java:14 | the button list holds every toggle button exactly once: position in the list and button are inverse |
| Gamepads.ToggleButtonsListed | TeamCode/src/main/java/teamcode/GamepadController.java:14 | every toggle button occurs in the list the update loops visit |
| Gamepads.InactivePrefixAt | TeamCode/src/main/java/teamcode/GamepadController.java:47-49 | once the loop has reset the first n buttons of the list, each of them is KEY_INACTIVE |
| Gamepads.StepPrefixAt | TeamCode/src/main/java/teamcode/GamepadController.java:67-105 | stepping the buttons one at a time in list order gives each visited button its own transition from its own old state and leaves the rest alone |
| Gamepads.NextState | TeamCode/src/main/java/teamcode/GamepadController.java:67-105 | the state is DOWN or HOLD iff pressed; DOWN only on a press after a released state, UP only on a release after a pressed state |
| Gamepads.HeldStaysHeld | TeamCode/src/main/java/teamcode/GamepadController.java:84-95 | a button that stays pressed after DOWN or HOLD reports HOLD each time and never DOWN |
| Gamepads.HeldButtonReportsDownOnce | TeamCode/src/main/java/teamcode/GamepadController.java:78-95 | a button held from a released state reports DOWN exactly once, on the first update |
| Gamepads.ReleasedButtonReportsUpOnce | TeamCode/src/main/java/teamcode/GamepadController.java:84-102 | a button released after DOWN or HOLD reports UP once, then INACTIVE |
| Gamepads.IdleStaysInactive | TeamCode/src/main/java/teamcode/GamepadController.java:79-102 | a released button after UP or INACTIVE stays INACTIVE |
| Gamepads.GamepadController.constructor | TeamCode/src/main/java/teamcode/GamepadController.java:30-38 | every button starts one transition away from INACTIVE, driven by its current value |
| Gamepads.GamepadController.InitializeGamepadStates | TeamCode/src/main/java/teamcode/GamepadController.java:43-53 | every button is set to INACTIVE and then advanced once with the current reading |
| Gamepads.GamepadController.UpdateButtonStates | TeamCode/src/main/java/teamcode/GamepadController.java:59-62 | the values are re-read, then every button advances once from its own old state and its own value |
| Gamepads.GamepadController.UpdateToggleButtonStates | TeamCode/src/main/java/teamcode/GamepadController.java:67-105 | every button advances once from its own state and its own value, independently of the others |
| Gamepads.GamepadController.UpdateToggleButtonState | TeamCode/src/main/java/teamcode/GamepadController.java:77-103 | one button's state follows the transition table; no other button changes |
| Gamepads.GamepadController.UpdateButtonValues | TeamCode/src/main/java/teamcode/GamepadController.java:118-139 | every toggle button's value is read from the gamepad; a trigger counts as pressed iff its value is > 0 |
| AutoQueues.AutoQueue.constructor | TeamCode/src/main/java/mechanisms/AutoQueue.java:16-18 | the queue starts empty, with no current action |
| AutoQueues.AutoQueue.AddAutoAction | TeamCode/src/main/java/mechanisms/AutoQueue.java:24-29 | the action goes to the tail; with no current action it is taken off at once and begun |
| AutoQueues.AutoQueue.UpdateQueue | TeamCode/src/main/java/mechanisms/AutoQueue.java:35-44 | an unfinished current action keeps everything and reports true; otherwise the queue shifts and reports whether an action now runs; with nothing queued and nothing running it reports false and changes nothing |
| AutoQueues.AutoQueue.ShiftQueue | TeamCode/src/main/java/mechanisms/AutoQueue.java:49-54 | the head becomes the current action and is begun; an empty queue leaves no current action and begins nothing |

`SpaceMap.getSpace(coords)` (SpaceMap.java:401-403), `FieldMap.matrixToField`
(FieldMap.java:319-325) and `GamepadController.getButtonState` (GamepadController.java:152-154)
are plain reads: `SpaceMaps.SpaceMap.GetSpace`, `FieldMaps.FieldMap.MatrixToField` and
`Gamepads.GamepadController.GetButtonState`. Their properties are stated by the members that
use them. The class invariants (`Valid`) carry the remaining promises. For `DetectionMapper`,
every confidence is at most 10. For `AutoQueue`, the actions begun so far followed by the
waiting ones are exactly the actions added, in order, so actions are begun in FIFO order and
each at most once.

## Left out

- Colours of the `Space` kinds, the timing helper `catalog`, all logging, and the display path
  of `FieldMap` (`updateDisplay`, `initializeDisplay`, bitmaps): they do no computation that
  the map depends on.
- HashMap iteration order: the Java `keySet()`/`entrySet()` order is unspecified. The model
  visits keys in the enumeration's declaration order.
- Floating point: pose translations and trigger values are Dafny reals. Java `float` rounding
  and the clamping of `Math.round` to the `int` range are not modelled. Coordinates are
  unbounded integers, so `int` overflow is not modelled.
- Null elements inside lists and null list values inside tables are not modelled. Null tables
  and null lists passed as arguments are modelled with `Option`.
- The rest of `OpenGLMatrix` (rotation, z, and the matrix algebra in CoordinateUtils.java:194-347)
  is not modelled: only the x and y of a pose's translation are used by the core.
- SpaceMaps.SpaceMap.constructor, SpaceMaps.SpaceMap.Ranged: take the sizes as natural numbers. A
  negative size makes the source throw `NegativeArraySizeException` (SpaceMap.java:41-42, :59-60),
  which is not modelled.
- FieldMaps.FieldMap.constructor: requires a field of at least 75 mm. A smaller field gives an
  empty grid, on which `setWalls` indexes row 0 out of bounds.
- FieldMaps.FieldMap.SetRobotPosition, FieldMaps.FieldMap.Update: require the pose's cell to lie
  in the grid, which always holds from 2 cells per side up. On a 1-cell grid the range is [1, -1],
  so a pose whose raw index is not 0 lands on -1 or 1, and the source throws
  `ArrayIndexOutOfBoundsException` (`FieldMaps.FieldMap.OneCellGridInBounds`).
- SpaceMaps.SpaceMap.GetDifferences, SpaceMaps.SpaceMap.SetWalls and the cell writes
  (SpaceMaps.SpaceMap.SetSpace, SetSpaceListAsWritten, SetSpaceList, SetSpaceMapAsWritten,
  SetSpaceMap, AddSpace, AddSpaceList, AddSpaceMap, ClearSpaceListAsWritten, ClearSpaceList,
  SetRobotPosition): require the indices they touch to exist, so the source's
  `ArrayIndexOutOfBoundsException` is not modelled. That exception comes from a smaller other map
  in `getDifferences`, an empty grid in `setWalls`, and coordinates outside the grid in the writes.
- The `useDisplay` flag and `getSpaceMap`/`getRawMap` accessors: they expose internal state
  and change nothing.
- DetectionMappers.DetectionMapper.UpdateMappedRecognitions: the `potentialUsed` flag the
  source sets on the caller's `PotentialDetection` objects is not written back. The caller-visible
  effect of that flag is not modelled, but its initial value is honoured.
- `markDisappearances` takes the predicate as a total Dafny function. A predicate with side
  effects is not modelled.
- Gamepads.GamepadController.InitializeGamepadStates: the source reads the gamepad twice. The
  first reading is always overwritten before use, so the model takes one reading.
- Gamepads.GamepadController.UpdateButtonValues: the four analog stick values, stored but not
  used by the toggle states, are not modelled.
- AutoQueues: actions are abstract values. `beginAutoAction` is a ghost log entry, and the result
  of `updateAutoAction` is a parameter consulted only when an action is running. Null actions
  in the queue (which `poll` cannot tell from an empty queue) are not modelled.
- Vuforia, OpenCV pipelines, sensors, mechanisms other than the action queue, op modes,
  annotations and sound playback: hardware or library code outside the core.

## Findings

| source | as written | input that shows it | evidently intended | confidence | as-written member | corrected member |
|---|---|---|---|---|---|---|
| TeamCode/src/main/java/localization/SpaceMap.java:247-255 | the list overload of `setSpace` passes `false` as allowStatic to every single-cell write | `setSpace(WALL, [(1,1)], true)` on a CLEAR cell leaves it CLEAR, and `clearSpace([(0,0)], true)` leaves a WALL cell as WALL | the caller's allowStatic is passed on, as the overload's documentation and the map overload's permission check imply | medium, not executed | SpaceMaps.SpaceMap.SetSpaceListAsWritten, SpaceMaps.SpaceMap.SetSpaceMapAsWritten, SpaceMaps.SpaceMap.ClearSpaceListAsWritten, SpaceMaps.SetSpaceListAsWrittenDropsPermittedWrites, SpaceMaps.MapSetAsWrittenDropsPermittedWrites | SpaceMaps.SpaceMap.SetSpaceList, SpaceMaps.SpaceMap.SetSpaceMap, SpaceMaps.SpaceMap.ClearSpaceList |

The map overload and `clearSpace` on a list both go through the list overload, so they inherit
the discrepancy: as written, `setSpace(map, true)` writes no static space, and `clearSpace(list,
true)` clears no static cell. The as-written members model that behaviour. The corrected
`SetSpaceList` is the one the rest of the model uses: the corrected `SetSpaceMap` and
`ClearSpaceList` call it.
