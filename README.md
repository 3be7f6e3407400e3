# Slitherlink: the game state, the win check and the solver

A Dafny model of the core of a Slitherlink game written in Python
(`slitherlink.py`). The player draws segments between the vertices of a grid
of cells. Some cells carry a clue from 0 to 3 (the model accepts any
integer). The grid is solved when every clue equals the number of drawn
segments around its cell and the drawn segments form one closed loop.

The model covers:

- **The segment store** (`Store`). This is the dict `etat`, kept as its key
  order plus a map: 1 means drawn, -1 means forbidden, and an absent key
  means blank.
  - `Store.Etat` is the mutable object that the game and the solver share.
  - `Trace`, `Forbid` and `Erase` update it in place.
  - The key order matters: it decides which segments the loop walk and the
    solver see first.
- **The clue evaluator** (`Evaluator`): `segments_traces`,
  `nombre_segments`, `statut_case`, `indices_satisfaits` and
  `indices_insatisfaits`. Each is a loop over the dict in key order, proved
  against a specification function.
- **The loop walk and the win check** (`Loop`). `longueur_boucle` is the
  function `Walk`. The source's `while` loop has no bound, so the model
  walks with fuel equal to the number of drawn segments. `Unfinished` means
  the walk was still going when the fuel ran out. A vertex whose drawn
  degree is not 2 gives None whatever fuel is left, so a store with nothing
  drawn gives None at once, as the source does.
  - From a drawn segment the walk always ends.
  - From a drawn segment, it returns the number of drawn segments exactly
    when those segments form one closed loop (`SingleLoop`).
- **The backtracking solver** (`Solver`, `Selection`). These model
  `solveur`, `gestion_solveur` and `selectionne_sommet`, with no drawing.
  - The window's event queue (`gestion_ev`) becomes an oracle
    `abort: nat -> bool`, asked once per poll.
  - The search reports `Found`, `Aborted` or `Exhausted`. The source
    returns `True` for both of the first two.
  - An exhausted search leaves the store as it found it, apart from
    forbidden marks it drew over (`Rolled`).
  - A solution found from an empty store is one closed loop with every clue
    satisfied.
- **Helpers** (`Helpers`):
  - `codeTag`, with its decoder and round trip.
  - `ajoute_indice`, on an array of rows.
  - `trieLstGrille`: the resume file first, then the numbered grids by
    number, then the rest in directory order.
  - The arithmetic and formatting half of `calcule_temps`.

Clue grids are `seq<seq<Option<int>>>`, where `None` is a cell without a
clue. Vertices are `Point(row, col)`. A segment is an ordered pair of
points, as in the source, with `Across(i, j)` and `Down(i, j)` naming the
horizontal and vertical unit segments.

## Model

| member | source | states |
|---|---|---|
| Store.IsDrawn | slitherlink.py:15-30 | est_trace: a drawn segment is present in the dict and is not forbidden |
| Store.IsBlank | slitherlink.py:51-66 | est_vierge: in a well-formed store, blank means neither drawn nor forbidden |
| Store.IsForbidden | slitherlink.py:33-48 | est_interdit: a forbidden segment is present and not drawn; in a well-formed store a present segment is forbidden exactly when it is not drawn |
| Store.Assign | slitherlink.py:69-96 | `etat[s] = v`: s gets v, every other key keeps its presence and value, the old key order is a prefix of the new one, and the store stays well formed for the values 1 and -1 |
| Store.Pop | slitherlink.py:99-111 | `etat.pop(s)`: s is gone, every other key keeps its presence and value, the store stays well formed |
| Store.RemoveKey | slitherlink.py:99-111 | removing a key from the key order keeps exactly the other keys, still without duplicates |
| Store.AssignPopRoundTrip | slitherlink.py:69-111 | drawing or forbidding a blank segment and then erasing it gives back the same dict, with the same key order |
| Store.Etat.Trace | slitherlink.py:69-81 | tracer_segment updates the shared dict in place to `Assign(old, s, 1)` |
| Store.Etat.Forbid | slitherlink.py:84-96 | interdire_segment updates the shared dict in place to `Assign(old, s, -1)` |
| Store.Etat.Erase | slitherlink.py:99-111 | effacer_segment updates the shared dict in place to `Pop(old, s)`; it requires the key to be present, as Python raises KeyError otherwise |
| Lattice.LatticeEdges | slitherlink.py:691-708 | the segments the solver can draw on an h x w grid are exactly the unit segments between vertices of the grid |
| Lattice.Corners | slitherlink.py:736-737 | the four corners of a cell, the cell's own vertex first, each once: exactly the vertices at row i or i+1 and column j or j+1 |
| Lattice.Borders | slitherlink.py:259-260 | the four borders of a cell are four distinct unit segments |
| Evaluator.DrawnAt | slitherlink.py:218-233 | a segment is listed exactly when it is a key, is drawn and touches the vertex; no segment is listed twice |
| Evaluator.SegmentsTraces | slitherlink.py:218-233 | the loop over the dict returns the drawn segments at the vertex, in key order |
| Evaluator.NombreSegments | slitherlink.py:343-357 | the loop over the dict counts exactly the drawn segments |
| Evaluator.CellStatus | slitherlink.py:236-272 | None exactly for a cell without a clue; otherwise -1, 0 or 1, and 0 exactly when the clue equals the number of drawn borders |
| Evaluator.AllSatisfied | slitherlink.py:275-299 | every clued cell has exactly as many drawn borders as its clue |
| Evaluator.AnyOverfull | slitherlink.py:628-646 | some clued cell has too many drawn borders, which rules out every clue being satisfied |
| Evaluator.StatutCase | slitherlink.py:236-272 | None for a cell without a clue; otherwise 0, 1 or -1 when the drawn borders are equal to, more than or fewer than the clue |
| Evaluator.IndicesSatisfaits | slitherlink.py:275-299 | True exactly when every clued cell has status 0 |
| Evaluator.IndicesInsatisfaits | slitherlink.py:628-646 | False exactly when some clued cell has too many drawn borders; None (the function falls off its end) otherwise |
| Evaluator.OverfullPersists | slitherlink.py:262-272 | drawing more segments never turns an overfull cell back into a satisfied or short one |
| Evaluator.PruningSound | slitherlink.py:688-690 | the solver's cut is sound: once a clue is overfull, no store that extends the drawn segments satisfies every clue |
| Loop.FollowStays | slitherlink.py:331-336 | one step of the walk (`Follow`): when every drawn segment at the vertex holds the previous vertex, the walk stays where it is |
| Loop.WalkLengthBound | slitherlink.py:316-340 | the while loop (`Walk`): a length is returned only on reaching the start, and counts more than the steps already taken and at most one per step allowed plus the closing segment |
| Loop.LoopLengthBound | slitherlink.py:302-340 | longueur_boucle (`LoopLength`): a length it returns is positive and at most one more than the number of drawn segments |
| Loop.NothingDrawnIsNotALoop | slitherlink.py:320-327 | with nothing drawn the first vertex has no drawn segment, so the walk gives None |
| Loop.EmptyStoreIsNotALoop | slitherlink.py:320-327 | example: on the empty dict the walk from the top-left segment gives None |
| Loop.Victoire | slitherlink.py:360-381 | a win needs a clicked segment, every clue satisfied and at least one drawn segment; what it means beyond that is stated by VictoireWhenDrawn and FalseVictoryAfterErase |
| Loop.LoopLengthReturns | slitherlink.py:302-340 | from a drawn segment the walk ends (returns a length or None), and a length equal to the number of drawn segments means one closed loop |
| Loop.WalkFromState | slitherlink.py:318-340 | a walk that has so far visited distinct vertices along distinct drawn segments never runs out of steps before it ends |
| Loop.WalkClosesLoop | slitherlink.py:318-340 | a walk that comes back to its start after as many steps as there are drawn segments has gone round one closed loop of all of them |
| Loop.LoopLengthOfSingleLoop | slitherlink.py:302-340 | when the drawn segments form one closed loop, the walk from any of them returns their number |
| Loop.WinningWalk | slitherlink.py:302-357 | from a drawn segment, longueur_boucle equals nombre_segments if and only if the drawn segments form one closed loop |
| Loop.SingleLoopDegree | slitherlink.py:325-330 | on a single loop every touched vertex has a second drawn segment, so the walk's degree check never fails there |
| Loop.UnitSquareLength | slitherlink.py:310-314 | example: the walk round the unit square from its left side returns 4 |
| Loop.OpenPathIsNotALoop | slitherlink.py:315-317 | example: two sides of the square give None |
| Loop.Outline2x2Wins | slitherlink.py:368-375 | example: the outline of a 2x2 grid of clues 2 wins |
| Loop.VictoireWhenDrawn | slitherlink.py:360-381 | when the clicked segment is drawn, victoire holds if and only if every clue is satisfied and the drawn segments form one closed loop |
| Loop.FalseVictoryAfterErase | slitherlink.py:360-381 | as written: after a click that erased a segment, victoire can hold while the drawn segments are not a loop (see Findings) |
| Loop.UndrawnStartNeverReturns | slitherlink.py:318-340 | as written: from an undrawn segment away from the drawn square the walk never gets back to its start, with any number of steps (see Findings) |
| Loop.FirstDrawn | slitherlink.py:360-381 | the first drawn key in dict order is drawn, and None means no key is drawn |
| Loop.LoopHasDrawnKey | slitherlink.py:360-381 | a closed loop always has a drawn key, so the corrected check always has a place to start |
| Loop.VictoireChecked | slitherlink.py:360-381 | corrected: a win needs a clicked segment, every clue satisfied and at least one drawn segment; the exact meaning is VictoireCheckedIffLoop |
| Loop.VictoireCheckedIffLoop | slitherlink.py:360-381 | corrected: the walk always ends, and the check wins if and only if a segment was clicked, every clue is satisfied and the drawn segments form one closed loop |
| Solver.PolledThen | slitherlink.py:649-663 | polling the window in two stretches, the first without a stop, is the same as polling once over both |
| Solver.Keep | slitherlink.py:99-111 | filtering the key order keeps exactly the live keys, in order, without duplicates |
| Solver.RolledNoForbidden | slitherlink.py:597-600 | rolling back a store without forbidden segments gives back the very same store |
| Solver.TraceEraseRolled | slitherlink.py:591-601 | drawing a segment, searching with the store rolled back, and erasing the segment rolls the store back to where it was |
| Solver.DegreeIsCount | slitherlink.py:682-688 | the length of segments_traces at a vertex is the number of drawn segments touching it |
| Solver.ChainFound | slitherlink.py:682-685 | when the solver's path returns to a vertex of drawn degree 2, the drawn segments form one closed loop |
| Solver.ChainExtend | slitherlink.py:591-594 | drawing a fresh segment from the path's end to its other endpoint extends the path |
| Solver.StepOn | slitherlink.py:691-708 | after an exhausted move the store has the same drawn segments and degrees, so the next move starts from the same path |
| Solver.Solveur | slitherlink.py:666-711 | the store stays well formed and keeps every drawn segment; Exhausted rolls the store back (to the very same dict when no segment was forbidden); Found means every clue is satisfied with a degree-2 vertex, and one closed loop when the search started from a path; a stop comes exactly at the first poll the window answers |
| Solver.Explore | slitherlink.py:691-711 | the moves tried are those of `Candidates`: right when col < W, down when row < H, left when col > 0, up when row > 0, in that order; an exhausted search tried all of them, any other outcome stopped at the last move tried, a non-empty prefix of them; the same guarantees as solveur |
| Solver.ExploreDown | slitherlink.py:697-710 | after the move right: down when row < H, then the moves back; exhausted means all of them were tried, otherwise a non-empty prefix; the same guarantees as solveur, relative to the store the first move rolled back to |
| Solver.ExploreBack | slitherlink.py:701-710 | left when col > 0, then up; exhausted means both allowed moves were tried, otherwise a non-empty prefix; the same guarantees as solveur, relative to the store the earlier moves rolled back to |
| Solver.ExploreUp | slitherlink.py:705-708 | up exactly when row > 0; the same guarantees as solveur, relative to the store the earlier moves rolled back to |
| Solver.Move | slitherlink.py:697-708 | a later move of solveur, taken from the store the earlier moves rolled back to |
| Solver.GestionSolveur | slitherlink.py:576-601 | an already drawn segment leaves the store exactly as it was, with the outcome Exhausted; otherwise the segment is drawn and the search recurses from segment[som]; an exhausted search leaves the segment blank, even when it was forbidden before, and rolls the rest of the store back |
| Selection.Rebind | slitherlink.py:730-733 | after rebinding, the loop variable is never a number again: 0 becomes None, 1..9 their text, None the text "None" |
| Selection.DigitMatches | slitherlink.py:733-734 | the text of a digit matches exactly the cells holding that clue |
| Selection.CluedLevel | slitherlink.py:727-741 | the passes for 3, 2 and 1 visit the corners of every cell with that clue, in row order |
| Selection.ZeroLevel | slitherlink.py:727-737 | the last pass tries only the corners of cell (0, 0), and only when that cell has no clue |
| Selection.SeedsOrder | slitherlink.py:727-741 | the vertices tried are the corners of the 3-cells, then the 2-cells, then the 1-cells, then those of a blank cell (0, 0) |
| Selection.TryCell | slitherlink.py:735-741 | the solver is run from the four corners of a cell in order, stopping at the first that does not exhaust |
| Selection.RowPass | slitherlink.py:729-741 | one row of a pass: the probe is rebound at every cell; exhausted means the corners of every matching cell of the row were tried and the store rolled back, with the probe the row leaves behind; otherwise what was tried, then the vertex that stopped, are a prefix of the row's vertices |
| Selection.Pass | slitherlink.py:728-741 | one pass of the level loop: exhausted means every vertex of the level was tried and the store rolled back; otherwise the vertices tried are a proper prefix |
| Selection.SelectionneSommet | slitherlink.py:714-742 | exhausted means every seed vertex was tried and the store rolled back; otherwise a proper prefix was tried; Found from an empty store is one closed loop with every clue satisfied |
| Helpers.DigitChar | slitherlink.py:733 | `str` of a digit is the character with that digit value |
| Helpers.DecimalString | slitherlink.py:513 | `str` of a natural number is its decimal digits, one digit exactly below 10, no leading zero |
| Helpers.CodeTag | slitherlink.py:157-174 | codeTag: four characters, one per coordinate, none before `@` |
| Helpers.DecodeTag | slitherlink.py:157-174 | reading a tag back gives a segment exactly when the text has four characters; the inverse of codeTag by TagRoundTrip |
| Helpers.TagRoundTrip | slitherlink.py:157-174 | the tag decodes back to the segment |
| Helpers.TagInjective | slitherlink.py:157-174 | two segments with the same tag are the same segment, so a tag erases one drawing only |
| Helpers.TagExamples | slitherlink.py:165-168 | examples: `@@@A` and `ABBB` |
| Helpers.ReplaceAt | slitherlink.py:797-800 | the row keeps its text before and after position j, with the added text in between |
| Helpers.ReplaceOneChar | slitherlink.py:797-800 | with a one-character clue, only position j changes and the length stays |
| Helpers.ReplaceExample | slitherlink.py:793-795 | example: `__` with `0` at 0 gives `0_` |
| Helpers.AjouteIndice | slitherlink.py:783-801 | row i of the grid is replaced in place and the other rows are unchanged |
| Helpers.RemoveTxt | slitherlink.py:918 | `.replace('.txt', '')` never lengthens the text |
| Helpers.RemoveTxtPlain | slitherlink.py:918 | `.replace('.txt', '')` leaves a text without `.txt` unchanged |
| Helpers.Number | slitherlink.py:916-920 | a grid name is numbered when the text after its sixth character, without `.txt`, is all digits, and its number is their value |
| Helpers.ResumeNotNumbered | slitherlink.py:914-920 | the resume file is never a numbered grid, so it is not listed twice |
| Helpers.NumberedNames | slitherlink.py:916-920 | the numbered names are exactly the numbered grids, each once |
| Helpers.SortByNumber | slitherlink.py:921 | the sort keeps the same numbered names, as many as it was given; the order is SortByNumberSorted |
| Helpers.SortByNumberSorted | slitherlink.py:921 | sorting orders the numbered grids by number and keeps them each once |
| Helpers.AppendMissing | slitherlink.py:923-925 | the listed names come first, and the grids not yet listed follow, each once |
| Helpers.TrieLstGrille | slitherlink.py:901-926 | trieLstGrille lists exactly the names of the directory listing; the order is TrieNumberedFirst and TrieOthersInOrder |
| Helpers.TrieNumberedFirst | slitherlink.py:901-926 | each grid appears exactly once; the resume file comes first; a numbered grid comes only after the resume file or numbered grids; the numbered grids are in order of number |
| Helpers.TrieOthersInOrder | slitherlink.py:923-925 | the remaining names keep their directory order |
| Helpers.TrieExample | slitherlink.py:909-910 | example: `Grille2, Grille1` sorts to `Grille1, Grille2` |
| Helpers.Pad2 | slitherlink.py:514-517 | a one-digit number gets a leading zero, and the digits keep their value |
| Helpers.CalculeTemps | slitherlink.py:507-518 | two strings of at least two digits: minutes elapsed plus the saved minutes, seconds elapsed plus the saved seconds |
| Helpers.SecondsNotCarried | slitherlink.py:507-518 | as written: 30 seconds after a saved `00:50` gives `00:80` (see Findings) |
| Helpers.CarriedTemps | slitherlink.py:507-518 | corrected: seconds below 60, and minutes and seconds add up to the whole time |

## Left out

- Drawing, the window, the mouse and the keyboard (fltk) are not modelled. The graphical variants of the store operations are their plain counterparts here, and so is `tracer_segment_solveur`.
- The pauses of the graphical solver are not modelled.
- `affiche_victoire` is not modelled.
- `gestion_ev` is replaced by an oracle.
- Reading and writing grid files, `os.listdir` and the menus are not modelled. `trieLstGrille` takes the file list as a parameter.
- Pixel conversions (`pixel_vers_case`, `coordonnees_segments`, `donne_segment`, `clic_dans_grille`) are not modelled. The segment a click gives `victoire` is a parameter.
- Clocks are not modelled. `CalculeTemps` takes the elapsed time as a number of seconds, which is the seconds field of the Python timedelta, so whole days are already dropped.
- Clues are integers, not the characters of the grid file. `int()` of a clue character is taken as done.
- Selection.SelectionneSommet: requires a rectangular clue grid. The source only reads `len(indices[0])` as the width.
- Loop.Victoire: returns False where the source's walk never ends. Its walk is bounded by the number of drawn segments; see Findings.
- Helpers.CodeTag: is defined only for coordinates from 0 up to 0xD800 - 65. That keeps every character a Unicode scalar value; grids are far smaller.
- Helpers.AjouteIndice: takes non-negative indices only. Python's negative indexing from the end of a row is not modelled.
- Helpers.Number: accepts digits only. Python's `int()` also accepts surrounding whitespace, a sign and underscores.
- Helpers.SortByNumberSorted: does not prove that grids with the same number keep their order, as Python's stable sort does.

## Findings

| source | as written | input that shows it | evidently intended | confidence | as-written member | corrected member |
|---|---|---|---|---|---|---|
| slitherlink.py:360-381 with 302-340 | The game calls `victoire` with the clicked segment even when the click erased it (slitherlink.py:1063-1072, 1141). The walk then starts from a segment that is not drawn. | 1x2 grid with clues 3 and 2. Drawn, in key order: `Down(0,1)`, `Across(1,0)`, `Down(0,0)`, `Across(0,1)`. The click erased `Across(0,0)`. The walk goes round cell (0,0) and counts 4, as many as are drawn, so the game is won. Meanwhile `Across(0,1)` hangs loose and no loop is closed. | A win only when the drawn segments form one closed loop | not executed | Loop.FalseVictoryAfterErase | Loop.VictoireCheckedIffLoop |
| slitherlink.py:318-340 | The walk's `while` loop only stops at the start vertex. A walk from an undrawn segment that reaches a drawn loop not through that vertex never stops. | Clues `[[1, None]]`. Only the square of cell (0,1) is drawn, which satisfies the clue 1; the clicked segment is `Across(0,0)`, which is not drawn. The game hangs. | The walk starts from a drawn segment and always ends | not executed | Loop.UndrawnStartNeverReturns | Loop.VictoireCheckedIffLoop |
| slitherlink.py:507-518 | Saved minutes and seconds are added field by field, and seconds are not carried into minutes. | Saved time `00:50`, 30 seconds played: the result is `00:80` | Seconds below 60, with the overflow carried into minutes | not executed | Helpers.SecondsNotCarried | Helpers.CarriedTemps |
