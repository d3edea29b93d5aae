# ChessMap move explorer, modelled in Dafny

ChessMap (`main.js`) shows a chess position as an explorable tree of move
variations. A user expands nodes to see the legal continuations, clicks a
node to make its line the active game, undoes moves, resets the game and
exports the active line as PGN text. This project models the parts of
`main.js` that hold state or compute values:

- **The lazy move tree** (`moveNodes`). It maps a node id, made from the
  node's path of SAN moves, to a record. A node's children are created the
  first time the node is expanded.
  - `createMoveNode`, `expandNode`, `toggleNodeExpansion`, `collapseAll`,
    `expandAll` and `initializeTree` are functions on a value `Store`
    (module `TreeStore`). The lemmas there prove what each does to it.
  - The class `MoveExplorer.Explorer` applies them in place. Each of its
    methods ensures that its new state is the matching function of its
    old state.
  - The store invariant is `StoreValid`. Every record describes the
    position its path reaches. `expanded` implies the children container
    exists, which implies `hasChildren`. Every non-root record's parent
    exists, has its children container and has the record's path minus
    its last move.
- **The two display orders** (module `MoveOrder`). Children are ranked by
  capture, `+` and `#`; root moves put a fixed list of opening moves
  first. Both are stable sorts by non-increasing score.
- **The active line and its history**: `handleMoveClick`, `undoMove` and
  `resetGame`.
- **PGN export** (module `Pgn`): `generatePgn`, with the date and the
  engine's game status as parameters.

The chess.js engine is a value of module `ChessEngine`. It holds total
functions of the line played from the starting position: the legal moves,
whether a SAN is accepted, game over, the FEN and the status flags.
`WellFormed` states what the explorer relies on:
- every listed move is accepted;
- SANs are listed once;
- SANs use the notation's alphabet.

Two details of `main.js` shape the model:
- main.js:298-303 scores a `#` at 100, a capture at 10 and a `+` at 5. So a
  mating move ranks above a capture, and a capture above a check.
- `expandNode` (main.js:282-310) neither checks nor sets `expanded`. Only
  `toggleNodeExpansion` (main.js:265-279) does.

## Model

| member | source | states |
|---|---|---|
| ChessEngine.Replay | main.js:226-238 | replaying a path keeps at most its moves, and every move kept is accepted where it is played |
| ChessEngine.ReplayPlayable | main.js:226-238 | replaying a line whose every move is accepted gives that line back |
| ChessEngine.LegalLinePlayable | main.js:226-238 | for a well-formed engine, a line of listed moves is accepted move by move |
| ChessEngine.Entries | main.js:229-237 | the history has one entry per ply, carrying that ply's SAN |
| ChessEngine.EntriesSnoc | main.js:229-236 | playing one more accepted move appends exactly one entry, with the position after it |
| ChessEngine.EntriesPrefix | main.js:410-417 | the history of a prefix of the line is the same prefix of the history |
| ChessEngine.PlayablePrefix | main.js:410-417 | every prefix of a playable line is playable |
| MoveOrder.SortByScore | main.js:296-305 | the sorted list is a permutation of the engine's list (same multiset) and its scores never increase |
| MoveOrder.SortStable | main.js:296-305 | within every score class the sorted list keeps the engine's order |
| MoveOrder.InsertWithScore | main.js:296-305 | inserting one move keeps the order within every score class |
| MoveOrder.ChildScore | main.js:296-304 | the score is at least 100 exactly for a `#` SAN, its remainder mod 100 is at least 10 exactly for a capture, and its remainder mod 10 is 5 exactly for a `+` SAN |
| MoveOrder.ChildOrderRanks | main.js:296-305 | a mating move comes before a non-mating one; among non-mating moves a capture comes before a non-capture; when both agree on those, a check comes first |
| MoveOrder.ChildOrderIsStablePermutation | main.js:296-305 | the children are exactly the engine's moves, and moves of equal score keep the engine's order |
| MoveOrder.RootOrderSplits | main.js:387-392 | with `OpeningScore` giving 10 to a SAN on the opening list and 0 to any other, the root order is the listed opening moves in engine order, followed by all other moves in engine order |
| MoveOrder.OpeningMovesFirst | main.js:387-392 | every listed opening move is shown before every move not on the list |
| MoveOrder.SortKeepsDistinct | main.js:296-305 | sorting a list with distinct SANs keeps the SANs distinct |
| MoveOrder.SortedMember | main.js:296-305 | every move of the sorted list is a move of the engine's list |
| NodeIds.JoinedIdCollides | main.js:191-192 | with the '-' join, the two different paths ending "O-O, O-O-O" and "O-O-O, O-O" get the same id |
| NodeIds.NodeIdInjective | main.js:191-192 | with the corrected join, two non-empty SAN paths have the same id if and only if they are equal |
| NodeIds.JoinInjective | main.js:191-192 | a join of separator-free parts determines the parts |
| Pgn.Decimal | main.js:331 | a move number is written as a non-empty string of decimal digits without a leading zero |
| Pgn.DecimalRoundTrip | main.js:331 | reading the written move number back gives the number |
| Pgn.ResultTag | main.js:340-344 | the tag is " 0-1" exactly for mate with white to move, " 1-0" exactly for mate with black to move, " 1/2-1/2" exactly when there is no mate and a drawing flag holds, and empty otherwise |
| Pgn.PgnDocument | main.js:312-320 | the export is the sentinel "No moves played" exactly when the history is empty; otherwise it starts with the header block |
| Pgn.GeneratePgn | main.js:312-347 | the string built by the loop is the PGN document of the line: header, numbered move text, result tag |
| Pgn.MoveTextSnoc | main.js:325-336 | the move text grows by the text of one ply per history entry |
| Pgn.PliesFromPairs | main.js:322-336 | from an even ply, the plies are the numbered move pairs separated by single spaces |
| Pgn.MoveTextIsNumberedPairs | main.js:322-336 | the move text is "1. w b 2. w b ...". Only white plies are numbered, numbers grow after each black ply, and an odd line ends in a lone numbered white move |
| Pgn.OpeningPairExport | main.js:312-347 | exporting e4 e5 in a game still in progress gives the header followed by "1. e4 e5" and no result tag |
| TreeStore.Collapsed | main.js:459-465 | collapse-all keeps every record and the order, leaves every node collapsed, and changes nothing else in a record |
| TreeStore.CollapsedValid | main.js:459-465 | collapse-all keeps the store invariant |
| TreeStore.CreatedValid | main.js:155-206 | creating a fresh child below a parent that has its children container keeps the store invariant |
| TreeStore.CreateAllShape | main.js:306-309 | creating fresh children appends exactly their ids `ChildIds` (child k's id is the id of the parent's path plus child k's SAN) to the order and adds exactly them to the map. Existing records stay unchanged, the identity counter grows by one per child, and the deepest level becomes the larger of the old one and the children's level |
| TreeStore.CreateAllKeys | main.js:306-309 | creating fresh children appends exactly their ids to the order, in child order, and the map gains exactly those ids |
| TreeStore.CreateAllKeeps | main.js:306-309 | creating fresh children leaves every existing record in the map and unchanged |
| TreeStore.CreateAllCounters | main.js:156 | the identity counter grows by one per created record (the serial each record takes is in `TreeStore.CreateAllChildren`), and the deepest level becomes the larger of the old one and the children's level |
| TreeStore.CreateAllChildren | main.js:306-309 | child k is the collapsed record for move k, one level deeper, with the parent's path plus its SAN and identity counter+k |
| TreeStore.CreateAllValid | main.js:306-309 | creating fresh children below a parent that has its children container keeps the store invariant |
| TreeStore.ChildIdsDistinct | main.js:306-309 | the children of one node get pairwise different ids: `ChildIds`, the ids of the parent's path plus each child's SAN, has no repeats |
| TreeStore.ExpandedValid | main.js:282-310 | expanding a node whose children do not exist yet keeps the store invariant |
| TreeStore.ExpandedFacts | main.js:282-310 | expanding such a node makes its children container and appends its children's ids in child order; no other record changes |
| TreeStore.ExpandedChildren | main.js:282-310 | each child made by expanding is the record for the legal move in child order, one level deeper, with the node's path plus its SAN |
| TreeStore.ToggledFacts | main.js:259-280 | toggling an absent id or a node without continuations does nothing. Otherwise the node's `expanded` flips and no other existing record changes. No record is removed, records are created only the first time a node is expanded (otherwise the keys, the order, the deepest level and the identity counter stay as they were), and the invariant holds |
| TreeStore.ToggleTwice | main.js:259-280 | toggling twice a node whose children exist gives the store back |
| TreeStore.PathReplays | main.js:225-238 | the path of every record in a valid store is accepted move by move and replays to itself, so a click makes exactly that path the active line |
| TreeStore.FrontierOfFacts | main.js:431-433 | the snapshot holds exactly the records with `hasChildren && !expanded`, each once, with its ticket naming the record's current identity |
| TreeStore.FrontierInOrder | main.js:431-433 | the snapshot lists its records in the map's insertion order: of any two tickets, the earlier one's id comes earlier in the order |
| TreeStore.BatchFacts | main.js:436-453 | the batch over a snapshot expands exactly the snapshot's records and leaves all other records as they were. The records it creates are collapsed and have no children container, and the invariant holds |
| TreeStore.ExpandAllFacts | main.js:426-457 | after expand-all, every record expandable at the call is expanded, every other record is unchanged, nothing is removed and the records created during the batch are collapsed |
| TreeStore.BatchAsWrittenAgrees | main.js:436-453 | without clicks between the steps, the batch as written (toggle whenever the record is still in the map) ends in the same tree as the batch that checks `expanded` again |
| TreeStore.ExpandAllAsWritten | main.js:426-457 | over the snapshot expand-all takes, the batch as written and the checked batch end in the same tree |
| TreeStore.AsWrittenCollapsesExpanded | main.js:444-450 | as written, a batch step on a live record that the user expanded after the snapshot collapses it |
| TreeStore.ExpandStepExpands | main.js:444-450 | the corrected step leaves a live record with continuations expanded, and skips a record no longer in the map |
| TreeStore.InitializedValid | main.js:381-397 | a fresh tree satisfies the store invariant |
| TreeStore.InitializedFacts | main.js:381-397 | a fresh tree holds exactly one root per legal move in the starting position, in root order |
| TreeStore.InitializedChildren | main.js:381-397 | each root is the record for its move at depth 0 with a one-move path, numbered in turn |
| TreeStore.InitializedStale | main.js:381-383 | after the tree is made afresh no record of the old tree is still in the map |
| MoveExplorer.Explorer.constructor | main.js:6-9 | page load gives an empty game and history and, with the `initializeTree()` call at main.js:494, the fresh tree, satisfying the invariant |
| MoveExplorer.Explorer.CreateMoveNode | main.js:155-206 | the new state is `Created` of the old one: the record is set under the path's id, a new id is appended to the order, the deepest level is raised |
| MoveExplorer.Explorer.InitializeTree | main.js:381-397 | the new tree is `Initialized` for the current game |
| MoveExplorer.Explorer.CreateChildren | main.js:307-309 | the loop calling createMoveNode for each move leaves the tree equal to `CreateAll` of the old tree, whose effect `TreeStore.CreateAllShape` and `TreeStore.CreateAllChildren` state |
| MoveExplorer.Explorer.ExpandNode | main.js:282-310 | the new tree is `Expanded` of the old one |
| MoveExplorer.Explorer.ToggleNodeExpansion | main.js:259-280 | the new tree is `Toggled` of the old one, the invariant is kept and the game is untouched |
| MoveExplorer.Explorer.CollapseAll | main.js:459-465 | the loop over the map in order leaves the tree `Collapsed` and keeps the invariant |
| MoveExplorer.Explorer.ExpandNextAsWritten | main.js:444-450 | one batch step as written: toggle the snapshot record if it is still in the map |
| MoveExplorer.Explorer.ExpandNext | main.js:444-450 | one corrected batch step: toggle the snapshot record only if it is still in the map and still collapsed |
| MoveExplorer.Explorer.ExpandAll | main.js:426-457 | the loop over the snapshot runs the step as written and leaves the tree equal to the as-written batch over the frontier taken at the call, which is also the checked batch whose effect `TreeStore.ExpandAllFacts` states; the invariant is kept |
| MoveExplorer.Explorer.ReplayPath | main.js:225-238 | the replay loop yields the replayed line and exactly its history entries |
| MoveExplorer.Explorer.HandleMoveClick | main.js:217-238 | an absent id changes nothing. Otherwise the tree is toggled, the active line becomes the node's path and the history is that line's entries |
| MoveExplorer.Explorer.ReplayHistory | main.js:414-417 | the replay loop yields the replay of the remaining entries' SANs |
| MoveExplorer.Explorer.UndoMove | main.js:410-424 | on a non-empty history exactly the last entry and the last move are dropped; on an empty one nothing changes; the tree is untouched |
| MoveExplorer.Explorer.ResetGame | main.js:399-407 | game, history and deepest level are cleared, the tree is made afresh, and no old record is still live |
| MoveExplorer.Explorer.CopyPgn | main.js:349-350 | the copied text is the PGN document of the active line |

## Left out

- Pan, zoom, auto-centring and touch handling (main.js:12-17, 40-123, 246-256): floating-point view transforms driven by DOM events.
- DOM construction, CSS classes, `dataset` attributes, the node's display text and the status panel (main.js:125-153, 157-182, 193-196, 208-214, 240-244). The `tree-children` container and the `expandable` and `expanded` classes are modelled by the record's `built`, `hasChildren` and `expanded` flags.
- The Chessboard2 widget (main.js:19-23) and `board.setPosition`.
- chess.js internals (legality, FEN, game-over detection) are the uninterpreted functions of `ChessEngine.Engine`.
  - The engine answers for the line from the start position. `main.js` sometimes rebuilds a game from a FEN, which loses the repetition history; the model does not capture that difference.
  - A refused move is skipped, as the code's `if (moveObj)` expects. chess.js 1.x would throw instead. Every stored path is a line of listed moves, so this case does not arise.
- The clipboard write and its `execCommand` fallback (main.js:349-379). `CopyPgn` returns the text instead.
- `new Date()` in the PGN header (main.js:318) is the `date` parameter.
- The `setTimeout` chain of `expandAll` (main.js:453). It is a loop over the snapshot. A user's clicks between steps are not interleaved inside `ExpandAll`. The single steps `ExpandNextAsWritten` and `ExpandNext`, together with `HandleMoveClick`, model the steps such an interleaving is made of.
- Object identity of a record (`data === nodeData`, main.js:446) is modelled by a `serial` number that every created record gets. Overwriting a record under the same id gives it a new serial.
- Keyboard and button bindings (main.js:467-492).
- MoveExplorer.Explorer.ExpandNode: the invariant is proved only for a node whose children do not exist yet, which is how `toggleNodeExpansion` calls it. Called directly on an already built node it would recreate the children.
- MoveExplorer.Explorer.ExpandAll: a caller reads the per-record effect from `TreeStore.ExpandAllFacts` about `Batch`. The method itself states only the equality with `Batch`.

## Findings

| source | as written | input that shows it | evidently intended | confidence | as-written member | corrected member |
|---|---|---|---|---|---|---|
| main.js:191-192 | the node id is the path joined with '-', which also occurs inside castling SANs | after 1. d4 d5 2. Nc3 Nc6 3. Bf4 Bf5 4. Qd2 Qd7 5. e3 e6 6. Nf3 Nf6 7. Be2 Be7 both sides may castle either way; the paths continuing "O-O, O-O-O" and "O-O-O, O-O" get the same id ending "O-O-O-O-O", so once both white castling nodes are expanded the second record overwrites the first | distinct paths get distinct ids | not executed | NodeIds.JoinedIdCollides | NodeIds.NodeIdInjective |
| main.js:444-450 | an expand-all step toggles its snapshot record without checking that it is still collapsed | a record in the snapshot that the user expands (by clicking it) before its step comes: the step collapses it again | expand-all leaves every snapshot record expanded | not executed | TreeStore.AsWrittenCollapsesExpanded | TreeStore.ExpandStepExpands |

The model's store uses the corrected id: paths are joined with a space,
which standard algebraic notation never contains (`NodeIds.NodeId`).
`ExpandAll` runs the step as written (`ExpandNextAsWritten`). With no
click between the steps it ends where the corrected batch `TreeStore.Batch`
ends (`TreeStore.BatchAsWrittenAgrees`), and its effect is stated about
that batch. `ExpandNext` is the corrected step for a step that follows a
click.
