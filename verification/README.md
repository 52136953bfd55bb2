# Hunters and hares: a Dafny model of the game core

The game is played on a grid of nodes. Hares sit on some nodes. Each turn
the hunter selects nodes to shoot and finishes the move. Every hare that was
not shot then runs to all 4-neighbours of its node, so the set of nodes that
may hold a hare spreads out. The repository holds two revisions of the game
object `GameState`:

- `javascript/HunterGame.js` plays on a 5x5 grid. It starts with hares on the
  even ids and keeps an undo/redo history of finished moves, with a 1-based
  cursor `moveNumber`.
- `src/HunterGame.ts` plays on a 3x3 grid. It starts with a hare on every
  node and has no history. Every click redraws, and every redraw spreads the
  hares. Its spread also keeps hares off the selected nodes.

Both revisions build the grid with the same `createMatrix(n, m)`. The node
at column i, row j gets id `n*j + i`. Every node is linked to its right-hand
and lower neighbour. The adjacency map `edges` holds each link in both
directions.

The project has four modules:

- `Grid` (`grid.dfy`) models `createMatrix` and its `addLink` as a method
  with the source's loops. The method is proved to return the lattice: the
  nodes in push order, the grid links, and a symmetric 4-neighbour
  adjacency. Pure functions give the same construction step by step, and
  lemmas state what it builds.
- `Selection` (`selection.dfy`) models the toggle that `onNodeClick`
  performs in both revisions.
- `HunterGameJs` (`hunter_game_js.dfy`) models the JavaScript revision.
  - Each handler is a step function on a `Game` value.
  - A handler that reads a missing history record records that as a
    TypeError in its `Outcome`.
  - The class `GameState` updates its fields in place, and its methods are
    proved to follow those step functions.
  - Lemmas state when the history stays one timeline from the seed
    (`Coherent`), state the undo/redo round trips, and exhibit where the
    handlers as written break them.
- `HunterGameTs` (`hunter_game_ts.dfy`) models the TypeScript revision: the
  filtering spread, the constructor with its first redraw, and the click
  handler. The class keeps the hares on grid nodes and off the selection.

Three behaviours of the code are modelled as written:

- Committing a move (`javascript/HunterGame.js:133`): `finishMove` drops the
  moves after the cursor only when the cursor is off the tip and not at
  move 1, so at move 1 every record is kept.
- Redo (`javascript/HunterGame.js:160`): `nextMove` returns early only when
  `moveNumber` equals the history length, so from the live move, one past the
  last record, it reads a record that does not exist.
- Sizes and ids (`javascript/HunterGame.js:24-36`, `227-232`): nothing checks
  the grid size or the clicked id; a non-positive size gives an empty grid and
  any id is toggled.

## Model

| member | source | states |
|---|---|---|
| Grid.AddLink | javascript/HunterGame.js:10-20 | Definition of `addLink` on the link list and adjacency map; its properties are the rows `Grid.AddLinkBothWays` and `Grid.AddLinkRecords`. |
| Grid.WireFrom | javascript/HunterGame.js:38-60 | Definition of the link loops run from cell (i, j) on, column by column and row by row; `Grid.WiredFacts` states what they build. |
| Grid.Wired | javascript/HunterGame.js:38-60 | Definition of the links and adjacency map the link loops build from empty ones. |
| Grid.Matrix | javascript/HunterGame.js:5-67 | Definition of the graph `createMatrix(n, m)` returns; `Grid.MatrixShape` proves it is the lattice. |
| Grid.AddLinkBothWays | javascript/HunterGame.js:10-20 | `addLink` appends the link and gives both ends an entry. It makes each end a neighbour of the other, and every other adjacency is unchanged. |
| Grid.AddLinkRecords | javascript/HunterGame.js:10-20 | `addLink` keeps the adjacency map symmetric and equal to the set of pushed links. |
| Grid.NodeCount | javascript/HunterGame.js:24-36 | The first loops push n*m nodes, or none when a size is not positive. |
| Grid.NodeIds | javascript/HunterGame.js:24-36 | The node of column i, row j is pushed at position i*m + j with id n*j + i. |
| Grid.NodesDistinctInRange | javascript/HunterGame.js:24-36 | The ids are pairwise distinct and are exactly the integers in [0, n*m). |
| Grid.NodeOrder | javascript/HunterGame.js:24-36 | Position p of the node list holds column p / m, row p % m. |
| Grid.WiredFacts | javascript/HunterGame.js:38-60 | The second loops push the links cell by cell, horizontal before vertical. The adjacency map then holds exactly those links, both ways. |
| Grid.LinkCount | javascript/HunterGame.js:38-60 | An n by m grid has (n-1)*m + n*(m-1) links. |
| Grid.LinkShape | javascript/HunterGame.js:38-60 | A link from u goes to u+1 without leaving the row, or to u+n without leaving the grid. No other links exist. |
| Grid.Adjacency | javascript/HunterGame.js:16-17 | `edges[u]` holds v exactly when u and v are 4-neighbours. No node is its own neighbour. |
| Grid.AdjacentNodes | javascript/HunterGame.js:38-60 | Both ends of a link are nodes of the grid. |
| Grid.MatrixShape | javascript/HunterGame.js:5-67 | The graph `createMatrix(n, m)` returns is the n by m lattice in node push order, with its links and adjacency. |
| Grid.CreateMatrix | src/HunterGame.ts:14-74 | Proved against the specification of the loops: the method returns the lattice (nodes in push order, the grid links, symmetric 4-neighbour adjacency). |
| Selection.Toggle | javascript/HunterGame.js:227-232 | A click flips the clicked id's membership, leaves every other id alone, and changes the size by one. |
| Selection.ToggleTwice | src/HunterGame.ts:168-173 | Clicking the same node twice restores the selection. |
| HunterGameJs.Spread | javascript/HunterGame.js:241-260 | Definition of the spread: every neighbour of a node that holds an unshot hare; `HunterGameJs.SpreadStep` and `HunterGameJs.SpreadOnLattice` state it. |
| HunterGameJs.SpreadNoHares | javascript/HunterGame.js:241-260 | Spreading no hares gives no hares. |
| HunterGameJs.Seed | javascript/HunterGame.js:113-121 | Definition of the constructor's hares, the even ids of the 5x5 grid; `HunterGameJs.EvenIdsStep` ties it to the loop. |
| HunterGameJs.Initial | javascript/HunterGame.js:98-121 | Definition of the constructor's state: no records, move 1, no selection, the seed. |
| HunterGameJs.SliceTo | javascript/HunterGame.js:135 | `history.slice(0, end)` is a prefix of the history; for an end within the length it has exactly that many records, and past the length it is the whole history. |
| HunterGameJs.AfterFinishMove | javascript/HunterGame.js:131-145 | Definition of the `finishMove` step with its truncation guard as written. |
| HunterGameJs.AfterPreviousMove | javascript/HunterGame.js:147-157 | Definition of the `previousMove` step, failing when the record it reads is missing. |
| HunterGameJs.AfterNextMove | javascript/HunterGame.js:159-170 | Definition of the `nextMove` step with its guard as written, failing when the record it reads is missing. |
| HunterGameJs.AfterSelectPreviousShots | javascript/HunterGame.js:172-178 | Definition of the `selectPreviousShots` step, failing when the record at the cursor is missing. |
| HunterGameJs.CursorStaysInRange | javascript/HunterGame.js:131-178 | From any state with the cursor in [1, records + 1], finish, undo and recall keep it there and undo never fails; redo keeps it there unless it starts at the live move. |
| HunterGameJs.SpreadStep | javascript/HunterGame.js:243-257 | Scanning one more node adds that node's neighbours exactly when it holds an unshot hare. |
| HunterGameJs.SpreadOnLattice | javascript/HunterGame.js:241-260 | On the lattice, a node holds a hare after the spread exactly when it neighbours an unshot hare. A shot on the node itself does not matter. |
| HunterGameJs.ShotDestinationKept | javascript/HunterGame.js:245-255 | On the 5x5 grid, a hare on node 0 runs to node 1 even though node 1 is shot. |
| HunterGameJs.SpreadIgnoresOtherShots | javascript/HunterGame.js:245-248 | Shots only matter where a hare stands: the spread equals the spread of the unshot hares with no shots. |
| HunterGameJs.EvenIdsStep | javascript/HunterGame.js:117-121 | One pass of the seeding loop adds i exactly when i is even. |
| HunterGameJs.InitialCoherent | javascript/HunterGame.js:96-121 | The constructor's state is move 1 of a timeline with no records, showing the seed. |
| HunterGameJs.FinishMoveCoherent | javascript/HunterGame.js:131-145 | From a coherent state (except move 1 with records), `finishMove` keeps one timeline. It drops the moves after the cursor, records the move, lands on the tip and clears the selection. |
| HunterGameJs.FinishMoveAtFirstMove | javascript/HunterGame.js:133-139 | At move 1 with records, `finishMove` keeps every record and appends after them, so the cursor lands on a record instead of the tip. |
| HunterGameJs.FinishAtFirstMoveBreaksTimeline | javascript/HunterGame.js:131-157 | Finish, undo, finish: the second record stores the starting hares where their spread belongs, and the history is no longer one timeline. |
| HunterGameJs.FinishAtFirstMoveCounterexample | javascript/HunterGame.js:113-157 | The same on the real 5x5 game seeded with the even ids. |
| HunterGameJs.EvenSeedSpreadsToOne | javascript/HunterGame.js:117-121 | Node 1 holds no hare at the start and receives one after the first spread. |
| HunterGameJs.PreviousMoveCoherent | javascript/HunterGame.js:147-157 | From a coherent state, `previousMove` never fails. It steps back one move, shows that record's hares, clears the selection and keeps coherence. |
| HunterGameJs.NextMoveCoherent | javascript/HunterGame.js:159-170 | Below the last record, `nextMove` steps forward and shows that record's hares and shots, keeping coherence. |
| HunterGameJs.NextMoveAtTip | javascript/HunterGame.js:159-170 | At the live move, `nextMove` moves the cursor out of range and then fails reading the missing record. |
| HunterGameJs.UndoRedo | javascript/HunterGame.js:147-170 | Undo then redo from a recorded move returns to the same move and hares, with that move's shots selected. |
| HunterGameJs.UndoRedoAtTip | javascript/HunterGame.js:147-170 | Undo then redo from the live move stops at the last record. |
| HunterGameJs.SelectPreviousShotsCoherent | javascript/HunterGame.js:172-178 | On a recorded move, recalling shots never fails and changes only the selection. |
| HunterGameJs.RecallAfterFinishFails | javascript/HunterGame.js:131-178 | Right after `finishMove`, `selectPreviousShots` reads past the last record and fails. |
| HunterGameJs.ClickCoherent | javascript/HunterGame.js:227-235 | A click changes only the selection, so it keeps coherence. |
| HunterGameJs.AfterFinishMoveFixed | javascript/HunterGame.js:131-145 | Definition of `finishMove` with the future dropped whenever the cursor is off the tip, move 1 included. |
| HunterGameJs.AfterNextMoveFixed | javascript/HunterGame.js:159-170 | Definition of `nextMove` doing nothing at the last record and at the live move. |
| HunterGameJs.AfterSelectPreviousShotsFixed | javascript/HunterGame.js:172-178 | Definition of `selectPreviousShots` reading the record at the cursor, as the source does, and doing nothing at move 1 and at the live move. |
| HunterGameJs.SelectPreviousShotsFixedAgrees | javascript/HunterGame.js:172-178 | The corrected recall equals the original wherever the original does not throw, and leaves the state alone where it throws. |
| HunterGameJs.FinishMoveFixedCoherent | javascript/HunterGame.js:131-145 | The corrected `finishMove` keeps every coherent state on one timeline and lands on the tip. |
| HunterGameJs.NextMoveFixedCoherent | javascript/HunterGame.js:159-170 | The corrected `nextMove` keeps every coherent state coherent, and agrees with the original below the last record. |
| HunterGameJs.RecallAfterFinishFixed | javascript/HunterGame.js:131-178 | Right after the corrected `finishMove`, the corrected recall leaves the state alone instead of throwing. |
| HunterGameJs.FinishUndoRecall | javascript/HunterGame.js:131-178 | Finish, undo, recall (corrected finish and recall): undo never fails, the cursor and hares are those before the finish, and the selection is the shots of the move just undone (empty at move 1). |
| HunterGameJs.GameState.constructor | javascript/HunterGame.js:96-130 | Builds the 5x5 lattice, puts hares on the even ids, and starts at move 1 with no history and no selection. |
| HunterGameJs.GameState.SpreadHairs | javascript/HunterGame.js:241-260 | Proved against the specification: the new hares are the spread of the old ones under the selection. |
| HunterGameJs.GameState.FinishMove | javascript/HunterGame.js:131-145 | The new state is the `finishMove` step of the old one. |
| HunterGameJs.GameState.PreviousMove | javascript/HunterGame.js:147-157 | The new state and the failure flag are those of the `previousMove` step. |
| HunterGameJs.GameState.NextMove | javascript/HunterGame.js:159-170 | The new state and the failure flag are those of the `nextMove` step. |
| HunterGameJs.GameState.SelectPreviousShots | javascript/HunterGame.js:172-178 | The new state and the failure flag are those of the `selectPreviousShots` step. |
| HunterGameJs.GameState.OnNodeClick | javascript/HunterGame.js:227-235 | Only the selection changes, and it is toggled at the clicked id. |
| HunterGameTs.Spread | src/HunterGame.ts:182-199 | Definition of the filtering spread: every unselected neighbour of a node that holds an unselected hare. |
| HunterGameTs.SpreadNoHares | src/HunterGame.ts:182-199 | Spreading no hares gives no hares. |
| HunterGameTs.SpreadFiltersShots | src/HunterGame.ts:182-199 | The filtering spread is the JavaScript spread minus the selection, so no hare lands on a selected node. |
| HunterGameTs.SpreadStep | src/HunterGame.ts:184-195 | Scanning one more node adds its unselected neighbours exactly when it holds an unselected hare. |
| HunterGameTs.SpreadOnLattice | src/HunterGame.ts:182-199 | On the lattice, a node holds a hare after the spread exactly when it is unselected and neighbours an unselected hare. |
| HunterGameTs.SpreadWithinGrid | src/HunterGame.ts:182-199 | Over the lattice's adjacency, hares only land on grid nodes. |
| HunterGameTs.HasNeighbour | src/HunterGame.ts:45-67 | On a grid of two or more nodes, every node has a 4-neighbour. |
| HunterGameTs.FullGridStaysFull | src/HunterGame.ts:182-199 | With nothing selected, a grid full of hares stays full. |
| HunterGameTs.StartHaresStay | src/HunterGame.ts:92-119 | The constructor's hares 0..8 are all nodes of the 3x3 grid, and its first redraw keeps them all. |
| HunterGameTs.CentreShot | src/HunterGame.ts:182-199 | Shooting the centre of the full 3x3 grid empties the centre and keeps every other node. |
| HunterGameTs.GameState.constructor | src/HunterGame.ts:85-121 | Builds the 3x3 lattice with hares 0..8 and no selection, then redraws once (one spread). |
| HunterGameTs.GameState.Redraw | src/HunterGame.ts:123-124 | The hares become the filtering spread of the old hares under the selection. |
| HunterGameTs.GameState.OnNodeClick | src/HunterGame.ts:168-176 | Toggles the clicked id, then spreads under the new selection. The hares stay on grid nodes and off the selection. |
| HunterGameTs.GameState.SpreadHairs | src/HunterGame.ts:182-199 | Proved against the specification: the new hares are the filtering spread of the old ones. |

## Left out

- Rendering is not modelled: the d3 selections and SVG elements, the force layout, zoom, `tick` and node coordinates. `redraw` in the JavaScript revision only renders, so its calls are left out there.
- The `collections` set library is not part of this model. Its sets are modelled as Dafny `set<int>`.
- String keys are not modelled. `for ... in` over an `edges` entry yields string keys, and both revisions store them back as hare ids; the model keeps integer ids throughout.
- The order of `for ... in` over an `edges` entry is left open: the loops pick any remaining neighbour, so the result is proved for every order.
- Aliasing between a recorded move and the live state is not modelled; `Move` and the live sets are values here. `Move` copies its sets (`javascript/HunterGame.js:70-76`), but `previousMove` (`:153`), `nextMove` (`:166-167`) and `selectPreviousShots` (`:176`) hand a record's very sets to the live state. The `clear()` calls at `:142` and `:154` and the in-place `remove`/`add` of `onNodeClick` (`:229-231`) then rewrite that record's shots. The hares are not affected, since `spreadHairs` replaces the live hare set instead of changing it.
- HunterGameJs.UndoRedo: in the source, redo after undo selects the empty set, not the move's shots: reaching move k by `nextMove` makes the selection the record's shot set itself, and the `clear()` of the undo (`javascript/HunterGame.js:154`) empties it inside the record.
- HunterGameJs.NextMoveCoherent: "that record's shots" are the record's shots as last left by the live selection, which clicks and `clear()` may have changed since the record was made.
- HunterGameJs.SelectPreviousShotsCoherent: the recalled selection is the record's own set, so later clicks and `clear()` change the record, and the recalled shots are those as last left by the live selection.
- Validation is not modelled: the source checks neither the grid size nor the clicked id.
- Grid.CreateMatrix: its postcondition states the nodes in push order, the set of links and the adjacency, but not the order in which links are pushed. `Grid.WiredFacts` states that order about the functional model `Matrix`.

## Findings

| source | as written | input that shows it | evidently intended | confidence | as-written member | corrected member |
|---|---|---|---|---|---|---|
| javascript/HunterGame.js:160 | `nextMove` returns early only when `moveNumber` equals the history length | finish one move (history of 1, cursor 2), then `nextMove`: the cursor goes to 3 and reading record 3 throws a TypeError | redo does nothing at the last record and at the live move | not executed | HunterGameJs.NextMoveAtTip | HunterGameJs.NextMoveFixedCoherent |
| javascript/HunterGame.js:176 | `selectPreviousShots` reads `history[moveNumber - 1]` with only a move-1 guard | finish one move, then `selectPreviousShots`: the cursor is 2 and record index 1 does not exist, so it throws | keep reading the record at the cursor, and do nothing at the live move as at move 1 | not executed | HunterGameJs.RecallAfterFinishFails | HunterGameJs.RecallAfterFinishFixed |
| javascript/HunterGame.js:133 | `finishMove` truncates only when `moveNumber != 1` as well as off the tip | finish, undo to move 1, finish again: the history becomes two copies of the first move, and redo to move 2 shows the unspread seed | truncate every future move before committing, move 1 included | not executed | HunterGameJs.FinishAtFirstMoveCounterexample | HunterGameJs.FinishMoveFixedCoherent |
