/**
 * The JavaScript revision of the game (javascript/HunterGame.js): a 5x5
 * grid seeded with hares on the even ids, a hunter who selects nodes to
 * shoot, `finishMove` which records the move and spreads the hares, and an
 * undo/redo history of recorded moves with a 1-based cursor `moveNumber`.
 *
 * The turn logic is given twice: as step functions on a `Game` value that
 * say what each handler does to the state, and as the class `GameState`
 * whose methods update fields in place and are proved to follow those
 * functions. Lemmas about the step functions state what the history
 * promises (one timeline from the seed, undo/redo round trips) and where
 * the handlers as written break it.
 */
module HunterGameJs {
  import opened Grid
  import opened Selection

  /** Width and height passed to `createMatrix` by the constructor. */
  const MatrixWidth := 5
  const MatrixHeight := 5

  /**
   * A recorded move: the hares before the spread and the nodes shot.
   * The constructor copies both sets, but `previousMove`, `nextMove` and
   * `selectPreviousShots` then hand a record's very sets to the live state,
   * so a later `clear()`, `add` or `remove` on the live selection rewrites
   * that record's shots. Sets here are values, so that aliasing is not
   * modelled.
   */
  datatype Move = Move(hares: set<int>, shots: set<int>)

  /** The fields of `GameState` that the turn logic reads and writes. */
  datatype Game = Game(history: seq<Move>, moveNumber: int, selected: set<int>, hares: set<int>)

  /**
   * The state a handler leaves behind, and whether it stopped half-way with
   * a TypeError (reading `.hares` or `.shots` of a history slot past the end).
   */
  datatype Outcome = Outcome(game: Game, typeError: bool)

  // ---------------------------------------------------------------------
  // Spreading the hares
  // ---------------------------------------------------------------------

  /**
   * `spreadHairs` over the nodes listed in `nodes`: every hare that was not
   * shot moves to all neighbours of its node. Destinations that are
   * themselves selected are kept.
   */
  ghost function Spread(nodes: seq<int>, edges: map<int, set<int>>, hares: set<int>, shots: set<int>): set<int>
  {
    set v, u | v in nodes && v in hares && v !in shots && u in Neighbours(edges, v) :: u
  }

  /** Adding node i to the scanned prefix adds that node's neighbours when it holds a live hare. */
  lemma SpreadStep(nodes: seq<int>, edges: map<int, set<int>>, hares: set<int>, shots: set<int>, i: int)
    requires 0 <= i < |nodes|
    ensures Spread(nodes[..i + 1], edges, hares, shots) ==
            Spread(nodes[..i], edges, hares, shots) +
            (if nodes[i] in hares && nodes[i] !in shots then Neighbours(edges, nodes[i]) else {})
  {
    var extra := if nodes[i] in hares && nodes[i] !in shots then Neighbours(edges, nodes[i]) else {};
    forall u
      ensures u in Spread(nodes[..i + 1], edges, hares, shots) <==> u in Spread(nodes[..i], edges, hares, shots) + extra
    {
      if u in Spread(nodes[..i + 1], edges, hares, shots) {
        var v :| v in nodes[..i + 1] && v in hares && v !in shots && u in Neighbours(edges, v);
        if v != nodes[i] {
          assert v in nodes[..i];
        }
      }
      if u in Spread(nodes[..i], edges, hares, shots) {
        var v :| v in nodes[..i] && v in hares && v !in shots && u in Neighbours(edges, v);
        assert v in nodes[..i + 1];
      }
      if u in extra {
        assert nodes[i] in nodes[..i + 1];
      }
    }
  }

  /**
   * On a grid built by `createMatrix(n, m)`, a node holds a hare after the
   * spread exactly when it is a 4-neighbour of a hare that was not shot;
   * whether the node itself is shot does not matter.
   */
  lemma SpreadOnLattice(n: int, m: int, g: Graph, hares: set<int>, shots: set<int>, u: int)
    requires Lattice(n, m, g)
    ensures u in Spread(g.nodes, g.edges, hares, shots) <==>
            exists v :: v in hares && v !in shots && Adjacent(n, m, v, u)
  {
    if exists v :: v in hares && v !in shots && Adjacent(n, m, v, u) {
      var v :| v in hares && v !in shots && Adjacent(n, m, v, u);
      AdjacentNodes(n, m, v, u);
      assert v in g.nodes && u in Neighbours(g.edges, v);
    }
  }

  /** A shot on a destination node does not stop hares from moving onto it. */
  lemma ShotDestinationKept(g: Graph)
    requires Lattice(MatrixWidth, MatrixHeight, g)
    ensures 1 in Spread(g.nodes, g.edges, {0}, {1})
  {
    SpreadOnLattice(MatrixWidth, MatrixHeight, g, {0}, {1}, 1);
    assert Adjacent(MatrixWidth, MatrixHeight, 0, 1);
  }

  /** Spreading no hares gives no hares. */
  lemma SpreadNoHares(nodes: seq<int>, edges: map<int, set<int>>, shots: set<int>)
    ensures Spread(nodes, edges, {}, shots) == {}
  {
  }

  /** The selection only removes the hares standing on it: shooting elsewhere changes nothing. */
  lemma SpreadIgnoresOtherShots(nodes: seq<int>, edges: map<int, set<int>>, hares: set<int>, shots: set<int>)
    ensures Spread(nodes, edges, hares, shots) == Spread(nodes, edges, hares, shots * hares)
    ensures Spread(nodes, edges, hares, shots) == Spread(nodes, edges, hares - shots, {})
  {
  }

  // ---------------------------------------------------------------------
  // The handlers, as written
  // ---------------------------------------------------------------------

  /** The even ids in [0, i). */
  function EvenIdsBelow(i: int): set<int>
  {
    set k | 0 <= k < i && k % 2 == 0
  }

  /** Where the constructor puts the hares: the even ids of the 5x5 grid. */
  function Seed(): set<int>
  {
    EvenIdsBelow(MatrixHeight * MatrixWidth)
  }

  lemma EvenIdsStep(i: int)
    requires i >= 0
    ensures EvenIdsBelow(i + 1) == EvenIdsBelow(i) + (if i % 2 == 0 then {i} else {})
  {
    var below, next := EvenIdsBelow(i), EvenIdsBelow(i + 1);
    forall k | k in next
      ensures k in below + (if i % 2 == 0 then {i} else {})
    {
      if k < i {
        assert k in EvenIdsBelow(i);
      }
    }
  }

  /** The state the constructor leaves: no history, move 1, nothing selected. */
  function Initial(): Game
  {
    Game([], 1, {}, Seed())
  }

  /** `history.slice(0, end)`: a negative end counts from the back, a large one stops at the length. */
  function SliceTo(history: seq<Move>, end: int): (r: seq<Move>)
    ensures |r| <= |history| && r == history[..|r|]
    ensures 0 <= end <= |history| ==> |r| == end
    ensures end > |history| ==> r == history
  {
    if end < 0 then history[..if |history| + end > 0 then |history| + end else 0]
    else history[..if end < |history| then end else |history|]
  }

  /**
   * `finishMove`: drop the moves after the cursor unless the cursor is at
   * the tip or at move 1, record the current move, advance, spread the
   * hares and clear the selection.
   */
  ghost function AfterFinishMove(g: Graph, s: Game): Game
  {
    var kept := if |s.history| + 1 != s.moveNumber && s.moveNumber != 1
                then SliceTo(s.history, s.moveNumber - 1) else s.history;
    Game(kept + [Move(s.hares, s.selected)], s.moveNumber + 1, {}, Spread(g.nodes, g.edges, s.hares, s.selected))
  }

  /** `previousMove`: step the cursor back and show the recorded hares of that move. */
  function AfterPreviousMove(s: Game): Outcome
  {
    if s.moveNumber == 1 then Outcome(s, false)
    else
      var k := s.moveNumber - 1;
      if 0 <= k - 1 < |s.history| then Outcome(Game(s.history, k, {}, s.history[k - 1].hares), false)
      else Outcome(s.(moveNumber := k), true)
  }

  /** `nextMove`: unless the cursor equals the history length, step it forward and show that record. */
  function AfterNextMove(s: Game): Outcome
  {
    if s.moveNumber == |s.history| then Outcome(s, false)
    else
      var k := s.moveNumber + 1;
      if 0 <= k - 1 < |s.history| then Outcome(Game(s.history, k, s.history[k - 1].shots, s.history[k - 1].hares), false)
      else Outcome(s.(moveNumber := k), true)
  }

  /** `selectPreviousShots`: unless at move 1, select the shots recorded at index moveNumber - 1. */
  function AfterSelectPreviousShots(s: Game): Outcome
  {
    if s.moveNumber == 1 then Outcome(s, false)
    else if 0 <= s.moveNumber - 1 < |s.history| then Outcome(s.(selected := s.history[s.moveNumber - 1].shots), false)
    else Outcome(s, true)
  }

  // ---------------------------------------------------------------------
  // What the history promises
  // ---------------------------------------------------------------------

  /** The cursor names a recorded move or the live move just past the last record. */
  predicate CursorInRange(s: Game)
  {
    1 <= s.moveNumber <= |s.history| + 1
  }

  /** The hares that follow a sequence of moves: the seed, or the spread of the last move. */
  ghost function After(g: Graph, seed: set<int>, history: seq<Move>): set<int>
  {
    if |history| == 0 then seed
    else Spread(g.nodes, g.edges, history[|history| - 1].hares, history[|history| - 1].shots)
  }

  /** The history is one game from the seed: each record starts from where the ones before it lead. */
  ghost predicate Timeline(g: Graph, seed: set<int>, history: seq<Move>)
  {
    forall k :: 0 <= k < |history| ==> history[k].hares == After(g, seed, history[..k])
  }

  /** The cursor is in range, the history is one timeline, and the shown hares are those at the cursor. */
  ghost predicate Coherent(g: Graph, seed: set<int>, s: Game)
  {
    CursorInRange(s) && Timeline(g, seed, s.history) &&
    s.hares == After(g, seed, s.history[..s.moveNumber - 1])
  }

  lemma TimelinePrefix(g: Graph, seed: set<int>, history: seq<Move>, k: int)
    requires Timeline(g, seed, history) && 0 <= k <= |history|
    ensures Timeline(g, seed, history[..k])
  {
    forall i | 0 <= i < k
      ensures history[..k][i].hares == After(g, seed, history[..k][..i])
    {
      assert history[..k][..i] == history[..i];
    }
  }

  lemma TimelineSnoc(g: Graph, seed: set<int>, history: seq<Move>, m: Move)
    requires Timeline(g, seed, history) && m.hares == After(g, seed, history)
    ensures Timeline(g, seed, history + [m])
  {
    var h := history + [m];
    forall i | 0 <= i < |h|
      ensures h[i].hares == After(g, seed, h[..i])
    {
      assert h[..i] == if i < |history| then history[..i] else history;
    }
  }

  /**
   * Every handler as written keeps the cursor in range from any state with
   * the cursor in range, coherent or not; `previousMove` never fails there,
   * and `nextMove` keeps it in range unless it starts at the live move.
   */
  lemma CursorStaysInRange(g: Graph, s: Game)
    requires CursorInRange(s)
    ensures CursorInRange(AfterFinishMove(g, s))
    ensures !AfterPreviousMove(s).typeError && CursorInRange(AfterPreviousMove(s).game)
    ensures CursorInRange(AfterSelectPreviousShots(s).game)
    ensures s.moveNumber <= |s.history| ==> CursorInRange(AfterNextMove(s).game)
  {
  }

  /** The constructor's state is coherent with its own seed. */
  lemma InitialCoherent(g: Graph)
    ensures Coherent(g, Seed(), Initial())
  {
  }

  /**
   * From a coherent state, `finishMove` keeps the history one timeline and
   * lands on the tip, except at move 1 with a non-empty history (see
   * `FinishAtFirstMoveCounterexample`).
   */
  lemma FinishMoveCoherent(g: Graph, seed: set<int>, s: Game)
    requires Coherent(g, seed, s) && (s.moveNumber != 1 || |s.history| == 0)
    ensures var r := AfterFinishMove(g, s);
            Coherent(g, seed, r) && r.moveNumber == |r.history| + 1 && r.selected == {} &&
            r.history == s.history[..s.moveNumber - 1] + [Move(s.hares, s.selected)]
  {
    var p := s.history[..s.moveNumber - 1];
    assert AfterFinishMove(g, s).history == p + [Move(s.hares, s.selected)];
    TimelinePrefix(g, seed, s.history, s.moveNumber - 1);
    TimelineSnoc(g, seed, p, Move(s.hares, s.selected));
    var h := p + [Move(s.hares, s.selected)];
    assert h[..|h|] == h;
  }

  /** At move 1 with moves recorded, `finishMove` keeps them all and appends after them. */
  lemma FinishMoveAtFirstMove(g: Graph, s: Game)
    requires s.moveNumber == 1 && |s.history| > 0
    ensures var r := AfterFinishMove(g, s);
            r.history == s.history + [Move(s.hares, s.selected)] && r.moveNumber == 2 &&
            r.moveNumber <= |r.history|
  {
  }

  /**
   * Finish a move, undo it, finish again: the second record stores the
   * starting hares, while redoing to move 2 should show their spread.
   */
  lemma FinishAtFirstMoveBreaksTimeline(g: Graph, seed: set<int>)
    requires After(g, seed, [Move(seed, {})]) != seed
    ensures var s2 := AfterPreviousMove(AfterFinishMove(g, Game([], 1, {}, seed))).game;
            var s3 := AfterFinishMove(g, s2);
            Coherent(g, seed, s2) && s3.history[1].hares == seed && !Coherent(g, seed, s3)
  {
    var m := Move(seed, {});
    var s1 := AfterFinishMove(g, Game([], 1, {}, seed));
    assert s1.history == [m] && s1.moveNumber == 2;
    var s2 := AfterPreviousMove(s1).game;
    assert s2 == Game([m], 1, {}, seed);
    assert [m][..0] == [];
    var s3 := AfterFinishMove(g, s2);
    assert s3.history == [m, m];
    assert s3.history[..1] == [m];
  }

  /** The same in the real game: 5x5 grid, hares on the even ids. */
  lemma FinishAtFirstMoveCounterexample(g: Graph)
    requires Lattice(MatrixWidth, MatrixHeight, g)
    ensures var s2 := AfterPreviousMove(AfterFinishMove(g, Initial())).game;
            var s3 := AfterFinishMove(g, s2);
            Coherent(g, Seed(), s2) && s3.history[1].hares == Seed() && !Coherent(g, Seed(), s3)
  {
    EvenSeedSpreadsToOne(MatrixWidth, MatrixHeight, g);
    FinishAtFirstMoveBreaksTimeline(g, Seed());
  }

  /** On a grid at least two nodes wide seeded with the even ids, node 1 starts empty and is reached by the first spread. */
  lemma EvenSeedSpreadsToOne(n: int, m: int, g: Graph)
    requires n >= 2 && m >= 1 && Lattice(n, m, g)
    ensures 1 !in EvenIdsBelow(n * m)
    ensures 1 in Spread(g.nodes, g.edges, EvenIdsBelow(n * m), {})
  {
    MulAtLeast(n, m);
    assert 0 in EvenIdsBelow(n * m);
    SpreadOnLattice(n, m, g, EvenIdsBelow(n * m), {}, 1);
    assert Adjacent(n, m, 0, 1);
  }

  /** `previousMove` from a coherent state never fails, and shows the record one move back. */
  lemma PreviousMoveCoherent(g: Graph, seed: set<int>, s: Game)
    requires Coherent(g, seed, s)
    ensures var r := AfterPreviousMove(s);
            !r.typeError && Coherent(g, seed, r.game) && r.game.history == s.history &&
            (s.moveNumber > 1 ==> r.game.moveNumber == s.moveNumber - 1 && r.game.selected == {} &&
                                  r.game.hares == s.history[s.moveNumber - 2].hares)
  {
    if s.moveNumber > 1 {
      var k := s.moveNumber - 1;
      assert s.history[..k - 1] == s.history[..k][..k - 1];
    }
  }

  /** `nextMove` strictly below the last record never fails and moves one step forward. */
  lemma NextMoveCoherent(g: Graph, seed: set<int>, s: Game)
    requires Coherent(g, seed, s) && s.moveNumber < |s.history|
    ensures var r := AfterNextMove(s);
            !r.typeError && Coherent(g, seed, r.game) && r.game.history == s.history &&
            r.game.moveNumber == s.moveNumber + 1 &&
            r.game.hares == s.history[s.moveNumber].hares && r.game.selected == s.history[s.moveNumber].shots
  {
  }

  /**
   * `nextMove` at the live move (cursor one past the last record) moves the
   * cursor out of range and then fails reading the missing record.
   */
  lemma NextMoveAtTip(s: Game)
    requires s.moveNumber == |s.history| + 1
    ensures var r := AfterNextMove(s);
            r.typeError && r.game.moveNumber == |s.history| + 2 && !CursorInRange(r.game) &&
            r.game.hares == s.hares && r.game.selected == s.selected
  {
  }

  /** Undo then redo from a recorded move comes back to the same move and hares, showing its shots. */
  lemma UndoRedo(g: Graph, seed: set<int>, s: Game)
    requires Coherent(g, seed, s) && 2 <= s.moveNumber <= |s.history|
    ensures var r := AfterNextMove(AfterPreviousMove(s).game);
            !r.typeError && r.game == s.(selected := s.history[s.moveNumber - 1].shots)
  {
    assert s.hares == s.history[s.moveNumber - 1].hares;
  }

  /** Undo then redo from the live move stops one move short: redo is a no-op at the last record. */
  lemma UndoRedoAtTip(g: Graph, seed: set<int>, s: Game)
    requires Coherent(g, seed, s) && s.moveNumber == |s.history| + 1 >= 2
    ensures var r := AfterNextMove(AfterPreviousMove(s).game);
            !r.typeError && r.game.moveNumber == s.moveNumber - 1 &&
            r.game.hares == s.history[|s.history| - 1].hares
  {
  }

  /** Recalling shots changes only the selection, and never fails on a recorded move. */
  lemma SelectPreviousShotsCoherent(g: Graph, seed: set<int>, s: Game)
    requires Coherent(g, seed, s) && s.moveNumber <= |s.history|
    ensures var r := AfterSelectPreviousShots(s);
            !r.typeError && Coherent(g, seed, r.game) &&
            r.game == s.(selected := if s.moveNumber == 1 then s.selected else s.history[s.moveNumber - 1].shots)
  {
  }

  /** Right after `finishMove` the cursor is at the tip, so recalling the shots just used fails. */
  lemma RecallAfterFinishFails(g: Graph, seed: set<int>, s: Game)
    requires Coherent(g, seed, s) && (s.moveNumber != 1 || |s.history| == 0)
    ensures AfterSelectPreviousShots(AfterFinishMove(g, s)).typeError
  {
    FinishMoveCoherent(g, seed, s);
  }

  /** A click changes only the selection, so it keeps the state coherent. */
  lemma ClickCoherent(g: Graph, seed: set<int>, s: Game, id: int)
    requires Coherent(g, seed, s)
    ensures Coherent(g, seed, s.(selected := Toggle(s.selected, id)))
  {
  }

  // ---------------------------------------------------------------------
  // The handlers as evidently intended
  // ---------------------------------------------------------------------

  /** `finishMove` that drops the moves after the cursor whenever there are any, move 1 included. */
  ghost function AfterFinishMoveFixed(g: Graph, s: Game): Game
  {
    var kept := if |s.history| + 1 != s.moveNumber then SliceTo(s.history, s.moveNumber - 1) else s.history;
    Game(kept + [Move(s.hares, s.selected)], s.moveNumber + 1, {}, Spread(g.nodes, g.edges, s.hares, s.selected))
  }

  /** `nextMove` that does nothing at the last record and at the live move. */
  function AfterNextMoveFixed(s: Game): Game
  {
    if !(0 <= s.moveNumber < |s.history|) then s
    else Game(s.history, s.moveNumber + 1, s.history[s.moveNumber].shots, s.history[s.moveNumber].hares)
  }

  /**
   * `selectPreviousShots` that still selects the shots recorded at the
   * cursor, but does nothing where there is no record there: at move 1, as
   * the source's guard does, and at the live move past the last record.
   */
  function AfterSelectPreviousShotsFixed(s: Game): Game
  {
    if s.moveNumber == 1 || !(0 <= s.moveNumber - 1 < |s.history|) then s
    else s.(selected := s.history[s.moveNumber - 1].shots)
  }

  /** From every coherent state the corrected `finishMove` keeps one timeline and lands on the tip. */
  lemma FinishMoveFixedCoherent(g: Graph, seed: set<int>, s: Game)
    requires Coherent(g, seed, s)
    ensures var r := AfterFinishMoveFixed(g, s);
            Coherent(g, seed, r) && r.moveNumber == |r.history| + 1 &&
            r.history == s.history[..s.moveNumber - 1] + [Move(s.hares, s.selected)]
  {
    var p := s.history[..s.moveNumber - 1];
    assert AfterFinishMoveFixed(g, s).history == p + [Move(s.hares, s.selected)];
    TimelinePrefix(g, seed, s.history, s.moveNumber - 1);
    TimelineSnoc(g, seed, p, Move(s.hares, s.selected));
    var h := p + [Move(s.hares, s.selected)];
    assert h[..|h|] == h;
  }

  /** The corrected `nextMove` keeps every coherent state coherent. */
  lemma NextMoveFixedCoherent(g: Graph, seed: set<int>, s: Game)
    requires Coherent(g, seed, s)
    ensures Coherent(g, seed, AfterNextMoveFixed(s))
    ensures s.moveNumber < |s.history| ==> AfterNextMoveFixed(s) == AfterNextMove(s).game
  {
  }

  /**
   * The corrected recall never fails: it does what the source does wherever
   * the source does not throw, and nothing where it throws.
   */
  lemma SelectPreviousShotsFixedAgrees(s: Game)
    ensures var r := AfterSelectPreviousShots(s);
            AfterSelectPreviousShotsFixed(s) == if r.typeError then s else r.game
  {
  }

  /** Right after the corrected `finishMove`, the corrected recall leaves the state alone instead of failing. */
  lemma RecallAfterFinishFixed(g: Graph, s: Game)
    requires CursorInRange(s)
    ensures var f := AfterFinishMoveFixed(g, s);
            AfterSelectPreviousShotsFixed(f) == f
  {
    var f := AfterFinishMoveFixed(g, s);
    assert |f.history| == s.moveNumber;
  }

  /**
   * Finish, undo, recall: the recall selects again the shots of the move
   * just undone, the record at the cursor (at move 1 there is none to recall
   * and the selection stays cleared).
   */
  lemma FinishUndoRecall(g: Graph, s: Game)
    requires CursorInRange(s)
    ensures var u := AfterPreviousMove(AfterFinishMoveFixed(g, s));
            var r := AfterSelectPreviousShotsFixed(u.game);
            !u.typeError && r.moveNumber == s.moveNumber && r.hares == s.hares &&
            r.selected == if s.moveNumber == 1 then {} else s.selected
  {
    var f := AfterFinishMoveFixed(g, s);
    assert |f.history| == s.moveNumber;
    assert f.history[s.moveNumber - 1] == Move(s.hares, s.selected);
  }

  // ---------------------------------------------------------------------
  // The game object
  // ---------------------------------------------------------------------

  /** `GameState`: the grid, the history, the cursor, the selection and the hares. */
  class GameState {
    const g: Graph
    var history: seq<Move>
    var moveNumber: int
    var selectedNodes: set<int>
    var possibleHares: set<int>

    /** The turn-logic fields as a value. */
    function Model(): Game
      reads this
    {
      Game(history, moveNumber, selectedNodes, possibleHares)
    }

    /** The cursor never drops below move 1. */
    ghost predicate Valid()
      reads this
    {
      moveNumber >= 1
    }

    /** The constructor: a 5x5 grid, hares on every even id, no history. */
    constructor ()
      ensures Valid() && Model() == Initial() && Lattice(MatrixWidth, MatrixHeight, g)
    {
      var matrixHeight, matrixWidth := MatrixHeight, MatrixWidth;
      var grid := CreateMatrix(matrixWidth, matrixHeight);
      g := grid;
      var hares: set<int> := {};
      var i := 0;
      while i < matrixHeight * matrixWidth
        invariant 0 <= i <= matrixHeight * matrixWidth
        invariant hares == EvenIdsBelow(i)
      {
        EvenIdsStep(i);
        if i % 2 == 0 {
          hares := hares + {i};
        }
        i := i + 1;
      }
      history := [];
      moveNumber := 1;
      selectedNodes := {};
      possibleHares := hares;
    }

    /** `spreadHairs`: scan the nodes in order and collect the neighbours of every unshot hare. */
    method SpreadHairs()
      modifies this`possibleHares
      ensures possibleHares == Spread(g.nodes, g.edges, old(possibleHares), selectedNodes)
    {
      var updatedHares: set<int> := {};
      var i := 0;
      while i < |g.nodes|
        invariant 0 <= i <= |g.nodes|
        invariant possibleHares == old(possibleHares)
        invariant updatedHares == Spread(g.nodes[..i], g.edges, possibleHares, selectedNodes)
      {
        var id := g.nodes[i];
        SpreadStep(g.nodes, g.edges, possibleHares, selectedNodes, i);
        if id in possibleHares {
          if id !in selectedNodes {
            var adjacentNodes := Neighbours(g.edges, id);
            var rest := adjacentNodes;
            while rest != {}
              invariant possibleHares == old(possibleHares)
              invariant rest <= adjacentNodes
              invariant updatedHares == Spread(g.nodes[..i], g.edges, possibleHares, selectedNodes) + (adjacentNodes - rest)
              decreases rest
            {
              NonEmptyHasMember(rest);
              var adjacentId :| adjacentId in rest;
              updatedHares := updatedHares + {adjacentId};
              rest := rest - {adjacentId};
            }
          }
        }
        i := i + 1;
      }
      assert g.nodes[..|g.nodes|] == g.nodes;
      possibleHares := updatedHares;
    }

    /** `finishMove`. */
    method FinishMove()
      requires Valid()
      modifies this
      ensures Valid() && Model() == AfterFinishMove(g, old(Model()))
    {
      var move := Move(possibleHares, selectedNodes);
      if |history| + 1 != moveNumber && moveNumber != 1 {
        // drop following steps
        history := SliceTo(history, moveNumber - 1);
      }
      history := history + [move];
      moveNumber := moveNumber + 1;
      SpreadHairs();
      selectedNodes := {};
    }

    /** `previousMove`; `ok` is false where the source raises a TypeError. */
    method PreviousMove() returns (ok: bool)
      requires Valid()
      modifies this
      ensures Valid() && Model() == AfterPreviousMove(old(Model())).game
      ensures ok == !AfterPreviousMove(old(Model())).typeError
    {
      if moveNumber == 1 {
        return true;
      }
      moveNumber := moveNumber - 1;
      if !(0 <= moveNumber - 1 < |history|) {
        return false;
      }
      var move := history[moveNumber - 1];
      possibleHares := move.hares;
      selectedNodes := {};
      return true;
    }

    /** `nextMove`; `ok` is false where the source raises a TypeError. */
    method NextMove() returns (ok: bool)
      requires Valid()
      modifies this
      ensures Valid() && Model() == AfterNextMove(old(Model())).game
      ensures ok == !AfterNextMove(old(Model())).typeError
    {
      if moveNumber == |history| {
        return true;
      }
      moveNumber := moveNumber + 1;
      if !(0 <= moveNumber - 1 < |history|) {
        return false;
      }
      var move := history[moveNumber - 1];
      possibleHares := move.hares;
      selectedNodes := move.shots;
      return true;
    }

    /** `selectPreviousShots`; `ok` is false where the source raises a TypeError. */
    method SelectPreviousShots() returns (ok: bool)
      requires Valid()
      modifies this
      ensures Valid() && Model() == AfterSelectPreviousShots(old(Model())).game
      ensures ok == !AfterSelectPreviousShots(old(Model())).typeError
    {
      if moveNumber == 1 {
        return true;
      }
      if !(0 <= moveNumber - 1 < |history|) {
        return false;
      }
      selectedNodes := history[moveNumber - 1].shots;
      return true;
    }

    /** `onNodeClick`: toggle the clicked node in the selection; nothing else changes. */
    method OnNodeClick(id: int)
      requires Valid()
      modifies this
      ensures Valid() && Model() == old(Model()).(selected := Toggle(old(selectedNodes), id))
    {
      if id in selectedNodes {
        selectedNodes := selectedNodes - {id};
      } else {
        selectedNodes := selectedNodes + {id};
      }
    }
  }
}
