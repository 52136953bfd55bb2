/**
 * The TypeScript revision of the game (src/HunterGame.ts): a 3x3 grid that
 * starts with a hare on every node, no history, and a redraw after every
 * click that spreads the hares away from the selection. Unlike the
 * JavaScript revision, the spread also keeps hares off the selected nodes.
 */
module HunterGameTs {
  import opened Grid
  import opened Selection
  import HunterGameJs

  /** Width and height passed to `createMatrix` by the constructor. */
  const MatrixSize := 3

  /** The hares the constructor sets before its first redraw: nodes 0 to 8. */
  const StartHares: set<int> := {0, 1, 2, 3, 4, 5, 6, 7, 8}

  /** The ids of all nodes of an n by m grid (the explicit bound lets Dafny see the set is finite). */
  function AllNodes(n: int, m: int): set<int>
  {
    set x | 0 <= x < n * m && IsNode(n, m, x)
  }

  /**
   * `spreadHairs`: every hare not on a selected node moves to all of its
   * neighbours that are not selected either.
   */
  ghost function Spread(nodes: seq<int>, edges: map<int, set<int>>, hares: set<int>, shots: set<int>): set<int>
  {
    set v, u | v in nodes && v in hares && v !in shots && u in Neighbours(edges, v) && u !in shots :: u
  }

  /** Spreading no hares gives no hares. */
  lemma SpreadNoHares(nodes: seq<int>, edges: map<int, set<int>>, shots: set<int>)
    ensures Spread(nodes, edges, {}, shots) == {}
  {
  }

  /** This spread is the JavaScript one with the selected nodes taken out, so no hare lands on a shot. */
  lemma SpreadFiltersShots(nodes: seq<int>, edges: map<int, set<int>>, hares: set<int>, shots: set<int>)
    ensures Spread(nodes, edges, hares, shots) == HunterGameJs.Spread(nodes, edges, hares, shots) - shots
    ensures Spread(nodes, edges, hares, shots) !! shots
  {
  }

  /** Adding node i to the scanned prefix adds its unselected neighbours when it holds a live hare. */
  lemma SpreadStep(nodes: seq<int>, edges: map<int, set<int>>, hares: set<int>, shots: set<int>, i: int)
    requires 0 <= i < |nodes|
    ensures Spread(nodes[..i + 1], edges, hares, shots) ==
            Spread(nodes[..i], edges, hares, shots) +
            (if nodes[i] in hares && nodes[i] !in shots then Neighbours(edges, nodes[i]) - shots else {})
  {
    HunterGameJs.SpreadStep(nodes, edges, hares, shots, i);
    SpreadFiltersShots(nodes[..i + 1], edges, hares, shots);
    SpreadFiltersShots(nodes[..i], edges, hares, shots);
  }

  /**
   * On the grid of `createMatrix(n, m)`, a node holds a hare after the
   * spread exactly when it is not selected and is a 4-neighbour of a hare
   * that was not selected.
   */
  lemma SpreadOnLattice(n: int, m: int, g: Graph, hares: set<int>, shots: set<int>, u: int)
    requires Lattice(n, m, g)
    ensures u in Spread(g.nodes, g.edges, hares, shots) <==>
            u !in shots && exists v :: v in hares && v !in shots && Adjacent(n, m, v, u)
  {
    HunterGameJs.SpreadOnLattice(n, m, g, hares, shots, u);
    SpreadFiltersShots(g.nodes, g.edges, hares, shots);
  }

  /** Over an adjacency map of the lattice, hares only ever land on grid nodes. */
  lemma SpreadWithinGrid(n: int, m: int, nodes: seq<int>, edges: map<int, set<int>>, hares: set<int>, shots: set<int>)
    requires LatticeEdges(n, m, edges)
    ensures forall u :: u in Spread(nodes, edges, hares, shots) ==> IsNode(n, m, u)
  {
    forall u | u in Spread(nodes, edges, hares, shots)
      ensures IsNode(n, m, u)
    {
      var v :| v in nodes && v in hares && v !in shots && u in Neighbours(edges, v) && u !in shots;
      AdjacentNodes(n, m, v, u);
    }
  }

  /** On a grid of two or more nodes every node has a neighbour. */
  lemma HasNeighbour(n: int, m: int, u: int)
    requires IsNode(n, m, u) && (n >= 2 || m >= 2)
    ensures exists v :: Adjacent(n, m, v, u)
  {
    if n >= 2 {
      var q, r := u / n, u % n;
      assert u == n * q + r;
      if r < n - 1 {
        assert GridLink(n, m, u, u + 1);
        assert Adjacent(n, m, u + 1, u);
      } else {
        ColumnRow(n, n - 2, q);
        assert u - 1 == Id(n, n - 2, q);
        assert GridLink(n, m, u - 1, u);
        assert Adjacent(n, m, u - 1, u);
      }
    } else if u + 1 < m {
      assert n == 1 && n * m == m;
      assert GridLink(n, m, u, u + 1);
      assert Adjacent(n, m, u + 1, u);
    } else {
      assert n == 1 && n * m == m;
      assert GridLink(n, m, u - 1, u);
      assert Adjacent(n, m, u - 1, u);
    }
  }

  /** With nothing selected, a grid full of hares stays full: every node is some hare's neighbour. */
  lemma FullGridStaysFull(n: int, m: int, g: Graph)
    requires n >= 1 && m >= 1 && (n >= 2 || m >= 2) && Lattice(n, m, g)
    ensures Spread(g.nodes, g.edges, AllNodes(n, m), {}) == AllNodes(n, m)
  {
    var all := AllNodes(n, m);
    forall u
      ensures u in Spread(g.nodes, g.edges, all, {}) <==> u in all
    {
      SpreadOnLattice(n, m, g, all, {}, u);
      if u in all {
        HasNeighbour(n, m, u);
        var v :| Adjacent(n, m, v, u);
        AdjacentNodes(n, m, v, u);
      }
      if exists v :: v in all && Adjacent(n, m, v, u) {
        var v :| v in all && Adjacent(n, m, v, u);
        AdjacentNodes(n, m, v, u);
      }
    }
  }

  /** The constructor's hares are all the nodes of the 3x3 grid, and its first redraw keeps them all. */
  lemma StartHaresStay(g: Graph)
    requires Lattice(MatrixSize, MatrixSize, g)
    ensures StartHares == AllNodes(MatrixSize, MatrixSize)
    ensures Spread(g.nodes, g.edges, StartHares, {}) == StartHares
  {
    forall x | x in AllNodes(MatrixSize, MatrixSize)
      ensures x in StartHares
    {
      assert 0 <= x < 9;
    }
    FullGridStaysFull(MatrixSize, MatrixSize, g);
  }

  /**
   * Shooting the centre of the full 3x3 grid kills its hare and keeps hares
   * off it, while every other node is still reached from a live neighbour.
   */
  lemma CentreShot(g: Graph)
    requires Lattice(MatrixSize, MatrixSize, g)
    ensures Spread(g.nodes, g.edges, StartHares, {4}) == StartHares - {4}
  {
    forall u
      ensures u in Spread(g.nodes, g.edges, StartHares, {4}) <==> u in StartHares - {4}
    {
      SpreadOnLattice(MatrixSize, MatrixSize, g, StartHares, {4}, u);
      if u in StartHares - {4} {
        var w := match u
          case 0 => 1 case 1 => 0 case 2 => 1 case 3 => 0
          case 5 => 2 case 6 => 3 case 7 => 6 case _ => 7;
        assert w in StartHares && w != 4 && Adjacent(MatrixSize, MatrixSize, w, u);
      }
      if exists v :: v in StartHares && v != 4 && Adjacent(MatrixSize, MatrixSize, v, u) {
        var v :| v in StartHares && v != 4 && Adjacent(MatrixSize, MatrixSize, v, u);
        AdjacentNodes(MatrixSize, MatrixSize, v, u);
      }
    }
  }

  /** `GameState`: the grid, the selection and the hares; there is no history in this revision. */
  class GameState {
    const g: Graph
    var selectedNodes: set<int>
    var possibleHares: set<int>

    /** The grid is the 3x3 lattice, and the hares sit on grid nodes that are not selected. */
    ghost predicate Valid()
      reads this
    {
      Lattice(MatrixSize, MatrixSize, g) &&
      possibleHares !! selectedNodes &&
      forall x :: x in possibleHares ==> IsNode(MatrixSize, MatrixSize, x)
    }

    /** The constructor: nodes 0 to 8 hold hares, the 3x3 grid is built, and the first redraw spreads once. */
    constructor ()
      ensures Valid() && selectedNodes == {}
      ensures possibleHares == Spread(g.nodes, g.edges, StartHares, {})
    {
      selectedNodes := {};
      possibleHares := StartHares;
      var grid := CreateMatrix(MatrixSize, MatrixSize);
      g := grid;
      new;
      Redraw();
      SpreadWithinGrid(MatrixSize, MatrixSize, g.nodes, g.edges, StartHares, {});
    }

    /** `redraw`: spread the hares, then render (rendering is not modelled). */
    method Redraw()
      modifies this`possibleHares
      ensures possibleHares == Spread(g.nodes, g.edges, old(possibleHares), selectedNodes)
    {
      SpreadHairs();
    }

    /** `onNodeClick`: toggle the clicked node in the selection, then redraw. */
    method OnNodeClick(id: int)
      requires Valid()
      modifies this
      ensures Valid()
      ensures selectedNodes == Toggle(old(selectedNodes), id)
      ensures possibleHares == Spread(g.nodes, g.edges, old(possibleHares), selectedNodes)
    {
      if id in selectedNodes {
        selectedNodes := selectedNodes - {id};
      } else {
        selectedNodes := selectedNodes + {id};
      }
      Redraw();
      SpreadFiltersShots(g.nodes, g.edges, old(possibleHares), selectedNodes);
      SpreadWithinGrid(MatrixSize, MatrixSize, g.nodes, g.edges, old(possibleHares), selectedNodes);
    }

    /** `spreadHairs`: scan the nodes in order and collect the unselected neighbours of every unselected hare. */
    method SpreadHairs()
      modifies this`possibleHares
      ensures possibleHares == Spread(g.nodes, g.edges, old(possibleHares), selectedNodes)
    {
      var updatedHares: set<int> := {};
      var i := 0;
      while i < |g.nodes|
        invariant 0 <= i <= |g.nodes|
        invariant possibleHares == old(possibleHares)
        invariant updatedHares == Spread(g.nodes[..i], g.edges, possibleHares, selectedNodes)
      {
        var id := g.nodes[i];
        SpreadStep(g.nodes, g.edges, possibleHares, selectedNodes, i);
        if id in possibleHares && id !in selectedNodes {
          var adjacentNodes := Neighbours(g.edges, id);
          var rest := adjacentNodes;
          while rest != {}
            invariant possibleHares == old(possibleHares)
            invariant rest <= adjacentNodes
            invariant updatedHares == Spread(g.nodes[..i], g.edges, possibleHares, selectedNodes) +
                                      (adjacentNodes - rest - selectedNodes)
            decreases rest
          {
            NonEmptyHasMember(rest);
            var adjacentId :| adjacentId in rest;
            if adjacentId !in selectedNodes {
              updatedHares := updatedHares + {adjacentId};
            }
            rest := rest - {adjacentId};
          }
        }
        i := i + 1;
      }
      assert g.nodes[..|g.nodes|] == g.nodes;
      possibleHares := updatedHares;
    }
  }
}
