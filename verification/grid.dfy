/**
 * The n-by-m lattice both revisions of the game are played on
 * (`createMatrix` and its local `addLink`; the JavaScript and TypeScript
 * copies of this code are the same).
 *
 * The node at column i, row j has id n*j + i. Nodes are listed column by
 * column (i outer, j inner), links in the order the second pair of loops
 * visits the cells, and `edges` maps a node id to the set of ids it is
 * linked with. A node without any link has no key in `edges`; reading it
 * gives nothing to iterate over, which `Neighbours` models as the empty set.
 */
module Grid {

  datatype Link = Link(source: int, target: int)

  /** What `createMatrix` returns; layout coordinates are left out. */
  datatype Graph = Graph(nodes: seq<int>, links: seq<Link>, edges: map<int, set<int>>)

  /** Id of the node at column i, row j of a grid whose first size is n. */
  function Id(n: int, i: int, j: int): int
  {
    n * j + i
  }

  /** The ids `edges[u]` holds, or none when u has no entry. */
  function Neighbours(edges: map<int, set<int>>, u: int): set<int>
  {
    if u in edges then edges[u] else {}
  }

  /** A set that is not empty has a member to pick: the step of every `for ... in` over a neighbour set. */
  lemma NonEmptyHasMember(s: set<int>)
    requires s != {}
    ensures exists x :: x in s
  {
    if forall x :: x !in s {
      assert false;
    }
  }

  predicate Distinct(s: seq<int>)
  {
    forall a, b :: 0 <= a < b < |s| ==> s[a] != s[b]
  }

  /** A node id of the n-by-m grid. */
  predicate IsNode(n: int, m: int, x: int)
  {
    n > 0 && m > 0 && 0 <= x < n * m
  }

  /**
   * A link as the grid builds it: from u to its right-hand neighbour u+1
   * when u is not in the last column, or to the node u+n below it when u is
   * not in the last row.
   */
  predicate GridLink(n: int, m: int, u: int, v: int)
  {
    n > 0 && m > 0 && 0 <= u &&
    ((u % n < n - 1 && u < n * m && v == u + 1) || (u + n < n * m && v == u + n))
  }

  /** u and v are linked in one direction or the other. */
  predicate Adjacent(n: int, m: int, u: int, v: int)
  {
    GridLink(n, m, u, v) || GridLink(n, m, v, u)
  }

  // ---------------------------------------------------------------------
  // addLink
  // ---------------------------------------------------------------------

  /** The two collections `addLink` updates: the list of links and the adjacency map. */
  datatype Wiring = Wiring(links: seq<Link>, edges: map<int, set<int>>)

  /**
   * `addLink(l)`: create the entries of both ends when missing, record the
   * link in both directions, and push it.
   */
  function AddLink(w: Wiring, l: Link): Wiring
  {
    var withTarget := w.edges[l.source := Neighbours(w.edges, l.source) + {l.target}];
    var both := withTarget[l.target := Neighbours(withTarget, l.target) + {l.source}];
    Wiring(w.links + [l], both)
  }

  /** The adjacency map holds exactly the pushed links, each in both directions. */
  ghost predicate Records(w: Wiring)
  {
    forall u, v :: v in Neighbours(w.edges, u) <==> Link(u, v) in w.links || Link(v, u) in w.links
  }

  /**
   * `addLink` adds u to the neighbours of v and v to those of u, gives both
   * an entry, and changes nothing else.
   */
  lemma AddLinkBothWays(w: Wiring, l: Link)
    ensures AddLink(w, l).links == w.links + [l]
    ensures AddLink(w, l).edges.Keys == w.edges.Keys + {l.source, l.target}
    ensures forall u, v :: v in Neighbours(AddLink(w, l).edges, u) <==>
      v in Neighbours(w.edges, u) || (u == l.source && v == l.target) || (u == l.target && v == l.source)
  {
  }

  /** So the adjacency map stays symmetric and in step with the link list. */
  lemma AddLinkRecords(w: Wiring, l: Link)
    requires Records(w)
    ensures Records(AddLink(w, l))
  {
    AddLinkBothWays(w, l);
  }

  // ---------------------------------------------------------------------
  // Nodes, in the order the first pair of loops pushes them
  // ---------------------------------------------------------------------

  /** Nodes (i, 0) .. (i, j-1) of column i. */
  function ColumnNodes(n: int, i: int, j: int): seq<int>
    decreases j
  {
    if j <= 0 then [] else ColumnNodes(n, i, j - 1) + [Id(n, i, j - 1)]
  }

  /** All nodes of columns 0 .. k-1, column by column. */
  function MatrixNodes(n: int, m: int, k: int): seq<int>
    decreases k
  {
    if k <= 0 then [] else MatrixNodes(n, m, k - 1) + ColumnNodes(n, k - 1, m)
  }

  // ---------------------------------------------------------------------
  // Links, in the order the second pair of loops pushes them
  // ---------------------------------------------------------------------

  /** The link from cell (i, j) to its right-hand neighbour, if there is one. */
  function HorizontalLink(n: int, m: int, i: int, j: int): seq<Link>
  {
    if i + 1 < n then [Link(Id(n, i, j), Id(n, i + 1, j))] else []
  }

  /** The link from cell (i, j) to the cell below it, if there is one. */
  function VerticalLink(n: int, m: int, i: int, j: int): seq<Link>
  {
    if j + 1 < m then [Link(Id(n, i, j), Id(n, i, j + 1))] else []
  }

  /** The horizontal and then the vertical link starting at cell (i, j). */
  function CellLinks(n: int, m: int, i: int, j: int): seq<Link>
  {
    HorizontalLink(n, m, i, j) + VerticalLink(n, m, i, j)
  }

  /** Links starting at cells (i, 0) .. (i, j-1). */
  function ColumnLinks(n: int, m: int, i: int, j: int): seq<Link>
    decreases j
  {
    if j <= 0 then [] else ColumnLinks(n, m, i, j - 1) + CellLinks(n, m, i, j - 1)
  }

  /** Links starting at the cells of columns 0 .. k-1. */
  function MatrixLinks(n: int, m: int, k: int): seq<Link>
    decreases k
  {
    if k <= 0 then [] else MatrixLinks(n, m, k - 1) + ColumnLinks(n, m, k - 1, m)
  }

  /** One pass of the body of the second pair of loops, at cell (i, j). */
  function LinkCell(n: int, m: int, i: int, j: int, w: Wiring): Wiring
  {
    var afterHorizontal := if i + 1 < n then AddLink(w, Link(Id(n, i, j), Id(n, i + 1, j))) else w;
    if j + 1 < m then AddLink(afterHorizontal, Link(Id(n, i, j), Id(n, i, j + 1))) else afterHorizontal
  }

  /** What the second pair of loops does from cell (i, j) on, starting from w. */
  function WireFrom(n: int, m: int, i: int, j: int, w: Wiring): Wiring
    decreases n - i, m - j
  {
    if i >= n then w
    else if j >= m then WireFrom(n, m, i + 1, 0, w)
    else WireFrom(n, m, i, j + 1, LinkCell(n, m, i, j, w))
  }

  /** The links and adjacency map `createMatrix(n, m)` builds. */
  function Wired(n: int, m: int): Wiring
  {
    WireFrom(n, m, 0, 0, Wiring([], map[]))
  }

  /** The graph `createMatrix(n, m)` returns. */
  function Matrix(n: int, m: int): Graph
  {
    Graph(MatrixNodes(n, m, n), Wired(n, m).links, Wired(n, m).edges)
  }

  // ---------------------------------------------------------------------
  // Arithmetic on ids
  // ---------------------------------------------------------------------

  lemma {:induction false} MulAtLeast(n: int, d: int)
    requires n > 0 && d >= 1
    ensures n * d >= n
    decreases d
  {
    if d > 1 {
      MulAtLeast(n, d - 1);
      assert n * d == n * (d - 1) + n;
    }
  }

  lemma MulMono(n: int, a: int, b: int)
    requires n > 0 && a < b
    ensures n * a + n <= n * b
  {
    MulAtLeast(n, b - a);
    assert n * b == n * a + n * (b - a);
  }

  /** Different cells have different ids. */
  lemma CellUnique(n: int, i: int, j: int, i2: int, j2: int)
    requires 0 <= i < n && 0 <= i2 < n
    requires Id(n, i, j) == Id(n, i2, j2)
    ensures i == i2 && j == j2
  {
    if j < j2 {
      MulMono(n, j, j2);
    } else if j2 < j {
      MulMono(n, j2, j);
    }
  }

  /** The column and row of an id are recovered by % n and / n. */
  lemma ColumnRow(n: int, i: int, j: int)
    requires 0 <= i < n
    ensures Id(n, i, j) % n == i && Id(n, i, j) / n == j
  {
    var x := Id(n, i, j);
    CellUnique(n, i, j, x % n, x / n);
  }

  /** For a non-negative id, being in the first m rows is being below n*m. */
  lemma RowBound(n: int, m: int, x: int)
    requires n > 0 && 0 <= x
    ensures x / n < m <==> x < n * m
  {
    var q, r := x / n, x % n;
    assert x == n * q + r;
    if q < m {
      MulMono(n, q, m);
    } else if q > m {
      MulMono(n, m, q);
    }
  }

  // ---------------------------------------------------------------------
  // Facts about the nodes
  // ---------------------------------------------------------------------

  lemma {:induction false} ColumnNodesAt(n: int, i: int, j: int)
    requires j >= 0
    ensures |ColumnNodes(n, i, j)| == j
    ensures forall c :: 0 <= c < j ==> ColumnNodes(n, i, j)[c] == Id(n, i, c)
    decreases j
  {
    if j > 0 {
      ColumnNodesAt(n, i, j - 1);
    }
  }

  lemma {:induction false} ColumnNodesMembers(n: int, i: int, j: int, x: int)
    requires 0 <= i < n && j >= 0
    ensures x in ColumnNodes(n, i, j) <==> 0 <= x && x % n == i && x / n < j
    decreases j
  {
    if j > 0 {
      ColumnNodesMembers(n, i, j - 1, x);
      ColumnRow(n, i, j - 1);
      if 0 <= x && x % n == i && x / n == j - 1 {
        assert x == Id(n, i, j - 1);
      }
    }
  }

  lemma ColumnNodesDistinct(n: int, i: int, j: int)
    requires 0 <= i < n && j >= 0
    ensures Distinct(ColumnNodes(n, i, j))
  {
    ColumnNodesAt(n, i, j);
    var s := ColumnNodes(n, i, j);
    forall a, b | 0 <= a < b < |s|
      ensures s[a] != s[b]
    {
      MulMono(n, a, b);
    }
  }

  lemma DistinctConcat(s: seq<int>, t: seq<int>)
    requires Distinct(s) && Distinct(t)
    requires forall x :: x in s ==> x !in t
    ensures Distinct(s + t)
  {
    var st := s + t;
    forall a, b | 0 <= a < b < |st|
      ensures st[a] != st[b]
    {
      if a < |s| && b >= |s| {
        assert st[a] in s && st[b] == t[b - |s|];
      }
    }
  }

  lemma {:induction false} MatrixNodesFacts(n: int, m: int, k: int)
    requires 0 <= k <= n && m > 0 && n > 0
    ensures |MatrixNodes(n, m, k)| == k * m
    ensures Distinct(MatrixNodes(n, m, k))
    ensures forall x :: x in MatrixNodes(n, m, k) <==> 0 <= x && x % n < k && x / n < m
    decreases k
  {
    if k > 0 {
      MatrixNodesFacts(n, m, k - 1);
      ColumnNodesAt(n, k - 1, m);
      ColumnNodesDistinct(n, k - 1, m);
      forall x
        ensures x in ColumnNodes(n, k - 1, m) <==> 0 <= x && x % n == k - 1 && x / n < m
      {
        ColumnNodesMembers(n, k - 1, m, x);
      }
      DistinctConcat(MatrixNodes(n, m, k - 1), ColumnNodes(n, k - 1, m));
      assert (k - 1) * m + m == k * m;
    }
  }

  lemma {:induction false} MatrixNodesAt(n: int, m: int, k: int, i: int, j: int)
    requires 0 <= i < k <= n && 0 <= j < m
    ensures i * m + j < |MatrixNodes(n, m, k)| && MatrixNodes(n, m, k)[i * m + j] == Id(n, i, j)
    decreases k
  {
    MatrixNodesFacts(n, m, k - 1);
    ColumnNodesAt(n, k - 1, m);
    if i < k - 1 {
      MatrixNodesAt(n, m, k - 1, i, j);
    } else {
      assert i * m == (k - 1) * m;
    }
  }

  /** `createMatrix(n, m)` yields n*m nodes (none when a size is not positive). */
  lemma NodeCount(n: int, m: int)
    ensures |Matrix(n, m).nodes| == if n > 0 && m > 0 then n * m else 0
  {
    if n > 0 && m > 0 {
      MatrixNodesFacts(n, m, n);
    } else if n > 0 {
      NoNodesWithoutRows(n, m, n);
    }
  }

  lemma {:induction false} NoNodesWithoutRows(n: int, m: int, k: int)
    requires m <= 0
    ensures MatrixNodes(n, m, k) == []
    decreases k
  {
    if k > 0 {
      NoNodesWithoutRows(n, m, k - 1);
    }
  }

  /** The node pushed for column i, row j sits at position i*m + j and has id n*j + i. */
  lemma NodeIds(n: int, m: int, i: int, j: int)
    requires 0 <= i < n && 0 <= j < m
    ensures i * m + j < |Matrix(n, m).nodes| && Matrix(n, m).nodes[i * m + j] == n * j + i
  {
    MatrixNodesAt(n, m, n, i, j);
  }

  /** All ids are distinct, and they are exactly the integers of [0, n*m). */
  lemma NodesDistinctInRange(n: int, m: int)
    ensures Distinct(Matrix(n, m).nodes)
    ensures forall x :: x in Matrix(n, m).nodes <==> IsNode(n, m, x)
  {
    if n > 0 && m > 0 {
      MatrixNodesFacts(n, m, n);
      forall x | 0 <= x
        ensures x / n < m <==> x < n * m
      {
        RowBound(n, m, x);
      }
    } else if n > 0 {
      NoNodesWithoutRows(n, m, n);
    }
  }

  // ---------------------------------------------------------------------
  // What the second pair of loops builds
  // ---------------------------------------------------------------------

  /** From cell (i, j) on, the loops push exactly the links not yet pushed, in order. */
  lemma {:induction false} WireFromLinks(n: int, m: int, i: int, j: int, w: Wiring)
    requires 0 <= i <= n && 0 <= j <= (if m > 0 then m else 0) && (i < n || j == 0)
    requires w.links == MatrixLinks(n, m, i) + ColumnLinks(n, m, i, j)
    ensures WireFrom(n, m, i, j, w).links == MatrixLinks(n, m, n)
    decreases n - i, m - j
  {
    if i >= n {
      assert ColumnLinks(n, m, i, j) == [];
      assert w.links == MatrixLinks(n, m, n);
    } else if j >= m {
      assert ColumnLinks(n, m, i, j) == ColumnLinks(n, m, i, m);
      assert MatrixLinks(n, m, i + 1) == MatrixLinks(n, m, i) + ColumnLinks(n, m, i, m);
      WireFromLinks(n, m, i + 1, 0, w);
      assert WireFrom(n, m, i, j, w) == WireFrom(n, m, i + 1, 0, w);
    } else {
      LinkCellLinks(n, m, i, j, w, MatrixLinks(n, m, i));
      WireFromLinks(n, m, i, j + 1, LinkCell(n, m, i, j, w));
      assert WireFrom(n, m, i, j, w) == WireFrom(n, m, i, j + 1, LinkCell(n, m, i, j, w));
    }
  }

  /** One pass of the loop body pushes the links of cell (i, j). */
  lemma LinkCellLinks(n: int, m: int, i: int, j: int, w: Wiring, done: seq<Link>)
    requires 0 <= j && w.links == done + ColumnLinks(n, m, i, j)
    ensures LinkCell(n, m, i, j, w).links == done + ColumnLinks(n, m, i, j + 1)
  {
    var cell := HorizontalLink(n, m, i, j) + VerticalLink(n, m, i, j);
    assert LinkCell(n, m, i, j, w).links == w.links + cell;
    assert ColumnLinks(n, m, i, j + 1) == ColumnLinks(n, m, i, j) + cell;
  }

  /** The loops keep the adjacency map in step with the link list. */
  lemma {:induction false} WireFromRecords(n: int, m: int, i: int, j: int, w: Wiring)
    requires Records(w)
    ensures Records(WireFrom(n, m, i, j, w))
    decreases n - i, m - j
  {
    if i >= n {
    } else if j >= m {
      WireFromRecords(n, m, i + 1, 0, w);
    } else {
      var afterHorizontal := if i + 1 < n then AddLink(w, Link(Id(n, i, j), Id(n, i + 1, j))) else w;
      if i + 1 < n {
        AddLinkRecords(w, Link(Id(n, i, j), Id(n, i + 1, j)));
      }
      if j + 1 < m {
        AddLinkRecords(afterHorizontal, Link(Id(n, i, j), Id(n, i, j + 1)));
      }
      WireFromRecords(n, m, i, j + 1, LinkCell(n, m, i, j, w));
    }
  }

  /** The links of `createMatrix(n, m)` in push order, and a symmetric adjacency map holding them. */
  lemma WiredFacts(n: int, m: int)
    ensures Wired(n, m).links == MatrixLinks(n, m, n)
    ensures Records(Wired(n, m))
  {
    if n > 0 {
      WireFromLinks(n, m, 0, 0, Wiring([], map[]));
    }
    WireFromRecords(n, m, 0, 0, Wiring([], map[]));
  }

  // ---------------------------------------------------------------------
  // Facts about the links
  // ---------------------------------------------------------------------

  lemma {:induction false} ColumnLinksCount(n: int, m: int, i: int, j: int)
    requires 0 <= j <= m && m > 0
    ensures |ColumnLinks(n, m, i, j)| == (if i + 1 < n then j else 0) + (if j < m then j else m - 1)
    decreases j
  {
    if j > 0 {
      ColumnLinksCount(n, m, i, j - 1);
      assert |CellLinks(n, m, i, j - 1)| == (if i + 1 < n then 1 else 0) + (if j < m then 1 else 0);
    }
  }

  lemma {:induction false} MatrixLinksCount(n: int, m: int, k: int)
    requires 0 <= k <= n && m > 0 && n > 0
    ensures |MatrixLinks(n, m, k)| == (if k < n then k else n - 1) * m + k * (m - 1)
    decreases k
  {
    if k > 0 {
      MatrixLinksCount(n, m, k - 1);
      ColumnLinksCount(n, m, k - 1, m);
      var before := (k - 1) * m + (k - 1) * (m - 1);
      assert |MatrixLinks(n, m, k - 1)| == before;
      assert |MatrixLinks(n, m, k)| == before + (if k < n then m else 0) + (m - 1);
      assert (k - 1) * (m - 1) + (m - 1) == k * (m - 1);
      if k < n {
        assert (k - 1) * m + m == k * m;
      }
    }
  }

  /** The number of links is (n-1)*m + n*(m-1). */
  lemma LinkCount(n: int, m: int)
    requires n > 0 && m > 0
    ensures |Matrix(n, m).links| == (n - 1) * m + n * (m - 1)
  {
    WiredFacts(n, m);
    MatrixLinksCount(n, m, n);
  }

  /** Membership in the links of column i's first j cells, for the link from u, whose column is c and row r. */
  lemma {:induction false} ColumnLinksMembers(n: int, m: int, i: int, j: int, u: int, v: int, c: int, r: int)
    requires 0 <= i < n && 0 <= j <= m && c == u % n && r == u / n
    ensures Link(u, v) in ColumnLinks(n, m, i, j) <==>
      0 <= u && c == i && r < j && ((i + 1 < n && v == u + 1) || (r + 1 < m && v == u + n))
    decreases j
  {
    if j > 0 {
      ColumnLinksMembers(n, m, i, j - 1, u, v, c, r);
      ColumnRow(n, i, j - 1);
      if 0 <= u && c == i && r == j - 1 {
        assert u == Id(n, i, j - 1);
      }
    }
  }

  /** The links of the first k columns are those of the first k-1 and those of column k-1. */
  lemma MatrixLinksStep(n: int, m: int, k: int, l: Link)
    requires k > 0
    ensures l in MatrixLinks(n, m, k) <==> l in MatrixLinks(n, m, k - 1) || l in ColumnLinks(n, m, k - 1, m)
  {
    assert MatrixLinks(n, m, k) == MatrixLinks(n, m, k - 1) + ColumnLinks(n, m, k - 1, m);
  }

  /** A link is among those of the first k columns exactly when it is among those of one of them. */
  lemma {:induction false} MatrixLinksMembers(n: int, m: int, k: int, l: Link)
    requires 0 <= k
    ensures l in MatrixLinks(n, m, k) <==> exists i :: 0 <= i < k && l in ColumnLinks(n, m, i, m)
    decreases k
  {
    if k > 0 {
      MatrixLinksStep(n, m, k, l);
      MatrixLinksMembers(n, m, k - 1, l);
      if l in MatrixLinks(n, m, k - 1) {
        var i :| 0 <= i < k - 1 && l in ColumnLinks(n, m, i, m);
        assert 0 <= i < k && l in ColumnLinks(n, m, i, m);
      } else if l in ColumnLinks(n, m, k - 1, m) {
        assert 0 <= k - 1 < k;
      }
      if exists i :: 0 <= i < k && l in ColumnLinks(n, m, i, m) {
        var i :| 0 <= i < k && l in ColumnLinks(n, m, i, m);
        if i < k - 1 {
          assert exists i' :: 0 <= i' < k - 1 && l in ColumnLinks(n, m, i', m);
        }
      }
    }
  }

  /**
   * The links are exactly the horizontal ones (k to k+1, not leaving the
   * row) and the vertical ones (k to k+n, not leaving the grid).
   */
  lemma LinkShape(n: int, m: int, u: int, v: int)
    ensures Link(u, v) in Matrix(n, m).links <==> GridLink(n, m, u, v)
  {
    WiredFacts(n, m);
    if n > 0 && m > 0 {
      MatrixLinksMembers(n, m, n, Link(u, v));
      var c, r := u % n, u / n;
      ColumnLinksMembers(n, m, c, m, u, v, c, r);
      if exists i :: 0 <= i < n && Link(u, v) in ColumnLinks(n, m, i, m) {
        var i :| 0 <= i < n && Link(u, v) in ColumnLinks(n, m, i, m);
        ColumnLinksMembers(n, m, i, m, u, v, c, r);
      }
      if 0 <= u {
        RowBound(n, m, u);
        RowBound(n, m - 1, u);
        assert n * (m - 1) == n * m - n;
      }
    } else if n > 0 {
      NoLinksWithoutRows(n, m, n);
    }
  }

  lemma {:induction false} NoLinksWithoutRows(n: int, m: int, k: int)
    requires m <= 0
    ensures MatrixLinks(n, m, k) == []
    decreases k
  {
    if k > 0 {
      NoLinksWithoutRows(n, m, k - 1);
      assert ColumnLinks(n, m, k - 1, m) == [];
    }
  }

  /** The neighbours of a node are its 4-neighbours in the lattice, no diagonals and no self-loops. */
  lemma Adjacency(n: int, m: int, u: int, v: int)
    ensures v in Neighbours(Matrix(n, m).edges, u) <==> Adjacent(n, m, u, v)
    ensures u !in Neighbours(Matrix(n, m).edges, u)
  {
    WiredFacts(n, m);
    LinkShape(n, m, u, v);
    LinkShape(n, m, v, u);
    LinkShape(n, m, u, u);
  }

  /** Linked nodes are nodes of the grid. */
  lemma AdjacentNodes(n: int, m: int, u: int, v: int)
    requires Adjacent(n, m, u, v)
    ensures IsNode(n, m, u) && IsNode(n, m, v)
  {
    var a, b := if GridLink(n, m, u, v) then u else v, if GridLink(n, m, u, v) then v else u;
    assert GridLink(n, m, a, b);
    if b == a + 1 && a % n < n - 1 && a < n * m {
      RowBound(n, m, a);
      var q, r := a / n, a % n;
      assert a == n * q + r;
      MulMono(n, q, m);
    }
  }

  // ---------------------------------------------------------------------
  // The lattice as a whole
  // ---------------------------------------------------------------------

  /**
   * The nodes of `createMatrix(n, m)`: n*m distinct ids, exactly those of
   * [0, n*m), pushed column by column (position i*m + j holds id n*j + i).
   */
  ghost predicate LatticeNodes(n: int, m: int, nodes: seq<int>)
  {
    |nodes| == (if n > 0 && m > 0 then n * m else 0) &&
    Distinct(nodes) &&
    (forall x :: x in nodes <==> IsNode(n, m, x)) &&
    forall p :: 0 <= p < |nodes| ==> m > 0 && nodes[p] == Id(n, p / m, p % m)
  }

  /** The links of `createMatrix(n, m)`: (n-1)*m + n*(m-1) of them, exactly the lattice links. */
  ghost predicate LatticeLinks(n: int, m: int, links: seq<Link>)
  {
    |links| == (if n > 0 && m > 0 then (n - 1) * m + n * (m - 1) else 0) &&
    forall l :: l in links <==> GridLink(n, m, l.source, l.target)
  }

  /** The adjacency of `createMatrix(n, m)`: each node's 4-neighbours in the lattice. */
  ghost predicate LatticeEdges(n: int, m: int, edges: map<int, set<int>>)
  {
    forall u, v :: v in Neighbours(edges, u) <==> Adjacent(n, m, u, v)
  }

  /** A graph with the nodes, links and adjacency of `createMatrix(n, m)`. */
  ghost predicate Lattice(n: int, m: int, g: Graph)
  {
    LatticeNodes(n, m, g.nodes) && LatticeLinks(n, m, g.links) && LatticeEdges(n, m, g.edges)
  }

  /** Position p of the node list holds the node of column p / m and row p % m. */
  lemma NodeOrder(n: int, m: int, p: int)
    requires 0 <= p < |Matrix(n, m).nodes|
    ensures m > 0 && Matrix(n, m).nodes[p] == Id(n, p / m, p % m)
  {
    NodeCount(n, m);
    var i, j := Position(n, m, p);
    NodeIds(n, m, i, j);
  }

  /** Position p < n*m is column p / m, row p % m, of an n by m grid filled column by column. */
  lemma Position(n: int, m: int, p: int) returns (i: int, j: int)
    requires n > 0 && m > 0 && 0 <= p < n * m
    ensures i == p / m && j == p % m
    ensures 0 <= i < n && 0 <= j < m && i * m + j == p
  {
    i, j := p / m, p % m;
    assert p == m * i + j;
    RowBound(m, n, p);
    assert n * m == m * n;
  }

  /** `Matrix(n, m)` has the lattice's nodes in push order, its links and its adjacency. */
  lemma MatrixShape(n: int, m: int)
    ensures Lattice(n, m, Matrix(n, m))
  {
    var g := Matrix(n, m);
    NodeCount(n, m);
    NodesDistinctInRange(n, m);
    forall p | 0 <= p < |g.nodes|
      ensures m > 0 && g.nodes[p] == Id(n, p / m, p % m)
    {
      NodeOrder(n, m, p);
    }
    if n > 0 && m > 0 {
      LinkCount(n, m);
    } else {
      WiredFacts(n, m);
      if n > 0 {
        NoLinksWithoutRows(n, m, n);
      }
    }
    forall l
      ensures l in g.links <==> GridLink(n, m, l.source, l.target)
    {
      LinkShape(n, m, l.source, l.target);
    }
    forall u, v
      ensures v in Neighbours(g.edges, u) <==> Adjacent(n, m, u, v)
    {
      Adjacency(n, m, u, v);
    }
  }

  // ---------------------------------------------------------------------
  // createMatrix
  // ---------------------------------------------------------------------

  /**
   * `createMatrix(n, m)`: the first pair of loops pushes the nodes, the
   * second pushes the links and records each in `edges` through `addLink`.
   */
  method CreateMatrix(n: int, m: int) returns (g: Graph)
    ensures Lattice(n, m, g)
  {
    var nodes: seq<int> := [];
    var i := 0;
    while i < n
      invariant 0 <= i <= if n > 0 then n else 0
      invariant nodes == MatrixNodes(n, m, i)
    {
      var j := 0;
      while j < m
        invariant 0 <= j <= if m > 0 then m else 0
        invariant nodes == MatrixNodes(n, m, i) + ColumnNodes(n, i, j)
      {
        nodes := nodes + [Id(n, i, j)];
        j := j + 1;
      }
      i := i + 1;
    }

    var w := Wiring([], map[]);
    i := 0;
    while i < n
      invariant 0 <= i <= if n > 0 then n else 0
      invariant WireFrom(n, m, i, 0, w) == Wired(n, m)
    {
      var j := 0;
      while j < m
        invariant 0 <= j <= if m > 0 then m else 0
        invariant WireFrom(n, m, i, j, w) == Wired(n, m)
      {
        // Horizontal link
        if i + 1 < n {
          w := AddLink(w, Link(Id(n, i, j), Id(n, i + 1, j)));
        }
        // Vertical link
        if j + 1 < m {
          w := AddLink(w, Link(Id(n, i, j), Id(n, i, j + 1)));
        }
        j := j + 1;
      }
      i := i + 1;
    }
    g := Graph(nodes, w.links, w.edges);
    assert g == Matrix(n, m);
    MatrixShape(n, m);
  }
}
