/** The table locator: a pre-order depth-first walk that collects every
    `table` element of a document tree, in document order.

    The program returns pointers into the tree; the model returns the
    subtrees themselves. Which node of the tree each result is, is recovered
    through child-index paths: `TablePaths(n)[j]` is the path of the node
    `FindTables(n)[j]`, the paths are in document order, and every table of
    the tree has its path among them. */
module TableLocator {
  import opened Html

  predicate IsTable(n: Node) {
    IsElement(n, "table")
  }

  /** Visit `n` before its children; append `n` when it is a table. */
  function FindTables(n: Node): (r: seq<Node>)
    ensures forall j | 0 <= j < |r| :: IsTable(r[j])
    ensures IsTable(n) ==> r != [] && r[0] == n
    decreases n, |n.children| + 1
  {
    (if IsTable(n) then [n] else []) + FindTablesFrom(n, 0)
  }

  /** The tables of the subtrees of children `i..` of `parent`, visited in
      sibling order. */
  function FindTablesFrom(parent: Node, i: nat): (r: seq<Node>)
    requires i <= |parent.children|
    ensures forall j | 0 <= j < |r| :: IsTable(r[j])
    decreases parent, |parent.children| - i
  {
    if i == |parent.children| then []
    else FindTables(parent.children[i]) + FindTablesFrom(parent, i + 1)
  }

  // ---------------------------------------------------------------------
  // Positions in the tree

  /** A position in a tree: the child indices followed from the root. */
  type Path = seq<nat>

  predicate ValidPath(n: Node, p: Path)
    decreases |p|
  {
    p == [] || (p[0] < |n.children| && ValidPath(n.children[p[0]], p[1..]))
  }

  /** The node at position `p`. */
  function At(n: Node, p: Path): Node
    requires ValidPath(n, p)
    decreases |p|
  {
    if p == [] then n else At(n.children[p[0]], p[1..])
  }

  /** Document order: an ancestor comes before its descendants, and the
      subtree of an earlier sibling before that of a later one. */
  predicate DocBefore(p: Path, q: Path)
    decreases |p|
  {
    if p == [] then q != []
    else q != [] && (p[0] < q[0] || (p[0] == q[0] && DocBefore(p[1..], q[1..])))
  }

  predicate InDocOrder(ps: seq<Path>) {
    forall i, j | 0 <= i < j < |ps| :: DocBefore(ps[i], ps[j])
  }

  /** A position of a table element. */
  predicate IsTablePath(n: Node, p: Path) {
    ValidPath(n, p) && IsTable(At(n, p))
  }

  /** Prefix every path with the child index `k`. */
  function Under(k: nat, ps: seq<Path>): (r: seq<Path>)
    ensures |r| == |ps|
    ensures forall j | 0 <= j < |ps| :: r[j] == [k] + ps[j]
  {
    seq(|ps|, j requires 0 <= j < |ps| => [k] + ps[j])
  }

  /** The positions of the nodes `FindTables` collects (a witness only). */
  function TablePaths(n: Node): seq<Path>
    decreases n, |n.children| + 1
  {
    (if IsTable(n) then [[]] else []) + TablePathsFrom(n, 0)
  }

  function TablePathsFrom(parent: Node, i: nat): seq<Path>
    requires i <= |parent.children|
    decreases parent, |parent.children| - i
  {
    if i == |parent.children| then []
    else Under(i, TablePaths(parent.children[i])) + TablePathsFrom(parent, i + 1)
  }

  // ---------------------------------------------------------------------
  // Document order

  /** An ancestor precedes its descendants. */
  lemma {:induction false} AncestorFirst(p: Path, q: Path)
    requires |p| < |q| && q[..|p|] == p
    ensures DocBefore(p, q)
    decreases |p|
  {
    if p != [] {
      assert p[0] == q[0];
      assert q[1..][..|p[1..]|] == p[1..];
      AncestorFirst(p[1..], q[1..]);
    }
  }

  /** No path precedes itself, so paths in document order are distinct. */
  lemma {:induction false} DocBeforeIrreflexive(p: Path)
    ensures !DocBefore(p, p)
    decreases |p|
  {
    if p != [] {
      DocBeforeIrreflexive(p[1..]);
    }
  }

  lemma DocBeforeUnder(k: nat, p: Path, q: Path)
    requires DocBefore(p, q)
    ensures DocBefore([k] + p, [k] + q)
  {
  }

  lemma {:induction false} InDocOrderDistinct(ps: seq<Path>)
    requires InDocOrder(ps)
    ensures forall i, j | 0 <= i < j < |ps| :: ps[i] != ps[j]
  {
    forall i, j | 0 <= i < j < |ps|
      ensures ps[i] != ps[j]
    {
      DocBeforeIrreflexive(ps[i]);
    }
  }

  // ---------------------------------------------------------------------
  // Each result is the node at its path

  lemma {:induction false} TablePathsLocate(n: Node)
    ensures |TablePaths(n)| == |FindTables(n)|
    ensures forall j | 0 <= j < |TablePaths(n)| ::
      ValidPath(n, TablePaths(n)[j]) && At(n, TablePaths(n)[j]) == FindTables(n)[j]
    decreases n, |n.children| + 1
  {
    TablePathsFromLocate(n, 0);
    var ps, r := TablePaths(n), FindTables(n);
    var ps', r' := TablePathsFrom(n, 0), FindTablesFrom(n, 0);
    var h := if IsTable(n) then 1 else 0;
    assert ps == (if IsTable(n) then [[]] else []) + ps';
    assert r == (if IsTable(n) then [n] else []) + r';
    forall j | 0 <= j < |ps|
      ensures ValidPath(n, ps[j]) && At(n, ps[j]) == r[j]
    {
      if j >= h {
        assert ps[j] == ps'[j - h] && r[j] == r'[j - h];
      }
    }
  }

  lemma {:induction false} TablePathsFromLocate(parent: Node, i: nat)
    requires i <= |parent.children|
    ensures |TablePathsFrom(parent, i)| == |FindTablesFrom(parent, i)|
    ensures forall j | 0 <= j < |TablePathsFrom(parent, i)| ::
      var p := TablePathsFrom(parent, i)[j];
      p != [] && i <= p[0] && ValidPath(parent, p) && At(parent, p) == FindTablesFrom(parent, i)[j]
    decreases parent, |parent.children| - i
  {
    if i < |parent.children| {
      var c := parent.children[i];
      TablePathsLocate(c);
      TablePathsFromLocate(parent, i + 1);
      var a, b := Under(i, TablePaths(c)), TablePathsFrom(parent, i + 1);
      var ra, rb := FindTables(c), FindTablesFrom(parent, i + 1);
      var ps, r := TablePathsFrom(parent, i), FindTablesFrom(parent, i);
      assert ps == a + b && r == ra + rb;
      forall j | 0 <= j < |ps|
        ensures ps[j] != [] && i <= ps[j][0] && ValidPath(parent, ps[j]) && At(parent, ps[j]) == r[j]
      {
        if j < |a| {
          var q := TablePaths(c)[j];
          assert ps[j] == [i] + q && r[j] == ra[j];
          assert ([i] + q)[1..] == q;
        } else {
          assert ps[j] == b[j - |a|] && r[j] == rb[j - |a|];
        }
      }
    }
  }

  // ---------------------------------------------------------------------
  // The results are in document order

  lemma {:induction false} TablePathsOrdered(n: Node)
    ensures InDocOrder(TablePaths(n))
    decreases n, |n.children| + 1
  {
    TablePathsFromOrdered(n, 0);
    var ps, ps' := TablePaths(n), TablePathsFrom(n, 0);
    if IsTable(n) {
      assert ps == [[]] + ps';
      forall i, j | 0 <= i < j < |ps|
        ensures DocBefore(ps[i], ps[j])
      {
        assert ps[j] == ps'[j - 1];
        if i > 0 {
          assert ps[i] == ps'[i - 1];
        }
      }
    } else {
      assert ps == ps';
    }
  }

  lemma {:induction false} TablePathsFromOrdered(parent: Node, i: nat)
    requires i <= |parent.children|
    ensures InDocOrder(TablePathsFrom(parent, i))
    ensures forall j | 0 <= j < |TablePathsFrom(parent, i)| ::
      TablePathsFrom(parent, i)[j] != [] && i <= TablePathsFrom(parent, i)[j][0]
    decreases parent, |parent.children| - i
  {
    if i < |parent.children| {
      var c := parent.children[i];
      TablePathsOrdered(c);
      TablePathsFromOrdered(parent, i + 1);
      var a, b := Under(i, TablePaths(c)), TablePathsFrom(parent, i + 1);
      var ps := TablePathsFrom(parent, i);
      assert ps == a + b;
      forall j | 0 <= j < |ps|
        ensures ps[j] != [] && i <= ps[j][0]
      {
        if j >= |a| {
          assert ps[j] == b[j - |a|];
        }
      }
      forall x, y | 0 <= x < y < |ps|
        ensures DocBefore(ps[x], ps[y])
      {
        if y < |a| {
          DocBeforeUnder(i, TablePaths(c)[x], TablePaths(c)[y]);
        } else if x < |a| {
          assert ps[x][0] == i;
          assert ps[y] == b[y - |a|];
        } else {
          assert ps[x] == b[x - |a|] && ps[y] == b[y - |a|];
        }
      }
    }
  }

  // ---------------------------------------------------------------------
  // Every table is found

  lemma {:induction false} TablePathsComplete(n: Node, p: Path)
    requires IsTablePath(n, p)
    ensures p in TablePaths(n)
    decreases n, |n.children| + 1
  {
    if p != [] {
      TablePathsFromComplete(n, 0, p);
    }
  }

  lemma {:induction false} TablePathsFromComplete(parent: Node, i: nat, p: Path)
    requires i <= |parent.children|
    requires p != [] && i <= p[0]
    requires IsTablePath(parent, p)
    ensures p in TablePathsFrom(parent, i)
    decreases parent, |parent.children| - i
  {
    var c := parent.children[i];
    var a := Under(i, TablePaths(c));
    assert TablePathsFrom(parent, i) == a + TablePathsFrom(parent, i + 1);
    if p[0] == i {
      TablePathsComplete(c, p[1..]);
      var j :| 0 <= j < |TablePaths(c)| && TablePaths(c)[j] == p[1..];
      assert a[j] == [i] + p[1..] == p;
    } else {
      TablePathsFromComplete(parent, i + 1, p);
    }
  }

  // ---------------------------------------------------------------------
  // The locator's contract

  /** `FindTables(n)` lists exactly the table elements of `n`: the `j`-th
      result is the node at position `TablePaths(n)[j]`, which is a table;
      these positions are in document order (so none repeats and an
      ancestor table precedes the tables nested in it); and the position of
      every table in the tree is among them. The length of the result is
      therefore the number of tables in the tree. */
  lemma FindTablesExact(n: Node)
    ensures |TablePaths(n)| == |FindTables(n)|
    ensures forall j | 0 <= j < |FindTables(n)| ::
      IsTablePath(n, TablePaths(n)[j]) && At(n, TablePaths(n)[j]) == FindTables(n)[j]
    ensures InDocOrder(TablePaths(n))
    ensures forall i, j | 0 <= i < j < |TablePaths(n)| :: TablePaths(n)[i] != TablePaths(n)[j]
    ensures forall p | IsTablePath(n, p) :: p in TablePaths(n)
  {
    TablePathsLocate(n);
    TablePathsOrdered(n);
    InDocOrderDistinct(TablePaths(n));
    forall p | IsTablePath(n, p)
      ensures p in TablePaths(n)
    {
      TablePathsComplete(n, p);
    }
  }

  /** The result is empty exactly when the tree holds no table element. */
  lemma FindTablesEmptyIff(n: Node)
    ensures FindTables(n) == [] ==> forall p | ValidPath(n, p) :: !IsTable(At(n, p))
    ensures FindTables(n) != [] ==> exists p | ValidPath(n, p) :: IsTable(At(n, p))
  {
    FindTablesExact(n);
    if FindTables(n) != [] {
      var p := TablePaths(n)[0];
      assert ValidPath(n, p) && IsTable(At(n, p));
    } else {
      forall p | ValidPath(n, p)
        ensures !IsTable(At(n, p))
      {
        assert !IsTablePath(n, p);
      }
    }
  }

  /** The position of the first result precedes the position of every other
      table in the tree. */
  lemma FirstTableFirstInDocument(n: Node)
    requires FindTables(n) != []
    ensures |TablePaths(n)| == |FindTables(n)|
    ensures IsTablePath(n, TablePaths(n)[0]) && At(n, TablePaths(n)[0]) == FindTables(n)[0]
    ensures forall q | IsTablePath(n, q) && q != TablePaths(n)[0] :: DocBefore(TablePaths(n)[0], q)
  {
    FindTablesExact(n);
    forall q | IsTablePath(n, q) && q != TablePaths(n)[0]
      ensures DocBefore(TablePaths(n)[0], q)
    {
      var j :| 0 <= j < |TablePaths(n)| && TablePaths(n)[j] == q;
    }
  }
}
