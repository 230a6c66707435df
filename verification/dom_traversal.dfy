/** Depth-first pre-order traversal of a captured DOM tree: the node first,
    then each child subtree from left to right. */
module DomTraversal {
  import opened SharedTypes

  /** Number of nodes in a tree. */
  function Size(t: DomNode): nat
    decreases t
  {
    1 + ForestSize(t.children)
  }

  function ForestSize(cs: seq<DomNode>): nat
    decreases cs
  {
    if cs == [] then 0 else Size(cs[0]) + ForestSize(cs[1..])
  }

  /** The order in which the recursive traversal hands nodes to its visitor. */
  function Preorder(t: DomNode): (r: seq<DomNode>)
    decreases t
    ensures |r| == Size(t) && r[0] == t
  {
    [t] + PreorderForest(t.children)
  }

  function PreorderForest(cs: seq<DomNode>): (r: seq<DomNode>)
    decreases cs
    ensures |r| == ForestSize(cs)
  {
    if cs == [] then [] else Preorder(cs[0]) + PreorderForest(cs[1..])
  }

  lemma {:induction false} PreorderForestAppend(a: seq<DomNode>, b: seq<DomNode>)
    ensures PreorderForest(a + b) == PreorderForest(a) + PreorderForest(b)
    ensures ForestSize(a + b) == ForestSize(a) + ForestSize(b)
    decreases |a|
  {
    if a == [] {
      assert a + b == b;
    } else {
      assert (a + b)[0] == a[0];
      assert (a + b)[1..] == a[1..] + b;
      PreorderForestAppend(a[1..], b);
    }
  }

  /** What visiting a list of nodes one after the other appends. */
  function VisitAll<T>(visit: DomNode -> seq<T>, nodes: seq<DomNode>): seq<T>
  {
    if nodes == [] then [] else visit(nodes[0]) + VisitAll(visit, nodes[1..])
  }

  lemma {:induction false} VisitAllAppend<T>(visit: DomNode -> seq<T>, a: seq<DomNode>, b: seq<DomNode>)
    ensures VisitAll(visit, a + b) == VisitAll(visit, a) + VisitAll(visit, b)
    decreases |a|
  {
    if a == [] {
      assert a + b == b;
    } else {
      assert (a + b)[0] == a[0];
      assert (a + b)[1..] == a[1..] + b;
      VisitAllAppend(visit, a[1..], b);
    }
  }

  /** `traverseDom(node, visitor)`: the visitor's only effect in the engine is
      to append to a result list, so a visit is modelled as the items it
      appends, and the traversal as everything appended, in order. The
      traversal hands the visitor every node of the tree once, in pre-order. */
  function TraverseDom<T>(node: DomNode, visit: DomNode -> seq<T>): (r: seq<T>)
    decreases node
    ensures r == VisitAll(visit, Preorder(node))
  {
    var rest := TraverseChildren(node.children, visit);
    VisitAllAppend(visit, [node], PreorderForest(node.children));
    assert [node][1..] == [];
    visit(node) + rest
  }

  /** The `for (const child of node.children)` loop: the children's subtrees
      in pre-order, one after the other. */
  function TraverseChildren<T>(cs: seq<DomNode>, visit: DomNode -> seq<T>): (r: seq<T>)
    decreases cs
    ensures r == VisitAll(visit, PreorderForest(cs))
  {
    if cs == [] then []
    else
      var first := TraverseDom(cs[0], visit);
      var rest := TraverseChildren(cs[1..], visit);
      VisitAllAppend(visit, Preorder(cs[0]), PreorderForest(cs[1..]));
      first + rest
  }

  // ---------------------------------------------------------------------
  // Paths: a node is named by the child indices leading to it from the root.

  /** `p` names a node of `t`. */
  predicate ValidPath(t: DomNode, p: seq<nat>)
    decreases |p|
  {
    p == [] || (p[0] < |t.children| && ValidPath(t.children[p[0]], p[1..]))
  }

  function NodeAt(t: DomNode, p: seq<nat>): DomNode
    requires ValidPath(t, p)
    decreases |p|
  {
    if p == [] then t else NodeAt(t.children[p[0]], p[1..])
  }

  /** Pre-order on paths: a node precedes its descendants, and the subtree of
      a smaller child index precedes that of a larger one. */
  predicate PathBefore(p: seq<nat>, q: seq<nat>)
    decreases |p|
  {
    |q| > 0 && (|p| == 0 || p[0] < q[0] || (p[0] == q[0] && PathBefore(p[1..], q[1..])))
  }

  predicate StrictlyOrdered(ps: seq<seq<nat>>) {
    forall i, j :: 0 <= i < j < |ps| ==> PathBefore(ps[i], ps[j])
  }

  function Under(b: nat, ps: seq<seq<nat>>): (r: seq<seq<nat>>)
    ensures |r| == |ps|
    ensures forall k :: 0 <= k < |ps| ==> r[k] == [b] + ps[k]
  {
    seq(|ps|, k requires 0 <= k < |ps| => [b] + ps[k])
  }

  /** The paths of the nodes in the order the traversal visits them. */
  function PreorderPaths(t: DomNode): (r: seq<seq<nat>>)
    decreases t
  {
    [[]] + ForestPaths(t.children, 0)
  }

  /** Paths of a run of siblings whose first one has child index `base`. */
  function ForestPaths(cs: seq<DomNode>, base: nat): (r: seq<seq<nat>>)
    decreases cs
  {
    if cs == [] then [] else Under(base, PreorderPaths(cs[0])) + ForestPaths(cs[1..], base + 1)
  }

  lemma {:induction false} ForestPathsShape(cs: seq<DomNode>, base: nat)
    ensures |ForestPaths(cs, base)| == ForestSize(cs)
    ensures forall k :: 0 <= k < |ForestPaths(cs, base)| ==>
      |ForestPaths(cs, base)[k]| >= 1 && base <= ForestPaths(cs, base)[k][0] < base + |cs|
    decreases cs
  {
    if cs != [] {
      PreorderPathsLength(cs[0]);
      ForestPathsShape(cs[1..], base + 1);
    }
  }

  lemma {:induction false} PreorderPathsLength(t: DomNode)
    ensures |PreorderPaths(t)| == Size(t)
    decreases t
  {
    ForestPathsShape(t.children, 0);
  }

  lemma PathBeforeUnder(b: nat, p: seq<nat>, q: seq<nat>)
    ensures PathBefore([b] + p, [b] + q) <==> PathBefore(p, q)
  {
    assert ([b] + p)[1..] == p;
    assert ([b] + q)[1..] == q;
  }

  lemma {:induction false} PreorderPathsOrdered(t: DomNode)
    ensures StrictlyOrdered(PreorderPaths(t))
    decreases t
  {
    ForestPathsOrdered(t.children, 0);
    ForestPathsShape(t.children, 0);
  }

  lemma {:induction false} ForestPathsOrdered(cs: seq<DomNode>, base: nat)
    ensures StrictlyOrdered(ForestPaths(cs, base))
    decreases cs
  {
    if cs != [] {
      var head := Under(base, PreorderPaths(cs[0]));
      var tail := ForestPaths(cs[1..], base + 1);
      PreorderPathsOrdered(cs[0]);
      ForestPathsOrdered(cs[1..], base + 1);
      ForestPathsShape(cs[1..], base + 1);
      forall i, j | 0 <= i < j < |head| ensures PathBefore(head[i], head[j]) {
        PathBeforeUnder(base, PreorderPaths(cs[0])[i], PreorderPaths(cs[0])[j]);
      }
      forall i, j | 0 <= i < |head| && 0 <= j < |tail| ensures PathBefore(head[i], tail[j]) {
        assert head[i][0] == base < tail[j][0];
      }
      assert ForestPaths(cs, base) == head + tail;
    }
  }

  /** Every path listed by the traversal names a node, and every node's path
      is listed. */
  lemma {:induction false} PreorderPathsComplete(t: DomNode, q: seq<nat>)
    ensures q in PreorderPaths(t) <==> ValidPath(t, q)
    decreases t
  {
    if q != [] {
      ForestPathsComplete(t.children, 0, q);
      assert q in PreorderPaths(t) <==> q in ForestPaths(t.children, 0);
    }
  }

  lemma {:induction false} ForestPathsComplete(cs: seq<DomNode>, base: nat, q: seq<nat>)
    ensures q in ForestPaths(cs, base) <==>
      (|q| >= 1 && base <= q[0] < base + |cs| && ValidPath(cs[q[0] - base], q[1..]))
    decreases cs
  {
    if cs != [] {
      var head := Under(base, PreorderPaths(cs[0]));
      assert ForestPaths(cs, base) == head + ForestPaths(cs[1..], base + 1);
      ForestPathsComplete(cs[1..], base + 1, q);
      if |q| >= 1 && q[0] == base {
        PreorderPathsComplete(cs[0], q[1..]);
        if q[1..] in PreorderPaths(cs[0]) {
          var k :| 0 <= k < |PreorderPaths(cs[0])| && PreorderPaths(cs[0])[k] == q[1..];
          assert head[k] == q;
        }
        if q in head {
          var k :| 0 <= k < |head| && head[k] == q;
          assert q[1..] == PreorderPaths(cs[0])[k];
        }
      } else {
        assert forall k :: 0 <= k < |head| ==> head[k][0] == base;
        if |q| >= 1 && base + 1 <= q[0] < base + |cs| {
          assert cs[1..][q[0] - (base + 1)] == cs[q[0] - base];
        }
      }
    }
  }

  /** The k-th node the traversal visits is the node named by the k-th path. */
  lemma {:induction false} PreorderNodesAtPaths(t: DomNode)
    ensures |PreorderPaths(t)| == |Preorder(t)|
    ensures forall k :: 0 <= k < |Preorder(t)| ==>
      ValidPath(t, PreorderPaths(t)[k]) && Preorder(t)[k] == NodeAt(t, PreorderPaths(t)[k])
    decreases t
  {
    PreorderPathsLength(t);
    ForestNodesAtPaths(t.children, 0, t);
  }

  lemma {:induction false} ForestNodesAtPaths(cs: seq<DomNode>, base: nat, parent: DomNode)
    requires base + |cs| == |parent.children| && parent.children[base..] == cs
    ensures |ForestPaths(cs, base)| == |PreorderForest(cs)|
    ensures forall k :: 0 <= k < |PreorderForest(cs)| ==>
      ValidPath(parent, ForestPaths(cs, base)[k]) &&
      PreorderForest(cs)[k] == NodeAt(parent, ForestPaths(cs, base)[k])
    decreases cs
  {
    ForestPathsShape(cs, base);
    if cs != [] {
      var c := cs[0];
      assert parent.children[base] == c;
      PreorderNodesAtPaths(c);
      assert parent.children[base + 1..] == cs[1..];
      ForestNodesAtPaths(cs[1..], base + 1, parent);
      var head := Under(base, PreorderPaths(c));
      assert ForestPaths(cs, base) == head + ForestPaths(cs[1..], base + 1);
      forall k | 0 <= k < |head|
        ensures ValidPath(parent, head[k]) && Preorder(c)[k] == NodeAt(parent, head[k])
      {
        assert head[k][0] == base && head[k][1..] == PreorderPaths(c)[k];
      }
    }
  }

  /** The traversal visits every node exactly once, in pre-order: the paths it
      visits are exactly the valid paths, strictly increasing in pre-order
      (so none repeats), and the k-th visited node is the one at the k-th path. */
  lemma VisitsEveryNodeOnceInPreorder(t: DomNode)
    ensures |PreorderPaths(t)| == |Preorder(t)| == Size(t)
    ensures forall q :: q in PreorderPaths(t) <==> ValidPath(t, q)
    ensures StrictlyOrdered(PreorderPaths(t))
    ensures forall k :: 0 <= k < |Preorder(t)| ==> Preorder(t)[k] == NodeAt(t, PreorderPaths(t)[k])
  {
    PreorderNodesAtPaths(t);
    PreorderPathsOrdered(t);
    forall q ensures q in PreorderPaths(t) <==> ValidPath(t, q) {
      PreorderPathsComplete(t, q);
    }
  }
}
