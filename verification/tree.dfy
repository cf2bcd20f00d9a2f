/**
 * ImplTree: a rooted binary tree built bottom-up. Nodes live in one array:
 * the leaves are 0 .. numLeaves - 1, and every join takes the next free
 * node as the parent of two roots. A complete tree over n leaves uses
 * 2n - 1 nodes and its root is the last node joined.
 */
module Tree {

  /** The link value for "no node". */
  const NO_NODE: int := -1

  /** NODE_INFO: the links, the number of leaves below, and the height and edge weight. */
  datatype NodeInfo = NodeInfo(parent: int, left: int, right: int, numChildren: int, height: int, weight: int)

  /** A leaf as recordLeaves leaves it: no links, one leaf below it, height and weight 0. */
  const LeafNode := NodeInfo(NO_NODE, NO_NODE, NO_NODE, 1, 0, 0)

  /** A node not yet joined. */
  const FreeNode := NodeInfo(NO_NODE, NO_NODE, NO_NODE, 0, 0, 0)

  /** The roots among the first cn nodes. */
  ghost function Roots(t: seq<NodeInfo>, cn: nat): set<int>
    requires cn <= |t|
  {
    set k | 0 <= k < cn && t[k].parent == NO_NODE
  }

  /** Node k was made by joinNodes: two distinct earlier children that point back to it. */
  ghost predicate Joined(t: seq<NodeInfo>, k: nat)
    requires k < |t|
  {
    0 <= t[k].left < k && 0 <= t[k].right < k && t[k].left != t[k].right &&
    t[t[k].left].parent == k && t[t[k].right].parent == k &&
    t[k].numChildren == t[t[k].left].numChildren + t[t[k].right].numChildren
  }

  /** A parent link of node k that leads to a later node naming k as a child. */
  ghost predicate LinkedUp(t: seq<NodeInfo>, cn: nat, k: nat)
    requires k < |t| && cn <= |t|
  {
    t[k].parent == NO_NODE ||
    (k < t[k].parent < cn && (t[t[k].parent].left == k || t[t[k].parent].right == k))
  }

  /** Leaves carry no children and count one leaf; every later node in use was joined. */
  ghost predicate Shaped(t: seq<NodeInfo>, n: nat, cn: nat)
  {
    1 <= n <= cn <= |t| &&
    (forall k :: 0 <= k < n ==> t[k].left == NO_NODE && t[k].right == NO_NODE && t[k].numChildren == 1) &&
    (forall k :: n <= k < cn ==> Joined(t, k))
  }

  /** Shaped, and every parent link goes up to a node naming the child. */
  ghost predicate Linked(t: seq<NodeInfo>, n: nat, cn: nat)
  {
    Shaped(t, n, cn) && forall k :: 0 <= k < cn ==> LinkedUp(t, cn, k)
  }

  /**
   * The tree invariant with n leaves and cn nodes in use: the links are
   * consistent, 2n - 1 nodes are allocated, free nodes have no parent, and
   * each join has removed one root.
   */
  ghost predicate Forest(t: seq<NodeInfo>, n: nat, cn: nat)
  {
    Linked(t, n, cn) && |t| == 2 * n - 1 &&
    (forall k :: cn <= k < |t| ==> t[k].parent == NO_NODE) &&
    |Roots(t, cn)| == 2 * n - cn
  }


  /** The node a chain of parent links from x ends in (findRoot). */
  ghost function Root(t: seq<NodeInfo>, n: nat, cn: nat, x: nat): (r: nat)
    requires Linked(t, n, cn) && x < cn
    ensures x <= r < cn && t[r].parent == NO_NODE
    decreases cn - x
  {
    assert LinkedUp(t, cn, x);
    if t[x].parent == NO_NODE then x else Root(t, n, cn, t[x].parent)
  }

  /** a lies on the chain of parent links from x. */
  ghost predicate Above(t: seq<NodeInfo>, n: nat, cn: nat, x: nat, a: nat)
    requires Linked(t, n, cn) && x < cn
    decreases cn - x
  {
    assert LinkedUp(t, cn, x);
    x == a || (t[x].parent != NO_NODE && Above(t, n, cn, t[x].parent, a))
  }

  /** traversePostOrder: both subtrees, then the node itself; NO_NODE gives nothing. */
  function PostOrder(t: seq<NodeInfo>, n: nat, cn: nat, node: int): (s: seq<int>)
    requires Shaped(t, n, cn) && NO_NODE <= node < cn
    ensures node != NO_NODE ==> |s| > 0 && s[|s| - 1] == node
    decreases node + 1
  {
    if node == NO_NODE then []
    else if node < n then [node]
    else
      assert Joined(t, node);
      PostOrder(t, n, cn, t[node].left) + PostOrder(t, n, cn, t[node].right) + [node]
  }

  /** getNodesDepthFirstVisit: the node, then the right subtree, then the left one (the stack pops the right child first). */
  function PreOrder(t: seq<NodeInfo>, n: nat, cn: nat, node: int): (s: seq<int>)
    requires Shaped(t, n, cn) && NO_NODE <= node < cn
    decreases node + 1
  {
    if node == NO_NODE then []
    else if node < n then [node]
    else
      assert Joined(t, node);
      [node] + PreOrder(t, n, cn, t[node].right) + PreOrder(t, n, cn, t[node].left)
  }

  /** The walk of a node visits only nodes up to it. */
  lemma {:induction false} PostOrderBounded(t: seq<NodeInfo>, n: nat, cn: nat, k: int, x: int)
    requires Shaped(t, n, cn) && NO_NODE <= k < cn && x in PostOrder(t, n, cn, k)
    ensures 0 <= x <= k
    decreases k + 1
  {
    if n <= k && x != k {
      assert Joined(t, k);
      var l, r := t[k].left, t[k].right;
      if x in PostOrder(t, n, cn, l) {
        PostOrderBounded(t, n, cn, l, x);
      } else {
        PostOrderBounded(t, n, cn, r, x);
      }
    }
  }

  /** The number of leaves (nodes below n) in s. */
  function LeafCount(s: seq<int>, n: nat): nat
  {
    if |s| == 0 then 0 else LeafCount(s[..|s| - 1], n) + (if s[|s| - 1] < n then 1 else 0)
  }

  lemma {:induction false} LeafCountAppend(s: seq<int>, u: seq<int>, n: nat)
    ensures LeafCount(s + u, n) == LeafCount(s, n) + LeafCount(u, n)
    decreases |u|
  {
    if |u| > 0 {
      assert (s + u)[..|s + u| - 1] == s + u[..|u| - 1];
      LeafCountAppend(s, u[..|u| - 1], n);
    } else {
      assert s + u == s;
    }
  }

  /** numChildren counts the leaves the post-order walk of the node visits. */
  lemma {:induction false} NumChildrenCountsLeaves(t: seq<NodeInfo>, n: nat, cn: nat, k: nat)
    requires Shaped(t, n, cn) && k < cn
    ensures t[k].numChildren == LeafCount(PostOrder(t, n, cn, k), n)
    decreases k
  {
    if k < n {
      assert LeafCount([k], n) == LeafCount([], n) + 1 by { assert [k][..0] == []; }
    } else {
      assert Joined(t, k);
      var l, r := t[k].left, t[k].right;
      var L, R := PostOrder(t, n, cn, l), PostOrder(t, n, cn, r);
      NumChildrenCountsLeaves(t, n, cn, l);
      NumChildrenCountsLeaves(t, n, cn, r);
      LeafCountAppend(L, R, n);
      LeafCountAppend(L + R, [k], n);
      assert LeafCount([k], n) == 0 by { assert [k][..0] == []; }
    }
  }

  /** In s, both children of a joined node come before it. */
  ghost predicate ChildrenFirst(t: seq<NodeInfo>, n: nat, s: seq<int>)
  {
    forall i :: 0 <= i < |s| && n <= s[i] < |t| ==> t[s[i]].left in s[..i] && t[s[i]].right in s[..i]
  }

  lemma ChildrenFirstAppend(t: seq<NodeInfo>, n: nat, a: seq<int>, b: seq<int>)
    requires ChildrenFirst(t, n, a) && ChildrenFirst(t, n, b)
    ensures ChildrenFirst(t, n, a + b)
  {
    var s := a + b;
    forall i | 0 <= i < |s| && n <= s[i] < |t| ensures t[s[i]].left in s[..i] && t[s[i]].right in s[..i] {
      if i < |a| {
        assert s[..i] == a[..i];
      } else {
        assert s[i] == b[i - |a|];
        assert s[..i] == a + b[..i - |a|];
      }
    }
  }

  lemma ChildrenFirstSnoc(t: seq<NodeInfo>, n: nat, a: seq<int>, k: int)
    requires ChildrenFirst(t, n, a)
    requires n <= k < |t| ==> t[k].left in a && t[k].right in a
    ensures ChildrenFirst(t, n, a + [k])
  {
    var s := a + [k];
    forall i | 0 <= i < |s| && n <= s[i] < |t| ensures t[s[i]].left in s[..i] && t[s[i]].right in s[..i] {
      if i < |a| {
        assert s[..i] == a[..i];
      } else {
        assert s[..i] == a;
      }
    }
  }

  /** The post-order walk lists both children of a node before the node. */
  lemma {:induction false} PostOrderChildrenFirst(t: seq<NodeInfo>, n: nat, cn: nat, k: nat)
    requires Shaped(t, n, cn) && k < cn
    ensures ChildrenFirst(t, n, PostOrder(t, n, cn, k))
    decreases k
  {
    if n <= k {
      assert Joined(t, k);
      var l, r := t[k].left, t[k].right;
      var L, R := PostOrder(t, n, cn, l), PostOrder(t, n, cn, r);
      PostOrderChildrenFirst(t, n, cn, l);
      PostOrderChildrenFirst(t, n, cn, r);
      ChildrenFirstAppend(t, n, L, R);
      assert L[|L| - 1] == l && R[|R| - 1] == r;
      assert l in L + R && r in L + R;
      ChildrenFirstSnoc(t, n, L + R, k);
    } else {
      ChildrenFirstSnoc(t, n, [], k);
    }
  }

  /** Parent links only go up: a node above x is not below it. */
  lemma {:induction false} AboveUp(t: seq<NodeInfo>, n: nat, cn: nat, x: nat, a: nat)
    requires Linked(t, n, cn) && x < cn && Above(t, n, cn, x, a)
    ensures x <= a < cn
    decreases cn - x
  {
    assert LinkedUp(t, cn, x);
    if x != a {
      AboveUp(t, n, cn, t[x].parent, a);
    }
  }

  /** Stepping from a node to its parent p keeps p above every node below. */
  lemma {:induction false} AboveExtend(t: seq<NodeInfo>, n: nat, cn: nat, x: nat, a: nat, p: nat)
    requires Linked(t, n, cn) && x < cn && a < cn && Above(t, n, cn, x, a) && t[a].parent == p
    ensures Above(t, n, cn, x, p)
    decreases cn - x
  {
    assert LinkedUp(t, cn, x);
    if x != a {
      AboveExtend(t, n, cn, t[x].parent, a, p);
    } else {
      assert LinkedUp(t, cn, p);
    }
  }

  /** The nodes above x form one chain: of two of them, the lower lies below the upper. */
  lemma {:induction false} AboveChain(t: seq<NodeInfo>, n: nat, cn: nat, x: nat, a: nat, b: nat)
    requires Linked(t, n, cn) && x < cn && a <= b
    requires Above(t, n, cn, x, a) && Above(t, n, cn, x, b)
    ensures a < cn && Above(t, n, cn, a, b)
    decreases cn - x
  {
    assert LinkedUp(t, cn, x);
    AboveUp(t, n, cn, x, a);
    AboveUp(t, n, cn, x, b);
    if x != a {
      AboveChain(t, n, cn, t[x].parent, a, b);
    }
  }

  /** Every node the post-order walk of k visits lies below k. */
  lemma {:induction false} PostOrderBelow(t: seq<NodeInfo>, n: nat, cn: nat, k: nat, x: int)
    requires Linked(t, n, cn) && k < cn && x in PostOrder(t, n, cn, k)
    ensures 0 <= x < cn && Above(t, n, cn, x, k)
    decreases k
  {
    if n <= k && x != k {
      assert Joined(t, k);
      var l, r := t[k].left, t[k].right;
      var c := if x in PostOrder(t, n, cn, l) then l else r;
      PostOrderBelow(t, n, cn, c, x);
      AboveExtend(t, n, cn, x, c, k);
    }
  }

  /** The two subtrees of a joined node share no node. */
  lemma SubtreesDisjoint(t: seq<NodeInfo>, n: nat, cn: nat, k: nat, x: int)
    requires Linked(t, n, cn) && n <= k < cn
    ensures Joined(t, k)
    ensures !(x in PostOrder(t, n, cn, t[k].left) && x in PostOrder(t, n, cn, t[k].right))
  {
    assert Joined(t, k);
    var l, r := t[k].left, t[k].right;
    if x in PostOrder(t, n, cn, l) && x in PostOrder(t, n, cn, r) {
      PostOrderBelow(t, n, cn, l, x);
      PostOrderBelow(t, n, cn, r, x);
      var lo, hi := if l < r then l else r, if l < r then r else l;
      AboveChain(t, n, cn, x, lo, hi);
      assert LinkedUp(t, cn, lo);
      AboveUp(t, n, cn, k, hi);
    }
  }

  /** s lists no node twice. */
  ghost predicate Distinct(s: seq<int>)
  {
    forall i, j :: 0 <= i < j < |s| ==> s[i] != s[j]
  }

  lemma DistinctJoin(a: seq<int>, b: seq<int>, k: int)
    requires Distinct(a) && Distinct(b) && k !in a && k !in b
    requires forall x :: !(x in a && x in b)
    ensures Distinct(a + b + [k])
  {
    var s := a + b + [k];
    forall i, j | 0 <= i < j < |s| ensures s[i] != s[j] {
      if j < |a| {
      } else if i < |a| && j < |a| + |b| {
        assert s[i] in a && s[j] in b;
      } else if i < |a| {
        assert s[i] in a;
      } else if j < |a| + |b| {
        assert s[i] == b[i - |a|] && s[j] == b[j - |a|];
      } else {
        assert s[i] in b;
      }
    }
  }

  /** The post-order walk visits each node at most once. */
  lemma {:induction false} PostOrderDistinct(t: seq<NodeInfo>, n: nat, cn: nat, k: nat)
    requires Linked(t, n, cn) && k < cn
    ensures Distinct(PostOrder(t, n, cn, k))
    decreases k
  {
    if n <= k {
      assert Joined(t, k);
      var l, r := t[k].left, t[k].right;
      var L, R := PostOrder(t, n, cn, l), PostOrder(t, n, cn, r);
      PostOrderDistinct(t, n, cn, l);
      PostOrderDistinct(t, n, cn, r);
      forall x ensures !(x in L && x in R) {
        SubtreesDisjoint(t, n, cn, k, x);
      }
      if k in L {
        PostOrderBounded(t, n, cn, l, k);
      }
      if k in R {
        PostOrderBounded(t, n, cn, r, k);
      }
      DistinctJoin(L, R, k);
    }
  }

  /** The walk of k contains the walk of every node it visits. */
  lemma {:induction false} SubtreeInPostOrder(t: seq<NodeInfo>, n: nat, cn: nat, y: nat, k: nat, z: int)
    requires Shaped(t, n, cn) && k < cn && y < cn && y in PostOrder(t, n, cn, k) && z in PostOrder(t, n, cn, y)
    ensures z in PostOrder(t, n, cn, k)
    decreases k
  {
    if y != k {
      assert n <= k && Joined(t, k);
      var l, r := t[k].left, t[k].right;
      if y in PostOrder(t, n, cn, l) {
        SubtreeInPostOrder(t, n, cn, y, l, z);
      } else {
        SubtreeInPostOrder(t, n, cn, y, r, z);
      }
    }
  }

  /** A node below k is visited by the post-order walk of k. */
  lemma {:induction false} BelowInPostOrder(t: seq<NodeInfo>, n: nat, cn: nat, x: nat, k: nat)
    requires Linked(t, n, cn) && x < cn && k < cn && Above(t, n, cn, x, k)
    ensures x in PostOrder(t, n, cn, k)
    decreases cn - x
  {
    assert LinkedUp(t, cn, x);
    if x != k {
      var p := t[x].parent;
      BelowInPostOrder(t, n, cn, p, k);
      assert Joined(t, p);
      assert x in PostOrder(t, n, cn, p);
      SubtreeInPostOrder(t, n, cn, p, k, x);
    }
  }

  /** findRoot ends at a node above x. */
  lemma {:induction false} RootAbove(t: seq<NodeInfo>, n: nat, cn: nat, x: nat)
    requires Linked(t, n, cn) && x < cn
    ensures Above(t, n, cn, x, Root(t, n, cn, x))
    decreases cn - x
  {
    assert LinkedUp(t, cn, x);
    if t[x].parent != NO_NODE {
      RootAbove(t, n, cn, t[x].parent);
    }
  }

  /** One root among cn nodes, with cn - 1 one of them: it is the only one. */
  lemma LastIsOnlyRoot(t: seq<NodeInfo>, cn: nat, y: int)
    requires 0 < cn <= |t| && |Roots(t, cn)| == 1 && cn - 1 in Roots(t, cn) && y in Roots(t, cn)
    ensures y == cn - 1
  {
    var R := Roots(t, cn);
    assert R == (R - {cn - 1}) + {cn - 1};
    assert |R - {cn - 1}| == 0;
  }

  /**
   * Once all leaves are joined (cn == 2n - 1) one root remains: the last
   * node joined, which is the root of every node and whose walk visits them all.
   */
  lemma CompleteTree(t: seq<NodeInfo>, n: nat, cn: nat, x: nat)
    requires Forest(t, n, cn) && cn == 2 * n - 1 && x < cn
    ensures Root(t, n, cn, x) == cn - 1
    ensures x in PostOrder(t, n, cn, cn - 1)
  {
    assert LinkedUp(t, cn, cn - 1);
    var rx := Root(t, n, cn, x);
    assert rx in Roots(t, cn);
    LastIsOnlyRoot(t, cn, rx);
    RootAbove(t, n, cn, x);
    BelowInPostOrder(t, n, cn, x, cn - 1);
  }

  /** joinNodes on the node array: both roots point to node r with their edge weights, r takes them as children. */
  function Join(t: seq<NodeInfo>, a: nat, b: nat, r: nat, w1: int, w2: int): (u: seq<NodeInfo>)
    requires a < |t| && b < |t| && r < |t|
  {
    var t1 := t[a := t[a].(parent := r)][b := t[b].(parent := r)];
    var t2 := t1[a := t1[a].(weight := w1)][b := t1[b].(weight := w2)];
    t2[r := t2[r].(left := a, right := b, numChildren := t2[a].numChildren + t2[b].numChildren)]
  }

  /** The nodes Join touches, for distinct a, b and r. */
  lemma JoinCells(t: seq<NodeInfo>, a: nat, b: nat, r: nat, w1: int, w2: int)
    requires a < |t| && b < |t| && r < |t| && a != b && a != r && b != r
    ensures var u := Join(t, a, b, r, w1, w2);
      |u| == |t| &&
      u[a] == t[a].(parent := r, weight := w1) && u[b] == t[b].(parent := r, weight := w2) &&
      u[r] == t[r].(left := a, right := b, numChildren := t[a].numChildren + t[b].numChildren) &&
      forall k :: 0 <= k < |t| && k != a && k != b && k != r ==> u[k] == t[k]
  {
  }

  lemma JoinShaped(t: seq<NodeInfo>, n: nat, cn: nat, a: nat, b: nat, w1: int, w2: int)
    requires Shaped(t, n, cn) && cn < |t| && a < cn && b < cn && a != b
    requires t[a].parent == NO_NODE && t[b].parent == NO_NODE
    ensures Shaped(Join(t, a, b, cn, w1, w2), n, cn + 1)
  {
    var u := Join(t, a, b, cn, w1, w2);
    JoinCells(t, a, b, cn, w1, w2);
    forall k | n <= k < cn + 1 ensures Joined(u, k) {
      if k < cn {
        assert Joined(t, k);
      }
    }
  }

  lemma JoinLinked(t: seq<NodeInfo>, n: nat, cn: nat, a: nat, b: nat, w1: int, w2: int)
    requires Linked(t, n, cn) && cn < |t| && a < cn && b < cn && a != b
    requires t[a].parent == NO_NODE && t[b].parent == NO_NODE && t[cn].parent == NO_NODE
    ensures Linked(Join(t, a, b, cn, w1, w2), n, cn + 1)
  {
    var u := Join(t, a, b, cn, w1, w2);
    JoinCells(t, a, b, cn, w1, w2);
    JoinShaped(t, n, cn, a, b, w1, w2);
    var cn1 := cn + 1;
    forall k | 0 <= k < cn1 ensures LinkedUp(u, cn1, k) {
      if k != a && k != b && k != cn {
        assert LinkedUp(t, cn, k);
      }
    }
  }

  lemma JoinRoots(t: seq<NodeInfo>, cn: nat, a: nat, b: nat, w1: int, w2: int)
    requires cn < |t| && a < cn && b < cn && a != b
    requires t[a].parent == NO_NODE && t[b].parent == NO_NODE && t[cn].parent == NO_NODE
    ensures Roots(Join(t, a, b, cn, w1, w2), cn + 1) == Roots(t, cn) - {a, b} + {cn}
    ensures |Roots(Join(t, a, b, cn, w1, w2), cn + 1)| == |Roots(t, cn)| - 1
  {
    var u := Join(t, a, b, cn, w1, w2);
    JoinCells(t, a, b, cn, w1, w2);
    var R, R' := Roots(t, cn), Roots(u, cn + 1);
    assert R' == R - {a, b} + {cn};
    assert a in R && b in R && cn !in R;
    assert R == (R - {a, b}) + {a, b};
  }

  /** Joining two distinct roots into the next free node keeps the tree invariant and removes one root. */
  lemma JoinKeepsForest(t: seq<NodeInfo>, n: nat, cn: nat, a: nat, b: nat, w1: int, w2: int)
    requires Forest(t, n, cn) && cn < |t| && a < cn && b < cn && a != b
    requires t[a].parent == NO_NODE && t[b].parent == NO_NODE
    ensures Forest(Join(t, a, b, cn, w1, w2), n, cn + 1)
    ensures Roots(Join(t, a, b, cn, w1, w2), cn + 1) == Roots(t, cn) - {a, b} + {cn}
  {
    var u := Join(t, a, b, cn, w1, w2);
    JoinLinked(t, n, cn, a, b, w1, w2);
    JoinRoots(t, cn, a, b, w1, w2);
    JoinCells(t, a, b, cn, w1, w2);
  }

  /** The pre-order walks still owed for the nodes on a stack, whose top is its first element. */
  ghost function Pending(t: seq<NodeInfo>, n: nat, cn: nat, stack: seq<int>): seq<int>
    requires Shaped(t, n, cn)
  {
    if |stack| == 0 then []
    else (if NO_NODE <= stack[0] < cn then PreOrder(t, n, cn, stack[0]) else []) + Pending(t, n, cn, stack[1..])
  }

  /** A node on top of the stack owes its own walk first. */
  lemma PendingCons(t: seq<NodeInfo>, n: nat, cn: nat, x: nat, rest: seq<int>)
    requires Shaped(t, n, cn) && x < cn
    ensures Pending(t, n, cn, [x] + rest) == PreOrder(t, n, cn, x) + Pending(t, n, cn, rest)
  {
    assert ([x] + rest)[1..] == rest;
  }

  /** Pushing a child onto the stack, unless the link is NO_NODE. */
  function Push(c: int, stack: seq<int>): seq<int>
  {
    if c != NO_NODE then [c] + stack else stack
  }

  /** Every entry of the stack is a node in use. */
  predicate OnStack(cn: nat, stack: seq<int>)
  {
    forall i :: 0 <= i < |stack| ==> 0 <= stack[i] < cn
  }

  /** The stack after node is popped from the front of rest's stack and its left, then its right child pushed. */
  function Popped(t: seq<NodeInfo>, node: nat, rest: seq<int>): seq<int>
    requires node < |t|
  {
    Push(t[node].right, Push(t[node].left, rest))
  }

  /** Popping a leaf pushes nothing. */
  lemma VisitLeaf(t: seq<NodeInfo>, n: nat, cn: nat, rest: seq<int>, node: nat)
    requires Shaped(t, n, cn) && node < n
    ensures Popped(t, node, rest) == rest
    ensures Pending(t, n, cn, [node] + rest) == [node] + Pending(t, n, cn, rest)
  {
    PendingCons(t, n, cn, node, rest);
  }

  /** Popping a joined node pushes its two children, whose walks make up the rest of its own. */
  lemma VisitJoined(t: seq<NodeInfo>, n: nat, cn: nat, rest: seq<int>, node: nat)
    requires Shaped(t, n, cn) && n <= node < cn
    ensures Joined(t, node)
    ensures Popped(t, node, rest) == [t[node].right] + ([t[node].left] + rest)
    ensures Pending(t, n, cn, [node] + rest) == [node] + Pending(t, n, cn, Popped(t, node, rest))
  {
    assert Joined(t, node);
    var l, r := t[node].left, t[node].right;
    var P, Q := PreOrder(t, n, cn, node), Pending(t, n, cn, rest);
    var L, R := PreOrder(t, n, cn, l), PreOrder(t, n, cn, r);
    assert P == [node] + R + L;
    PendingCons(t, n, cn, node, rest);
    PendingCons(t, n, cn, l, rest);
    PendingCons(t, n, cn, r, [l] + rest);
    Regroup([node], R, L, Q);
  }

  /** Concatenation regrouped to the right. */
  lemma Regroup(a: seq<int>, b: seq<int>, c: seq<int>, d: seq<int>)
    ensures a + b + c + d == a + (b + (c + d))
  {
    assert a + b + c == a + (b + c);
    assert a + (b + c) + d == a + ((b + c) + d);
  }

  /** The two children pushed for a joined node are nodes in use. */
  lemma PushedOnStack(cn: nat, rest: seq<int>, l: int, r: int)
    requires OnStack(cn, rest) && 0 <= l < cn && 0 <= r < cn
    ensures OnStack(cn, [r] + ([l] + rest))
  {
    var s := [r] + ([l] + rest);
    forall i | 0 <= i < |s| ensures 0 <= s[i] < cn {
      if i >= 2 {
        assert s[i] == rest[i - 2];
      }
    }
  }

  /**
   * One step of the stack walk: popping node and pushing its left, then its
   * right child leaves the same walk owed, less the node itself.
   */
  lemma VisitStep(t: seq<NodeInfo>, n: nat, cn: nat, rest: seq<int>, node: nat)
    requires Shaped(t, n, cn) && node < cn && OnStack(cn, rest)
    ensures OnStack(cn, Popped(t, node, rest))
    ensures Pending(t, n, cn, [node] + rest) == [node] + Pending(t, n, cn, Popped(t, node, rest))
  {
    if node < n {
      VisitLeaf(t, n, cn, rest, node);
    } else {
      VisitJoined(t, n, cn, rest, node);
      PushedOnStack(cn, rest, t[node].left, t[node].right);
    }
  }

  /** The walk owed shrinks by the popped node, which moves to the output. */
  lemma WalkStep(t: seq<NodeInfo>, n: nat, cn: nat, result: seq<int>, stack: seq<int>)
    requires Shaped(t, n, cn) && |stack| > 0 && OnStack(cn, stack)
    ensures var next := Popped(t, stack[0], stack[1..]);
            OnStack(cn, next) &&
            (result + [stack[0]]) + Pending(t, n, cn, next) == result + Pending(t, n, cn, stack) &&
            |Pending(t, n, cn, next)| < |Pending(t, n, cn, stack)|
  {
    var node, rest := stack[0], stack[1..];
    assert stack == [node] + rest;
    assert OnStack(cn, rest) by {
      forall i | 0 <= i < |rest| ensures 0 <= rest[i] < cn {
        assert rest[i] == stack[i + 1];
      }
    }
    VisitStep(t, n, cn, rest, node);
  }

  class Tree {
    var numLeaves: nat
    var currentNode: nat
    var nodes: array<NodeInfo>

    /** Either the empty tree of the default constructor, or a forest over the node array. */
    ghost predicate Valid()
      reads this, nodes
    {
      (numLeaves == 0 && currentNode == 0 && nodes.Length == 0) ||
      Forest(nodes[..], numLeaves, currentNode)
    }

    /** The constructor: with leaves > 0 the tree is allocated by setNumLeaves, otherwise it stays empty. */
    constructor (leaves: nat)
      ensures Valid() && fresh(nodes)
      ensures leaves > 0 ==> numLeaves == leaves && currentNode == leaves
      ensures leaves > 0 ==> forall k :: 0 <= k < leaves ==> nodes[k] == LeafNode
      ensures leaves == 0 ==> numLeaves == 0 && currentNode == 0
    {
      if leaves > 0 {
        var a := Allocate(leaves);
        numLeaves, currentNode, nodes := leaves, leaves, a;
      } else {
        numLeaves, currentNode, nodes := 0, 0, new NodeInfo[0];
      }
    }

    /** setNumLeaves: 2n - 1 nodes, the first n of them leaves, the next node to join is n. */
    method SetNumLeaves(leaves: nat)
      requires leaves != 0
      modifies this
      ensures Valid() && fresh(nodes)
      ensures numLeaves == leaves && currentNode == leaves && nodes.Length == 2 * leaves - 1
      ensures forall k :: 0 <= k < leaves ==> nodes[k] == LeafNode
    {
      var a := Allocate(leaves);
      numLeaves, currentNode, nodes := leaves, leaves, a;
    }

    /** getRoot: the last node joined. */
    function GetRoot(): (r: int)
      reads this
    {
      currentNode - 1
    }

    /** findRoot: follow parent links until a node has none. */
    method FindRoot(node: nat) returns (r: nat)
      requires Valid() && node < currentNode
      ensures r == Root(nodes[..], numLeaves, currentNode, node)
      ensures nodes[r].parent == NO_NODE
    {
      r := node;
      while nodes[r].parent != NO_NODE
        invariant r < currentNode && Root(nodes[..], numLeaves, currentNode, r) == Root(nodes[..], numLeaves, currentNode, node)
        decreases currentNode - r
      {
        assert LinkedUp(nodes[..], currentNode, r);
        r := nodes[r].parent;
      }
    }

    /**
     * joinNodes: the next free node becomes the parent of the two nodes (or,
     * with mapParents, of their roots); its id is returned and the counter moves on.
     */
    method JoinNodes(node1: nat, node2: nat, weight1: int, weight2: int, mapParents: bool) returns (r: nat)
      requires Valid() && node1 < currentNode && node2 < currentNode && currentNode < nodes.Length
      requires mapParents ==> Root(nodes[..], numLeaves, currentNode, node1) != Root(nodes[..], numLeaves, currentNode, node2)
      requires !mapParents ==> node1 != node2 && nodes[node1].parent == NO_NODE && nodes[node2].parent == NO_NODE
      modifies this, nodes
      ensures Valid() && nodes == old(nodes) && numLeaves == old(numLeaves)
      ensures r == old(currentNode) && currentNode == r + 1
      ensures var a := if mapParents then Root(old(nodes[..]), numLeaves, r, node1) else node1;
              var b := if mapParents then Root(old(nodes[..]), numLeaves, r, node2) else node2;
              nodes[..] == Join(old(nodes[..]), a, b, r, weight1, weight2)
    {
      var a, b := node1, node2;
      if mapParents {
        a := FindRoot(node1);
        b := FindRoot(node2);
      }
      r := JoinRoots(a, b, weight1, weight2);
    }

    /** The stores of joinNodes once both nodes are roots. */
    method JoinRoots(a: nat, b: nat, weight1: int, weight2: int) returns (r: nat)
      requires Valid() && a < currentNode && b < currentNode && currentNode < nodes.Length
      requires a != b && nodes[a].parent == NO_NODE && nodes[b].parent == NO_NODE
      modifies this, nodes
      ensures Valid() && nodes == old(nodes) && numLeaves == old(numLeaves)
      ensures r == old(currentNode) && currentNode == r + 1
      ensures nodes[..] == Join(old(nodes[..]), a, b, r, weight1, weight2)
    {
      assert Forest(nodes[..], numLeaves, currentNode);
      r := currentNode;
      JoinArray(nodes, numLeaves, r, a, b, weight1, weight2);
      currentNode := r + 1;
    }

    /** traversePostOrder: appends the post-order walk of node to nodesSoFar. */
    method TraversePostOrder(node: int, nodesSoFar: seq<int>) returns (result: seq<int>)
      requires Valid() && 0 < currentNode && NO_NODE <= node < currentNode
      ensures result == nodesSoFar + PostOrder(nodes[..], numLeaves, currentNode, node)
      decreases node + 1
    {
      if node == NO_NODE {
        return nodesSoFar;
      }
      ghost var t := nodes[..];
      assert Shaped(t, numLeaves, currentNode);
      var l, r := nodes[node].left, nodes[node].right;
      if node >= numLeaves {
        assert Joined(t, node);
      }
      result := TraversePostOrder(l, nodesSoFar);
      result := TraversePostOrder(r, result);
      assert PostOrder(t, numLeaves, currentNode, node) == PostOrder(t, numLeaves, currentNode, l) + PostOrder(t, numLeaves, currentNode, r) + [node];
      result := result + [node];
    }

    /** getNodesDepthFirstFinish: the post-order walk from the root. */
    method NodesDepthFirstFinish() returns (result: seq<int>)
      requires Valid() && currentNode > 0
      ensures result == PostOrder(nodes[..], numLeaves, currentNode, GetRoot())
    {
      result := TraversePostOrder(currentNode - 1, []);
    }

    /** getNodesDepthFirstVisit: a stack walk from the root that pushes the left child, then the right one. */
    method NodesDepthFirstVisit() returns (result: seq<int>)
      requires Valid() && currentNode > 0
      ensures result == PreOrder(nodes[..], numLeaves, currentNode, GetRoot())
    {
      assert Forest(nodes[..], numLeaves, currentNode);
      result := VisitWalk(nodes, numLeaves, currentNode);
    }

    /** getNodesLeaves: the leaves 0 .. numLeaves - 1 in order. */
    method NodesLeaves() returns (result: seq<int>)
      ensures |result| == numLeaves && forall i :: 0 <= i < numLeaves ==> result[i] == i
    {
      result := [];
      var i := 0;
      while i < numLeaves
        invariant i <= numLeaves && |result| == i && forall j :: 0 <= j < i ==> result[j] == j
      {
        result := result + [i];
        i := i + 1;
      }
    }
  }

  /** The stack walk of getNodesDepthFirstVisit over the first cn nodes; the top of the stack is its first element. */
  method VisitWalk(nodes: array<NodeInfo>, n: nat, cn: nat) returns (result: seq<int>)
    requires Shaped(nodes[..], n, cn) && cn <= nodes.Length
    ensures result == PreOrder(nodes[..], n, cn, cn - 1)
  {
    ghost var t := nodes[..];
    var stack := [cn - 1];
    result := [];
    assert Pending(t, n, cn, stack) == PreOrder(t, n, cn, cn - 1) + [];
    while |stack| > 0
      invariant OnStack(cn, stack)
      invariant result + Pending(t, n, cn, stack) == PreOrder(t, n, cn, cn - 1)
      decreases |Pending(t, n, cn, stack)|
    {
      var node := stack[0];
      var rest := stack[1..];
      WalkStep(t, n, cn, result, stack);
      stack := Push(nodes[node].right, Push(nodes[node].left, rest));
      assert stack == Popped(t, node, rest);
      result := result + [node];
    }
  }

  /** The five stores of joinNodes, in the source's order, on a forest of n leaves and cn nodes in use. */
  method JoinArray(nodes: array<NodeInfo>, n: nat, cn: nat, a: nat, b: nat, weight1: int, weight2: int)
    requires Forest(nodes[..], n, cn) && cn < nodes.Length && a < cn && b < cn
    requires a != b && nodes[a].parent == NO_NODE && nodes[b].parent == NO_NODE
    modifies nodes
    ensures nodes[..] == Join(old(nodes[..]), a, b, cn, weight1, weight2)
    ensures Forest(nodes[..], n, cn + 1)
    ensures Roots(nodes[..], cn + 1) == Roots(old(nodes[..]), cn) - {a, b} + {cn}
  {
    ghost var t := nodes[..];
    JoinKeepsForest(t, n, cn, a, b, weight1, weight2);
    nodes[a] := nodes[a].(parent := cn);
    nodes[b] := nodes[b].(parent := cn);
    nodes[a] := nodes[a].(weight := weight1);
    nodes[b] := nodes[b].(weight := weight2);
    nodes[cn] := nodes[cn].(left := a, right := b, numChildren := nodes[a].numChildren + nodes[b].numChildren);
  }

  /** setNumLeaves and recordLeaves: a fresh array of 2n - 1 nodes whose first n are leaves. */
  method Allocate(leaves: nat) returns (a: array<NodeInfo>)
    requires leaves != 0
    ensures fresh(a) && a.Length == 2 * leaves - 1
    ensures Forest(a[..], leaves, leaves)
    ensures forall k :: 0 <= k < leaves ==> a[k] == LeafNode
  {
    a := new NodeInfo[2 * leaves - 1](_ => FreeNode);
    var node := 0;
    while node < leaves
      invariant node <= leaves
      invariant forall k :: 0 <= k < node ==> a[k] == LeafNode
      invariant forall k :: node <= k < a.Length ==> a[k] == FreeNode
    {
      a[node] := LeafNode;
      node := node + 1;
    }
    AllRoots(a[..], leaves);
  }

  /** When none of the first m nodes has a parent, all m are roots. */
  lemma {:induction false} AllRoots(t: seq<NodeInfo>, m: nat)
    requires m <= |t| && forall k :: 0 <= k < m ==> t[k].parent == NO_NODE
    ensures |Roots(t, m)| == m
  {
    if m > 0 {
      AllRoots(t, m - 1);
      assert Roots(t, m) == Roots(t, m - 1) + {m - 1};
    }
  }
}
