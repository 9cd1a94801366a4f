/**
 * The binary-tree exercises of the tree and graph exam page: building a tree
 * from an array in level order (`createBinaryTree`), its height
 * (`getHeight`), and the two breadth-first traversals that return the node
 * values level by level (`bfsTraverse`, `bfsTraverseRecursive`).
 *
 * Trees live in the heap as `TreeNode` objects. A ghost `Tree` value mirrors
 * the shape reachable from a root: `Valid(t)` says that the objects recorded
 * in `t` hold its values and link to its subtrees. The traversals are proved
 * against functions on `Tree`: `Level(t, d)` is the values at depth `d`, left
 * to right, and `Bfs` is a plain queue-driven breadth-first walk that gives
 * an independent definition of level order.
 */
module TreeGraphExam {
  import opened Text

  class TreeNode {
    var value: int
    var left: TreeNode?
    var right: TreeNode?

    constructor (value: int, left: TreeNode?, right: TreeNode?)
      ensures this.value == value && this.left == left && this.right == right
    {
      this.value := value;
      this.left := left;
      this.right := right;
    }
  }

  /** The shape hanging from a root, with the object that stands for each node. */
  datatype Tree = Nil | Node(obj: TreeNode, value: int, left: Tree, right: Tree)

  function Root(t: Tree): TreeNode? {
    if t.Nil? then null else t.obj
  }

  function Objs(t: Tree): set<TreeNode>
    decreases t
  {
    if t.Nil? then {} else {t.obj} + Objs(t.left) + Objs(t.right)
  }

  /** The objects of `t` carry its values and their `left`/`right` fields lead to its subtrees. */
  ghost predicate Valid(t: Tree)
    reads Objs(t)
    decreases t
  {
    t.Node? ==>
      t.obj.value == t.value && t.obj.left == Root(t.left) && t.obj.right == Root(t.right) &&
      Valid(t.left) && Valid(t.right)
  }



  function Pow2(k: nat): (p: nat)
    ensures p >= 1
  {
    if k == 0 then 1 else 2 * Pow2(k - 1)
  }

  // ---------------------------------------------------------------------------
  // Levels
  // ---------------------------------------------------------------------------

  function Height(t: Tree): nat
    decreases t
  {
    if t.Nil? then 0 else Max(Height(t.left), Height(t.right)) + 1
  }

  /** The values at depth `d`, left to right (empty for a negative depth). */
  function Level(t: Tree, d: int): seq<int>
    decreases t
  {
    if t.Nil? || d < 0 then []
    else if d == 0 then [t.value]
    else Level(t.left, d - 1) + Level(t.right, d - 1)
  }

  /** The subtrees rooted at depth `d`, left to right. */
  function Subtrees(t: Tree, d: nat): seq<Tree>
    decreases t
  {
    if t.Nil? then []
    else if d == 0 then [t]
    else Subtrees(t.left, d - 1) + Subtrees(t.right, d - 1)
  }

  /** `r` lists the levels of `t`, one per depth from the root down to the deepest node. */
  ghost predicate IsLevelOrder(r: seq<seq<int>>, t: Tree) {
    |r| == Height(t) && forall k :: 0 <= k < |r| ==> r[k] == Level(t, k)
  }

  /** The children of a node that are there, left before right. */
  function Children(t: Tree): seq<Tree> {
    if t.Nil? then []
    else (if t.left.Node? then [t.left] else []) + (if t.right.Node? then [t.right] else [])
  }

  /** The children of every tree in a queue, in queue order. */
  function Kids(q: seq<Tree>): seq<Tree>
    decreases |q|
  {
    if q == [] then [] else Children(q[0]) + Kids(q[1..])
  }

  /** The values of the nodes in a queue, in queue order. */
  function Vals(q: seq<Tree>): seq<int>
    decreases |q|
  {
    if q == [] then [] else (if q[0].Node? then [q[0].value] else []) + Vals(q[1..])
  }

  function Size(t: Tree): nat
    decreases t
  {
    if t.Nil? then 0 else 1 + Size(t.left) + Size(t.right)
  }

  function Sizes(q: seq<Tree>): nat
    decreases |q|
  {
    if q == [] then 0 else Size(q[0]) + Sizes(q[1..])
  }

  /**
   * Breadth-first order, one node at a time: take the front of the queue,
   * record its value and put its children at the back.
   */
  ghost function Bfs(q: seq<Tree>): seq<int>
    decreases 2 * Sizes(q) + |q|
  {
    if q == [] then []
    else
      SizesAppend(q[1..], Children(q[0]));
      ChildrenSize(q[0]);
      if q[0].Nil? then Bfs(q[1..]) else [q[0].value] + Bfs(q[1..] + Children(q[0]))
  }

  function Flatten(r: seq<seq<int>>): seq<int>
    decreases |r|
  {
    if r == [] then [] else r[0] + Flatten(r[1..])
  }

  // ---------------------------------------------------------------------------
  // Properties of the levels
  // ---------------------------------------------------------------------------

  lemma {:induction false} SizesAppend(a: seq<Tree>, b: seq<Tree>)
    ensures Sizes(a + b) == Sizes(a) + Sizes(b)
    decreases |a|
  {
    if a != [] {
      assert (a + b)[1..] == a[1..] + b;
      SizesAppend(a[1..], b);
    } else {
      assert a + b == b;
    }
  }

  lemma ChildrenSize(t: Tree)
    ensures |Children(t)| <= 2
    ensures t.Node? ==> Sizes(Children(t)) == Size(t) - 1
  {
    if t.Node? {
      var l: seq<Tree> := if t.left.Node? then [t.left] else [];
      var r: seq<Tree> := if t.right.Node? then [t.right] else [];
      SizesAppend(l, r);
      assert Sizes(l) == Size(t.left) by { if t.left.Node? { assert l[1..] == []; } }
      assert Sizes(r) == Size(t.right) by { if t.right.Node? { assert r[1..] == []; } }
    }
  }

  lemma {:induction false} KidsAppend(a: seq<Tree>, b: seq<Tree>)
    ensures Kids(a + b) == Kids(a) + Kids(b)
    decreases |a|
  {
    if a == [] {
      assert a + b == b;
    } else {
      var ab := a + b;
      assert ab[0] == a[0] && ab[1..] == a[1..] + b;
      KidsAppend(a[1..], b);
      calc {
        Kids(ab);
        Children(a[0]) + Kids(a[1..] + b);
        Children(a[0]) + (Kids(a[1..]) + Kids(b));
        (Children(a[0]) + Kids(a[1..])) + Kids(b);
      }
    }
  }

  lemma {:induction false} ValsAppend(a: seq<Tree>, b: seq<Tree>)
    ensures Vals(a + b) == Vals(a) + Vals(b)
    decreases |a|
  {
    if a == [] {
      assert a + b == b;
    } else {
      var ab := a + b;
      assert ab[0] == a[0] && ab[1..] == a[1..] + b;
      ValsAppend(a[1..], b);
      var v := if a[0].Node? then [a[0].value] else [];
      calc {
        Vals(ab);
        v + Vals(a[1..] + b);
        v + (Vals(a[1..]) + Vals(b));
        (v + Vals(a[1..])) + Vals(b);
      }
    }
  }

  lemma KidsSingle(x: Tree)
    ensures Kids([x]) == Children(x)
    ensures Vals([x]) == if x.Node? then [x.value] else []
  {
    assert [x][1..] == [];
  }

  /** Taking one more tree of a level adds its children and its value at the end. */
  lemma KidsSnoc(taken: seq<Tree>, x: Tree)
    ensures Kids(taken + [x]) == Kids(taken) + Children(x)
    ensures Vals(taken + [x]) == Vals(taken) + (if x.Node? then [x.value] else [])
  {
    KidsAppend(taken, [x]);
    ValsAppend(taken, [x]);
    KidsSingle(x);
  }

  /** The children of the subtrees at depth `d` are the subtrees at depth `d + 1`. */
  lemma {:induction false} SubtreesNext(t: Tree, d: nat)
    ensures Kids(Subtrees(t, d)) == Subtrees(t, d + 1)
    decreases t
  {
    if t.Node? {
      if d == 0 {
        KidsSingle(t);
        assert Subtrees(t.left, 0) == (if t.left.Node? then [t.left] else []);
        assert Subtrees(t.right, 0) == (if t.right.Node? then [t.right] else []);
      } else {
        SubtreesNext(t.left, d - 1);
        SubtreesNext(t.right, d - 1);
        KidsAppend(Subtrees(t.left, d - 1), Subtrees(t.right, d - 1));
      }
    }
  }

  /** The values of the subtrees at depth `d` are the level at depth `d`. */
  lemma {:induction false} SubtreesLevel(t: Tree, d: nat)
    ensures Vals(Subtrees(t, d)) == Level(t, d)
    decreases t
  {
    if t.Node? {
      if d == 0 {
        KidsSingle(t);
      } else {
        SubtreesLevel(t.left, d - 1);
        SubtreesLevel(t.right, d - 1);
        ValsAppend(Subtrees(t.left, d - 1), Subtrees(t.right, d - 1));
      }
    }
  }

  /** Depth `d` holds some node exactly when it is above the height. */
  lemma {:induction false} LevelsEndAtHeight(t: Tree, d: nat)
    ensures Subtrees(t, d) == [] <==> d >= Height(t)
    ensures Level(t, d) == [] <==> d >= Height(t)
    decreases t
  {
    if t.Node? && d > 0 {
      LevelsEndAtHeight(t.left, d - 1);
      LevelsEndAtHeight(t.right, d - 1);
    }
  }

  /** Depth `d` holds at most 2^d nodes. */
  lemma {:induction false} LevelWidth(t: Tree, d: nat)
    ensures |Level(t, d)| <= Pow2(d)
    decreases t
  {
    if t.Node? && d > 0 {
      LevelWidth(t.left, d - 1);
      LevelWidth(t.right, d - 1);
    }
  }

  lemma Assoc<T>(a: seq<T>, b: seq<T>, c: seq<T>)
    ensures (a + b) + c == a + (b + c)
  {
  }

  /** Taking a whole level off the queue records its values and leaves the next level. */
  lemma {:induction false} BfsSplit(q: seq<Tree>, rest: seq<Tree>)
    ensures Bfs(q + rest) == Vals(q) + Bfs(rest + Kids(q))
    decreases |q|
  {
    if q == [] {
      assert q + rest == rest && rest + Kids(q) == rest;
    } else if q[0].Nil? {
      var tail := q[1..];
      NilHead(q, rest);
      BfsSplit(tail, rest);
    } else {
      var tail, c := q[1..], Children(q[0]);
      NodeHead(q, rest);
      BfsSplit(tail, rest + c);
      Assoc(rest, c, Kids(tail));
      Assoc([q[0].value], Vals(tail), Bfs(rest + Kids(q)));
    }
  }

  /** An empty tree at the head of the queue is dropped. */
  lemma NilHead(q: seq<Tree>, rest: seq<Tree>)
    requires q != [] && q[0].Nil?
    ensures Bfs(q + rest) == Bfs(q[1..] + rest)
    ensures Vals(q) == Vals(q[1..]) && Kids(q) == Kids(q[1..])
  {
    var qr := q + rest;
    assert qr != [] && qr[0] == q[0] && qr[1..] == q[1..] + rest;
  }

  /** A node at the head of the queue is visited and its children go to the back. */
  lemma NodeHead(q: seq<Tree>, rest: seq<Tree>)
    requires q != [] && q[0].Node?
    ensures Bfs(q + rest) == [q[0].value] + Bfs(q[1..] + (rest + Children(q[0])))
    ensures Vals(q) == [q[0].value] + Vals(q[1..]) && Kids(q) == Children(q[0]) + Kids(q[1..])
  {
    var qr := q + rest;
    assert qr != [] && qr[0] == q[0] && qr[1..] == q[1..] + rest;
    Assoc(q[1..], rest, Children(q[0]));
  }

  /** The levels, concatenated from depth `d` on, are the breadth-first order of the subtrees at depth `d`. */
  lemma {:induction false} LevelsFrom(t: Tree, r: seq<seq<int>>, d: nat)
    requires IsLevelOrder(r, t) && d <= |r|
    ensures Flatten(r[d..]) == Bfs(Subtrees(t, d))
    decreases |r| - d
  {
    LevelsEndAtHeight(t, d);
    if d < |r| {
      LevelsFrom(t, r, d + 1);
      assert r[d..][0] == r[d] && r[d..][1..] == r[d + 1..];
      assert Flatten(r[d..]) == r[d] + Flatten(r[d + 1..]);
      var q := Subtrees(t, d);
      BfsSplit(q, []);
      assert q + [] == q && [] + Kids(q) == Kids(q);
      SubtreesNext(t, d);
      SubtreesLevel(t, d);
    }
  }

  /** Concatenating the levels gives the breadth-first order of the whole tree. */
  lemma LevelsConcatenate(t: Tree, r: seq<seq<int>>)
    requires IsLevelOrder(r, t)
    ensures Flatten(r) == Bfs([t])
  {
    LevelsFrom(t, r, 0);
    assert r[0..] == r;
    if t.Nil? {
      assert Bfs([t]) == Bfs([t][1..]);
      assert [t][1..] == [];
    }
  }

  /** Two level lists of the same tree are equal, whichever traversal produced them. */
  lemma LevelOrderUnique(t: Tree, r1: seq<seq<int>>, r2: seq<seq<int>>)
    requires IsLevelOrder(r1, t) && IsLevelOrder(r2, t)
    ensures r1 == r2
  {
  }

  // ---------------------------------------------------------------------------
  // getHeight
  // ---------------------------------------------------------------------------

  /** `getHeight`: the number of nodes on the longest path from `node` down. */
  function GetHeight(node: TreeNode?, ghost t: Tree): (h: nat)
    requires Valid(t) && node == Root(t)
    reads Objs(t)
    ensures h == Height(t)
    ensures h == 0 <==> node == null
    decreases t
  {
    if node == null then 0 else Max(GetHeight(node.left, t.left), GetHeight(node.right, t.right)) + 1
  }

  // ---------------------------------------------------------------------------
  // bfsTraverse
  // ---------------------------------------------------------------------------

  /** `queue` holds the objects of the non-empty, valid trees `qt`, in order. */
  ghost predicate Holds(queue: seq<TreeNode>, qt: seq<Tree>)
    reads set k, o | 0 <= k < |qt| && o in Objs(qt[k]) :: o
  {
    |queue| == |qt| &&
    forall k :: 0 <= k < |qt| ==> qt[k].Node? && queue[k] == qt[k].obj && Valid(qt[k])
  }

  lemma HoldsPop(queue: seq<TreeNode>, qt: seq<Tree>)
    requires Holds(queue, qt) && qt != []
    ensures Holds(queue[1..], qt[1..])
  {
    assert forall k :: 0 <= k < |qt| - 1 ==> qt[1..][k] == qt[k + 1] && queue[1..][k] == queue[k + 1];
  }

  /** Pushing the children a valid node has keeps the queue matched with its trees. */
  lemma HoldsPush(queue: seq<TreeNode>, qt: seq<Tree>, x: Tree, next: seq<TreeNode>)
    requires Holds(queue, qt) && x.Node? && Valid(x)
    requires next == queue + (if x.obj.left != null then [x.obj.left] else [])
                           + (if x.obj.right != null then [x.obj.right] else [])
    ensures Holds(next, qt + Children(x))
  {
    var c := qt + Children(x);
    assert |next| == |c|;
    forall k | 0 <= k < |c|
      ensures c[k].Node? && next[k] == c[k].obj && Valid(c[k])
    {
      if k >= |qt| {
        if x.left.Node? && k == |qt| {
          assert c[k] == x.left;
        } else {
          assert c[k] == x.right;
        }
      }
    }
  }

  /** Moving the front of `pending` to the end of `taken`, and the children found to the back. */
  lemma Shift<T>(taken: seq<T>, pending: seq<T>, found: seq<T>, c: seq<T>)
    requires pending != []
    ensures taken + pending == (taken + [pending[0]]) + pending[1..]
    ensures (pending + found)[0] == pending[0]
    ensures (pending + found)[1..] + c == pending[1..] + (found + c)
  {
    assert pending == [pending[0]] + pending[1..];
    assert (pending + found)[1..] == pending[1..] + found;
  }

  /**
   * The `for` loop of `bfsTraverse`: shift each node of the current level off
   * the queue, record its value and push its children.
   */
  method TakeLevel(queue: seq<TreeNode>, ghost lvl: seq<Tree>) returns (currentLevel: seq<int>, next: seq<TreeNode>)
    requires Holds(queue, lvl)
    ensures currentLevel == Vals(lvl) && Holds(next, Kids(lvl))
  {
    var levelSize := |queue|;
    currentLevel := [];
    next := queue;
    ghost var taken: seq<Tree> := [];
    ghost var pending := lvl;
    ghost var found: seq<Tree> := [];
    assert lvl == taken + pending;
    for i := 0 to levelSize
      invariant lvl == taken + pending && |taken| == i
      invariant found == Kids(taken) && Holds(next, pending + found)
      invariant currentLevel == Vals(taken)
    {
      ghost var x := pending[0];
      var node := next[0];
      ghost var qt := pending + found;
      Shift(taken, pending, found, Children(x));
      assert node == x.obj && Valid(x);
      KidsSnoc(taken, x);
      HoldsPop(next, qt);
      next := next[1..];
      ghost var rest := next;
      currentLevel := currentLevel + [node.value];
      if node.left != null {
        var l: TreeNode := node.left;
        next := next + [l];
      }
      if node.right != null {
        var r: TreeNode := node.right;
        next := next + [r];
      }
      HoldsPush(rest, qt[1..], x, next);
      taken, pending, found := taken + [x], pending[1..], found + Children(x);
    }
    assert pending == [] && pending + found == found && taken == lvl;
  }

  /** `bfsTraverse`: the levels of the tree, found one queue-full at a time. */
  method BfsTraverse(root: TreeNode?, ghost t: Tree) returns (result: seq<seq<int>>)
    requires Valid(t) && root == Root(t)
    ensures IsLevelOrder(result, t)
  {
    if root == null {
      return [];
    }
    result := [];
    var queue: seq<TreeNode> := [root];
    ghost var d: nat := 0;
    while |queue| > 0
      invariant d <= Height(t) && Holds(queue, Subtrees(t, d))
      invariant |result| == d && forall k :: 0 <= k < d ==> result[k] == Level(t, k)
      decreases Height(t) - d
    {
      LevelsEndAtHeight(t, d);
      var currentLevel;
      currentLevel, queue := TakeLevel(queue, Subtrees(t, d));
      SubtreesNext(t, d);
      SubtreesLevel(t, d);
      result := result + [currentLevel];
      d := d + 1;
    }
    LevelsEndAtHeight(t, d);
  }

  // ---------------------------------------------------------------------------
  // bfsTraverseRecursive
  // ---------------------------------------------------------------------------

  /** The list already collected at depth `k`, or none yet. */
  function Bucket(result: seq<seq<int>>, k: int): seq<int> {
    if 0 <= k < |result| then result[k] else []
  }

  /** `r` is `before` with the levels of `t`, counted from depth `level`, appended bucket by bucket. */
  ghost predicate Collected(r: seq<seq<int>>, before: seq<seq<int>>, t: Tree, level: nat) {
    |r| == Max(|before|, level + Height(t)) &&
    forall k :: 0 <= k < |r| ==> r[k] == Bucket(before, k) + Level(t, k - level)
  }

  /** `before` with the value of `t` appended to the bucket at depth `level`, which is opened if need be. */
  ghost predicate Pushed(r: seq<seq<int>>, before: seq<seq<int>>, t: Tree, level: nat)
    requires t.Node?
  {
    |r| == Max(|before|, level + 1) &&
    forall k :: 0 <= k < |r| ==> r[k] == Bucket(before, k) + Own(t, k - level)
  }

  lemma CollectedBucket(r: seq<seq<int>>, before: seq<seq<int>>, t: Tree, level: nat, k: int)
    requires Collected(r, before, t, level)
    ensures Bucket(r, k) == Bucket(before, k) + Level(t, k - level)
  {
    if k >= |r| && k - level >= 0 {
      LevelsEndAtHeight(t, k - level);
    }
  }

  /** The node's own value at its depth `level`, as a one-element list, and nothing at other depths. */
  function Own(t: Tree, d: int): seq<int>
    requires t.Node?
  {
    if d == 0 then [t.value] else []
  }

  /** `before` with the value of `t` pushed at depth `level` and its left subtree collected below. */
  ghost predicate HalfCollected(r: seq<seq<int>>, before: seq<seq<int>>, t: Tree, level: nat)
    requires t.Node?
  {
    |r| == Max(|before|, level + 1 + Height(t.left)) &&
    forall k :: 0 <= k < |r| ==> r[k] == Bucket(before, k) + Own(t, k - level) + Level(t.left, k - (level + 1))
  }

  lemma PushedThenLeft(result: seq<seq<int>>, r0: seq<seq<int>>, r1: seq<seq<int>>, t: Tree, level: nat)
    requires t.Node? && Pushed(r0, result, t, level) && Collected(r1, r0, t.left, level + 1)
    ensures HalfCollected(r1, result, t, level)
  {
    forall k | 0 <= k < |r1|
      ensures r1[k] == Bucket(result, k) + Own(t, k - level) + Level(t.left, k - (level + 1))
    {
      CollectedBucket(r1, r0, t.left, level + 1, k);
      PushedBucket(r0, result, t, level, k);
    }
  }

  lemma HalfBucket(r1: seq<seq<int>>, result: seq<seq<int>>, t: Tree, level: nat, k: int)
    requires t.Node? && HalfCollected(r1, result, t, level)
    ensures Bucket(r1, k) == Bucket(result, k) + Own(t, k - level) + Level(t.left, k - (level + 1))
  {
    if k >= |r1| && k - (level + 1) >= 0 {
      LevelsEndAtHeight(t.left, k - (level + 1));
    }
  }

  /** A node's value pushed at its depth, then its two subtrees collected below it, collect the whole subtree. */
  lemma CollectedNode(result: seq<seq<int>>, r0: seq<seq<int>>, r1: seq<seq<int>>, r2: seq<seq<int>>, t: Tree, level: nat)
    requires t.Node? && Pushed(r0, result, t, level)
    requires Collected(r1, r0, t.left, level + 1) && Collected(r2, r1, t.right, level + 1)
    ensures Collected(r2, result, t, level)
  {
    PushedThenLeft(result, r0, r1, t, level);
    ThenRight(result, r1, r2, t, level);
  }

  lemma ThenRight(result: seq<seq<int>>, r1: seq<seq<int>>, r2: seq<seq<int>>, t: Tree, level: nat)
    requires t.Node? && HalfCollected(r1, result, t, level) && Collected(r2, r1, t.right, level + 1)
    ensures Collected(r2, result, t, level)
  {
    forall k | 0 <= k < |r2|
      ensures r2[k] == Bucket(result, k) + Level(t, k - level)
    {
      RightBucket(result, r1, r2, t, level, k);
    }
    assert Height(t) == Max(Height(t.left), Height(t.right)) + 1;
  }

  lemma RightBucket(result: seq<seq<int>>, r1: seq<seq<int>>, r2: seq<seq<int>>, t: Tree, level: nat, k: int)
    requires t.Node? && HalfCollected(r1, result, t, level) && Collected(r2, r1, t.right, level + 1)
    requires 0 <= k < |r2|
    ensures r2[k] == Bucket(result, k) + Level(t, k - level)
  {
    CollectedBucket(r2, r1, t.right, level + 1, k);
    HalfBucket(r1, result, t, level, k);
    NodeLevel(t, k - level, k - (level + 1), Bucket(result, k), Bucket(r1, k), Bucket(r2, k));
  }

  /** The bucket grows by the node's value at its own depth and by both subtrees' levels below it. */
  lemma NodeLevel(t: Tree, d: int, e: int, x: seq<int>, x1: seq<int>, x2: seq<int>)
    requires t.Node? && e == d - 1
    requires x1 == x + Own(t, d) + Level(t.left, e) && x2 == x1 + Level(t.right, e)
    ensures x2 == x + Level(t, d)
  {
    var a, b := Level(t.left, e), Level(t.right, e);
    if d <= 0 {
      assert a == [] && b == [];
    } else {
      Assoc(x + Own(t, d), a, b);
    }
  }

  lemma PushedBucket(r0: seq<seq<int>>, result: seq<seq<int>>, t: Tree, level: nat, k: int)
    requires t.Node? && Pushed(r0, result, t, level)
    ensures Bucket(r0, k) == Bucket(result, k) + Own(t, k - level)
  {
  }

  /** Open the bucket for depth `level` if this is the first visit there, then append `value` to it. */
  function Push(result: seq<seq<int>>, level: nat, value: int): (r: seq<seq<int>>)
    requires level <= |result|
    ensures |r| == Max(|result|, level + 1)
  {
    var grown := if |result| == level then result + [[]] else result;
    grown[level := grown[level] + [value]]
  }

  /** What `traverse` leaves in `result`: the node pushed at its depth, then its left and right subtrees, one level deeper. */
  ghost function Collect(result: seq<seq<int>>, t: Tree, level: nat): (r: seq<seq<int>>)
    requires level <= |result|
    ensures |r| >= |result|
    decreases t
  {
    if t.Nil? then result
    else Collect(Collect(Push(result, level, t.value), t.left, level + 1), t.right, level + 1)
  }

  lemma PushPushed(result: seq<seq<int>>, t: Tree, level: nat)
    requires level <= |result| && t.Node?
    ensures Pushed(Push(result, level, t.value), result, t, level)
  {
  }

  /** The walk appends to each bucket exactly the level of the subtree at that depth. */
  lemma {:induction false} CollectLevels(result: seq<seq<int>>, t: Tree, level: nat)
    requires level <= |result|
    ensures Collected(Collect(result, t, level), result, t, level)
    decreases t
  {
    if t.Nil? {
      CollectedNil(result, level);
    } else {
      var r0 := Push(result, level, t.value);
      var r1 := Collect(r0, t.left, level + 1);
      PushPushed(result, t, level);
      CollectLevels(r0, t.left, level + 1);
      CollectLevels(r1, t.right, level + 1);
      CollectedNode(result, r0, r1, Collect(r1, t.right, level + 1), t, level);
    }
  }

  /**
   * `traverse(node, level)`: a pre-order walk that appends each value to the
   * list of its depth, opening a new list on reaching a depth for the first
   * time. The shared `result` array is threaded through as a value.
   */
  method Traverse(node: TreeNode?, level: nat, ghost t: Tree, ghost objs: set<TreeNode>, result: seq<seq<int>>)
    returns (r: seq<seq<int>>)
    requires Valid(t) && node == Root(t) && Objs(t) <= objs && level <= |result|
    ensures r == Collect(result, t, level)
    decreases t
  {
    if node == null {
      return result;
    }
    assert Valid(t.left) && Valid(t.right);
    r := result;
    if |r| == level {
      r := r + [[]];
    }
    r := r[level := r[level] + [node.value]];
    r := Traverse(node.left, level + 1, t.left, objs, r);
    r := Traverse(node.right, level + 1, t.right, objs, r);
  }

  lemma CollectedNil(result: seq<seq<int>>, level: nat)
    requires level <= |result|
    ensures Collected(result, result, Nil, level)
  {
    forall k | 0 <= k < |result| ensures result[k] == Bucket(result, k) + Level(Nil, k - level) {
    }
  }

  /** `bfsTraverseRecursive`: the same levels, collected depth-first. */
  method BfsTraverseRecursive(root: TreeNode?, ghost t: Tree) returns (result: seq<seq<int>>)
    requires Valid(t) && root == Root(t)
    ensures IsLevelOrder(result, t)
  {
    result := Traverse(root, 0, t, Objs(t), []);
    CollectLevels([], t, 0);
  }

  // ---------------------------------------------------------------------------
  // createBinaryTree
  // ---------------------------------------------------------------------------

  /** `t` is the tree whose node for `arr[k]` has the nodes for `arr[2k + 1]` and `arr[2k + 2]` as children. */
  ghost predicate HeapLayout(t: Tree, arr: seq<int>, k: nat)
    decreases t
  {
    if k >= |arr| then t.Nil?
    else t.Node? && t.value == arr[k] && HeapLayout(t.left, arr, 2 * k + 1) && HeapLayout(t.right, arr, 2 * k + 2)
  }

  function At(nodes: seq<TreeNode>, k: nat): TreeNode? {
    if k < |nodes| then nodes[k] else null
  }

  /** The tree the linked `nodes` form from index `k` down. */
  ghost function HeapTree(nodes: seq<TreeNode>, arr: seq<int>, k: nat): Tree
    requires |nodes| == |arr|
    decreases |arr| - k
  {
    if k >= |arr| then Nil
    else Node(nodes[k], arr[k], HeapTree(nodes, arr, 2 * k + 1), HeapTree(nodes, arr, 2 * k + 2))
  }

  /** Every node links to the nodes at its two heap positions. */
  ghost predicate HeapLinked(nodes: seq<TreeNode>, arr: seq<int>)
    reads set m | 0 <= m < |nodes| :: nodes[m]
  {
    |nodes| == |arr| &&
    forall m :: 0 <= m < |nodes| ==>
      nodes[m].value == arr[m] && nodes[m].left == At(nodes, 2 * m + 1) && nodes[m].right == At(nodes, 2 * m + 2)
  }

  lemma {:induction false} HeapTreeValid(nodes: seq<TreeNode>, arr: seq<int>, k: nat)
    requires HeapLinked(nodes, arr)
    ensures Valid(HeapTree(nodes, arr, k)) && HeapLayout(HeapTree(nodes, arr, k), arr, k)
    ensures Root(HeapTree(nodes, arr, k)) == At(nodes, k)
    decreases |arr| - k
  {
    if k < |arr| {
      HeapTreeValid(nodes, arr, 2 * k + 1);
      HeapTreeValid(nodes, arr, 2 * k + 2);
      LinkedAt(nodes, arr, k);
    }
  }

  lemma LinkedAt(nodes: seq<TreeNode>, arr: seq<int>, k: nat)
    requires HeapLinked(nodes, arr) && k < |nodes|
    ensures nodes[k].value == arr[k] && nodes[k].left == At(nodes, 2 * k + 1) && nodes[k].right == At(nodes, 2 * k + 2)
  {
  }

  /** The fields of the nodes made so far: the array's values, and `left`/`right` as recorded in `lefts`/`rights`. */
  ghost predicate Mirrors(nodes: seq<TreeNode>, arr: seq<int>, lefts: seq<TreeNode?>, rights: seq<TreeNode?>)
    reads set m | 0 <= m < |nodes| :: nodes[m]
  {
    |nodes| <= |arr| && |lefts| == |nodes| && |rights| == |nodes| &&
    forall m :: 0 <= m < |nodes| ==>
      nodes[m].value == arr[m] && nodes[m].left == lefts[m] && nodes[m].right == rights[m]
  }

  /**
   * The first `q` nodes have been taken off the queue and point at their heap
   * positions; the others have no children yet.
   */
  ghost predicate Pending(nodes: seq<TreeNode>, lefts: seq<TreeNode?>, rights: seq<TreeNode?>, q: nat) {
    |lefts| == |nodes| && |rights| == |nodes| &&
    forall m :: 0 <= m < |nodes| ==>
      lefts[m] == (if m < q then At(nodes, 2 * m + 1) else null) &&
      rights[m] == (if m < q then At(nodes, 2 * m + 2) else null)
  }

  /** Once the queue has consumed the array, every node is linked to its heap positions. */
  lemma BuiltTree(nodes: seq<TreeNode>, arr: seq<int>, lefts: seq<TreeNode?>, rights: seq<TreeNode?>, q: nat)
    requires Mirrors(nodes, arr, lefts, rights) && Pending(nodes, lefts, rights, q)
    requires |nodes| == |arr| && 2 * q + 1 >= |arr| && q < |nodes|
    ensures Valid(HeapTree(nodes, arr, 0)) && HeapLayout(HeapTree(nodes, arr, 0), arr, 0)
    ensures Root(HeapTree(nodes, arr, 0)) == nodes[0]
  {
    assert HeapLinked(nodes, arr);
    HeapTreeValid(nodes, arr, 0);
  }

  /** The right child given to node `q`: the second of the nodes added for it, if any. */
  function SecondOr(added: seq<TreeNode>): TreeNode? {
    if |added| == 2 then added[1] else null
  }

  /** Taking node `q` off the queue and giving it its children keeps the recorded links right. */
  lemma PendingStep(nodes: seq<TreeNode>, lefts: seq<TreeNode?>, rights: seq<TreeNode?>, q: nat, added: seq<TreeNode>)
    requires Pending(nodes, lefts, rights, q) && q < |nodes| && |nodes| == 2 * q + 1 && 1 <= |added| <= 2
    ensures Pending(nodes + added, lefts[q := added[0]] + seq(|added|, _ => null),
                    rights[q := SecondOr(added)] + seq(|added|, _ => null), q + 1)
  {
    var nodes', lefts', rights' := nodes + added, lefts[q := added[0]] + seq(|added|, _ => null),
                                   rights[q := SecondOr(added)] + seq(|added|, _ => null);
    forall m | 0 <= m < |nodes'|
      ensures lefts'[m] == (if m < q + 1 then At(nodes', 2 * m + 1) else null)
      ensures rights'[m] == (if m < q + 1 then At(nodes', 2 * m + 2) else null)
    {
      if m < q {
        assert nodes'[2 * m + 1] == nodes[2 * m + 1] && nodes'[2 * m + 2] == nodes[2 * m + 2];
      }
    }
  }

  /** `index` numbers the nodes made so far by their position. */
  ghost predicate Indexed(nodes: seq<TreeNode>, index: map<TreeNode, nat>) {
    forall m :: 0 <= m < |nodes| ==> nodes[m] in index && index[nodes[m]] == m
  }

  ghost function Enter(index: map<TreeNode, nat>, added: seq<TreeNode>, base: nat): map<TreeNode, nat>
    requires 1 <= |added| <= 2
  {
    if |added| == 1 then index[added[0] := base] else index[added[0] := base][added[1] := base + 1]
  }

  lemma IndexStep(nodes: seq<TreeNode>, index: map<TreeNode, nat>, added: seq<TreeNode>)
    requires Indexed(nodes, index) && 1 <= |added| <= 2
    requires added[0] !in index && (|added| == 2 ==> added[1] !in index && added[1] != added[0])
    ensures Indexed(nodes + added, Enter(index, added, |nodes|))
    ensures Enter(index, added, |nodes|).Keys == index.Keys + set j | 0 <= j < |added| :: added[j]
  {
    var e := Enter(index, added, |nodes|);
    forall m | 0 <= m < |nodes + added|
      ensures (nodes + added)[m] in e && e[(nodes + added)[m]] == m
    {
      if m < |nodes| {
        assert (nodes + added)[m] == nodes[m];
      }
    }
  }

  /** Shifting the queue and pushing the new nodes keeps it the tail of the nodes made so far. */
  lemma TailStep<T>(nodes: seq<T>, q: nat, added: seq<T>)
    requires q < |nodes|
    ensures nodes[q..][1..] + added == (nodes + added)[q + 1..]
  {
  }

  /**
   * One round of the loop of `createBinaryTree`: `current`, the node at the
   * front of the queue, gets a left child for `arr[i]` and, when the array
   * goes on, a right child for `arr[i + 1]`; `added` holds the new nodes, in
   * the order they are pushed on the queue.
   */
  method AddChildren(current: TreeNode, arr: seq<int>, i: nat, ghost nodes: seq<TreeNode>, ghost lefts: seq<TreeNode?>,
                     ghost rights: seq<TreeNode?>, ghost q: nat)
    returns (added: seq<TreeNode>)
    requires Mirrors(nodes, arr, lefts, rights)
    requires i < |arr| && i == |nodes| && q < |nodes| && current == nodes[q] && rights[q] == null
    requires forall m :: 0 <= m < |nodes| && m != q ==> nodes[m] != current
    modifies current
    ensures |added| == (if i + 1 < |arr| then 2 else 1)
    ensures fresh(added[0]) && (|added| == 2 ==> fresh(added[1]) && added[1] != added[0])
    ensures Mirrors(nodes + added, arr, lefts[q := added[0]] + seq(|added|, _ => null),
                    rights[q := SecondOr(added)] + seq(|added|, _ => null))
  {
    var l := new TreeNode(arr[i], null, null);
    current.left := l;
    added := [l];
    if i + 1 < |arr| {
      var r := new TreeNode(arr[i + 1], null, null);
      current.right := r;
      added := added + [r];
    }
  }

  /**
   * `createBinaryTree`: null for an empty array; otherwise a root for `arr[0]`
   * and a queue of nodes still waiting for children, each of which takes the
   * next two array elements as its left and right child.
   */
  method CreateBinaryTree(arr: seq<int>) returns (root: TreeNode?, ghost t: Tree)
    ensures arr == [] ==> root == null
    ensures Valid(t) && root == Root(t) && HeapLayout(t, arr, 0)
  {
    if arr == [] {
      return null, Nil;
    }
    root := new TreeNode(arr[0], null, null);
    var queue: seq<TreeNode> := [root];
    ghost var nodes: seq<TreeNode> := [root];
    ghost var lefts: seq<TreeNode?> := [null];
    ghost var rights: seq<TreeNode?> := [null];
    ghost var index: map<TreeNode, nat> := map[root := 0];
    ghost var q: nat := 0;
    var i := 1;
    while i < |arr|
      invariant i == 2 * q + 1 && |nodes| == Min(i, |arr|) && q < |nodes| && nodes[0] == root
      invariant queue == nodes[q..]
      invariant Indexed(nodes, index) && fresh(index.Keys)
      invariant Mirrors(nodes, arr, lefts, rights) && Pending(nodes, lefts, rights, q)
    {
      var current := queue[0];
      assert current == nodes[q] && index[current] == q;
      var added := AddChildren(current, arr, i, nodes, lefts, rights, q);
      PendingStep(nodes, lefts, rights, q, added);
      IndexStep(nodes, index, added);
      TailStep(nodes, q, added);
      queue := queue[1..] + added;
      nodes, index := nodes + added, Enter(index, added, i);
      lefts, rights := lefts[q := added[0]] + seq(|added|, _ => null), rights[q := SecondOr(added)] + seq(|added|, _ => null);
      i := i + 2;
      q := q + 1;
    }
    BuiltTree(nodes, arr, lefts, rights, q);
    t := HeapTree(nodes, arr, 0);
  }

  /**
   * Where depth `d` below heap position `m` starts: the position reached from
   * `m` by going `d` times to the left child, `(m + 1) * 2^d - 1`
   * (`StartClosedForm`).
   */
  function LevelStart(m: nat, d: nat): (s: nat)
    ensures s >= m
    decreases d
  {
    if d == 0 then m else LevelStart(2 * m + 1, d - 1)
  }

  lemma {:induction false} StartMonotone(m: nat, n: nat, d: nat)
    requires m <= n
    ensures LevelStart(m, d) <= LevelStart(n, d)
    decreases d
  {
    if d > 0 {
      StartMonotone(2 * m + 1, 2 * n + 1, d - 1);
    }
  }

  lemma {:induction false} StartClosedForm(m: nat, d: nat)
    ensures LevelStart(m, d) == (m + 1) * Pow2(d) - 1
    decreases d
  {
    if d > 0 {
      StartClosedForm(2 * m + 1, d - 1);
      var h := Pow2(d - 1);
      assert (2 * m + 1 + 1) * h == (m + 1) * (2 * h);
    }
  }

  /** Depth `d` below `m` splits into depth `d - 1` below its two children, which sit side by side. */
  lemma ChildStarts(m: nat, d: nat)
    requires d > 0
    ensures LevelStart(2 * m + 1, d - 1) == LevelStart(m, d)
    ensures LevelStart(2 * m + 2 + 1, d - 1) == LevelStart(m + 1, d)
    ensures LevelStart(m, d) <= LevelStart(2 * m + 2, d - 1) <= LevelStart(m + 1, d)
  {
    StartMonotone(2 * m + 1, 2 * m + 2, d - 1);
    StartMonotone(2 * m + 2, 2 * m + 3, d - 1);
  }

  /** Two sibling subtrees whose depth-`d - 1` levels are adjacent slices give their parent's depth-`d` level. */
  lemma JoinLevels(t: Tree, arr: seq<int>, d: nat, lo: nat, mid: nat, hi: nat)
    requires t.Node? && d > 0 && lo <= mid <= hi
    requires Level(t.left, d - 1) == arr[Min(lo, |arr|)..Min(mid, |arr|)]
    requires Level(t.right, d - 1) == arr[Min(mid, |arr|)..Min(hi, |arr|)]
    ensures Level(t, d) == arr[Min(lo, |arr|)..Min(hi, |arr|)]
  {
    var a, b, c := Min(lo, |arr|), Min(mid, |arr|), Min(hi, |arr|);
    assert arr[a..b] + arr[b..c] == arr[a..c];
  }

  /** In a tree laid out from `arr` at position `m`, depth `d` is the slice of `arr` between the starts of depth `d` below `m` and below `m + 1`. */
  lemma {:induction false} HeapLevel(t: Tree, arr: seq<int>, m: nat, d: nat)
    requires HeapLayout(t, arr, m)
    ensures LevelStart(m, d) <= LevelStart(m + 1, d)
    ensures Level(t, d) == arr[Min(LevelStart(m, d), |arr|)..Min(LevelStart(m + 1, d), |arr|)]
    decreases d
  {
    if m >= |arr| {
      StartMonotone(m, m + 1, d);
    } else if d == 0 {
      assert arr[m..m + 1] == [arr[m]];
    } else {
      HeapLevel(t.left, arr, 2 * m + 1, d - 1);
      HeapLevel(t.right, arr, 2 * m + 2, d - 1);
      HeapStep(t, arr, m, d);
    }
  }

  lemma HeapStep(t: Tree, arr: seq<int>, m: nat, d: nat)
    requires t.Node? && d > 0
    requires LevelStart(2 * m + 1, d - 1) <= LevelStart(2 * m + 2, d - 1) <= LevelStart(2 * m + 3, d - 1)
    requires Level(t.left, d - 1) == arr[Min(LevelStart(2 * m + 1, d - 1), |arr|)..Min(LevelStart(2 * m + 2, d - 1), |arr|)]
    requires Level(t.right, d - 1) == arr[Min(LevelStart(2 * m + 2, d - 1), |arr|)..Min(LevelStart(2 * m + 3, d - 1), |arr|)]
    ensures LevelStart(m, d) <= LevelStart(m + 1, d)
    ensures Level(t, d) == arr[Min(LevelStart(m, d), |arr|)..Min(LevelStart(m + 1, d), |arr|)]
  {
    ChildStarts(m, d);
    JoinLevels(t, arr, d, LevelStart(m, d), LevelStart(2 * m + 2, d - 1), LevelStart(m + 1, d));
  }

  /** Depth `d` of the tree built from `arr` is `arr[2^d - 1 .. 2^(d+1) - 1]`, cut off at the end of `arr`. */
  lemma CreatedLevels(t: Tree, arr: seq<int>, d: nat)
    requires HeapLayout(t, arr, 0)
    ensures Pow2(d) - 1 <= Pow2(d + 1) - 1
    ensures Level(t, d) == arr[Min(Pow2(d) - 1, |arr|)..Min(Pow2(d + 1) - 1, |arr|)]
  {
    HeapLevel(t, arr, 0, d);
    RootStarts(d);
  }

  lemma RootStarts(d: nat)
    ensures LevelStart(0, d) == Pow2(d) - 1 && LevelStart(1, d) == Pow2(d + 1) - 1
  {
    StartClosedForm(0, d);
    StartClosedForm(1, d);
    assert Pow2(d + 1) == 2 * Pow2(d);
  }
}
