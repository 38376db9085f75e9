/** Process trees and the orders in which they can be listed.

A `Task` stands for a `task_struct` together with its list of children. Its `pid` identifies
it, so in a tree whose pids are distinct a value of this type is as good as a pointer.
 */
module TaskTree {

  datatype Task = Task(pid: nat, children: seq<Task>)

  function Size(t: Task): (n: nat)
    ensures n > 0
  {
    1 + SizeAll(t.children)
  }

  function SizeAll(ts: seq<Task>): nat {
    if ts == [] then 0 else Size(ts[0]) + SizeAll(ts[1..])
  }

  function Reverse<T>(s: seq<T>): seq<T> {
    if s == [] then [] else Reverse(s[1..]) + [s[0]]
  }

  /** The children of all the given tasks, in parent order and then child-list order. */
  function Children(ts: seq<Task>): seq<Task> {
    if ts == [] then [] else ts[0].children + Children(ts[1..])
  }

  function Pids(ts: seq<Task>): (ps: seq<nat>)
    ensures |ps| == |ts|
  {
    seq(|ts|, i requires 0 <= i < |ts| => ts[i].pid)
  }

  // ---------------------------------------------------------------------------
  // What one turn of the loop does to the pending list, and the visits it leads to

  /** The pending list after its head was visited: a queue in BFS mode, a stack in DFS mode. */
  function NextPending(bfs: bool, pending: seq<Task>): seq<Task>
    requires pending != []
  {
    if bfs then pending[1..] + pending[0].children
    else Reverse(pending[0].children) + pending[1..]
  }

  function Visit(bfs: bool, pending: seq<Task>): seq<Task>
    decreases SizeAll(pending)
  {
    if pending == [] then []
    else
      NextPendingSize(bfs, pending);
      [pending[0]] + Visit(bfs, NextPending(bfs, pending))
  }

  // ---------------------------------------------------------------------------
  // Reference orders

  /** The tasks exactly `d` generations below `t`, left to right. */
  function AtDepth(t: Task, d: nat): seq<Task>
    decreases t, 1
  {
    if d == 0 then [t] else AtDepthAll(t.children, d - 1)
  }

  function AtDepthAll(ts: seq<Task>, d: nat): seq<Task>
    decreases ts, 0
  {
    if ts == [] then [] else AtDepth(ts[0], d) + AtDepthAll(ts[1..], d)
  }

  function FirstLevels(t: Task, n: nat): seq<Task> {
    if n == 0 then [] else FirstLevels(t, n - 1) + AtDepth(t, n - 1)
  }

  function Height(t: Task): nat {
    1 + HeightAll(t.children)
  }

  function HeightAll(ts: seq<Task>): nat {
    if ts == [] then 0
    else
      var h, r := Height(ts[0]), HeightAll(ts[1..]);
      if h < r then r else h
  }

  /** All levels, one after the other, from the root down. */
  function LevelOrder(t: Task): seq<Task> {
    FirstLevels(t, Height(t))
  }

  function Postorder(t: Task): seq<Task>
    decreases t, 1
  {
    PostorderAll(t.children) + [t]
  }

  function PostorderAll(ts: seq<Task>): seq<Task>
    decreases ts, 0
  {
    if ts == [] then [] else Postorder(ts[0]) + PostorderAll(ts[1..])
  }

  function Preorder(t: Task): seq<Task>
    decreases t, 1
  {
    [t] + PreorderAll(t.children)
  }

  function PreorderAll(ts: seq<Task>): seq<Task>
    decreases ts, 0
  {
    if ts == [] then [] else Preorder(ts[0]) + PreorderAll(ts[1..])
  }

  /** The tree with every child list turned around. */
  function Mirror(t: Task): Task
    decreases t, 1
  {
    Task(t.pid, MirrorAll(t.children))
  }

  function MirrorAll(ts: seq<Task>): seq<Task>
    decreases ts, 0
  {
    if ts == [] then [] else MirrorAll(ts[1..]) + [Mirror(ts[0])]
  }

  /** Every task of the tree, with its multiplicity. */
  function Bag(t: Task): multiset<Task>
    decreases t, 1
  {
    multiset{t} + BagAll(t.children)
  }

  function BagAll(ts: seq<Task>): multiset<Task>
    decreases ts, 0
  {
    if ts == [] then multiset{} else Bag(ts[0]) + BagAll(ts[1..])
  }

  ghost predicate DistinctTasks(t: Task) {
    forall x :: x in Bag(t) ==> Bag(t)[x] == 1
  }

  // ---------------------------------------------------------------------------
  // Sequences

  lemma Associative<T>(a: seq<T>, b: seq<T>, c: seq<T>)
    ensures a + (b + c) == a + b + c
  {
  }

  lemma TailOfSum<T>(a: seq<T>, b: seq<T>)
    requires a != []
    ensures (a + b)[0] == a[0] && (a + b)[1..] == a[1..] + b
  {
  }

  lemma {:induction false} ReverseAppend<T>(a: seq<T>, b: seq<T>)
    ensures Reverse(a + b) == Reverse(b) + Reverse(a)
  {
    if a == [] {
      assert a + b == b;
    } else {
      ReverseAppend(a[1..], b);
      assert (a + b)[1..] == a[1..] + b;
    }
  }

  lemma {:induction false} ReverseSnoc<T>(a: seq<T>, x: T)
    ensures Reverse(a + [x]) == [x] + Reverse(a)
  {
    ReverseAppend(a, [x]);
    assert Reverse([x]) == [x];
  }

  lemma {:induction false} ReverseLength<T>(a: seq<T>)
    ensures |Reverse(a)| == |a|
    ensures multiset(Reverse(a)) == multiset(a)
  {
    if a != [] {
      ReverseLength(a[1..]);
      assert a == [a[0]] + a[1..];
    }
  }

  lemma {:induction false} SizeAllAppend(a: seq<Task>, b: seq<Task>)
    ensures SizeAll(a + b) == SizeAll(a) + SizeAll(b)
  {
    if a == [] {
      assert a + b == b;
    } else {
      SizeAllAppend(a[1..], b);
      assert (a + b)[1..] == a[1..] + b;
    }
  }

  lemma {:induction false} SizeAllReverse(a: seq<Task>)
    ensures SizeAll(Reverse(a)) == SizeAll(a)
  {
    if a != [] {
      SizeAllReverse(a[1..]);
      SizeAllAppend(Reverse(a[1..]), [a[0]]);
      assert SizeAll([a[0]]) == Size(a[0]);
    }
  }

  /** The measure that makes the traversal terminate: one task leaves the pending subtrees. */
  lemma NextPendingSize(bfs: bool, pending: seq<Task>)
    requires pending != []
    ensures SizeAll(NextPending(bfs, pending)) == SizeAll(pending) - 1
  {
    var kids, rest := pending[0].children, pending[1..];
    SizeAllAppend(rest, kids);
    SizeAllReverse(kids);
    SizeAllAppend(Reverse(kids), rest);
  }

  lemma {:induction false} ChildrenAppend(a: seq<Task>, b: seq<Task>)
    ensures Children(a + b) == Children(a) + Children(b)
  {
    if a == [] {
      assert a + b == b;
    } else {
      ChildrenAppend(a[1..], b);
      assert (a + b)[1..] == a[1..] + b;
    }
  }

  lemma BagSumAssociates(x: multiset<Task>, y: multiset<Task>, z: multiset<Task>)
    ensures x + y + z == x + (y + z)
  {
  }

  lemma {:induction false} BagAllAppend(a: seq<Task>, b: seq<Task>)
    ensures BagAll(a + b) == BagAll(a) + BagAll(b)
  {
    if a == [] {
      assert a + b == b;
    } else {
      var rest := a[1..] + b;
      assert (a + b)[1..] == rest && (a + b)[0] == a[0];
      BagAllAppend(a[1..], b);
      BagSumAssociates(Bag(a[0]), BagAll(a[1..]), BagAll(b));
    }
  }

  lemma {:induction false} BagAllReverse(a: seq<Task>)
    ensures BagAll(Reverse(a)) == BagAll(a)
  {
    if a != [] {
      BagAllReverse(a[1..]);
      BagAllAppend(Reverse(a[1..]), [a[0]]);
      assert BagAll([a[0]]) == Bag(a[0]);
    }
  }

  lemma VisitStep(bfs: bool, pending: seq<Task>)
    requires pending != []
    ensures Visit(bfs, pending) == [pending[0]] + Visit(bfs, NextPending(bfs, pending))
  {
  }

  // ---------------------------------------------------------------------------
  // Breadth first is level order

  /** Consuming a whole prefix of the queue replaces it by its children at the back. */
  lemma {:induction false} BfsRound(f: seq<Task>, g: seq<Task>)
    ensures Visit(true, f + g) == f + Visit(true, g + Children(f))
    decreases |f|
  {
    if f == [] {
      assert f + g == g && g + Children(f) == g;
    } else {
      assert (f + g)[1..] + f[0].children == f[1..] + (g + f[0].children);
      BfsRound(f[1..], g + f[0].children);
      assert g + f[0].children + Children(f[1..]) == g + Children(f);
    }
  }

  lemma {:induction false} AtDepthZero(ts: seq<Task>)
    ensures AtDepthAll(ts, 0) == ts
  {
    if ts != [] {
      AtDepthZero(ts[1..]);
    }
  }

  lemma {:induction false} NextLevel(t: Task, d: nat)
    ensures Children(AtDepth(t, d)) == AtDepth(t, d + 1)
    decreases t, 1
  {
    if d == 0 {
      AtDepthZero(t.children);
      assert Children([t]) == t.children + Children([]);
    } else {
      NextLevelAll(t.children, d - 1);
    }
  }

  lemma {:induction false} NextLevelAll(ts: seq<Task>, d: nat)
    ensures Children(AtDepthAll(ts, d)) == AtDepthAll(ts, d + 1)
    decreases ts, 0
  {
    if ts != [] {
      NextLevel(ts[0], d);
      NextLevelAll(ts[1..], d);
      ChildrenAppend(AtDepth(ts[0], d), AtDepthAll(ts[1..], d));
    }
  }

  lemma {:induction false} NothingBelow(t: Task, d: nat)
    requires d >= Height(t)
    ensures AtDepth(t, d) == []
    decreases t, 1
  {
    NothingBelowAll(t.children, d - 1);
  }

  lemma {:induction false} NothingBelowAll(ts: seq<Task>, d: nat)
    requires d >= HeightAll(ts)
    ensures AtDepthAll(ts, d) == []
    decreases ts, 0
  {
    if ts != [] {
      NothingBelow(ts[0], d);
      NothingBelowAll(ts[1..], d);
    }
  }

  lemma {:induction false} BfsLevels(t: Task, n: nat)
    ensures Visit(true, [t]) == FirstLevels(t, n) + Visit(true, AtDepth(t, n))
    decreases n
  {
    if n > 0 {
      hide Visit, AtDepth, Children;
      BfsLevels(t, n - 1);
      var level := AtDepth(t, n - 1);
      BfsRound(level, []);
      NextLevel(t, n - 1);
      assert level + [] == level && [] + Children(level) == Children(level);
      Associative(FirstLevels(t, n - 1), level, Visit(true, AtDepth(t, n)));
    }
  }

  lemma BfsIsLevelOrder(t: Task)
    ensures Visit(true, [t]) == LevelOrder(t)
  {
    BfsLevels(t, Height(t));
    NothingBelow(t, Height(t));
  }

  // ---------------------------------------------------------------------------
  // Depth first, read backwards, is postorder

  lemma {:induction false} DfsSplit(a: seq<Task>, b: seq<Task>)
    ensures Visit(false, a + b) == Visit(false, a) + Visit(false, b)
    decreases SizeAll(a)
  {
    if a == [] {
      assert a + b == b;
    } else {
      hide Visit, SizeAll, NextPending;
      var a' := NextPending(false, a);
      NextPendingSize(false, a);
      DfsSplit(a', b);
      StackSplit(a, b);
      VisitStep(false, a);
      VisitStep(false, a + b);
      Associative([a[0]], Visit(false, a'), Visit(false, b));
    }
  }

  lemma StackSplit(a: seq<Task>, b: seq<Task>)
    requires a != []
    ensures (a + b)[0] == a[0] && NextPending(false, a + b) == NextPending(false, a) + b
  {
    hide Reverse;
    TailOfSum(a, b);
    Associative(Reverse(a[0].children), a[1..], b);
  }

  lemma {:induction false} DfsIsReversedPostorder(t: Task)
    ensures Reverse(Visit(false, [t])) == Postorder(t)
    ensures Visit(false, [t]) == Reverse(Postorder(t))
    decreases t, 1
  {
    DfsAllIsReversedPostorder(t.children);
    assert NextPending(false, [t]) == Reverse(t.children);
    ReverseSnoc(PostorderAll(t.children), t);
    ReverseTwice(Postorder(t));
  }

  lemma {:induction false} DfsAllIsReversedPostorder(ts: seq<Task>)
    ensures Visit(false, Reverse(ts)) == Reverse(PostorderAll(ts))
    decreases ts, 0
  {
    if ts != [] {
      DfsSplit(Reverse(ts[1..]), [ts[0]]);
      DfsIsReversedPostorder(ts[0]);
      DfsAllIsReversedPostorder(ts[1..]);
      ReverseAppend(Postorder(ts[0]), PostorderAll(ts[1..]));
    }
  }

  lemma {:induction false} ReverseTwice<T>(a: seq<T>)
    ensures Reverse(Reverse(a)) == a
  {
    if a != [] {
      ReverseSnoc(Reverse(a[1..]), a[0]);
      ReverseTwice(a[1..]);
    }
  }

  lemma {:induction false} MirrorPreorder(t: Task)
    ensures Pids(Reverse(Postorder(t))) == Pids(Preorder(Mirror(t)))
    decreases t, 1
  {
    ReverseSnoc(PostorderAll(t.children), t);
    MirrorPreorderAll(t.children);
    PidsAppend([t], Reverse(PostorderAll(t.children)));
    PidsAppend([Mirror(t)], PreorderAll(MirrorAll(t.children)));
    assert Pids([t]) == Pids([Mirror(t)]);
  }

  lemma {:induction false} MirrorPreorderAll(ts: seq<Task>)
    ensures Pids(Reverse(PostorderAll(ts))) == Pids(PreorderAll(MirrorAll(ts)))
    decreases ts, 0
  {
    if ts != [] {
      MirrorPreorder(ts[0]);
      MirrorPreorderAll(ts[1..]);
      ReverseAppend(Postorder(ts[0]), PostorderAll(ts[1..]));
      PidsAppend(Reverse(PostorderAll(ts[1..])), Reverse(Postorder(ts[0])));
      var m := MirrorAll(ts[1..]);
      PreorderAllAppend(m, [Mirror(ts[0])]);
      assert PreorderAll([Mirror(ts[0])]) == Preorder(Mirror(ts[0]));
      PidsAppend(PreorderAll(m), Preorder(Mirror(ts[0])));
    }
  }

  lemma PidsAppend(a: seq<Task>, b: seq<Task>)
    ensures Pids(a + b) == Pids(a) + Pids(b)
  {
  }

  lemma {:induction false} PreorderAllAppend(a: seq<Task>, b: seq<Task>)
    ensures PreorderAll(a + b) == PreorderAll(a) + PreorderAll(b)
    decreases |a|
  {
    if a == [] {
      assert a + b == b;
    } else {
      PreorderAllAppend(a[1..], b);
      assert (a + b)[1..] == a[1..] + b;
    }
  }

  /** DFS lists the preorder of the mirrored tree: children from last to first. */
  lemma DfsIsMirroredPreorder(t: Task)
    ensures Pids(Visit(false, [t])) == Pids(Preorder(Mirror(t)))
  {
    DfsIsReversedPostorder(t);
    MirrorPreorder(t);
  }

  // ---------------------------------------------------------------------------
  // Both orders: complete, without repetition, parents first

  lemma {:induction false} VisitBag(bfs: bool, pending: seq<Task>)
    ensures multiset(Visit(bfs, pending)) == BagAll(pending)
    ensures |Visit(bfs, pending)| == SizeAll(pending)
    decreases SizeAll(pending)
  {
    if pending == [] {
      assert Visit(bfs, pending) == [];
    } else {
      hide Visit, Reverse;
      var next := NextPending(bfs, pending);
      var kids, rest := pending[0].children, pending[1..];
      NextPendingSize(bfs, pending);
      VisitStep(bfs, pending);
      VisitBag(bfs, next);
      BagAllAppend(rest, kids);
      BagAllReverse(kids);
      BagAllAppend(Reverse(kids), rest);
    }
  }

  lemma {:induction false} VisitReaches(bfs: bool, pending: seq<Task>, x: Task)
    requires x in pending
    ensures x in Visit(bfs, pending)
  {
    hide Visit, SizeAll;
    var i :| 0 <= i < |pending| && pending[i] == x;
    VisitBag(bfs, pending);
    BagAllAppend(pending[..i], pending[i..]);
    assert pending == pending[..i] + pending[i..];
    assert x in BagAll(pending[i..]);
    assert x in multiset(Visit(bfs, pending));
  }

  lemma {:induction false} ChildrenLater(bfs: bool, pending: seq<Task>, i: nat, c: Task)
    requires i < |Visit(bfs, pending)|
    requires c in Visit(bfs, pending)[i].children
    ensures c in Visit(bfs, pending)[i + 1..]
    decreases SizeAll(pending)
  {
    var next := NextPending(bfs, pending);
    NextPendingSize(bfs, pending);
    var v := Visit(bfs, next);
    assert Visit(bfs, pending) == [pending[0]] + v;
    if i == 0 {
      ReverseLength(pending[0].children);
      assert c in multiset(pending[0].children) && (!bfs ==> c in multiset(Reverse(pending[0].children)));
      assert c in next;
      VisitReaches(bfs, next, c);
      assert Visit(bfs, pending)[1..] == v;
    } else {
      ChildrenLater(bfs, next, i - 1, c);
      assert Visit(bfs, pending)[i + 1..] == v[i..];
    }
  }

  lemma NextPendingBag(bfs: bool, pending: seq<Task>)
    requires pending != []
    ensures multiset(NextPending(bfs, pending)) == multiset(pending[1..]) + multiset(pending[0].children)
  {
    ReverseLength(pending[0].children);
  }

  /** Every pending task is visited, and whatever else is visited is a child of a visited task. */
  lemma {:induction false} VisitDiscovers(bfs: bool, pending: seq<Task>)
    ensures multiset(Visit(bfs, pending)) == multiset(pending) + multiset(Children(Visit(bfs, pending)))
    decreases SizeAll(pending)
  {
    if pending == [] {
      assert Visit(bfs, pending) == [];
    } else {
      hide *;
      NextPendingSize(bfs, pending);
      VisitDiscovers(bfs, NextPending(bfs, pending));
      DiscoverStep(bfs, pending, Visit(bfs, NextPending(bfs, pending)));
      VisitStep(bfs, pending);
    }
  }

  lemma DiscoverStep(bfs: bool, pending: seq<Task>, v: seq<Task>)
    requires pending != []
    requires multiset(v) == multiset(NextPending(bfs, pending)) + multiset(Children(v))
    ensures multiset([pending[0]] + v) == multiset(pending) + multiset(Children([pending[0]] + v))
  {
    hide Children, NextPending;
    var head := pending[0];
    NextPendingBag(bfs, pending);
    ChildrenCons(head, v);
    BagCons(pending);
  }

  lemma BagCons(s: seq<Task>)
    requires s != []
    ensures multiset(s) == multiset{s[0]} + multiset(s[1..])
  {
    assert s == [s[0]] + s[1..];
  }

  lemma ChildrenCons(t: Task, v: seq<Task>)
    ensures Children([t] + v) == t.children + Children(v)
  {
    assert ([t] + v)[1..] == v;
  }

  /** BFS and DFS list the same tasks: all those of the tree, each as often as it occurs. */
  lemma OrdersArePermutations(t: Task)
    ensures multiset(Visit(true, [t])) == multiset(Visit(false, [t])) == Bag(t)
    ensures |Visit(true, [t])| == |Visit(false, [t])| == Size(t)
  {
    VisitBag(true, [t]);
    VisitBag(false, [t]);
    assert BagAll([t]) == Bag(t);
    assert SizeAll([t]) == Size(t);
  }

  lemma OccursTwice<T>(v: seq<T>, i: nat, j: nat)
    requires i < j < |v| && v[i] == v[j]
    ensures multiset(v)[v[i]] >= 2
  {
    assert v == v[..j] + v[j..];
    assert v[i] in v[..j] && v[i] in v[j..];
    assert multiset(v[..j])[v[i]] >= 1 && multiset(v[j..])[v[i]] >= 1;
  }

  /** In a tree of distinct tasks each task is listed once. */
  lemma NoRepetition(bfs: bool, t: Task, i: nat, j: nat)
    requires DistinctTasks(t)
    requires i < j < |Visit(bfs, [t])|
    ensures Visit(bfs, [t])[i] != Visit(bfs, [t])[j]
  {
    OrdersArePermutations(t);
    var v := Visit(bfs, [t]);
    if v[i] == v[j] {
      OccursTwice(v, i, j);
    }
  }

  /** In a tree of distinct tasks each task is listed before all of its children. */
  lemma ParentsFirst(bfs: bool, t: Task, i: nat, j: nat)
    requires DistinctTasks(t)
    requires i < |Visit(bfs, [t])| && j < |Visit(bfs, [t])|
    requires Visit(bfs, [t])[j] in Visit(bfs, [t])[i].children
    ensures i < j
  {
    var v := Visit(bfs, [t]);
    ChildrenLater(bfs, [t], i, v[j]);
    var k :| i + 1 <= k < |v| && v[k] == v[j];
    if j < k {
      NoRepetition(bfs, t, j, k);
    }
  }
}
