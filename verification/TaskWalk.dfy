/** The traversal of `dump_children_tree`: one loop over a hand-made singly linked list that is
a queue in BFS mode and a stack in DFS mode, with manual allocation, task reference counting and
an out-of-memory exit.
 */
module TaskWalk {
  import opened Helpers
  import opened TaskTree

  /** `struct queue`. A new node has arbitrary field values, like memory from `kmalloc`. */
  class QueueNode {
    var task: Task
    var next: QueueNode?
    // How often the node was given back to the allocator.
    ghost var frees: nat
  }

  /** What looking up a user pid can find. */
  datatype Lookup = NoPid | PidWithoutTask | Found(task: Task)

  datatype Errno = ESRCH | ECANCELED

  /** Every reference ever taken on a task, and every one given up, in order of time. */
  datatype Refs = Refs(gets: seq<Task>, puts: seq<Task>)
  {
    ghost predicate Sound() {
      multiset(puts) <= multiset(gets)
    }

    function Held(): multiset<Task> {
      multiset(gets) - multiset(puts)
    }

    function GetTaskStruct(t: Task): (r: Refs)
      ensures r == Refs(gets + [t], puts)
    {
      Refs(gets + [t], puts)
    }

    function PutTaskStruct(t: Task): (r: Refs)
      requires t in Held()
      ensures r == Refs(gets, puts + [t])
    {
      Refs(gets, puts + [t])
    }
  }

  ghost function Successor(nodes: seq<QueueNode>, end: QueueNode?, i: nat): QueueNode? {
    if i + 1 < |nodes| then nodes[i + 1] else end
  }

  /** `nodes` is the acyclic chain from `q` up to `end`, and `tasks` are the tasks it carries. */
  ghost predicate IsChain(q: QueueNode?, nodes: seq<QueueNode>, tasks: seq<Task>, end: QueueNode?)
    reads nodes
  {
    && |nodes| == |tasks|
    && Distinct(nodes)
    && q == (if nodes == [] then end else nodes[0])
    && (forall i {:trigger nodes[i].task} :: 0 <= i < |nodes| ==> nodes[i].task == tasks[i])
    && (forall i {:trigger nodes[i].next} :: 0 <= i < |nodes| ==> nodes[i].next == Successor(nodes, end, i))
  }

  ghost predicate IsList(q: QueueNode?, nodes: seq<QueueNode>, tasks: seq<Task>)
    reads nodes
  {
    IsChain(q, nodes, tasks, null)
  }

  lemma ListTail(q: QueueNode?, nodes: seq<QueueNode>, tasks: seq<Task>)
    requires IsList(q, nodes, tasks) && nodes != []
    ensures IsList(nodes[0].next, nodes[1..], tasks[1..])
    ensures nodes[0] !in nodes[1..]
  {
    var ns, ts := nodes[1..], tasks[1..];
    forall i | 0 <= i < |ns|
      ensures ns[i].task == ts[i]
      ensures ns[i].next == Successor(ns, null, i)
    {
      assert ns[i] == nodes[i + 1];
    }
  }

  lemma ListCons(n: QueueNode, q: QueueNode?, nodes: seq<QueueNode>, tasks: seq<Task>)
    requires IsList(q, nodes, tasks)
    requires n !in nodes && n.next == q
    ensures IsList(n, [n] + nodes, [n.task] + tasks)
  {
    var ns, ts := [n] + nodes, [n.task] + tasks;
    forall i | 0 <= i < |ns|
      ensures ns[i].task == ts[i]
      ensures ns[i].next == Successor(ns, null, i)
    {
      if i > 0 {
        assert ns[i] == nodes[i - 1];
      }
    }
  }

  lemma ListSnoc(q: QueueNode?, nodes: seq<QueueNode>, tasks: seq<Task>, n: QueueNode)
    requires IsChain(q, nodes, tasks, n)
    requires n !in nodes && n.next == null
    ensures IsList(q, nodes + [n], tasks + [n.task])
  {
    var ns, ts := nodes + [n], tasks + [n.task];
    forall i | 0 <= i < |ns|
      ensures ns[i].task == ts[i]
      ensures ns[i].next == Successor(ns, null, i)
    {
      if i < |nodes| {
        assert ns[i] == nodes[i] && Successor(nodes, n, i) == ns[i + 1];
      }
    }
  }

  class Walker {
    // The variables `q` and `tail`. `tail` is the node whose `next` field the C pointer addresses.
    var q: QueueNode?
    var tail: QueueNode?

    // The list, and the tasks pending in it.
    ghost var nodes: seq<QueueNode>
    ghost var pending: seq<Task>
    // All the nodes that `kmalloc` has handed out.
    ghost var born: set<QueueNode>
    ghost var mallocs: nat

    /** The list is well formed, its nodes are in use, and all others were freed exactly once. */
    ghost predicate Valid()
      reads this`q, this`nodes, this`pending, this`born, this`mallocs, nodes, born
    {
      ValidBut(null)
    }

    /** The same while `tmp`, if not null, was allocated and is not yet in the list. */
    ghost predicate ValidBut(tmp: QueueNode?)
      reads this`q, this`nodes, this`pending, this`born, this`mallocs, nodes, born
    {
      && IsList(q, nodes, pending)
      && (forall i :: 0 <= i < |nodes| ==> nodes[i] in born)
      && (forall n :: n in born ==> n.frees == if n in nodes || n == tmp then 0 else 1)
      && (tmp != null ==> tmp in born && tmp !in nodes)
      && |born| == mallocs
    }

    ghost predicate Idle()
      reads this`q, this`nodes, this`pending, this`born, this`mallocs, nodes, born
    {
      Valid() && nodes == []
    }

    /** `tail` addresses the link that ends the list. */
    ghost predicate TailIsLast()
      reads this`tail, this`nodes
    {
      nodes != [] && tail == nodes[|nodes| - 1]
    }

    lemma HeadOfList()
      requires Valid()
      ensures |nodes| == |pending| && (q == null <==> pending == [])
      ensures |born| == mallocs
    {
    }

    lemma AllFreed()
      requires Valid() && q == null
      ensures forall m :: m in born ==> m.frees == 1
    {
    }

    constructor ()
      ensures Idle() && born == {} && mallocs == 0
    {
      q, tail, nodes, pending, born, mallocs := null, null, [], [], {}, 0;
    }

    // -------------------------------------------------------------------------
    // Memory. Every access to a node demands that the node has not been freed.

    method Kmalloc(succeeds: bool) returns (n: QueueNode?)
      requires Valid()
      modifies this`born, this`mallocs
      ensures mallocs == old(mallocs) + if succeeds then 1 else 0
      ensures (n != null) == succeeds
      ensures n == null ==> born == old(born)
      ensures n != null ==> fresh(n) && born == old(born) + {n}
      ensures ValidBut(n)
    {
      n := null;
      if succeeds {
        n := new QueueNode;
        n.frees := 0;
        born, mallocs := born + {n}, mallocs + 1;
      }
    }

    static method Kfree(n: QueueNode)
      requires n.frees == 0
      modifies n`frees
      ensures n.frees == 1
    {
      n.frees := 1;
    }

    static method LoadTask(n: QueueNode) returns (t: Task)
      requires n.frees == 0
      ensures t == n.task
    {
      t := n.task;
    }

    static method LoadNext(n: QueueNode) returns (m: QueueNode?)
      requires n.frees == 0
      ensures m == n.next
    {
      m := n.next;
    }

    static method StoreTask(n: QueueNode, t: Task)
      requires n.frees == 0
      modifies n`task
      ensures n.task == t
    {
      n.task := t;
    }

    static method StoreNext(n: QueueNode, m: QueueNode?)
      requires n.frees == 0
      modifies n`next
      ensures n.next == m
    {
      n.next := m;
    }

    // -------------------------------------------------------------------------
    // List operations

    /** Unlink the head and free it. */
    method PopHead()
      requires Valid() && q != null
      modifies this`q, this`nodes, this`pending, q`frees
      ensures Valid()
      ensures nodes == old(nodes)[1..] && pending == old(pending)[1..]
    {
      var tmp := q;
      q := LoadNext(q);
      ListTail(tmp, nodes, pending);
      Kfree(tmp);
      assert nodes == [tmp] + nodes[1..];
      nodes, pending := nodes[1..], pending[1..];
    }

    /** Give the node its task and make it the new head. */
    method PushFront(tmp: QueueNode, child: Task)
      requires ValidBut(tmp)
      modifies this`q, this`nodes, this`pending, tmp
      ensures Valid()
      ensures nodes == [tmp] + old(nodes) && pending == [child] + old(pending)
    {
      StoreTask(tmp, child);
      StoreNext(tmp, q);
      ListCons(tmp, q, nodes, pending);
      q := tmp;
      nodes, pending := [tmp] + nodes, [child] + pending;
    }

    /** Link the node behind the last one. */
    method StoreThroughTail(tmp: QueueNode)
      requires IsList(q, nodes, pending) && TailIsLast() && tail.frees == 0
      modifies tail`next
      ensures IsChain(q, nodes, pending, tmp)
    {
      StoreNext(tail, tmp);
      forall i | 0 <= i < |nodes|
        ensures nodes[i].next == Successor(nodes, tmp, i)
      {
        if i < |nodes| - 1 {
          assert nodes[i] != tail;
          assert old(nodes[i].next) == Successor(nodes, null, i);
        }
      }
    }

    /** Give the node its task, end the list with it, and let `tail` address its link. */
    method Append(tmp: QueueNode, child: Task)
      requires ValidBut(tmp) && TailIsLast()
      modifies this`tail, this`nodes, this`pending, tmp, tail`next
      ensures Valid() && TailIsLast()
      ensures nodes == old(nodes) + [tmp] && pending == old(pending) + [child]
    {
      StoreTask(tmp, child);
      StoreNext(tmp, null);
      StoreThroughTail(tmp);
      ListSnoc(q, nodes, pending, tmp);
      tail := tmp;
      nodes, pending := nodes + [tmp], pending + [child];
    }

    /** Free what is left of the list, as on the out-of-memory exit. */
    method FreeList()
      requires Valid()
      modifies this`q, this`nodes, this`pending, born
      ensures Valid() && q == null
    {
      while q != null
        invariant Valid()
        decreases |nodes|
      {
        PopHead();
      }
    }

    // -------------------------------------------------------------------------
    // The traversal. `oracle(k)` says whether allocation number `k` of a call succeeds.

    method EnqueueChild(child: Task, useBfs: bool, succeeds: bool, ghost refs: Refs)
      returns (ok: bool, ghost refs': Refs)
      requires Valid() && (useBfs ==> TailIsLast())
      modifies this`q, this`tail, this`nodes, this`pending, this`born, this`mallocs, born
      ensures Valid() && (useBfs ==> TailIsLast())
      ensures ok == succeeds && mallocs == old(mallocs) + if ok then 1 else 0
      ensures refs' == refs.GetTaskStruct(child)
      ensures !ok ==> nodes == old(nodes) && pending == old(pending)
      ensures ok && useBfs ==> pending == old(pending) + [child]
      ensures ok && !useBfs ==> pending == [child] + old(pending)
      ensures old(born) <= born && fresh(born - old(born))
    {
      refs' := refs.GetTaskStruct(child);
      var tmp := Kmalloc(succeeds);
      ok := tmp != null;
      if tmp != null {
        if useBfs {
          Append(tmp, child);
        } else {
          PushFront(tmp, child);
        }
      }
    }

    /** The loop over the children: take a reference on each child and queue or stack it. */
    method EnqueueChildren(kids: seq<Task>, useBfs: bool, oracle: nat -> bool, n0: nat, ghost refs: Refs)
      returns (ok: bool, i: nat, ghost refs': Refs)
      requires Valid() && (useBfs ==> TailIsLast())
      modifies this`q, this`tail, this`nodes, this`pending, this`born, this`mallocs, born
      ensures Valid() && (useBfs ==> TailIsLast())
      ensures forall k :: n0 <= k < n0 + i ==> oracle(k)
      ensures if ok then i == |kids| else i < |kids| && !oracle(n0 + i)
      ensures pending == Queued(useBfs, old(pending), kids[..i])
      ensures mallocs == old(mallocs) + i
      ensures refs' == Refs(refs.gets + kids[..if ok then i else i + 1], refs.puts)
      ensures old(born) <= born && fresh(born - old(born))
    {
      hide *;
      ok, i, refs' := true, 0, refs;
      QueuedNone(useBfs, pending, kids);
      while i < |kids|
        invariant i <= |kids|
        invariant Valid() && (useBfs ==> TailIsLast())
        invariant ok && forall k :: n0 <= k < n0 + i ==> oracle(k)
        invariant pending == Queued(useBfs, old(pending), kids[..i])
        invariant mallocs == old(mallocs) + i
        invariant refs' == Refs(refs.gets + kids[..i], refs.puts)
        invariant old(born) <= born && fresh(born - old(born))
      {
        ghost var was := old(pending);
        PrefixSnoc(kids, i);
        QueuedSnoc(useBfs, was, kids[..i], kids[i]);
        var child := kids[i];
        ok, refs' := EnqueueChild(child, useBfs, oracle(n0 + i), refs');
        if !ok {
          return;
        }
        i := i + 1;
      }
      assert kids[..|kids|] == kids;
    }

    /** A turn of the loop up to the end of list_for_each, or to the allocation that fails in it. */
    method VisitHead(useBfs: bool, oracle: nat -> bool, n0: nat, ghost refs: Refs)
      returns (ok: bool, i: nat, task: Task, ghost refs': Refs)
      requires Valid() && q != null && (useBfs ==> TailIsLast())
      modifies this, born
      ensures mallocs == old(mallocs) + i
      ensures Valid() && (useBfs ==> TailIsLast())
      ensures task == old(pending)[0]
      ensures forall k :: n0 <= k < n0 + i ==> oracle(k)
      ensures if ok then i == |task.children| else i < |task.children| && !oracle(n0 + i)
      ensures pending == Queued(useBfs, if useBfs then old(pending) else old(pending)[1..], task.children[..i])
      ensures refs' == Refs(refs.gets + task.children[..if ok then i else i + 1], refs.puts)
      ensures old(born) <= born && fresh(born - old(born))
    {
      task := LoadTask(q);
      if !useBfs {
        PopHead();
      }
      ok, i, refs' := EnqueueChildren(task.children, useBfs, oracle, n0, refs);
    }

    method StartList(tmp: QueueNode, root: Task, useBfs: bool)
      requires ValidBut(tmp) && nodes == []
      modifies this`q, this`tail, this`nodes, this`pending, tmp
      ensures Valid() && pending == [root] && (useBfs ==> TailIsLast())
    {
      PushFront(tmp, root);
      if useBfs {
        tail := tmp;
      }
    }

    method EndTurn(useBfs: bool)
      requires Valid() && (useBfs ==> TailIsLast())
      modifies this`q, this`nodes, this`pending, born
      ensures Valid() && (useBfs && q != null ==> TailIsLast())
      ensures pending == if useBfs then old(pending)[1..] else old(pending)
    {
      if useBfs {
        PopHead();
      }
    }
  }

  /** The traversal from `root`, whose reference the caller has taken. `n` allocations succeed before
      the end or before one fails, `trace` is what is printed, `left` is the length of the list at the
      moment of the failure, and `born` holds all nodes that were allocated. */
  method DumpChildrenTree(root: Task, useBfs: bool, oracle: nat -> bool, ghost refs: Refs)
    returns (ok: bool, n: nat, trace: seq<Task>, ghost left: nat, ghost refs': Refs, ghost born: set<QueueNode>)
    requires refs.Sound() && root in refs.Held()
    ensures |born| == n && forall m :: m in born ==> m.frees == 1
    ensures forall k: nat :: k < n ==> oracle(k)
    ensures if ok then n == Size(root) else n < Size(root) && !oracle(n)
    ensures ok ==> trace == if useBfs then LevelOrder(root) else Reverse(Postorder(root))
    ensures refs'.Sound()
    ensures ok ==> refs'.Held() == refs.Held() - multiset{root}
    ensures !ok && n == 0 ==> trace == [] && refs' == refs
    ensures !ok && n > 0 ==> FailedAt(useBfs, root, n, trace, left, refs, refs')
  {
    hide *;
    ok, n, trace, left, refs' := true, 0, [], 0, refs;
    var w := new Walker();
    var tmp := w.Kmalloc(oracle(0));
    if tmp == null {
      born := w.born;
      return false, 0, [], 0, refs, born;
    }
    w.StartList(tmp, root, useBfs);
    n := 1;
    ProgressStart(useBfs, root, refs);
    while w.q != null
      invariant fresh(w) && fresh(w.born)
      invariant ok && w.Valid() && (useBfs && w.q != null ==> w.TailIsLast())
      invariant w.mallocs == n && forall k: nat :: k < n ==> oracle(k)
      invariant Progress(useBfs, root, trace, w.pending, n, refs, refs')
      decreases SizeAll(w.pending)
    {
      w.HeadOfList();
      ghost var soFar, pending, held, n0 := trace, w.pending, refs', n;
      var i, task;
      ok, i, task, refs' := w.VisitHead(useBfs, oracle, n, refs');
      trace := trace + [task];
      n := n + i;
      w.HeadOfList();
      if !ok {
        ProgressFails(useBfs, root, soFar, pending, n0, refs, held, i);
        QueuedLength(useBfs, if useBfs then pending else pending[1..], task.children[..i]);
        left := |w.nodes|;
        w.FreeList();
        w.AllFreed();
        born := w.born;
        return;
      }
      ProgressStep(useBfs, root, soFar, pending, n0, refs, held);
      NextPendingIsQueued(pending);
      NextPendingSize(useBfs, pending);
      assert task.children[..i] == task.children;
      refs' := refs'.PutTaskStruct(task);
      w.EndTurn(useBfs);
    }
    w.HeadOfList();
    w.AllFreed();
    ProgressEnds(useBfs, root, trace, n, refs, refs');
    born := w.born;
  }

  /** Module initialisation. `pids` are the references held on `struct pid`s: the one taken by
      `find_get_pid` is never given up. */
  method ModInit(pid: nat, lookup: Lookup, useBfs: bool, oracle: nat -> bool, ghost refs: Refs, ghost pids: multiset<nat>)
    returns (err: Errno, trace: seq<Task>, ghost refs': Refs, ghost pids': multiset<nat>)
    requires refs.Sound()
    ensures err == if lookup.Found? then ECANCELED else ESRCH
    ensures pids' == if lookup.NoPid? then pids else pids + multiset{pid}
    ensures !lookup.Found? ==> trace == []
    ensures refs'.Held() == refs.Held() <==>
            !lookup.Found? || forall k: nat :: k < Size(lookup.task) ==> oracle(k)
    ensures lookup.Found? && refs'.Held() == refs.Held() ==>
            trace == if useBfs then LevelOrder(lookup.task) else Reverse(Postorder(lookup.task))
    ensures refs'.Sound() && refs.Held() <= refs'.Held()
  {
    hide *;
    trace, refs', pids' := [], refs, if lookup.NoPid? then pids else pids + multiset{pid};
    if !lookup.Found? {
      return ESRCH, [], refs', pids';
    }
    ghost var taken := refs.GetTaskStruct(lookup.task);
    AfterGet(refs, lookup.task);
    var ok, n;
    ghost var left, born;
    ok, n, trace, left, refs', born := DumpChildrenTree(lookup.task, useBfs, oracle, taken);
    err := ECANCELED;
    if !ok && n > 0 {
      FailureLeaks(useBfs, lookup.task, n, trace, left, refs, taken, refs');
    }
  }

  /** The smallest leak: a parent with one child, for which the second allocation fails. Both keep a
      reference in either mode. */
  method OutOfMemoryAtOnlyChild(pid: nat, childPid: nat, useBfs: bool, ghost refs: Refs)
    returns (trace: seq<Task>, ghost refs': Refs)
    requires refs.Sound()
    ensures var child := Task(childPid, []);
            var parent := Task(pid, [child]);
            trace == [parent] && refs'.Held() == refs.Held() + multiset{parent, child}
  {
    hide *;
    var child := Task(childPid, []);
    var parent := Task(pid, [child]);
    var firstOnly := (k: nat) => k == 0;
    assert firstOnly(0) && !firstOnly(1);
    ghost var taken := refs.GetTaskStruct(parent);
    AfterGet(refs, parent);
    var ok, n;
    ghost var left, born;
    ok, n, trace, left, refs', born := DumpChildrenTree(parent, useBfs, firstOnly, taken);
    OnlyChildSize(pid, childPid);
    assert n == 1;
    OnlyChildLeak(useBfs, parent, child, trace, left, taken, refs');
    assert taken.Held() - multiset{parent} == refs.Held();
  }

  lemma OnlyChildSize(pid: nat, childPid: nat)
    ensures Size(Task(pid, [Task(childPid, [])])) == 2
  {
    assert SizeAll([Task(childPid, [])]) == 1;
  }

  lemma OnlyChildVisit(bfs: bool, parent: Task, child: Task)
    requires parent.children == [child] && child.children == []
    ensures Visit(bfs, [parent]) == [parent, child] && Found(bfs, parent) == [parent, child]
    ensures Children([]) == [] && Children([parent]) == [child] && Children([parent, child]) == [child]
  {
    VisitStep(bfs, [parent]);
    NextOfParent(bfs, parent, child);
    VisitStep(bfs, [child]);
    assert NextPending(bfs, [child]) == [];
    ChildrenSnoc([], parent);
    ChildrenSnoc([parent], child);
    assert [] + [parent] == [parent] && [parent] + [child] == [parent, child];
  }

  lemma PrefixOfPair<T>(s: seq<T>, x: T, y: T)
    requires s != [] && s <= [x, y]
    ensures s == [x] || (|s| == 2 && s[..|s| - 1] == [x])
  {
  }

  lemma OnlyChildTrace(bfs: bool, parent: Task, child: Task, trace: seq<Task>, left: nat, refs: Refs, refs': Refs)
    requires parent.children == [child] && child.children == []
    requires FailedAt(bfs, parent, 1, trace, left, refs, refs')
    ensures trace == [parent]
  {
    hide Refs.Held, Visit, Found, Children, Leaked;
    OnlyChildVisit(bfs, parent, child);
    PrefixOfPair(trace, parent, child);
  }

  lemma OnlyChildLeaked(bfs: bool, parent: Task, child: Task)
    requires parent.children == [child] && child.children == []
    ensures 1 < |Found(bfs, parent)| && Leaked(bfs, parent, 1, [parent]) == multiset{parent, child}
  {
    hide Visit, Found, Children;
    OnlyChildVisit(bfs, parent, child);
    assert Found(bfs, parent)[..2] == [parent, child] && [parent][..0] == [];
  }

  lemma OnlyChildLeak(bfs: bool, parent: Task, child: Task, trace: seq<Task>, left: nat, refs: Refs, refs': Refs)
    requires parent.children == [child] && child.children == []
    requires FailedAt(bfs, parent, 1, trace, left, refs, refs')
    ensures trace == [parent] && refs'.Held() == refs.Held() - multiset{parent} + multiset{parent, child}
  {
    hide Refs.Held, Visit, Found, Children, Leaked;
    OnlyChildTrace(bfs, parent, child, trace, left, refs, refs');
    OnlyChildLeaked(bfs, parent, child);
  }

  lemma NextOfParent(bfs: bool, parent: Task, child: Task)
    requires parent.children == [child]
    ensures NextPending(bfs, [parent]) == [child]
  {
    assert Reverse([child]) == [child];
  }

  lemma FailureLeaks(bfs: bool, root: Task, n: nat, trace: seq<Task>, left: nat, refs: Refs, taken: Refs, refs': Refs)
    requires n > 0 && FailedAt(bfs, root, n, trace, left, taken, refs')
    requires taken.Held() == refs.Held() + multiset{root}
    ensures refs.Held() <= refs'.Held() && refs'.Held() != refs.Held()
  {
    hide Refs.Held, Leaked, Visit, Found, Children;
    var leaked := Leaked(bfs, root, n, trace);
    assert refs'.Held() == refs.Held() + leaked;
    assert |leaked| > 0;
  }

  lemma AfterGet(refs: Refs, t: Task)
    requires refs.Sound()
    ensures refs.GetTaskStruct(t).Sound() && t in refs.GetTaskStruct(t).Held()
    ensures refs.GetTaskStruct(t).Held() == refs.Held() + multiset{t}
  {
  }

  // ---------------------------------------------------------------------------
  // What the loop has achieved, in terms of the visiting order

  /** Tasks in the order in which a complete traversal comes across them. */
  ghost function Found(bfs: bool, root: Task): seq<Task> {
    [root] + Children(Visit(bfs, [root]))
  }

  ghost predicate Progress(bfs: bool, root: Task, trace: seq<Task>, pending: seq<Task>, n: nat, refs: Refs, refs': Refs)
  {
    && Visit(bfs, [root]) == trace + Visit(bfs, pending)
    && n == 1 + |Children(trace)| == |trace| + |pending|
    && refs'.gets == refs.gets + Children(trace)
    && refs'.puts == refs.puts + trace
    && Balanced(root, trace, pending)
  }

  /** The tasks found so far are those visited and those pending. */
  ghost predicate Balanced(root: Task, trace: seq<Task>, pending: seq<Task>) {
    multiset(trace) + multiset(pending) == multiset([root] + Children(trace))
  }

  /** The references on the first `n + 1` tasks found, without those on all tasks visited but the last. */
  ghost function Leaked(bfs: bool, root: Task, n: nat, trace: seq<Task>): multiset<Task>
    requires n < |Found(bfs, root)| && trace != []
  {
    multiset(Found(bfs, root)[..n + 1]) - multiset(trace[..|trace| - 1])
  }

  /** Where a traversal stops whose allocation number `n`, not the first one, fails: the tasks
      visited are those up to the parent of the child that got no node, references were taken on
      the first `n + 1` tasks found, and only the tasks before that parent were put. */
  ghost predicate FailedAt(bfs: bool, root: Task, n: nat, trace: seq<Task>, left: nat, refs: Refs, refs': Refs)
    requires n > 0
  {
    var visited, j := Visit(bfs, [root]), |trace|;
    && 0 < j && trace <= visited
    && 1 + |Children(trace[..j - 1])| <= n < 1 + |Children(trace)|
    && n < |Found(bfs, root)|
    && left == n - j + (if bfs then 1 else 0)
    && refs'.Held() == refs.Held() - multiset{root} + Leaked(bfs, root, n, trace)
    && |Leaked(bfs, root, n, trace)| == left + (if bfs then 1 else 2)
  }

  lemma ProgressStart(bfs: bool, root: Task, refs: Refs)
    ensures Progress(bfs, root, [], [root], 1, refs, refs)
  {
  }

  /** What is held after further gets and puts, when nothing is put that is not held. */
  lemma HeldAfter(refs: Refs, root: Task, gets: seq<Task>, puts: seq<Task>)
    requires refs.Sound() && root in refs.Held()
    requires multiset(puts) <= multiset([root] + gets)
    ensures Refs(refs.gets + gets, refs.puts + puts).Held() ==
      refs.Held() - multiset{root} + (multiset([root] + gets) - multiset(puts))
    ensures Refs(refs.gets + gets, refs.puts + puts).Sound()
  {
  }

  lemma ChildrenSnoc(trace: seq<Task>, t: Task)
    ensures Children(trace + [t]) == Children(trace) + t.children
  {
    ChildrenAppend(trace, [t]);
    assert Children([t]) == t.children + Children([]);
  }

  lemma BalancedBound(root: Task, trace: seq<Task>, pending: seq<Task>)
    requires Balanced(root, trace, pending)
    ensures multiset(trace) <= multiset([root] + Children(trace))
    ensures pending != [] ==> multiset(trace)[pending[0]] < multiset([root] + Children(trace))[pending[0]]
  {
    if pending != [] {
      assert pending[0] in multiset(pending);
    }
  }

  lemma BalancedStep(bfs: bool, root: Task, trace: seq<Task>, pending: seq<Task>)
    requires Balanced(root, trace, pending) && pending != []
    ensures Balanced(root, trace + [pending[0]], NextPending(bfs, pending))
  {
    hide Children, NextPending;
    var head, rest := pending[0], pending[1..];
    assert pending == [head] + rest;
    NextPendingBag(bfs, pending);
    ChildrenSnoc(trace, head);
    BagStep(root, trace, head, rest, NextPending(bfs, pending), Children(trace));
  }

  lemma BagStep(root: Task, trace: seq<Task>, head: Task, rest: seq<Task>, next: seq<Task>, found: seq<Task>)
    requires multiset(trace) + multiset([head] + rest) == multiset([root] + found)
    requires multiset(next) == multiset(rest) + multiset(head.children)
    ensures multiset(trace + [head]) + multiset(next) == multiset([root] + (found + head.children))
  {
    var t, f, k := multiset(trace), multiset([root] + found), multiset(head.children);
    assert multiset([head] + rest) == multiset{head} + multiset(rest);
    assert multiset([root] + (found + head.children)) == f + k by {
      assert [root] + (found + head.children) == ([root] + found) + head.children;
    }
    assert multiset(trace + [head]) == t + multiset{head};
  }

  lemma HeldUntilPut(refs: Refs, root: Task, trace: seq<Task>, pending: seq<Task>, more: seq<Task>)
    requires refs.Sound() && root in refs.Held()
    requires Balanced(root, trace, pending) && pending != []
    ensures pending[0] in Refs(refs.gets + Children(trace) + more, refs.puts + trace).Held()
  {
    BalancedBound(root, trace, pending);
    HeldAfter(refs, root, Children(trace), trace);
    StillHeld(Refs(refs.gets + Children(trace), refs.puts + trace), more, pending[0]);
  }

  /** At the head of the loop the references taken and not put, besides those held before, are those
      on the tasks pending. */
  lemma HeldIsPending(bfs: bool, root: Task, trace: seq<Task>, pending: seq<Task>, n: nat, refs: Refs, refs': Refs)
    requires Progress(bfs, root, trace, pending, n, refs, refs')
    requires refs.Sound() && root in refs.Held()
    ensures refs'.Sound() && refs'.Held() == refs.Held() - multiset{root} + multiset(pending)
  {
    hide Refs.Held, Refs.Sound, Visit, Children;
    HeldAfter(refs, root, Children(trace), trace);
    BagRest(multiset(trace), multiset(pending), multiset([root] + Children(trace)));
  }

  lemma BagRest(a: multiset<Task>, b: multiset<Task>, c: multiset<Task>)
    requires a + b == c
    ensures a <= c && c - a == b
  {
  }

  lemma ProgressStep(bfs: bool, root: Task, trace: seq<Task>, pending: seq<Task>, n: nat, refs: Refs, refs': Refs)
    requires Progress(bfs, root, trace, pending, n, refs, refs') && pending != []
    requires refs.Sound() && root in refs.Held()
    ensures pending[0] in Refs(refs'.gets + pending[0].children, refs'.puts).Held()
    ensures Progress(bfs, root, trace + [pending[0]], NextPending(bfs, pending), n + |pending[0].children|,
                     refs, Refs(refs'.gets + pending[0].children, refs'.puts + [pending[0]]))
  {
    hide Refs.Held, Refs.Sound, Visit, Children, Balanced, NextPending;
    var head := pending[0];
    var kids := head.children;
    ChildrenSnoc(trace, head);
    VisitStep(bfs, pending);
    BalancedStep(bfs, root, trace, pending);
    HeldUntilPut(refs, root, trace, pending, kids);
    NextPendingLength(bfs, pending);
    assert refs'.gets + kids == refs.gets + (Children(trace) + kids);
    assert refs'.puts + [head] == refs.puts + (trace + [head]);
  }

  lemma NextPendingLength(bfs: bool, pending: seq<Task>)
    requires pending != []
    ensures |NextPending(bfs, pending)| == |pending| - 1 + |pending[0].children|
  {
    ReverseLength(pending[0].children);
  }

  lemma ProgressEnds(bfs: bool, root: Task, trace: seq<Task>, n: nat, refs: Refs, refs': Refs)
    requires Progress(bfs, root, trace, [], n, refs, refs')
    requires refs.Sound() && root in refs.Held()
    ensures n == Size(root)
    ensures trace == if bfs then LevelOrder(root) else Reverse(Postorder(root))
    ensures refs'.Sound() && refs'.Held() == refs.Held() - multiset{root}
  {
    BfsIsLevelOrder(root);
    DfsIsReversedPostorder(root);
    OrdersArePermutations(root);
    HeldAfter(refs, root, Children(trace), trace);
  }

  lemma ProgressFails(bfs: bool, root: Task, trace: seq<Task>, pending: seq<Task>, n: nat, refs: Refs, refs': Refs, i: nat)
    requires Progress(bfs, root, trace, pending, n, refs, refs') && pending != []
    requires refs.Sound() && root in refs.Held()
    requires i < |pending[0].children|
    ensures n + i < Size(root)
    ensures FailedAt(bfs, root, n + i, trace + [pending[0]], |pending| + i - (if bfs then 0 else 1),
                     refs, Refs(refs'.gets + pending[0].children[..i + 1], refs'.puts))
    ensures Refs(refs'.gets + pending[0].children[..i + 1], refs'.puts).Sound()
  {
    hide Refs.Held, Refs.Sound, Visit, Children, Balanced, NextPending, SizeAll, Leaked, Found, FailedAt;
    var head := pending[0];
    var rest := Visit(bfs, NextPending(bfs, pending));
    var kids, found := head.children, Children(trace);
    VisitStep(bfs, pending);
    BalancedBound(root, trace, pending);
    assert trace + ([head] + rest) == trace + [head] + rest;
    FailedBetween(bfs, root, trace, head, rest, i, refs);
    assert refs'.gets + kids[..i + 1] == refs.gets + (found + kids[..i + 1]);
  }

  lemma FailedBetween(bfs: bool, root: Task, trace: seq<Task>, head: Task, rest: seq<Task>, i: nat, refs: Refs)
    requires Visit(bfs, [root]) == trace + [head] + rest
    requires i < |head.children|
    requires refs.Sound() && root in refs.Held()
    requires multiset(trace) <= multiset([root] + Children(trace))
    requires |trace| <= |Children(trace)|
    ensures 1 + |Children(trace)| + i < Size(root)
    ensures var refs' := Refs(refs.gets + (Children(trace) + head.children[..i + 1]), refs.puts + trace);
            && FailedAt(bfs, root, 1 + |Children(trace)| + i, trace + [head],
                        |Children(trace)| + i - |trace| + (if bfs then 1 else 0), refs, refs')
            && refs'.Sound()
  {
    hide Refs.Held, Refs.Sound, Visit, Children, SizeAll, Leaked, Found;
    ChildrenSnoc(trace, head);
    FoundIsAll(bfs, root);
    LeakedHeld(bfs, root, trace, head, rest, i, refs);
    assert trace + [head] <= Visit(bfs, [root]);
    assert (trace + [head])[..|trace + [head]| - 1] == trace;
  }

  lemma LeakedHeld(bfs: bool, root: Task, trace: seq<Task>, head: Task, rest: seq<Task>, i: nat, refs: Refs)
    requires Visit(bfs, [root]) == trace + [head] + rest
    requires i < |head.children|
    requires refs.Sound() && root in refs.Held()
    requires multiset(trace) <= multiset([root] + Children(trace))
    ensures 1 + |Children(trace)| + i < |Found(bfs, root)|
    ensures var leaked := Leaked(bfs, root, 1 + |Children(trace)| + i, trace + [head]);
            && |leaked| == 2 + |Children(trace)| + i - |trace|
            && Refs(refs.gets + (Children(trace) + head.children[..i + 1]), refs.puts + trace).Held() ==
               refs.Held() - multiset{root} + leaked
    ensures Refs(refs.gets + (Children(trace) + head.children[..i + 1]), refs.puts + trace).Sound()
  {
    hide *;
    LeakedIs(bfs, root, trace, head, rest, i);
    LeakSize(refs, root, Children(trace), head.children[..i + 1], trace);
  }

  lemma LeakedIs(bfs: bool, root: Task, trace: seq<Task>, head: Task, rest: seq<Task>, i: nat)
    requires Visit(bfs, [root]) == trace + [head] + rest
    requires i < |head.children|
    ensures 1 + |Children(trace)| + i < |Found(bfs, root)|
    ensures Leaked(bfs, root, 1 + |Children(trace)| + i, trace + [head]) ==
      multiset([root] + (Children(trace) + head.children[..i + 1])) - multiset(trace)
  {
    hide Visit, Children;
    var found, kids := Children(trace), head.children;
    ChildrenSnoc(trace, head);
    ChildrenAppend(trace + [head], rest);
    assert Found(bfs, root) == [root] + (found + kids + Children(rest));
    FoundPrefix(root, found, kids, Children(rest), i);
    assert (trace + [head])[..|trace + [head]| - 1] == trace;
  }

  lemma FoundIsAll(bfs: bool, root: Task)
    ensures |Found(bfs, root)| == |Visit(bfs, [root])| == Size(root)
  {
    VisitDiscovers(bfs, [root]);
    OrdersArePermutations(root);
    assert |multiset(Visit(bfs, [root]))| == |Visit(bfs, [root])|;
  }

  lemma FoundPrefix(root: Task, before: seq<Task>, kids: seq<Task>, after: seq<Task>, i: nat)
    requires i < |kids|
    ensures ([root] + (before + kids + after))[..1 + |before| + i + 1] == [root] + (before + kids[..i + 1])
  {
  }

  lemma LeakSize(refs: Refs, root: Task, found: seq<Task>, more: seq<Task>, puts: seq<Task>)
    requires refs.Sound() && root in refs.Held()
    requires multiset(puts) <= multiset([root] + found)
    ensures Refs(refs.gets + (found + more), refs.puts + puts).Held() ==
      refs.Held() - multiset{root} + (multiset([root] + (found + more)) - multiset(puts))
    ensures Refs(refs.gets + (found + more), refs.puts + puts).Sound()
    ensures |multiset([root] + (found + more)) - multiset(puts)| == 1 + |found| + |more| - |puts|
  {
    assert [root] + (found + more) == ([root] + found) + more;
    assert multiset(([root] + found) + more) == multiset([root] + found) + multiset(more);
    HeldAfter(refs, root, found + more, puts);
    SizeOfDifference(multiset([root] + (found + more)), multiset(puts));
  }

  lemma SizeOfDifference(a: multiset<Task>, b: multiset<Task>)
    requires b <= a
    ensures |a - b| == |a| - |b|
  {
    assert a == (a - b) + b;
  }

  lemma PrefixSnoc<T>(s: seq<T>, i: nat)
    requires i < |s|
    ensures s[..i + 1] == s[..i] + [s[i]]
  {
  }

  lemma NextPendingIsQueued(pending: seq<Task>)
    requires pending != []
    ensures NextPending(true, pending) == Queued(true, pending, pending[0].children)[1..]
    ensures NextPending(false, pending) == Queued(false, pending[1..], pending[0].children)
  {
  }

  lemma StillHeld(refs: Refs, more: seq<Task>, t: Task)
    requires t in refs.Held()
    ensures t in Refs(refs.gets + more, refs.puts).Held()
  {
  }

  /** The pending list once the given children were added to it. */
  ghost function Queued(bfs: bool, pending: seq<Task>, kids: seq<Task>): seq<Task> {
    if bfs then pending + kids else Reverse(kids) + pending
  }

  lemma QueuedNone(bfs: bool, pending: seq<Task>, kids: seq<Task>)
    ensures Queued(bfs, pending, kids[..0]) == pending
  {
  }

  lemma QueuedLength(bfs: bool, pending: seq<Task>, kids: seq<Task>)
    ensures |Queued(bfs, pending, kids)| == |pending| + |kids|
  {
    ReverseLength(kids);
  }

  lemma QueuedSnoc(bfs: bool, pending: seq<Task>, kids: seq<Task>, x: Task)
    ensures Queued(true, pending, kids + [x]) == Queued(true, pending, kids) + [x]
    ensures Queued(false, pending, kids + [x]) == [x] + Queued(false, pending, kids)
  {
    ReverseSnoc(kids, x);
  }
}
