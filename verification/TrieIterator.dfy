/** The trie iterator: a stack of iterator nodes with a free list, which hands out one trie node
    per call.

    Iterator nodes live in a pool and are linked by `next`; pointers are positions counted from
    1, with 0 for null. */
module TrieIterator {
  import opened Texts
  import opened Bits
  import opened Trie

  datatype IterNode = IterNode(next: nat, target: nat, index: nat)
  datatype Data = Data(key: Text, value: nat)

  function DataOf(node: Node): Data {
    Data(node.key, node.value)
  }

  // ---------------------------------------------------------------- linked lists in the pool

  ghost predicate IsList(pool: seq<IterNode>, p: nat, list: seq<nat>)
    decreases |list|
  {
    if list == [] then p == 0
    else 1 <= p <= |pool| && p == list[0] && IsList(pool, pool[p - 1].next, list[1..])
  }

  ghost predicate Distinct(list: seq<nat>) {
    forall i, j :: 0 <= i < j < |list| ==> list[i] != list[j]
  }

  /** `pool2` has the nodes of `list` as `pool` has them. */
  ghost predicate Same(pool: seq<IterNode>, pool2: seq<IterNode>, list: seq<nat>) {
    |pool| <= |pool2| && forall i :: 0 <= i < |list| && 1 <= list[i] <= |pool| ==>
        pool2[list[i] - 1] == pool[list[i] - 1]
  }

  // ---------------------------------------------------------------- what is left to visit

  /** The number of levels below and including a node. */
  ghost function Height(nodes: seq<Node>, p: nat): nat
    requires Linked(nodes) && p <= |nodes|
    decreases if p == 0 then 0 else 1 + |nodes| - p, 5
  {
    if p == 0 then 0 else 1 + HeightBelow(nodes, p, 0)
  }

  ghost function HeightBelow(nodes: seq<Node>, p: nat, c: nat): nat
    requires Linked(nodes) && 1 <= p <= |nodes| && c <= 4
    decreases 1 + |nodes| - p, 4 - c
  {
    if c == 4 then 0
    else
      var h, rest := Height(nodes, nodes[p - 1].child[c]), HeightBelow(nodes, p, c + 1);
      if h > rest then h else rest
  }

  ghost function Rest(nodes: seq<Node>, it: IterNode): seq<nat>
    requires Linked(nodes) && 1 <= it.target <= |nodes|
  {
    if it.index == 0 then Preorder(nodes, it.target)
    else if it.index <= 5 then Subtrees(nodes, it.target, it.index - 1)
    else []
  }

  /** Every stack entry is in range; only the top one may be unvisited; and the entries below a
      node leave room for its height. */
  ghost predicate Live(nodes: seq<Node>, pool: seq<IterNode>, stack: seq<nat>, limit: nat)
    requires Linked(nodes)
  {
    stack == [] ||
    (&& 1 <= stack[0] <= |pool|
     && 1 <= pool[stack[0] - 1].target <= |nodes| && pool[stack[0] - 1].index <= 6
     && |stack| - 1 + Height(nodes, pool[stack[0] - 1].target) <= limit
     && Live(nodes, pool, stack[1..], limit) && Started(pool, stack[1..]))
  }

  ghost predicate Started(pool: seq<IterNode>, stack: seq<nat>) {
    stack == [] || (1 <= stack[0] <= |pool| && 1 <= pool[stack[0] - 1].index <= 5)
  }

  ghost function Remaining(nodes: seq<Node>, pool: seq<IterNode>, stack: seq<nat>, limit: nat): seq<nat>
    requires Linked(nodes) && Live(nodes, pool, stack, limit)
  {
    if stack == [] then [] else Rest(nodes, pool[stack[0] - 1]) + Remaining(nodes, pool, stack[1..], limit)
  }

  /** Turns of the loop left before a node is returned or the stack is empty, at most. */
  ghost function Turns(pool: seq<IterNode>, stack: seq<nat>): nat {
    if stack == [] || !(1 <= stack[0] <= |pool|) || pool[stack[0] - 1].index > 6 then 0
    else 7 - pool[stack[0] - 1].index + Turns(pool, stack[1..])
  }

  /** The same, knowing that an unvisited top entry is handed out at once. */
  ghost function Work(pool: seq<IterNode>, stack: seq<nat>): nat {
    if stack != [] && 1 <= stack[0] <= |pool| && pool[stack[0] - 1].index == 0 then 0 else 1 + Turns(pool, stack)
  }

  lemma {:induction false} SameList(pool: seq<IterNode>, pool2: seq<IterNode>, p: nat, list: seq<nat>)
    requires IsList(pool, p, list) && Same(pool, pool2, list)
    ensures IsList(pool2, p, list)
    decreases |list|
  {
    if list != [] {
      assert pool2[list[0] - 1] == pool[list[0] - 1];
      SameTail(pool, pool2, list);
      SameList(pool, pool2, pool[p - 1].next, list[1..]);
    }
  }

  lemma SameTail(pool: seq<IterNode>, pool2: seq<IterNode>, list: seq<nat>)
    requires Same(pool, pool2, list) && list != []
    ensures Same(pool, pool2, list[1..])
  {
    forall i | 0 <= i < |list[1..]|
      && 1 <= list[1..][i] <= |pool| ensures pool2[list[1..][i] - 1] == pool[list[1..][i] - 1] {
      assert list[i + 1] == list[1..][i];
    }
  }

  lemma {:induction false} SameLive(nodes: seq<Node>, pool: seq<IterNode>, pool2: seq<IterNode>, stack: seq<nat>,
                                    limit: nat)
    requires Linked(nodes) && Live(nodes, pool, stack, limit) && Same(pool, pool2, stack)
    ensures Live(nodes, pool2, stack, limit)
            && Remaining(nodes, pool2, stack, limit) == Remaining(nodes, pool, stack, limit)
    ensures Turns(pool2, stack) == Turns(pool, stack) && (Started(pool, stack) <==> Started(pool2, stack))
  {
    if stack != [] {
      assert pool2[stack[0] - 1] == pool[stack[0] - 1];
      SameTail(pool, pool2, stack);
      SameLive(nodes, pool, pool2, stack[1..], limit);
    }
  }

  /** What the next index stands for: the node itself, or one subtree. */
  ghost function Taken(nodes: seq<Node>, it: IterNode): seq<nat>
    requires Linked(nodes) && 1 <= it.target <= |nodes|
  {
    if it.index == 0 then [it.target]
    else if it.index <= 4 then Preorder(nodes, nodes[it.target - 1].child[it.index - 1])
    else []
  }

  lemma RestCounts(nodes: seq<Node>, it: IterNode, it2: IterNode)
    requires Linked(nodes) && 1 <= it.target <= |nodes| && it.index <= 5 && it2 == it.(index := it.index + 1)
    ensures Rest(nodes, it) == Taken(nodes, it) + Rest(nodes, it2)
  {
  }

  lemma Assoc(a: seq<nat>, b: seq<nat>, c: seq<nat>)
    ensures (a + b) + c == a + (b + c)
  {
  }

  lemma RemainingTop(nodes: seq<Node>, pool: seq<IterNode>, stack: seq<nat>, limit: nat, it: IterNode)
    requires Linked(nodes) && Live(nodes, pool, stack, limit) && stack != [] && it == pool[stack[0] - 1]
    ensures Live(nodes, pool, stack[1..], limit)
    ensures Remaining(nodes, pool, stack, limit) == Rest(nodes, it) + Remaining(nodes, pool, stack[1..], limit)
    ensures Turns(pool, stack) == 7 - it.index + Turns(pool, stack[1..])
  {
  }

  lemma LiveTop(nodes: seq<Node>, pool: seq<IterNode>, stack: seq<nat>, limit: nat, it: IterNode)
    requires Linked(nodes) && stack != [] && 1 <= stack[0] <= |pool| && it == pool[stack[0] - 1]
    requires 1 <= it.target <= |nodes| && it.index <= 6 && |stack| - 1 + Height(nodes, it.target) <= limit
    requires Live(nodes, pool, stack[1..], limit) && Started(pool, stack[1..])
    ensures Live(nodes, pool, stack, limit)
    ensures Remaining(nodes, pool, stack, limit) == Rest(nodes, it) + Remaining(nodes, pool, stack[1..], limit)
    ensures Turns(pool, stack) == 7 - it.index + Turns(pool, stack[1..])
  {
  }

  /** Counting the index of the top entry up takes the next node, or the next subtree, out of
      what the stack stands for. */
  lemma CountUp(nodes: seq<Node>, pool: seq<IterNode>, pool2: seq<IterNode>, stack: seq<nat>, limit: nat, it: IterNode)
    requires Linked(nodes) && Live(nodes, pool, stack, limit) && stack != []
    requires it == pool[stack[0] - 1] && it.index <= 5
    requires |pool2| == |pool| && Same(pool, pool2, stack[1..]) && pool2[stack[0] - 1] == it.(index := it.index + 1)
    ensures Live(nodes, pool2, stack, limit) && (it.index <= 4 ==> Started(pool2, stack))
    ensures Turns(pool2, stack) == Turns(pool, stack) - 1
    ensures Remaining(nodes, pool, stack, limit) == Taken(nodes, it) + Remaining(nodes, pool2, stack, limit)
  {
    var it2 := it.(index := it.index + 1);
    RemainingTop(nodes, pool, stack, limit, it);
    SameLive(nodes, pool, pool2, stack[1..], limit);
    LiveTop(nodes, pool2, stack, limit, it2);
    RestCounts(nodes, it, it2);
    Assoc(Taken(nodes, it), Rest(nodes, it2), Remaining(nodes, pool, stack[1..], limit));
  }

  lemma ChildHeight(nodes: seq<Node>, p: nat, c: nat)
    requires Linked(nodes) && 1 <= p <= |nodes| && c < 4
    ensures nodes[p - 1].child[c] <= |nodes| && Height(nodes, nodes[p - 1].child[c]) < Height(nodes, p)
  {
    HeightAt(nodes, p, 0, c);
  }

  lemma {:induction false} HeightAt(nodes: seq<Node>, p: nat, d: nat, c: nat)
    requires Linked(nodes) && 1 <= p <= |nodes| && d <= c < 4
    ensures Height(nodes, nodes[p - 1].child[c]) <= HeightBelow(nodes, p, d)
    decreases c - d
  {
    if d < c { HeightAt(nodes, p, d + 1, c); }
  }

  /** Pushing an unvisited node puts its traversal in front. */
  lemma PushKeeps(nodes: seq<Node>, pool: seq<IterNode>, pool2: seq<IterNode>, stack: seq<nat>, limit: nat, x: nat,
                  p: nat)
    requires Linked(nodes) && Live(nodes, pool, stack, limit) && Started(pool, stack) && Same(pool, pool2, stack)
    requires 1 <= x <= |pool2| && pool2[x - 1].target == p && pool2[x - 1].index == 0 && 1 <= p <= |nodes|
    requires |stack| + Height(nodes, p) <= limit
    ensures Live(nodes, pool2, [x] + stack, limit)
    ensures Remaining(nodes, pool2, [x] + stack, limit) == Preorder(nodes, p) + Remaining(nodes, pool, stack, limit)
  {
    SameLive(nodes, pool, pool2, stack, limit);
    assert ([x] + stack)[1..] == stack;
    LiveTop(nodes, pool2, [x] + stack, limit, pool2[x - 1]);
  }

  lemma Apart(stack: seq<nat>, spare: seq<nat>, x: nat)
    requires Distinct(stack + spare) && stack != [] && x == stack[0]
    ensures x !in stack[1..] && x !in spare
    ensures Distinct(stack[1..] + ([x] + spare))
  {
    var all := stack + spare;
    forall i | 0 <= i < |stack[1..]| ensures stack[1..][i] != x { assert all[i + 1] == stack[1..][i]; assert all[0]
                                                                   == x; }
    forall i | 0 <= i < |spare| ensures spare[i] != x { assert all[|stack| + i] == spare[i]; assert all[0] == x; }
    var moved := stack[1..] + ([x] + spare);
    var n := |stack| - 1;
    forall i, j | 0 <= i < j < |moved| ensures moved[i] != moved[j] {
      assert moved[i] == all[if i < n then i + 1 else if i == n then 0 else i];
      assert moved[j] == all[if j < n then j + 1 else if j == n then 0 else j];
    }
  }

  lemma Reused(stack: seq<nat>, spare: seq<nat>, x: nat)
    requires Distinct(stack + spare) && spare != [] && x == spare[0]
    ensures x !in stack && x !in spare[1..]
    ensures Distinct(([x] + stack) + spare[1..])
  {
    var all := stack + spare;
    var n := |stack|;
    assert all[n] == x;
    forall i | 0 <= i < n ensures stack[i] != x { assert all[i] == stack[i]; }
    forall i | 0 <= i < |spare[1..]| ensures spare[1..][i] != x { assert all[n + 1 + i] == spare[1..][i]; }
    var moved := ([x] + stack) + spare[1..];
    forall i, j | 0 <= i < j < |moved| ensures moved[i] != moved[j] {
      assert moved[i] == all[if i == 0 then n else if i <= n then i - 1 else i];
      assert moved[j] == all[if j == 0 then n else if j <= n then j - 1 else j];
    }
  }

  lemma {:induction false} ListInRange(pool: seq<IterNode>, p: nat, list: seq<nat>)
    requires IsList(pool, p, list)
    ensures forall i :: 0 <= i < |list| ==> 1 <= list[i] <= |pool|
    decreases |list|
  {
    if list != [] {
      ListInRange(pool, pool[p - 1].next, list[1..]);
      forall i | 0 <= i < |list| ensures 1 <= list[i] <= |pool| {
        if i > 0 { assert list[i] == list[1..][i - 1]; }
      }
    }
  }

  lemma Added(pool: seq<IterNode>, p: nat, stack: seq<nat>, x: nat)
    requires IsList(pool, p, stack) && Distinct(stack) && x > |pool|
    ensures Distinct([x] + stack)
  {
    ListInRange(pool, p, stack);
  }

  lemma Recycled(pool: seq<IterNode>, pool2: seq<IterNode>, head: nat, free: nat, stack: seq<nat>, spare: seq<nat>,
                 child: nat)
    requires IsList(pool, head, stack) && IsList(pool, free, spare) && Distinct(stack + spare) && free != 0
    requires pool2 == pool[free - 1 := IterNode(head, child, 0)]
    ensures IsList(pool2, free, [free] + stack) && IsList(pool2, pool[free - 1].next, spare[1..])
    ensures Distinct(([free] + stack) + spare[1..]) && Same(pool, pool2, stack) && spare != []
  {
    Reused(stack, spare, free);
    SameList(pool, pool2, head, stack);
    SameList(pool, pool2, pool[free - 1].next, spare[1..]);
    assert ([free] + stack)[1..] == stack;
  }

  lemma Popped(pool: seq<IterNode>, pool2: seq<IterNode>, head: nat, free: nat, stack: seq<nat>, spare: seq<nat>)
    requires IsList(pool, head, stack) && IsList(pool, free, spare) && Distinct(stack + spare) && head != 0
    requires pool2 == pool[head - 1 := pool[head - 1].(next := free)]
    ensures stack != [] && IsList(pool2, pool[head - 1].next, stack[1..]) && IsList(pool2, head, [head] + spare)
    ensures Distinct(stack[1..] + ([head] + spare)) && Same(pool, pool2, stack[1..])
  {
    Apart(stack, spare, head);
    SameList(pool, pool2, pool[head - 1].next, stack[1..]);
    SameList(pool, pool2, free, spare);
    assert ([head] + spare)[1..] == spare;
  }

  class Iterator {
    const nodes: seq<Node>
    const root: nat
    /** The height of the trie. */
    ghost const limit: nat
    var pool: seq<IterNode>
    var head: nat
    var free: nat
    ghost var stack: seq<nat>
    ghost var spare: seq<nat>

    ghost predicate Valid()
      reads this
    {
      && Linked(nodes) && root <= |nodes|
      && IsList(pool, head, stack) && IsList(pool, free, spare)
      && Distinct(stack + spare) && |pool| == |stack| + |spare|
      && Live(nodes, pool, stack, limit) && |pool| <= limit && limit == Height(nodes, root)
    }

    /** The nodes still to be handed out, in order. */
    ghost function Left(): seq<nat>
      requires Valid()
      reads this
    {
      Remaining(nodes, pool, stack, limit)
    }

    ghost predicate Visited()
      requires Valid()
      reads this
    {
      Started(pool, stack)
    }

    constructor (nodes: seq<Node>, root: nat)
      requires Linked(nodes) && root <= |nodes|
      ensures Valid() && this.nodes == nodes && this.root == root && Left() == Preorder(nodes, root) && Open()
    {
      this.nodes := nodes;
      this.root := root;
      limit := Height(nodes, root);
      pool, head, free, stack, spare := [], 0, 0, [], [];
      if root != 0 {
        pool := [IterNode(0, root, 0)];
        head := 1;
        stack := [1];
      }
      new;
      if root != 0 {
        LiveTop(nodes, pool, [1], limit, pool[0]);
      }
    }

    /** `it->head->index++` */
    method Increment() returns (index: nat)
      requires Valid() && head != 0 && pool[head - 1].index <= 5
      modifies this`pool
      ensures Valid() && index == old(pool[head - 1].index) && (index <= 4 ==> Visited())
      ensures pool[head - 1] == old(pool[head - 1]).(index := index + 1) && 1 <= pool[head - 1].target <= |nodes|
      ensures old(Left()) == Taken(nodes, old(pool[head - 1])) + Left()
      ensures Turns(pool, stack) == old(Turns(pool, stack)) - 1
    {
      ghost var was := pool;
      index := pool[head - 1].index;
      Apart(stack, spare, head);
      pool := pool[head - 1 := pool[head - 1].(index := index + 1)];
      CountUp(nodes, was, pool, stack, limit, was[head - 1]);
      SameList(was, pool, was[head - 1].next, stack[1..]);
      SameList(was, pool, free, spare);
    }

    /** A finished stack entry goes to the free list. */
    method Pop()
      requires Valid() && head != 0 && pool[head - 1].index == 6
      modifies this
      ensures Valid() && Visited() && Left() == old(Left()) && Turns(pool, stack) < old(Turns(pool, stack))
    {
      ghost var was := pool;
      var dead := head;
      RemainingTop(nodes, was, stack, limit, was[dead - 1]);
      head := pool[dead - 1].next;
      pool := pool[dead - 1 := pool[dead - 1].(next := free)];
      free := dead;
      Popped(was, pool, dead, old(free), stack, spare);
      SameLive(nodes, was, pool, stack[1..], limit);
      stack, spare := stack[1..], [dead] + spare;
    }

    /** A recycled iterator node becomes the top of the stack. */
    method PushRecycled(child: nat)
      requires Valid() && Visited() && 1 <= child <= |nodes| && |stack| + Height(nodes, child) <= limit
      requires free != 0
      modifies this
      ensures Valid() && Left() == Preorder(nodes, child) + old(Left())
      ensures head != 0 && pool[head - 1].index == 0 && |pool| == old(|pool|)
    {
      ghost var was := pool;
      var nextIter := free;
      free := pool[free - 1].next;
      pool := pool[nextIter - 1 := IterNode(head, child, 0)];
      head := nextIter;
      Recycled(was, pool, old(head), nextIter, stack, spare, child);
      PushKeeps(nodes, was, pool, stack, limit, head, child);
      stack, spare := [head] + stack, spare[1..];
    }

    /** With no iterator node to recycle, a new one becomes the top of the stack. */
    method PushNew(child: nat)
      requires Valid() && Visited() && 1 <= child <= |nodes| && |stack| + Height(nodes, child) <= limit
      requires free == 0
      modifies this
      ensures Valid() && Left() == Preorder(nodes, child) + old(Left())
      ensures head != 0 && pool[head - 1].index == 0 && |pool| == old(|pool|) + 1
    {
      ghost var was := pool;
      pool := pool + [IterNode(head, child, 0)];
      head := |pool|;
      SameList(was, pool, pool[head - 1].next, stack);
      PushKeeps(nodes, was, pool, stack, limit, head, child);
      assert stack + spare == stack;
      Added(was, old(head), stack, head);
      assert ([head] + stack)[1..] == stack;
      stack := [head] + stack;
      assert spare == [] && stack + spare == stack;
    }

    /** The subtree under child `index - 1` of the top entry, if any, goes on the stack. */
    method PushChild(index: nat, child: nat)
      requires Valid() && Visited() && head != 0 && 1 <= index <= 4 && 1 <= pool[head - 1].target <= |nodes|
      requires child == nodes[pool[head - 1].target - 1].child[index - 1] && child != 0
      modifies this
      ensures Valid() && Left() == Preorder(nodes, child) + old(Left())
      ensures head != 0 && pool[head - 1].index == 0
    {
      ChildHeight(nodes, pool[head - 1].target, index - 1);
      if free != 0 { PushRecycled(child); } else { PushNew(child); }
    }

    method Explore(index: nat)
      requires Valid() && Visited() && head != 0 && 1 <= index <= 4 && 1 <= pool[head - 1].target <= |nodes|
      modifies this
      ensures Valid() && head != 0 && pool[head - 1].index <= 5
      ensures Left() == Preorder(nodes, nodes[old(pool[head - 1]).target - 1].child[index - 1]) + old(Left())
      ensures pool[head - 1].index == 0 || (pool == old(pool) && stack == old(stack))
    {
      var child := nodes[pool[head - 1].target - 1].child[index - 1];
      if child != 0 { PushChild(index, child); }
    }

    /** One turn of the loop: returns the node it hands out, or 0. */
    method Turn() returns (visited: nat)
      requires Valid() && head != 0 && Open()
      modifies this
      ensures Valid() && Open() && visited <= |nodes|
      ensures visited != 0 ==> old(Left()) == [visited] + Left()
      ensures visited == 0 ==> old(Left()) == Left() && Work(pool, stack) < old(Work(pool, stack))
    {
      ghost var it := pool[head - 1];
      var index := Increment();
      if index == 0 { return pool[head - 1].target; }
      Proceed(index, it);
      return 0;
    }

    /** The rest of a turn behind an entry that was visited before. */
    method Proceed(index: nat, ghost it: IterNode)
      requires Valid() && head != 0 && 1 <= index == it.index <= 5 && (index <= 4 ==> Visited())
      requires pool[head - 1] == it.(index := index + 1) && 1 <= it.target <= |nodes|
      modifies this
      ensures Valid() && Open() && Left() == Taken(nodes, it) + old(Left())
      ensures Work(pool, stack) <= 1 + old(Turns(pool, stack))
    {
      if index == 5 {
        Pop();
      } else {
        Explore(index);
      }
    }

    /** The next node's data, in preorder; the zero value when there is none. */
    method Next() returns (data: Data)
      requires Valid() && Open()
      modifies this
      ensures Valid() && Open()
      ensures old(Left()) == [] ==> Left() == [] && data == Data([], 0)
      ensures old(Left()) != [] ==>
                var p := old(Left())[0];
                1 <= p <= |nodes| && data == DataOf(nodes[p - 1]) && Left() == old(Left())[1..]
    {
      while head != 0
        invariant Valid() && Open() && Left() == old(Left())
        decreases Work(pool, stack)
      {
        var visited := Turn();
        if visited != 0 {
          assert old(Left()) == [visited] + Left();
          return DataOf(nodes[visited - 1]);
        }
      }
      return Data([], 0);
    }

    ghost predicate Pending(all: seq<nat>, n: nat)
      reads this
    {
      Valid() && Open() && Left() == if n <= |all| then all[n..] else []
    }

    /** No stack entry is used up between two turns. */
    ghost predicate Open()
      requires Valid()
      reads this
    {
      head != 0 ==> pool[head - 1].index <= 5
    }
  }

  ghost predicate Shows(nodes: seq<Node>, p: nat, data: Data) {
    1 <= p <= |nodes| && data == DataOf(nodes[p - 1])
  }

  /** `out` holds the data of the first nodes of `all`. */
  ghost predicate Matches(nodes: seq<Node>, all: seq<nat>, out: seq<Data>) {
    |out| <= |all| && forall i :: 0 <= i < |out| ==> Shows(nodes, all[i], out[i])
  }

  /** `FOR_EACH_TRIE_STRING_AUTO_U16`: iterates until a value of 0. */
  method ForEach(nodes: seq<Node>, hash: Text -> U64) returns (out: seq<Data>)
    requires WellBuilt(nodes, hash)
    ensures |out| == |Preorder(nodes, Root(nodes))| && Matches(nodes, Preorder(nodes, Root(nodes)), out)
  {
    var it := new Iterator(nodes, Root(nodes));
    out := Drain(it, it.Left());
  }

  ghost predicate Positive(nodes: seq<Node>) {
    forall i :: 0 <= i < |nodes| ==> nodes[i].value > 0
  }

  /** `element` is the data of node `n` of `all`, or the zero value after the last. */
  ghost predicate Fetched(nodes: seq<Node>, all: seq<nat>, n: nat, element: Data) {
    if n < |all| then Shows(nodes, all[n], element) && element.value != 0 else element.value == 0
  }

  lemma MatchesAdd(nodes: seq<Node>, all: seq<nat>, out: seq<Data>, element: Data)
    requires Matches(nodes, all, out) && Fetched(nodes, all, |out|, element) && element.value != 0
    ensures |out| < |all| && Matches(nodes, all, out + [element])
  {
  }

  method Drain(it: Iterator, ghost all: seq<nat>) returns (out: seq<Data>)
    requires it.Valid() && it.Open() && it.Left() == all && Positive(it.nodes)
    modifies it
    ensures |out| == |all| && Matches(it.nodes, all, out)
  {
    out := [];
    assert it.Pending(all, 0);
    var element := Fetch(it, all, 0);
    while element.value != 0
      invariant Draining(it, all, out, element)
      decreases |all| - |out|
    {
      out, element := Emit(it, all, out, element);
    }
  }

  ghost predicate Draining(it: Iterator, all: seq<nat>, out: seq<Data>, element: Data)
    reads it
  {
    Matches(it.nodes, all, out) && it.Pending(all, |out| + 1) && Fetched(it.nodes, all, |out|, element)
  }

  /** One turn of the loop macro. */
  method Emit(it: Iterator, ghost all: seq<nat>, was: seq<Data>, element: Data) returns (out: seq<Data>, next: Data)
    requires Draining(it, all, was, element) && element.value != 0 && Positive(it.nodes)
    modifies it
    ensures Draining(it, all, out, next) && |was| < |all| && out == was + [element]
  {
    MatchesAdd(it.nodes, all, was, element);
    out := was + [element];
    next := Fetch(it, all, |out|);
  }

  method Fetch(it: Iterator, ghost all: seq<nat>, ghost n: nat) returns (element: Data)
    requires it.Pending(all, n) && Positive(it.nodes)
    modifies it
    ensures it.Pending(all, n + 1) && Fetched(it.nodes, all, n, element)
  {
    element := it.Next();
  }
}
