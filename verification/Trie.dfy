/** The auto-numbering hash trie: a 4-ary tree searched by the top two bits of a hash that is
    shifted on the way down, where every new string gets the next number.

    Nodes live in an arena and a pointer is an arena position counted from 1, with 0 for null;
    a node's children are always allocated after it. The hash function is arbitrary. */
module Trie {
  import opened Bits
  import opened Texts

  const TWO62: nat := 0x4000_0000_0000_0000
  const U16_MAX: nat := 65535

  datatype Node = Node(child: seq<nat>, key: Text, value: nat)

  ghost predicate Linked(nodes: seq<Node>) {
    && (forall i :: 0 <= i < |nodes| ==> |nodes[i].child| == 4)
    && (forall i, c :: 0 <= i < |nodes| && 0 <= c < 4 ==>
                         nodes[i].child[c] == 0 || i + 1 < nodes[i].child[c] <= |nodes|)
  }

  function Shifted(hash: U64): U64 {
    (hash * 4) % TWO64
  }

  /** The pointer the search for `key` ends at: the node holding it, or null. */
  ghost function Descend(nodes: seq<Node>, p: nat, hash: U64, key: Text): nat
    requires Linked(nodes) && p <= |nodes|
    decreases if p == 0 then 0 else 1 + |nodes| - p
  {
    if p == 0 then 0
    else if nodes[p - 1].key == key then p
    else Descend(nodes, nodes[p - 1].child[hash / TWO62], Shifted(hash), key)
  }

  /** The null pointer the search for an absent key ends at: child `c` of node `q`, or the root
      pointer itself when `q` is 0. */
  ghost function Hole(nodes: seq<Node>, p: nat, hash: U64, key: Text, q: nat, c: nat): (nat, nat)
    requires Linked(nodes) && p <= |nodes|
    decreases if p == 0 then 0 else 1 + |nodes| - p
  {
    if p == 0 || nodes[p - 1].key == key then (q, c)
    else Hole(nodes, nodes[p - 1].child[hash / TWO62], Shifted(hash), key, p, hash / TWO62)
  }

  /** Preorder: a node, then its subtrees from child 0 to child 3. */
  ghost function Preorder(nodes: seq<Node>, p: nat): seq<nat>
    requires Linked(nodes) && p <= |nodes|
    decreases if p == 0 then 0 else 1 + |nodes| - p, 5
  {
    if p == 0 then [] else [p] + Subtrees(nodes, p, 0)
  }

  ghost function Subtrees(nodes: seq<Node>, p: nat, c: nat): seq<nat>
    requires Linked(nodes) && 1 <= p <= |nodes| && c <= 4
    decreases 1 + |nodes| - p, 4 - c
  {
    if c == 4 then [] else Preorder(nodes, nodes[p - 1].child[c]) + Subtrees(nodes, p, c + 1)
  }

  // ---------------------------------------------------------------- linking a new node

  /** `nodes2` is `nodes` with a new leaf, pointed to by the null child `c` of node `q` (no child
      points to it when `q` is 0). */
  ghost predicate Extends(nodes: seq<Node>, nodes2: seq<Node>, q: nat, c: nat) {
    && |nodes2| == |nodes| + 1 && Linked(nodes) && q <= |nodes| && c < 4
    && nodes2[|nodes|].child == [0, 0, 0, 0]
    && (q > 0 ==> nodes[q - 1].child[c] == 0)
    && forall i :: 0 <= i < |nodes| ==>
                     nodes2[i] == if i == q - 1 then nodes[i].(child := nodes[i].child[c := |nodes2|]) else nodes[i]
  }

  lemma ExtendsLinked(nodes: seq<Node>, nodes2: seq<Node>, q: nat, c: nat)
    requires Extends(nodes, nodes2, q, c)
    ensures Linked(nodes2)
  {
    forall i | 0 <= i < |nodes2| ensures |nodes2[i].child| == 4 {
      if i < |nodes| { assert |nodes[i].child| == 4; }
    }
    forall i, d | 0 <= i < |nodes2|
      && 0 <= d < 4 ensures nodes2[i].child[d] == 0 || i + 1 < nodes2[i].child[d] <= |nodes2| {
      if i < |nodes| { assert nodes[i].child[d] == 0 || i + 1 < nodes[i].child[d] <= |nodes|; }
    }
  }

  /** Strings already stored are found where they were. */
  lemma {:induction false} DescendKept(nodes: seq<Node>, nodes2: seq<Node>, q: nat, c: nat, p: nat, hash: U64,
                                       key: Text)
    requires Extends(nodes, nodes2, q, c) && Linked(nodes2) && p <= |nodes|
    requires Descend(nodes, p, hash, key) != 0
    ensures Descend(nodes2, p, hash, key) == Descend(nodes, p, hash, key)
    decreases if p == 0 then 0 else 1 + |nodes| - p
  {
    assert nodes2[p - 1].key == nodes[p - 1].key;
    if nodes[p - 1].key != key {
      DescendKept(nodes, nodes2, q, c, nodes[p - 1].child[hash / TWO62], Shifted(hash), key);
    }
  }

  /** The new string is found in the new node. */
  lemma {:induction false} DescendNew(nodes: seq<Node>, nodes2: seq<Node>, q: nat, c: nat, p: nat, hash: U64,
                                      key: Text, q0: nat, c0: nat)
    requires Extends(nodes, nodes2, q, c) && Linked(nodes2) && 1 <= p <= |nodes|
    requires Descend(nodes, p, hash, key) == 0 && Hole(nodes, p, hash, key, q0, c0) == (q, c)
    requires nodes2[|nodes|].key == key
    ensures p <= q && Descend(nodes2, p, hash, key) == |nodes2|
    decreases 1 + |nodes| - p
  {
    var d := hash / TWO62;
    var next := nodes[p - 1].child[d];
    if next == 0 {
      assert (q, c) == (p, d);
      assert nodes2[p - 1].child[d] == |nodes2|;
    } else {
      DescendNew(nodes, nodes2, q, c, next, Shifted(hash), key, p, d);
    }
  }

  lemma {:induction false} DescendHolds(nodes: seq<Node>, p: nat, hash: U64, key: Text)
    requires Linked(nodes) && p <= |nodes|
    ensures var r := Descend(nodes, p, hash, key); r <= |nodes| && (r > 0 ==> nodes[r - 1].key == key)
    decreases if p == 0 then 0 else 1 + |nodes| - p
  {
    if p != 0 && nodes[p - 1].key != key {
      DescendHolds(nodes, nodes[p - 1].child[hash / TWO62], Shifted(hash), key);
    }
  }

  // ---------------------------------------------------------------- the way to a node

  /** The child taken at depth `k`: two bits of the hash, from the top down; zero when they are used up. */
  function Digit(hash: U64, k: nat): (d: nat)
    ensures d < 4
  {
    if k < 32 then (hash / Pow2(62 - 2 * k)) % 4 else 0
  }

  lemma TopDigit(hash: U64)
    ensures hash / TWO62 == Digit(hash, 0)
  {
    assert Pow2(62) == TWO62 by { Pow2Values(); Pow2Add(30, 32); }
    DivMod(hash, TWO62, hash / TWO62, hash % TWO62);
  }

  /** Shifting drops the first digit. */
  lemma ShiftedDigit(hash: U64, k: nat)
    ensures Digit(Shifted(hash), k) == Digit(hash, k + 1)
  {
    var s := Shifted(hash);
    var q := hash * 4 / TWO64;
    assert hash * 4 == q * TWO64 + s;
    if k == 31 {
      assert Pow2(0) == 1;
      assert s == 4 * (hash - q * (TWO64 / 4));
      DivMod(s, 4, hash - q * (TWO64 / 4), 0);
    } else if k < 31 {
      ShiftedBits(hash, s, q, TWO64, 60 - 2 * k);
    }
  }

  lemma ShiftedBits(hash: nat, s: nat, q: nat, t: nat, m: nat)
    requires hash * 4 == q * t + s && m <= 60 && t == TWO64
    ensures (s / Pow2(m + 2)) % 4 == (hash / Pow2(m)) % 4
  {
    var d, w := Pow2(m), Pow2(60 - m);
    WordAsProduct(m);
    Quotient(hash, d);
    QuotientDigit(hash, s, q, d, w, t, hash / d, hash % d);
  }

  lemma WordAsProduct(m: nat)
    requires m <= 60
    ensures Pow2(m + 2) == 4 * Pow2(m) && TWO64 == 4 * Pow2(60 - m) * (4 * Pow2(m))
  {
    assert Pow2(m + 2) == 2 * Pow2(m + 1);
    assert Pow2(62 - m) == 2 * Pow2(61 - m);
    Pow2Add(62 - m, m + 2);
    Pow2Of64();
  }

  lemma Quotient(x: nat, d: nat)
    requires d > 0
    ensures x / d >= 0 && x == x / d * d + x % d
  {
  }

  lemma QuotientDigit(hash: nat, s: nat, q: nat, d: nat, w: nat, t: nat, u: nat, v: nat)
    requires d > 0 && hash == u * d + v && v < d && hash * 4 == q * t + s && t == 4 * w * (4 * d)
    ensures (s / (4 * d)) % 4 == u % 4
  {
    var x := q * (4 * w);
    MulAssoc(q, 4 * w, 4 * d);
    MulDist(u - x, x, 4 * d);
    assert s == (u - x) * (4 * d) + 4 * v;
    if u < x { MulMono(u - x, -1, 4 * d); }
    DivMod(s, 4 * d, u - x, 4 * v);
    assert x == 4 * (q * w);
    DivMod(u, 4, (u - x) / 4 + q * w, (u - x) % 4);
  }

  /** A chain of pointers from `p` on, each to the child the hash selects at its depth. */
  ghost predicate Follows(nodes: seq<Node>, hash: U64, path: seq<nat>)
    requires Linked(nodes)
  {
    && (forall k :: 0 <= k < |path| ==> 1 <= path[k] <= |nodes|)
    && forall k :: 0 <= k < |path| - 1 ==> path[k + 1] == nodes[path[k] - 1].child[Digit(hash, k)]
  }

  /** The search finds a node only at the end of such a chain, at any depth. */
  lemma {:induction false} FoundByDigits(nodes: seq<Node>, p: nat, hash: U64, key: Text) returns (path: seq<nat>)
    requires Linked(nodes) && p <= |nodes| && Descend(nodes, p, hash, key) != 0
    ensures Follows(nodes, hash, path) && path != []
    ensures path[0] == p && path[|path| - 1] == Descend(nodes, p, hash, key)
    ensures forall k :: 0 <= k < |path| - 1 ==> nodes[path[k] - 1].key != key
    ensures nodes[path[|path| - 1] - 1].key == key
    decreases 1 + |nodes| - p
  {
    if nodes[p - 1].key == key {
      path := [p];
    } else {
      TopDigit(hash);
      path := FoundByDigits(nodes, nodes[p - 1].child[hash / TWO62], Shifted(hash), key);
      FollowsFrom(nodes, p, hash, path);
      path := [p] + path;
    }
  }

  lemma FollowsFrom(nodes: seq<Node>, p: nat, hash: U64, rest: seq<nat>)
    requires Linked(nodes) && 1 <= p <= |nodes| && rest != [] && Follows(nodes, Shifted(hash), rest)
    requires rest[0] == nodes[p - 1].child[Digit(hash, 0)]
    ensures Follows(nodes, hash, [p] + rest)
  {
    var path := [p] + rest;
    forall k | 0 <= k < |path| - 1 ensures path[k + 1] == nodes[path[k] - 1].child[Digit(hash, k)] {
      if k > 0 {
        ShiftedDigit(hash, k - 1);
        assert rest[k] == nodes[rest[k - 1] - 1].child[Digit(Shifted(hash), k - 1)];
      }
    }
  }

  lemma SubtreesStep(nodes: seq<Node>, p: nat, c: nat)
    requires Linked(nodes) && 1 <= p <= |nodes| && c < 4
    ensures nodes[p - 1].child[c] <= |nodes|
    ensures Subtrees(nodes, p, c) == Preorder(nodes, nodes[p - 1].child[c]) + Subtrees(nodes, p, c + 1)
  {
  }

  lemma Concat(h: seq<nat>, a: seq<nat>, b: seq<nat>, c: seq<nat>, d: seq<nat>)
    ensures h + (a + (b + (c + (d + [])))) == h + a + b + c + d
  {
    assert d + [] == d;
    assert b + (c + d) == b + c + d;
    assert a + (b + c + d) == a + b + c + d;
  }

  /** A traversal gives a node and then the subtrees of its four children in order. */
  lemma PreorderIs(nodes: seq<Node>, p: nat, a: nat, b: nat, c: nat, d: nat)
    requires Linked(nodes) && 1 <= p <= |nodes| && nodes[p - 1].child == [a, b, c, d]
    ensures a <= |nodes| && b <= |nodes| && c <= |nodes| && d <= |nodes|
    ensures Preorder(nodes, p)
         == [p] + Preorder(nodes, a) + Preorder(nodes, b) + Preorder(nodes, c) + Preorder(nodes, d)
  {
    SubtreesStep(nodes, p, 0);
    SubtreesStep(nodes, p, 1);
    SubtreesStep(nodes, p, 2);
    SubtreesStep(nodes, p, 3);
    Concat([p], Preorder(nodes, a), Preorder(nodes, b), Preorder(nodes, c), Preorder(nodes, d));
  }

  /** How often `x` occurs. */
  ghost function Occurs(s: seq<nat>, x: nat): nat {
    multiset(s)[x]
  }

  lemma OccursAdd(a: seq<nat>, b: seq<nat>, x: nat)
    ensures Occurs(a + b, x) == Occurs(a, x) + Occurs(b, x)
  {
  }

  /** The new node occurs in a traversal as often as the node it was linked under. */
  lemma {:induction false} PreorderLinked(nodes: seq<Node>, nodes2: seq<Node>, q: nat, c: nat, p: nat, x: nat)
    requires Extends(nodes, nodes2, q, c) && Linked(nodes2) && p <= |nodes| && q > 0
    ensures Occurs(Preorder(nodes2, p), x)
            == Occurs(Preorder(nodes, p), x) + if x == |nodes2| then Occurs(Preorder(nodes, p), q) else 0
    decreases if p == 0 then 0 else 1 + |nodes| - p, 5
  {
    if p != 0 {
      SubtreesLinked(nodes, nodes2, q, c, p, 0, x);
      OccursAdd([p], Subtrees(nodes, p, 0), x);
      OccursAdd([p], Subtrees(nodes, p, 0), q);
      OccursAdd([p], Subtrees(nodes2, p, 0), x);
    }
  }

  /** How much more often `x` occurs below `p`, from child `d` on. */
  ghost function Extra(nodes: seq<Node>, nodes2: seq<Node>, q: nat, c: nat, p: nat, d: nat, x: nat): nat
    requires Linked(nodes) && 1 <= p <= |nodes| && d <= 4
  {
    if x == |nodes2| then Occurs(Subtrees(nodes, p, d), q) + (if p == q && d <= c then 1 else 0) else 0
  }

  lemma {:induction false} SubtreesLinked(nodes: seq<Node>, nodes2: seq<Node>, q: nat, c: nat, p: nat, d: nat, x: nat)
    requires Extends(nodes, nodes2, q, c) && Linked(nodes2) && 1 <= p <= |nodes| && q > 0 && d <= 4
    ensures Occurs(Subtrees(nodes2, p, d), x) == Occurs(Subtrees(nodes, p, d), x) + Extra(nodes, nodes2, q, c, p, d, x)
    decreases 1 + |nodes| - p, 4 - d
  {
    if d < 4 {
      SubtreesLinked(nodes, nodes2, q, c, p, d + 1, x);
      var y := nodes[p - 1].child[d];
      if !(p == q && d == c) { PreorderLinked(nodes, nodes2, q, c, y, x); }
      SubtreeLinked(nodes, nodes2, q, c, p, d, x, y);
    }
  }

  /** One more subtree, when the others are known. */
  lemma SubtreeLinked(nodes: seq<Node>, nodes2: seq<Node>, q: nat, c: nat, p: nat, d: nat, x: nat, y: nat)
    requires Extends(nodes, nodes2, q, c) && Linked(nodes2) && 1 <= p <= |nodes| && q > 0 && d < 4
    requires y == nodes[p - 1].child[d] <= |nodes|
    requires Occurs(Subtrees(nodes2, p, d + 1), x)
             == Occurs(Subtrees(nodes, p, d + 1), x) + Extra(nodes, nodes2, q, c, p, d + 1, x)
    requires !(p == q && d == c) ==>
               Occurs(Preorder(nodes2, y), x)
               == Occurs(Preorder(nodes, y), x) + if x == |nodes2| then Occurs(Preorder(nodes, y), q) else 0
    ensures Occurs(Subtrees(nodes2, p, d), x) == Occurs(Subtrees(nodes, p, d), x) + Extra(nodes, nodes2, q, c, p, d, x)
  {
    SubtreeSum(nodes, p, d, x);
    SubtreeSum(nodes, p, d, q);
    SubtreeSum(nodes2, p, d, x);
    ChildLinked(nodes, nodes2, q, c, p, d, x);
  }

  lemma SubtreeSum(nodes: seq<Node>, p: nat, d: nat, x: nat)
    requires Linked(nodes) && 1 <= p <= |nodes| && d < 4
    ensures nodes[p - 1].child[d] <= |nodes|
    ensures Occurs(Subtrees(nodes, p, d), x)
            == Occurs(Preorder(nodes, nodes[p - 1].child[d]), x) + Occurs(Subtrees(nodes, p, d + 1), x)
  {
    OccursAdd(Preorder(nodes, nodes[p - 1].child[d]), Subtrees(nodes, p, d + 1), x);
  }

  lemma ChildLinked(nodes: seq<Node>, nodes2: seq<Node>, q: nat, c: nat, p: nat, d: nat, x: nat)
    requires Extends(nodes, nodes2, q, c) && Linked(nodes2) && 1 <= p <= |nodes| && q > 0 && d < 4
    ensures nodes[p - 1].child[d] <= |nodes| && nodes2[p - 1].child[d] <= |nodes2|
    ensures !(p == q && d == c) ==> nodes2[p - 1].child[d] == nodes[p - 1].child[d]
    ensures p == q && d == c ==>
              Occurs(Preorder(nodes, nodes[p - 1].child[d]), x) == 0
                  == Occurs(Preorder(nodes, nodes[p - 1].child[d]), q)
    ensures p == q && d == c ==> Occurs(Preorder(nodes2, nodes2[p - 1].child[d]), x) == if x == |nodes2| then 1 else 0
  {
    if p == q && d == c {
      assert nodes2[p - 1].child[d] == |nodes2|;
      LeafPreorder(nodes2, |nodes2|);
      assert Preorder(nodes, 0) == [];
    }
  }

  lemma LeafPreorder(nodes: seq<Node>, p: nat)
    requires Linked(nodes) && 1 <= p <= |nodes| && nodes[p - 1].child == [0, 0, 0, 0]
    ensures Preorder(nodes, p) == [p]
  {
    assert Subtrees(nodes, p, 4) == [];
    assert Subtrees(nodes, p, 3) == [];
    assert Subtrees(nodes, p, 2) == [];
    assert Subtrees(nodes, p, 1) == [];
  }

  // ---------------------------------------------------------------- the trie as a map

  function Root(nodes: seq<Node>): nat {
    if nodes == [] then 0 else 1
  }

  ghost predicate Numbered(nodes: seq<Node>) {
    && (forall i :: 0 <= i < |nodes| ==> nodes[i].value == i + 1)
    && (forall i, j :: 0 <= i < j < |nodes| ==> nodes[i].key != nodes[j].key)
  }

  /** Where the search for a string ends. */
  ghost function Place(nodes: seq<Node>, hash: Text -> U64, key: Text): nat
    requires Linked(nodes)
  {
    Descend(nodes, Root(nodes), hash(key), key)
  }

  ghost predicate EachOnce(s: seq<nat>, n: nat) {
    forall x: nat :: Occurs(s, x) == if 1 <= x <= n then 1 else 0
  }

  ghost predicate Findable(nodes: seq<Node>, hash: Text -> U64)
    requires Linked(nodes)
  {
    forall i {:trigger Place(nodes, hash, nodes[i].key)} :: 0 <= i < |nodes| ==>
        Place(nodes, hash, nodes[i].key) == i + 1
  }

  /** A traversal from the root meets every node exactly once. */
  ghost predicate Complete(nodes: seq<Node>)
    requires Linked(nodes)
  {
    EachOnce(Preorder(nodes, Root(nodes)), |nodes|)
  }

  ghost predicate WellBuilt(nodes: seq<Node>, hash: Text -> U64) {
    Linked(nodes) && Numbered(nodes) && Findable(nodes, hash) && Complete(nodes)
  }

  /** The stored strings; the number of a string is its place in this list, counted from 1. */
  function Keys(nodes: seq<Node>): (r: seq<Text>)
    ensures |r| == |nodes|
  {
    seq(|nodes|, i requires 0 <= i < |nodes| => nodes[i].key)
  }

  /** The search decides membership and finds the number. */
  lemma SearchIsLookup(nodes: seq<Node>, hash: Text -> U64, key: Text)
    requires WellBuilt(nodes, hash)
    ensures var r := Place(nodes, hash, key);
            r <= |nodes| && (r == 0 <==> key !in Keys(nodes))
              && (r > 0 ==> Keys(nodes)[r - 1] == key && nodes[r - 1].value == r)
  {
    DescendHolds(nodes, Root(nodes), hash(key), key);
    Decide(nodes, hash, key, Place(nodes, hash, key));
  }

  lemma Decide(nodes: seq<Node>, hash: Text -> U64, key: Text, r: nat)
    requires Linked(nodes) && Numbered(nodes) && Findable(nodes, hash)
    requires r == Place(nodes, hash, key) && r <= |nodes| && (r > 0 ==> nodes[r - 1].key == key)
    ensures (r == 0 <==> key !in Keys(nodes)) && (r > 0 ==> Keys(nodes)[r - 1] == key && nodes[r - 1].value == r)
  {
    if r > 0 {
      assert Keys(nodes)[r - 1] == key;
    } else {
      forall i | 0 <= i < |nodes| ensures Keys(nodes)[i] != key {
        if nodes[i].key == key { assert false; }
      }
    }
  }

  /** Linking a node for an absent string where its search ended. */
  lemma InsertKeeps(nodes: seq<Node>, nodes2: seq<Node>, hash: Text -> U64, key: Text, q: nat, c: nat)
    requires WellBuilt(nodes, hash) && key !in Keys(nodes)
    requires Hole(nodes, Root(nodes), hash(key), key, 0, 0) == (q, c) && Extends(nodes, nodes2, q, c)
    requires nodes2[|nodes|].key == key && nodes2[|nodes|].value == |nodes2|
    ensures WellBuilt(nodes2, hash) && Keys(nodes2) == Keys(nodes) + [key]
  {
    ExtendsLinked(nodes, nodes2, q, c);
    SameKeys(nodes, nodes2, q, c, key);
    assert Numbered(nodes2) by { NumberedKept(nodes, nodes2, q, c, key); }
    assert Findable(nodes2, hash) by { FindableKept(nodes, nodes2, hash, key, q, c); }
    assert Complete(nodes2) by { NewFound(nodes, nodes2, hash, key, q, c); CompleteKept(nodes, nodes2, q, c); }
  }

  lemma SameKeys(nodes: seq<Node>, nodes2: seq<Node>, q: nat, c: nat, key: Text)
    requires Extends(nodes, nodes2, q, c) && nodes2[|nodes|].key == key
    ensures Keys(nodes2) == Keys(nodes) + [key]
    ensures forall i :: 0 <= i < |nodes| ==> nodes2[i].key == nodes[i].key && nodes2[i].value == nodes[i].value
  {
  }

  lemma NumberedKept(nodes: seq<Node>, nodes2: seq<Node>, q: nat, c: nat, key: Text)
    requires Extends(nodes, nodes2, q, c) && Numbered(nodes) && key !in Keys(nodes)
    requires nodes2[|nodes|].key == key && nodes2[|nodes|].value == |nodes2|
    ensures Numbered(nodes2)
  {
    SameKeys(nodes, nodes2, q, c, key);
    forall i | 0 <= i < |nodes| ensures nodes2[i].key != key { assert Keys(nodes)[i] == nodes[i].key; }
  }

  lemma FindableKept(nodes: seq<Node>, nodes2: seq<Node>, hash: Text -> U64, key: Text, q: nat, c: nat)
    requires WellBuilt(nodes, hash) && key !in Keys(nodes) && Linked(nodes2)
    requires Hole(nodes, Root(nodes), hash(key), key, 0, 0) == (q, c) && Extends(nodes, nodes2, q, c)
    requires nodes2[|nodes|].key == key
    ensures Findable(nodes2, hash)
  {
    NewFound(nodes, nodes2, hash, key, q, c);
    forall i {:trigger Place(nodes2, hash,
                             nodes2[i].key)} | 0 <= i < |nodes| ensures Place(nodes2, hash, nodes2[i].key) == i + 1 {
      OldFound(nodes, nodes2, hash, q, c, i);
    }
    AllFound(nodes2, hash, |nodes|);
  }

  lemma AllFound(nodes: seq<Node>, hash: Text -> U64, n: nat)
    requires Linked(nodes) && |nodes| == n + 1 && Place(nodes, hash, nodes[n].key) == n + 1
    requires forall i {:trigger Place(nodes, hash, nodes[i].key)} :: 0 <= i < n ==>
               Place(nodes, hash, nodes[i].key) == i + 1
    ensures Findable(nodes, hash)
  {
  }

  lemma OldFound(nodes: seq<Node>, nodes2: seq<Node>, hash: Text -> U64, q: nat, c: nat, i: nat)
    requires Linked(nodes) && Linked(nodes2) && Findable(nodes, hash) && Extends(nodes, nodes2, q, c) && i < |nodes|
    ensures Place(nodes2, hash, nodes2[i].key) == i + 1
  {
    assert nodes2[i].key == nodes[i].key;
    assert Place(nodes, hash, nodes[i].key) == i + 1;
    DescendKept(nodes, nodes2, q, c, 1, hash(nodes[i].key), nodes[i].key);
  }

  lemma NewFound(nodes: seq<Node>, nodes2: seq<Node>, hash: Text -> U64, key: Text, q: nat, c: nat)
    requires WellBuilt(nodes, hash) && key !in Keys(nodes) && Linked(nodes2)
    requires Hole(nodes, Root(nodes), hash(key), key, 0, 0) == (q, c) && Extends(nodes, nodes2, q, c)
    requires nodes2[|nodes|].key == key
    ensures Place(nodes2, hash, key) == |nodes2|
    ensures nodes != [] ==> q > 0
  {
    if nodes != [] {
      SearchIsLookup(nodes, hash, key);
      DescendNew(nodes, nodes2, q, c, 1, hash(key), key, 0, 0);
    }
  }

  lemma CompleteKept(nodes: seq<Node>, nodes2: seq<Node>, q: nat, c: nat)
    requires Linked(nodes) && Complete(nodes) && Linked(nodes2) && Extends(nodes, nodes2, q, c)
    requires nodes != [] ==> q > 0
    ensures Complete(nodes2)
  {
    var t, t2 := Preorder(nodes, Root(nodes)), Preorder(nodes2, Root(nodes2));
    forall x: nat ensures Occurs(t2, x) == if 1 <= x <= |nodes2| then 1 else 0 {
      if nodes == [] {
        LeafPreorder(nodes2, 1);
      } else {
        PreorderLinked(nodes, nodes2, q, c, 1, x);
        assert Occurs(t, q) == 1;
      }
    }
  }

  // ---------------------------------------------------------------- insertion and lookup

  datatype Insertion = Inserted(entryIndex: nat) | Present(entryIndex: nat) | Exhausted

  class AutoMap {
    const hash: Text -> U64
    var nodes: seq<Node>
    var node: nat
    var nodeCount: nat

    ghost predicate Valid()
      reads this
    {
      WellBuilt(nodes, hash) && node == Root(nodes) && nodeCount == |nodes| <= U16_MAX
    }

    constructor (hash: Text -> U64)
      ensures Valid() && this.hash == hash && Keys(nodes) == []
    {
      this.hash := hash;
      nodes := [];
      node := 0;
      nodeCount := 0;
    }

    /** The number of a string, or 0. */
    method Contains(key: Text) returns (r: nat)
      requires Valid()
      ensures r <= nodeCount && (r == 0 <==> key !in Keys(nodes))
      ensures r > 0 ==> Keys(nodes)[r - 1] == key
    {
      SearchIsLookup(nodes, hash, key);
      var current := node;
      var h: U64 := hash(key);
      while current != 0
        invariant current <= |nodes| && Descend(nodes, current, h, key) == Place(nodes, hash, key)
        decreases if current == 0 then 0 else 1 + |nodes| - current
      {
        if key == nodes[current - 1].key {
          return nodes[current - 1].value;
        }
        current := nodes[current - 1].child[h / TWO62];
        h := Shifted(h);
      }
      return 0;
    }

    /** The descent of insertion: the node with the key, or the null pointer met instead. */
    method Locate(key: Text) returns (current: nat, q: nat, c: nat)
      requires Valid()
      ensures current == Place(nodes, hash, key)
      ensures current == 0 ==> (q, c) == Hole(nodes, Root(nodes), hash(key), key, 0, 0) && q <= |nodes| && c < 4
      ensures current == 0 ==> (q == 0 <==> nodes == []) && (q > 0 ==> nodes[q - 1].child[c] == 0)
    {
      current, q, c := node, 0, 0;
      var h: U64 := hash(key);
      while current != 0
        invariant current <= |nodes| && q <= |nodes| && c < 4
        invariant Descend(nodes, current, h, key) == Place(nodes, hash, key)
        invariant Hole(nodes, current, h, key, q, c) == Hole(nodes, Root(nodes), hash(key), key, 0, 0)
        invariant if q == 0 then current == Root(nodes) else nodes[q - 1].child[c] == current
        decreases if current == 0 then 0 else 1 + |nodes| - current
      {
        if key == nodes[current - 1].key { return; }
        q, c := current, h / TWO62;
        current := nodes[current - 1].child[h / TWO62];
        h := Shifted(h);
      }
    }

    /** Stores a new string under the next number; a known one keeps its number. */
    method Insert(key: Text) returns (r: Insertion)
      requires Valid()
      modifies this
      ensures Valid()
      ensures r.Present? <==> key in old(Keys(nodes))
      ensures r.Exhausted? <==> key !in old(Keys(nodes)) && old(nodeCount) == U16_MAX
      ensures r.Present? ==> 1 <= r.entryIndex <= nodeCount && Keys(nodes)[r.entryIndex - 1] == key
      ensures r.Inserted? ==> r.entryIndex == nodeCount
      ensures Keys(nodes) == if r.Inserted? then old(Keys(nodes)) + [key] else old(Keys(nodes))
    {
      SearchIsLookup(nodes, hash, key);
      var current, q, c := Locate(key);
      if current != 0 {
        return Present(nodes[current - 1].value);
      }
      if nodeCount == U16_MAX {
        return Exhausted;
      }
      ghost var was := nodes;
      AddNode(key, q, c);
      InsertKeeps(was, nodes, hash, key, q, c);
      return Inserted(nodeCount);
    }

    /** Allocates the node and stores its address through the pointer the descent ended at. */
    method AddNode(key: Text, q: nat, c: nat)
      requires Linked(nodes) && q <= |nodes| && c < 4 && (q > 0 ==> nodes[q - 1].child[c] == 0)
      requires (q == 0 <==> nodes == []) && nodeCount == |nodes| && node == Root(nodes)
      modifies this
      ensures Extends(old(nodes), nodes, q, c) && node == Root(nodes) && nodeCount == |nodes|
      ensures nodes[|nodes| - 1].key == key && nodes[|nodes| - 1].value == |nodes|
    {
      var address := |nodes| + 1;
      nodes := nodes + [Node([0, 0, 0, 0], key, 0)];
      if q == 0 {
        node := address;
      } else {
        nodes := nodes[q - 1 := nodes[q - 1].(child := nodes[q - 1].child[c := address])];
      }
      nodeCount := nodeCount + 1;
      nodes := nodes[address - 1 := nodes[address - 1].(value := nodeCount)];
    }
  }

  // ---------------------------------------------------------------- over any insertion history

  /** What a history of insertions leaves: each string once, in the order of first insertion. */
  function Recorded(history: seq<Text>): seq<Text> {
    if history == [] then []
    else
      var before := Recorded(history[..|history| - 1]);
      var key := history[|history| - 1];
      if key in before then before else before + [key]
  }

  /** Numbers never change: what a longer history records starts with what the shorter one did. */
  lemma {:induction false} NumbersAreStable(history: seq<Text>, n: nat)
    requires n <= |history|
    ensures Recorded(history[..n]) <= Recorded(history)
  {
    if n == |history| {
      assert history[..n] == history;
    } else {
      var m := |history| - 1;
      NumbersAreStable(history[..m], n);
      assert history[..m][..n] == history[..n];
    }
  }

  /** A history records exactly its strings, each under one number. */
  lemma {:induction false} NumbersAreBijective(history: seq<Text>)
    ensures forall x :: x in Recorded(history) <==> x in history
    ensures forall i, j :: 0 <= i < j < |Recorded(history)| ==> Recorded(history)[i] != Recorded(history)[j]
  {
    if history != [] {
      var m := |history| - 1;
      NumbersAreBijective(history[..m]);
      assert history == history[..m] + [history[m]];
    }
  }

  /** Fills a map from scratch: within the number range it holds what the history records. */
  method InsertAll(hash: Text -> U64, history: seq<Text>) returns (m: AutoMap, full: bool)
    ensures m.Valid() && (full <==> |Recorded(history)| > U16_MAX)
    ensures !full ==> Keys(m.nodes) == Recorded(history)
  {
    m := new AutoMap(hash);
    full := false;
    var i := 0;
    while i < |history|
      invariant i <= |history| && m.Valid() && fresh(m) && m.hash == hash
      invariant Keys(m.nodes) == Recorded(history[..i])
    {
      assert history[..i + 1][..i] == history[..i];
      var r := m.Insert(history[i]);
      if r.Exhausted? {
        NumbersAreStable(history, i + 1);
        return m, true;
      }
      i := i + 1;
    }
    assert history[..i] == history;
  }
}
