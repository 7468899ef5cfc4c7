/** The open-addressed string set: a table of 2^exp slots searched by double hashing, in which a
    string of length zero marks an empty slot.

    Everything is proved for an arbitrary hash function, so for the one the sources use as
    well. */
module StringSet {
  import opened Bits
  import opened Texts


  // ---------------------------------------------------------------- the probe step

  function ShiftRight(v: nat, k: nat): nat {
    if k == 0 then v else ShiftRight(v / 2, k - 1)
  }

  function Stride(hash: U64, exp: nat): nat
    requires 1 <= exp <= 31
  {
    Or(ShiftRight(hash, 64 - exp), 1)
  }

  /** `indexLookup`, on 32-bit words. */
  function IndexLookup(hash: U64, exp: nat, idx: nat): nat
    requires 1 <= exp <= 31
  {
    And((idx + Stride(hash, exp) % TWO32) % TWO32, Pow2(exp) - 1)
  }

  lemma OrOne(x: nat)
    ensures Or(x, 1) % 2 == 1 && Or(x, 1) / 2 == x / 2
  {
    if x != 0 { assert Or(x, 1) == 2 * Or(x / 2, 0) + 1; }
  }

  lemma {:induction false} ShiftRightIs(v: nat, k: nat)
    ensures ShiftRight(v, k) == v / Pow2(k)
    decreases k
  {
    if k > 0 {
      ShiftRightIs(v / 2, k - 1);
      QuotientOfHalf(v, v / 2, Pow2(k - 1));
    }
  }

  lemma QuotientOfHalf(v: nat, half: nat, d: nat)
    requires d > 0 && half == v / 2
    ensures v / (2 * d) == half / d
  {
    QuotientOfDouble(v, half, d, half / d, half % d);
  }

  lemma QuotientOfDouble(v: nat, half: nat, d: nat, q: nat, r: nat)
    requires d > 0 && half == v / 2 && half == q * d + r && r < d
    ensures v / (2 * d) == q
  {
    MulAssoc(q, 2, d);
    DivMod(v, 2 * d, q, 2 * r + v % 2);
  }

  /** The step is the top bits of the hash, as many as the table size has, with the lowest one set. */
  lemma StrideIsOdd(hash: U64, exp: nat)
    requires 1 <= exp <= 31
    ensures Stride(hash, exp) % 2 == 1 && Stride(hash, exp) / 2 == hash / Pow2(64 - exp) / 2
  {
    ShiftRightIs(hash, 64 - exp);
    OrOne(ShiftRight(hash, 64 - exp));
  }

  lemma ModOfMod(x: nat, a: nat, b: nat)
    requires a > 0 && b > 0 && a * b > 0
    ensures (x % (a * b)) % a == x % a
  {
    var n := a * b;
    ModOfMultiple(x, a, b, n, x / n, x % n);
  }

  lemma ModOfMultiple(x: nat, a: nat, b: nat, n: nat, q: nat, r: nat)
    requires a > 0 && n == a * b && x == q * n + r
    ensures x % a == r % a
  {
    var u, v := r / a, r % a;
    assert r == u * a + v;
    assert q * n == (q * b) * a by { MulAssoc(q, b, a); }
    MulDist(q * b, u, a);
    DivMod(x, a, q * b + u, v);
  }

  lemma ModTwo32(x: nat, exp: nat)
    requires exp <= 32
    ensures (x % TWO32) % Pow2(exp) == x % Pow2(exp)
  {
    Pow2Add(exp, 32 - exp);
    Pow2Values();
    ModOfMod(x, Pow2(exp), Pow2(32 - exp));
  }

  lemma WrappedStep(idx: nat, s: nat)
    ensures (idx + s % TWO32) % TWO32 == (idx + s) % TWO32
  {
  }

  /** The step adds a fixed odd number modulo the size of the table. */
  lemma LookupAddsStride(hash: U64, exp: nat, idx: nat)
    requires 1 <= exp <= 31
    ensures IndexLookup(hash, exp, idx) == (idx + Stride(hash, exp)) % Pow2(exp)
  {
    var s := Stride(hash, exp);
    AndMask((idx + s % TWO32) % TWO32, exp);
    ModTwo32(idx + s % TWO32, exp);
    WrappedStep(idx, s);
    ModTwo32(idx + s, exp);
  }

  /** The slot looked at in turn `k`. */
  function Slot(hash: U64, exp: nat, k: nat): (r: nat)
    requires 1 <= exp <= 31
    ensures r < Pow2(exp)
  {
    (hash + k * Stride(hash, exp)) % Pow2(exp)
  }

  lemma AddMod(a: nat, b: nat, m: nat)
    requires m > 0
    ensures (a % m + b) % m == (a + b) % m
  {
    var q, r := a / m, a % m;
    var u, v := (r + b) / m, (r + b) % m;
    assert a == q * m + r;
    assert r + b == u * m + v;
    MulDist(q, u, m);
    DivMod(a + b, m, q + u, v);
  }

  /** Turn by turn the index register runs through the slots. */
  lemma FirstSlot(hash: U64, exp: nat)
    requires 1 <= exp <= 31
    ensures IndexLookup(hash, exp, hash % TWO32) == Slot(hash, exp, 1)
  {
    ModTwo32(hash, exp);
    FirstSlotFrom(hash, exp, hash % TWO32);
  }

  lemma FirstSlotFrom(hash: U64, exp: nat, low: nat)
    requires 1 <= exp <= 31 && low % Pow2(exp) == hash % Pow2(exp)
    ensures IndexLookup(hash, exp, low) == Slot(hash, exp, 1)
  {
    LookupAddsStride(hash, exp, low);
    SameResidue(low, hash, Stride(hash, exp), Pow2(exp));
  }

  lemma SameResidue(a: nat, b: nat, s: nat, m: nat)
    requires m > 0 && a % m == b % m
    ensures (a + s) % m == (b + 1 * s) % m
  {
    AddMod(a, s, m);
    AddMod(b, s, m);
  }

  lemma NextSlot(hash: U64, exp: nat, k: nat)
    requires 1 <= exp <= 31
    ensures IndexLookup(hash, exp, Slot(hash, exp, k)) == Slot(hash, exp, k + 1)
  {
    var s := Stride(hash, exp);
    LookupAddsStride(hash, exp, Slot(hash, exp, k));
    MulDist(k, 1, s);
    assert (k + 1) * s == k * s + s;
    AddMod(hash + k * s, s, Pow2(exp));
  }

  // ---------------------------------------------------------------- the probe reaches every slot

  lemma Halves(q: nat, m: nat)
    ensures q * m == (q / 2) * (2 * m) + (q % 2) * m
  {
    var c := q / 2;
    MulDist(2 * c, q % 2, m);
    MulAssoc(c, 2, m);
  }

  lemma LiftResidue(m: nat, s: nat, k: nat, t: nat)
    requires m > 0 && s % 2 == 1 && t < 2 * m && (k * s) % m == t % m
    ensures (k * s) % (2 * m) == t || ((k + m) * s) % (2 * m) == t
  {
    var x, q, r := k * s, (k * s) / m, (k * s) % m;
    assert x == q * m + r;
    Halves(q, m);
    var c, h, d := q / 2, s / 2, 2 * m;
    assert (k + m) * s == x + s * m by { MulDist(k, m, s); }
    Halves(s, m);
    MulDist(c, h, d);
    MulDist(c + h, 1, d);
    Lifted(m, d, c, h, q % 2, r, x, x + s * m, t);
  }

  lemma Lifted(m: nat, d: nat, c: nat, h: nat, e: nat, r: nat, x: nat, y: nat, t: nat)
    requires m > 0 && d == 2 * m && e < 2 && r < m && t < d && r == t % m
    requires x == c * d + e * m + r && y == x + h * d + m
    requires (c + h) * d == c * d + h * d && (c + h + 1) * d == (c + h) * d + d
    ensures x % d == t || y % d == t
  {
    if t < m { DivMod(t, m, 0, t); } else { DivMod(t, m, 1, t - m); }
    if e == 0 {
      DivMod(x, d, c, r);
      DivMod(y, d, c + h, m + r);
    } else {
      DivMod(x, d, c, m + r);
      DivMod(y, d, c + h + 1, r);
    }
  }

  /** An odd number is invertible modulo a power of two. */
  lemma {:induction false} OddStride(exp: nat, s: nat, t: nat) returns (k: nat)
    requires s % 2 == 1 && t < Pow2(exp)
    ensures k < Pow2(exp) && (k * s) % Pow2(exp) == t
  {
    if exp == 0 { return 0; }
    var m := Pow2(exp - 1);
    k := OddStride(exp - 1, s, t % m);
    LiftResidue(m, s, k, t);
    if (k * s) % (2 * m) != t { k := k + m; }
  }

  /** Within 2^exp turns the probe looks at every slot of the table. */
  lemma ProbeReaches(hash: U64, exp: nat, t: nat) returns (k: nat)
    requires 1 <= exp <= 31 && t < Pow2(exp)
    ensures 1 <= k <= Pow2(exp) && Slot(hash, exp, k) == t
  {
    var m, s := Pow2(exp), Stride(hash, exp);
    StrideIsOdd(hash, exp);
    var start := (hash + s) % m;
    var j := OddStride(exp, s, (t + m - start) % m);
    k := j + 1;
    MulDist(j, 1, s);
    AddMod(hash + s, j * s, m);
    AddMod(j * s, start, m);
    AddMod(t + m - start, start, m);
    AddMod(m, t, m);
    DivMod(m, m, 1, 0);
    DivMod(t, m, 0, t);
  }

  // ---------------------------------------------------------------- what the table stands for

  function Elements(buf: seq<Text>): (r: set<Text>) {
    set j | 0 <= j < |buf| && buf[j] != [] :: buf[j]
  }

  /** The set after an insertion; the empty string is no element. */
  ghost predicate Added(before: set<Text>, key: Text, after: set<Text>) {
    after == if key == [] then before else before + {key}
  }

  ghost predicate Room(buf: seq<Text>) {
    exists j :: 0 <= j < |buf| && buf[j] == []
  }

  /** No empty slot is met before turn `k`. */
  ghost predicate Busy(buf: seq<Text>, probe: (Text, nat) -> nat, key: Text, k: nat) {
    forall i: nat :: 1 <= i < k ==> probe(key, i) < |buf| && buf[probe(key, i)] != []
  }

  ghost predicate Unseen(buf: seq<Text>, probe: (Text, nat) -> nat, key: Text, k: nat) {
    forall i: nat :: 1 <= i < k ==> probe(key, i) < |buf| && buf[probe(key, i)] != key
  }

  ghost predicate FoundAt(buf: seq<Text>, probe: (Text, nat) -> nat, key: Text, j: nat, k: nat) {
    1 <= k && probe(key, k) == j && Busy(buf, probe, key, k)
  }

  /** Every string lies where its own probe gets to before an empty slot, and only once. */
  ghost predicate Placed(buf: seq<Text>, probe: (Text, nat) -> nat) {
    && (forall j :: 0 <= j < |buf| && buf[j] != [] ==> exists k: nat :: FoundAt(buf, probe, buf[j], j, k))
    && (forall i, j :: 0 <= i < j < |buf| && buf[i] != [] ==> buf[i] != buf[j])
  }

  /** A probe that meets an empty slot first proves the string absent. */
  lemma EmptySlotMeansAbsent(buf: seq<Text>, probe: (Text, nat) -> nat, key: Text, k: nat)
    requires Placed(buf, probe) && 1 <= k && Unseen(buf, probe, key, k)
    requires probe(key, k) < |buf| && buf[probe(key, k)] == []
    ensures key !in Elements(buf)
  {
    if key in Elements(buf) {
      var j :| 0 <= j < |buf| && buf[j] != [] && buf[j] == key;
      var n: nat :| FoundAt(buf, probe, key, j, n);
      assert false;
    }
  }

  /** Writing an absent string into the first empty slot of its probe keeps the table in order. */
  lemma InsertKeeps(buf: seq<Text>, probe: (Text, nat) -> nat, key: Text, k: nat, buf2: seq<Text>)
    requires Placed(buf, probe) && 1 <= k && Busy(buf, probe, key, k) && key !in Elements(buf)
    requires probe(key, k) < |buf| && buf[probe(key, k)] == [] && buf2 == buf[probe(key, k) := key]
    ensures Placed(buf2, probe) && Added(Elements(buf), key, Elements(buf2))
  {
    var at := probe(key, k);
    forall j | 0 <= j < |buf2| && buf2[j] != [] ensures exists n: nat :: FoundAt(buf2, probe, buf2[j], j, n) {
      var n: nat;
      if j == at { n := k; } else { n :| FoundAt(buf, probe, buf[j], j, n); }
      BusyGrows(buf, probe, buf2[j], n, at, key);
      assert FoundAt(buf2, probe, buf2[j], j, n);
    }
    forall x | x in Elements(buf) ensures x in Elements(buf2) {
      var j :| 0 <= j < |buf| && buf[j] != [] && buf[j] == x;
      assert buf2[j] == x;
    }
    if key != [] { assert buf2[at] == key; }
  }

  lemma ElementAt(buf: seq<Text>, i: nat)
    requires i < |buf| && buf[i] != []
    ensures buf[i] in Elements(buf) && Added(Elements(buf), buf[i], Elements(buf))
  {
  }

  lemma {:induction false} FewElements(buf: seq<Text>)
    ensures |Elements(buf)| <= |buf|
  {
    if buf != [] {
      var n := |buf| - 1;
      FewElements(buf[..n]);
      assert Elements(buf) <= Elements(buf[..n]) + {buf[n]};
      SubsetCard(Elements(buf), Elements(buf[..n]) + {buf[n]});
    }
  }

  lemma {:induction false} SubsetCard(a: set<Text>, b: set<Text>)
    requires a <= b
    ensures |a| <= |b|
    decreases |a|
  {
    if a != {} {
      var x :| x in a;
      SubsetCard(a - {x}, b - {x});
    }
  }

  lemma CountBound(buf: seq<Text>, exp: nat)
    requires exp <= 31 && |buf| == Pow2(exp)
    ensures |Elements(buf)| + 1 < TWO64
  {
    FewElements(buf);
    Pow2Mono(exp, 31);
    Pow2Values();
    assert Pow2(31) <= Pow2(32);
  }

  /** `++` on a 64-bit word. */
  function Increment64(x: nat): (r: nat)
    ensures r < TWO64
  {
    (x + 1) % TWO64
  }

  /** Only an empty string throws the count off. */
  lemma CountAfter(before: set<Text>, key: Text, len: nat, len2: nat, after: set<Text>)
    requires key !in before && Added(before, key, after)
    requires len2 == Increment64(len)
    ensures len == |before| && len + 1 < TWO64 ==> (len2 == |after| <==> key != [])
  {
  }

  lemma BusyGrows(buf: seq<Text>, probe: (Text, nat) -> nat, x: Text, n: nat, at: nat, key: Text)
    requires Busy(buf, probe, x, n) && at < |buf| && buf[at] == []
    ensures Busy(buf[at := key], probe, x, n)
  {
    forall i: nat | 1 <= i < n ensures probe(x, i) < |buf| && buf[at := key][probe(x, i)] != [] {
      assert buf[probe(x, i)] != [];
    }
  }

  ghost predicate Stops(buf: seq<Text>, probe: (Text, nat) -> nat, key: Text, k: nat) {
    probe(key, k) < |buf| && (buf[probe(key, k)] == [] || buf[probe(key, k)] == key)
  }

  /** A probe cannot run on for ever when a slot is empty or the string is there. */
  lemma ProbeStops(buf: seq<Text>, hash: Text -> U64, exp: nat, probe: (Text, nat) -> nat,
                   key: Text) returns (stop: nat)
    requires 1 <= exp <= 31 && |buf| == Pow2(exp) && Placed(buf, probe)
    requires forall x, k: nat :: probe(x, k) == Slot(hash(x), exp, k)
    requires Room(buf) || key in Elements(buf)
    ensures 1 <= stop && Stops(buf, probe, key, stop)
  {
    if Room(buf) {
      var j :| 0 <= j < |buf| && buf[j] == [];
      stop := ProbeReaches(hash(key), exp, j);
    } else {
      var j :| 0 <= j < |buf| && buf[j] != [] && buf[j] == key;
      stop :| FoundAt(buf, probe, key, j, stop);
    }
  }

  datatype Comparison = DifferentSizes | DifferentContent | Success

  class Table {
    const hash: Text -> U64
    const exp: nat
    const buf: array<Text>
    var len: nat

    ghost function Probe(): (Text, nat) -> nat
      requires 1 <= exp <= 31
    {
      (key: Text, k: nat) => Slot(hash(key), exp, k)
    }

    ghost predicate Valid()
      reads this, buf
    {
      1 <= exp <= 31 && buf.Length == Pow2(exp) && len < TWO64 && Placed(buf[..], Probe())
    }

    ghost function Contents(): set<Text>
      reads this, buf
    {
      Elements(buf[..])
    }

    /** The count is right. */
    ghost predicate Counted()
      reads this, buf
    {
      len == |Contents()|
    }

    constructor (hash: Text -> U64, exp: nat)
      requires 1 <= exp <= 31
      ensures Valid() && Counted() && Contents() == {} && this.hash == hash && this.exp == exp && fresh(buf)
      ensures Room(buf[..])
    {
      this.hash := hash;
      this.exp := exp;
      buf := new Text[Pow2(exp)](_ => []);
      len := 0;
      new;
      assert buf[..][0] == [];
    }

    /** The probe loop: stops at the string or at the first empty slot on its way. */
    method Search(key: Text, h: U64) returns (i: nat, ghost turn: nat)
      requires Valid() && h == hash(key)
      requires Room(buf[..]) || key in Contents()
      ensures i < buf.Length && 1 <= turn && i == Probe()(key, turn)
      ensures Busy(buf[..], Probe(), key, turn) && Unseen(buf[..], Probe(), key, turn)
      ensures buf[i] == [] || buf[i] == key
    {
      ghost var stop := ProbeStops(buf[..], hash, exp, Probe(), key);
      i, turn := Seek(key, h, stop);
    }

    /** The loop itself, for a turn at which it is known to stop. */
    method Seek(key: Text, h: U64, ghost stop: nat) returns (i: nat, ghost turn: nat)
      requires 1 <= exp <= 31 && buf.Length == Pow2(exp) && h == hash(key)
      requires 1 <= stop && Stops(buf[..], Probe(), key, stop)
      ensures i < buf.Length && 1 <= turn && i == Probe()(key, turn)
      ensures Busy(buf[..], Probe(), key, turn) && Unseen(buf[..], Probe(), key, turn)
      ensures buf[i] == [] || buf[i] == key
    {
      FirstSlot(h, exp);
      i := IndexLookup(h, exp, h % TWO32);
      turn := 1;
      while buf[i] != [] && buf[i] != key
        invariant 1 <= turn <= stop && i == Probe()(key, turn) && i < buf.Length
        invariant Busy(buf[..], Probe(), key, turn) && Unseen(buf[..], Probe(), key, turn)
        decreases stop - turn
      {
        i := Turn(key, h, i, turn);
        turn := turn + 1;
      }
    }

    /** One turn of the probe. */
    method Turn(key: Text, h: U64, i: nat, ghost turn: nat) returns (j: nat)
      requires 1 <= exp <= 31 && buf.Length == Pow2(exp) && h == hash(key) && i == Probe()(key, turn)
      ensures j == Probe()(key, turn + 1) && j < buf.Length
    {
      NextSlot(h, exp, turn);
      j := IndexLookup(h, exp, i);
    }

    /** Membership, as in a set. */
    method Contains(key: Text, h: U64) returns (r: bool)
      requires Valid() && h == hash(key)
      requires Room(buf[..]) || key in Contents()
      ensures r <==> key in Contents()
    {
      var i;
      ghost var turn;
      i, turn := Search(key, h);
      if buf[i] == [] {
        EmptySlotMeansAbsent(buf[..], Probe(), key, turn);
        return false;
      }
      return true;
    }

    /** Writes an absent string into the first empty slot of its probe. */
    method Store(i: nat, key: Text, ghost turn: nat)
      requires Valid() && i < buf.Length && buf[i] == [] && key !in Contents()
      requires 1 <= turn && i == Probe()(key, turn) && Busy(buf[..], Probe(), key, turn)
      modifies buf
      ensures Valid()
      ensures Added(old(Contents()), key, Contents())
    {
      ghost var was := buf[..];
      buf[i] := key;
      InsertKeeps(was, Probe(), key, turn, buf[..]);
    }

    /** The same, and counts it. */
    method StoreNew(i: nat, key: Text, ghost turn: nat)
      requires Valid() && i < buf.Length && buf[i] == [] && key !in Contents()
      requires 1 <= turn && i == Probe()(key, turn) && Busy(buf[..], Probe(), key, turn)
      modifies this`len, buf
      ensures Valid() && Added(old(Contents()), key, Contents()) && len == Increment64(old(len))
      ensures old(Counted()) ==> (Counted() <==> key != [])
    {
      ghost var before := Contents();
      CountBound(buf[..], exp);
      len := Increment64(len);
      Store(i, key, turn);
      CountAfter(before, key, old(len), len, Contents());
    }

    /** Insertion, as in a set. */
    method Insert(key: Text, h: U64) returns (r: bool)
      requires Valid() && h == hash(key)
      requires Room(buf[..]) || key in Contents()
      modifies this`len, buf
      ensures Valid()
      ensures r <==> key !in old(Contents())
      ensures Added(old(Contents()), key, Contents())
      ensures len == if r then Increment64(old(len)) else old(len)
      ensures r && old(Counted()) ==> (Counted() <==> key != [])
    {
      var i;
      ghost var turn;
      i, turn := Search(key, h);
      if buf[i] == [] {
        EmptySlotMeansAbsent(buf[..], Probe(), key, turn);
        StoreNew(i, key, turn);
        return true;
      }
      ElementAt(buf[..], i);
      return false;
    }
  }

  /** Inserted into an empty set, the empty string is counted and not stored. */
  method EmptyStringMiscounts(hash: Text -> U64, exp: nat) returns (t: Table)
    requires 1 <= exp <= 31
    ensures t.Valid() && t.len == 1 && t.Contents() == {} && !t.Counted()
  {
    t := new Table(hash, exp);
    var r := t.Insert([], hash([]));
  }

  /** Set comparison of two tables filled with the same hash function. */
  method EqualsStringSet(set1: Table, set2: Table) returns (r: Comparison)
    requires set1.Valid() && set2.Valid() && set1.Counted() && set2.Counted()
    requires set1.hash == set2.hash && set1.exp <= 30 && set2.exp <= 30
    requires set1.len == set2.len ==> Room(set2.buf[..]) || set1.Contents() <= set2.Contents()
    requires set1.len == set2.len ==> Room(set1.buf[..]) || set2.Contents() <= set1.Contents()
    ensures r.DifferentSizes? <==> |set1.Contents()| != |set2.Contents()|
    ensures r.Success? <==> set1.Contents() == set2.Contents()
  {
    if set1.len != set2.len { return DifferentSizes; }
    var in2 := AllIn(set1, set2);
    if !in2 { return DifferentContent; }
    var in1 := AllIn(set2, set1);
    if !in1 { return DifferentContent; }
    return Success;
  }

  /** One `FOR_EACH_MSI_STRING` pass. */
  method AllIn(from: Table, other: Table) returns (r: bool)
    requires from.Valid() && other.Valid() && from.hash == other.hash
    requires Room(other.buf[..]) || from.Contents() <= other.Contents()
    ensures r <==> from.Contents() <= other.Contents()
  {
    var index := 0;
    while index < Pow2(from.exp)
      invariant index <= from.buf.Length
      invariant Elements(from.buf[..index]) <= other.Contents()
    {
      var element := from.buf[index];
      assert from.buf[..index + 1] == from.buf[..index] + [element];
      if element != [] {
        assert from.buf[..][index] == element;
        var found := other.Contains(element, other.hash(element));
        if !found { return false; }
      }
      index := index + 1;
    }
    assert from.buf[..index] == from.buf[..];
    return true;
  }
}
