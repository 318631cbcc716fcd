/** The LHASH table behind the database indexes (crypto/lhash/lhash.c): linear
    hashing, where the table grows one bucket at a time and the bucket numbered
    p is split when it does. The table is proved to be a finite map. */
module LinearHash {
  import opened Prelude

  const MIN_NODES := 16
  const LOAD_MULT := 256
  const UP_LOAD := 512

  /** One chain element: the stored hash, the key as the comparison sees it, the
      row. Two keys compare equal exactly when their `key` is one string. */
  datatype Node = Node(hash: nat, key: string, row: nat)

  /** The table's size: pmax buckets of the current round, the first p of them
      already split, in an array of `alloc` bucket heads. */
  datatype Shape = Shape(p: nat, pmax: nat, alloc: nat) {
    predicate Ok() {
      p <= pmax && 0 < pmax && alloc == 2 * pmax
    }
  }

  /** The bucket getrn picks. */
  function Slot(h: nat, z: Shape): (i: nat)
    requires z.Ok()
    ensures i < z.pmax + z.p
  {
    ModDouble(h, z.pmax, z.alloc);
    if h % z.pmax < z.p then h % z.alloc else h % z.pmax
  }

  lemma ModDouble(h: nat, m: nat, w: nat)
    requires 0 < m && w == 2 * m
    ensures h % w == h % m || h % w == h % m + m
  {
    DivMod(h, w);
    DivMod(h, m);
    RemainderDouble(h, m, w, h / w, h % w, h / m, h % m);
  }

  lemma RemainderDouble(h: nat, m: nat, w: nat, q2: int, r2: nat, q: int, r: nat)
    requires w == 2 * m && r2 < w && r < m && h == w * q2 + r2 && h == m * q + r
    ensures r2 == r || r2 == r + m
  {
    Regroup(m, q2);
    if r2 < m {
      QuotientUnique(m, 2 * q2, r2, q, r);
    } else {
      QuotientUnique(m, 2 * q2 + 1, r2 - m, q, r);
    }
  }

  lemma DivMod(h: nat, m: nat)
    requires 0 < m
    ensures h == m * (h / m) + h % m && h % m < m
  {
  }

  lemma Regroup(m: nat, q: int)
    ensures (2 * m) * q == m * (2 * q) && m * (2 * q + 1) == m * (2 * q) + m
  {
  }

  lemma QuotientUnique(m: nat, q: int, r: nat, q': int, r': nat)
    requires r < m && r' < m && m * q + r == m * q' + r'
    ensures q == q' && r == r'
  {
    if q != q' {
      var d := if q > q' then q - q' else q' - q;
      assert m * d == m * q - m * q' || m * d == m * q' - m * q;
      AtLeastOnce(m, d);
      assert false;
    }
  }

  lemma AtLeastOnce(m: nat, d: nat)
    requires d >= 1
    ensures m * d >= m
  {
  }

  /** Splitting bucket p moves an element only between bucket p and the new
      last bucket. */
  lemma SlotAfterSplit(h: nat, z: Shape)
    requires z.Ok() && z.p < z.pmax
    ensures Slot(h, z.(p := z.p + 1)) == if Slot(h, z) == z.p then h % z.alloc else Slot(h, z)
    ensures Slot(h, z) == z.p ==> h % z.alloc == z.p || h % z.alloc == z.p + z.pmax
  {
    ModDouble(h, z.pmax, z.alloc);
  }

  /** When every bucket has been split the table doubles and nothing moves. */
  lemma SlotAfterDoubling(h: nat, z: Shape)
    requires z.Ok() && z.p == z.pmax
    ensures Slot(h, z) == Slot(h, Shape(0, z.alloc, 2 * z.alloc))
  {
  }

  /** A chain without repetition: no row is filed twice in it. */
  ghost predicate Distinct(c: seq<Node>)
  {
    forall i, j :: 0 <= i < j < |c| ==> c[i] != c[j]
  }

  /** The map's own entries: each is filed under its key. `hashOf` is the hash as
      a function of the key: the hash respects the comparison. */
  ghost predicate MapOk(hashOf: string -> nat, m: map<string, Node>)
  {
    forall k :: k in m ==> m[k].key == k && m[k].hash == hashOf(k)
  }

  ghost predicate In(n: Node, m: map<string, Node>)
  {
    n.key in m && m[n.key] == n
  }

  /** Bucket i holds, once each, the entries of the map whose slot is i. */
  ghost predicate BucketsOk(b: seq<seq<Node>>, z: Shape, m: map<string, Node>)
  {
    && z.Ok()
    && |b| == z.alloc
    && (forall i :: 0 <= i < |b| ==> Distinct(b[i]))
    && (forall i, n :: 0 <= i < |b| ==> (n in b[i] <==> In(n, m) && Slot(n.hash, z) == i))
  }

  /** The table, with the finite map it stands for. Growing by one bucket at a time
      keeps the chains at two elements or fewer on average. */
  datatype RawTable = RawTable(b: seq<seq<Node>>, z: Shape, numItems: nat,
                               ghost hashOf: string -> nat, ghost contents: map<string, Node>)

  ghost predicate TableOk(t: RawTable)
  {
    && MapOk(t.hashOf, t.contents)
    && BucketsOk(t.b, t.z, t.contents)
    && t.z.p < t.z.pmax
    && t.numItems == |t.contents|
    && t.numItems <= 2 * (t.z.pmax + t.z.p)
  }

  function EmptyTable(ghost hashOf: string -> nat): (t: RawTable)
    ensures TableOk(t) && t.hashOf == hashOf && t.contents == map[]
  {
    RawTable(seq(MIN_NODES, _ => []), Shape(0, MIN_NODES / 2, MIN_NODES), 0, hashOf, map[])
  }

  /** The tables that exist between operations. */
  type Table = t: RawTable | TableOk(t) ghost witness EmptyTable(_ => 0)

  /** lh_retrieve: a key is found when it was filed with the same hash. */
  method Retrieve(t: Table, hash: nat, key: string) returns (r: Option<nat>)
    ensures r == if key in t.contents && t.contents[key].hash == hash then Some(t.contents[key].row) else None
  {
    var i, j := GetRn(t, hash, key);
    r := if j < |t.b[i]| then Some(t.b[i][j].row) else None;
  }

  /** lh_insert: files a row, returning the row it displaces. */
  method Insert(t: Table, n: Node) returns (t': Table, r: Option<nat>)
    requires n.hash == t.hashOf(n.key)
    ensures t'.hashOf == t.hashOf && t'.contents == t.contents[n.key := n]
    ensures r == if n.key in t.contents then Some(t.contents[n.key].row) else None
    ensures t'.z.pmax + t'.z.p == t.z.pmax + t.z.p + if t.numItems == 2 * (t.z.pmax + t.z.p) then 1 else 0
  {
    t' := t;
    LoadTest(t.numItems, t.z.pmax + t.z.p);
    if UP_LOAD <= t.numItems * LOAD_MULT / (t.z.pmax + t.z.p) {
      t' := Expand(t);
    }
    t', r := Put(t', n);
  }

  /** The test for growing, in terms of items and buckets. */
  lemma LoadTest(items: nat, buckets: nat)
    requires buckets > 0
    ensures UP_LOAD <= items * LOAD_MULT / buckets <==> items >= 2 * buckets
  {
    var q := items * LOAD_MULT / buckets;
    assert items * LOAD_MULT == buckets * q + items * LOAD_MULT % buckets;
    if q >= UP_LOAD {
      assert buckets * q >= buckets * UP_LOAD;
    } else {
      assert buckets * q <= buckets * (UP_LOAD - 1);
    }
  }

  /** The second half of lh_insert: a new chain element, or a replaced one. */
  method Put(t: Table, n: Node) returns (t': Table, r: Option<nat>)
    requires n.hash == t.hashOf(n.key) && t.numItems < 2 * (t.z.pmax + t.z.p)
    ensures t'.hashOf == t.hashOf && t'.contents == t.contents[n.key := n] && t'.z == t.z
    ensures r == if n.key in t.contents then Some(t.contents[n.key].row) else None
  {
    var i, j := GetRn(t, n.hash, n.key);
    ghost var m := t.contents[n.key := n];
    if j == |t.b[i]| {
      AppendOk(t.b, t.z, t.contents, i, n);
      t' := t.(b := t.b[i := t.b[i] + [n]], numItems := t.numItems + 1, contents := m);
      r := None;
    } else {
      ReplaceOk(t.b, t.z, t.contents, i, j, n);
      assert m.Keys == t.contents.Keys;
      t' := t.(b := t.b[i := t.b[i][j := n]], contents := m);
      r := Some(t.b[i][j].row);
    }
  }

  /** getrn: the bucket of the key and the position in its chain, which is the
      chain's length when no element has that hash and that key. */
  method GetRn(t: Table, hash: nat, key: string) returns (i: nat, j: nat)
    ensures i == Slot(hash, t.z) < |t.b| && j <= |t.b[i]|
    ensures key in t.contents && t.contents[key].hash == hash <==> j < |t.b[i]|
    ensures j < |t.b[i]| ==> t.b[i][j] == t.contents[key]
  {
    i := Slot(hash, t.z);
    var chain := t.b[i];
    j := 0;
    while j < |chain| && !(chain[j].hash == hash && chain[j].key == key)
      invariant 0 <= j <= |chain|
      invariant forall k :: 0 <= k < j ==> chain[k].hash != hash || chain[k].key != key
    {
      j := j + 1;
    }
    if j < |chain| {
      assert chain[j] in t.b[i];
    }
  }

  /** expand: split bucket p in two, and double the bucket array once every bucket
      has been split. The map is unchanged. */
  method Expand(t: Table) returns (t': Table)
    ensures t'.hashOf == t.hashOf && t'.contents == t.contents && t'.numItems == t.numItems
    ensures t'.z.pmax + t'.z.p == t.z.pmax + t.z.p + 1
  {
    var b := SplitBucket(t.b, t.z, t.contents);
    var z := t.z.(p := t.z.p + 1);
    if z.p == z.pmax {
      DoubleOk(b, z, t.contents);
      b, z := b + seq(z.alloc, _ => []), Shape(0, z.alloc, 2 * z.alloc);
    }
    t' := t.(b := b, z := z);
  }

  method SplitBucket(b: seq<seq<Node>>, z: Shape, ghost m: map<string, Node>) returns (b': seq<seq<Node>>)
    requires BucketsOk(b, z, m) && z.p < z.pmax
    ensures BucketsOk(b', z.(p := z.p + 1), m)
  {
    var stay, moved := SplitChain(b[z.p], z.p, z.alloc);
    SplitOk(b, z, m, stay, moved);
    b' := b[z.p := stay][z.p + z.pmax := moved];
  }

  /** The loop of expand: elements whose hash does not belong to bucket p of a
      table of the given width are unlinked and pushed on the new chain. */
  method SplitChain(chain: seq<Node>, p: nat, width: nat) returns (stay: seq<Node>, moved: seq<Node>)
    requires 0 < width && Distinct(chain)
    ensures forall n :: n in stay <==> n in chain && n.hash % width == p
    ensures forall n :: n in moved <==> n in chain && n.hash % width != p
    ensures Distinct(stay) && Distinct(moved)
  {
    stay, moved := [], [];
    var k := 0;
    while k < |chain|
      invariant 0 <= k <= |chain|
      invariant forall n :: n in stay <==> n in chain[..k] && n.hash % width == p
      invariant forall n :: n in moved <==> n in chain[..k] && n.hash % width != p
      invariant Distinct(stay) && Distinct(moved)
    {
      var n := chain[k];
      assert chain[..k + 1] == chain[..k] + [n];
      assert n !in chain[..k];
      if n.hash % width != p {
        moved := [n] + moved;
      } else {
        stay := stay + [n];
      }
      k := k + 1;
    }
    assert chain[..k] == chain;
  }

  lemma AppendOk(b: seq<seq<Node>>, z: Shape, m: map<string, Node>, i: nat, n: Node)
    requires BucketsOk(b, z, m)
    requires i == Slot(n.hash, z) && n.key !in m
    ensures BucketsOk(b[i := b[i] + [n]], z, m[n.key := n])
  {
    assert n !in b[i];
  }

  lemma ReplaceOk(b: seq<seq<Node>>, z: Shape, m: map<string, Node>, i: nat, j: nat, n: Node)
    requires BucketsOk(b, z, m)
    requires i < |b| && j < |b[i]| && b[i][j].hash == n.hash && b[i][j].key == n.key
    ensures BucketsOk(b[i := b[i][j := n]], z, m[n.key := n])
  {
    assert b[i][j] in b[i];
    InReplaced(b[i], j, n);
  }

  lemma InReplaced(c: seq<Node>, j: nat, n: Node)
    requires j < |c| && Distinct(c)
    requires n == c[j] || n !in c
    ensures Distinct(c[j := n])
    ensures forall x :: x in c[j := n] <==> x == n || (x in c && x != c[j])
  {
    var d := c[j := n];
    assert d[j] == n;
    forall x | x in c && x != c[j]
      ensures x in d
    {
      var k :| 0 <= k < |c| && c[k] == x;
      assert d[k] == x;
    }
  }

  lemma SplitOk(b: seq<seq<Node>>, z: Shape, m: map<string, Node>, stay: seq<Node>, moved: seq<Node>)
    requires BucketsOk(b, z, m) && z.p < z.pmax
    requires forall n :: n in stay <==> n in b[z.p] && n.hash % z.alloc == z.p
    requires forall n :: n in moved <==> n in b[z.p] && n.hash % z.alloc != z.p
    requires Distinct(stay) && Distinct(moved)
    ensures BucketsOk(b[z.p := stay][z.p + z.pmax := moved], z.(p := z.p + 1), m)
  {
    var b', z' := b[z.p := stay][z.p + z.pmax := moved], z.(p := z.p + 1);
    forall i, n | 0 <= i < |b'|
      ensures n in b'[i] <==> In(n, m) && Slot(n.hash, z') == i
    {
      SlotAfterSplit(n.hash, z);
      assert n in b[z.p] <==> In(n, m) && Slot(n.hash, z) == z.p;
      assert n in b[i] <==> In(n, m) && Slot(n.hash, z) == i;
    }
  }

  lemma DoubleOk(b: seq<seq<Node>>, z: Shape, m: map<string, Node>)
    requires BucketsOk(b, z, m) && z.p == z.pmax
    ensures BucketsOk(b + seq(z.alloc, _ => []), Shape(0, z.alloc, 2 * z.alloc), m)
  {
    var b', z' := b + seq(z.alloc, _ => []), Shape(0, z.alloc, 2 * z.alloc);
    forall i, n | 0 <= i < |b'|
      ensures n in b'[i] <==> In(n, m) && Slot(n.hash, z') == i
    {
      SlotAfterDoubling(n.hash, z);
    }
  }
}
