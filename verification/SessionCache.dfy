/** The external session cache of s_server: a singly linked list with the newest
    session in front (apps/s_server.c:2228-2331). It is shown to be one stack of
    sessions per session id. */
module SessionCache {
  import opened Prelude

  type Bytes = seq<byte>

  datatype Entry = Entry(id: Bytes, der: Bytes)

  class Node {
    const id: Bytes
    const der: Bytes
    var next: Node?

    constructor (id: Bytes, der: Bytes, next: Node?)
      ensures this.id == id && this.der == der && this.next == next
    {
      this.id, this.der, this.next := id, der, next;
    }
  }

  /** The first entry from i on with the given id, or |s|. */
  function FindFrom(s: seq<Entry>, id: Bytes, i: nat): (k: nat)
    requires i <= |s|
    ensures i <= k <= |s|
    ensures k < |s| ==> s[k].id == id
    ensures forall j :: i <= j < k ==> s[j].id != id
    decreases |s| - i
  {
    if i == |s| || s[i].id == id then i else FindFrom(s, id, i + 1)
  }

  function Lookup(s: seq<Entry>, id: Bytes): Option<Bytes>
  {
    var k := FindFrom(s, id, 0);
    if k == |s| then None else Some(s[k].der)
  }

  function Removed(s: seq<Entry>, id: Bytes): seq<Entry>
  {
    var k := FindFrom(s, id, 0);
    if k == |s| then s else s[..k] + s[k + 1..]
  }

  ghost function EntriesOf(nodes: seq<Node>): (s: seq<Entry>)
    ensures |s| == |nodes|
    ensures forall i :: 0 <= i < |s| ==> s[i] == Entry(nodes[i].id, nodes[i].der)
  {
    seq(|nodes|, i requires 0 <= i < |nodes| => Entry(nodes[i].id, nodes[i].der))
  }

  lemma EntriesWithout(nodes: seq<Node>, i: nat)
    requires i < |nodes|
    ensures EntriesOf(nodes[..i] + nodes[i + 1..]) == EntriesOf(nodes)[..i] + EntriesOf(nodes)[i + 1..]
  {
  }

  /** The nodes are linked in order and the last one ends the list. */
  ghost predicate Linked(nodes: seq<Node>)
    reads nodes
  {
    && (forall i {:trigger nodes[i].next} :: 0 <= i < |nodes| - 1 ==> nodes[i].next == nodes[i + 1])
    && (nodes != [] ==> nodes[|nodes| - 1].next == null)
  }

  /** No node occurs twice in such a list, so it has no cycle. */
  lemma {:induction false} LinkedIsAcyclic(nodes: seq<Node>, i: nat, j: nat)
    requires Linked(nodes) && i < j < |nodes|
    ensures nodes[i] != nodes[j]
    decreases |nodes| - j
  {
    assert nodes[i].next == nodes[i + 1];
    if j + 1 < |nodes| {
      assert nodes[j].next == nodes[j + 1];
      LinkedIsAcyclic(nodes, i + 1, j + 1);
    }
  }

  lemma LinkedFront(n: Node, rest: seq<Node>)
    requires Linked(rest) && n.next == if rest == [] then null else rest[0]
    ensures Linked([n] + rest)
  {
    var nodes := [n] + rest;
    forall i {:trigger nodes[i].next} | 0 <= i < |nodes| - 1
      ensures nodes[i].next == nodes[i + 1]
    {
      if i > 0 {
        assert nodes[i] == rest[i - 1];
      }
    }
    if rest != [] {
      assert nodes[|nodes| - 1] == rest[|rest| - 1];
    }
  }

  /** The node after position k. */
  ghost function After(nodes: seq<Node>, k: nat): Node?
  {
    if k < |nodes| then nodes[k] else null
  }

  /** Once the node before position i points past it, the rest is a list. */
  lemma LinkedWithout(was: seq<Node>, i: nat)
    requires i < |was|
    requires forall k {:trigger was[k].next} :: 0 <= k < |was| && k != i ==>
               was[k].next == After(was, if k + 1 == i then i + 1 else k + 1)
    ensures Linked(was[..i] + was[i + 1..])
  {
    var nodes := was[..i] + was[i + 1..];
    forall k {:trigger nodes[k]} | 0 <= k < |nodes|
      ensures nodes[k].next == After(nodes, k + 1)
    {
      assert nodes[k] == was[if k < i then k else k + 1];
    }
  }

  class Cache {
    var first: Node?
    /** The nodes of the list in order. */
    ghost var nodes: seq<Node>

    ghost predicate Valid()
      reads this, nodes
    {
      first == (if nodes == [] then null else nodes[0]) && Linked(nodes)
    }

    ghost function Contents(): (s: seq<Entry>)
      reads this
    {
      EntriesOf(nodes)
    }

    constructor ()
      ensures Valid() && Contents() == [] && nodes == []
    {
      first, nodes := null, [];
    }

    /** add_session. */
    method Add(id: Bytes, der: Bytes)
      requires Valid()
      modifies this
      ensures Valid() && Contents() == [Entry(id, der)] + old(Contents())
      ensures |nodes| == |old(nodes)| + 1 && nodes[1..] == old(nodes) && fresh(nodes[0])
    {
      var sess := new Node(id, der, first);
      LinkedFront(sess, nodes);
      nodes := [sess] + nodes;
      first := sess;
    }

    /** get_session. */
    method Get(id: Bytes) returns (r: Option<Bytes>)
      requires Valid()
      ensures r == Lookup(Contents(), id)
    {
      var sess := first;
      ghost var i := 0;
      while sess != null
        invariant 0 <= i <= |nodes|
        invariant sess == if i < |nodes| then nodes[i] else null
        invariant FindFrom(Contents(), id, 0) == FindFrom(Contents(), id, i)
        decreases |nodes| - i
      {
        if |sess.id| == |id| && sess.id == id {
          return Some(sess.der);
        }
        sess := sess.next;
        i := i + 1;
      }
      r := None;
    }

    /** del_session: the node is unlinked through its predecessor. */
    method Del(id: Bytes)
      requires Valid()
      modifies this, nodes
      ensures Valid() && Contents() == Removed(old(Contents()), id)
      ensures forall i :: 0 <= i < |nodes| ==> nodes[i] in old(nodes)
    {
      var sess, prev;
      ghost var i;
      sess, prev, i := Locate(id);
      if sess != null {
        Unlink(i, prev, sess);
      }
    }

    /** The walk of del_session, with a second cursor one node behind. */
    method Locate(id: Bytes) returns (sess: Node?, prev: Node?, ghost i: nat)
      requires Valid()
      ensures i == FindFrom(Contents(), id, 0)
      ensures sess == After(nodes, i) && prev == if i > 0 then nodes[i - 1] else null
    {
      sess, prev, i := first, null, 0;
      while sess != null
        invariant i <= |nodes| && sess == After(nodes, i)
        invariant prev == if i > 0 then nodes[i - 1] else null
        invariant FindFrom(Contents(), id, 0) == FindFrom(Contents(), id, i)
        decreases |nodes| - i
      {
        if |sess.id| == |id| && sess.id == id {
          return;
        }
        prev := sess;
        sess := sess.next;
        i := i + 1;
      }
    }

    method Unlink(ghost i: nat, prev: Node?, sess: Node)
      requires Valid() && i < |nodes| && sess == nodes[i]
      requires prev == if i > 0 then nodes[i - 1] else null
      modifies this, prev
      ensures Valid() && nodes == old(nodes)[..i] + old(nodes)[i + 1..]
      ensures Contents() == old(Contents())[..i] + old(Contents())[i + 1..]
    {
      forall k | 0 <= k < |nodes| && k + 1 != i
        ensures nodes[k] != prev
      {
        if i > 0 && k < i - 1 {
          LinkedIsAcyclic(nodes, k, i - 1);
        } else if i > 0 {
          LinkedIsAcyclic(nodes, i - 1, k);
        }
      }
      assert sess.next == After(nodes, i + 1);
      if prev != null {
        prev.next := sess.next;
      } else {
        first := sess.next;
      }
      LinkedWithout(nodes, i);
      EntriesWithout(nodes, i);
      nodes := nodes[..i] + nodes[i + 1..];
    }

    /** free_sessions. */
    method Free()
      requires Valid()
      modifies this
      ensures Valid() && Contents() == []
    {
      var sess := first;
      ghost var i := 0;
      while sess != null
        invariant 0 <= i <= |nodes|
        invariant sess == if i < |nodes| then nodes[i] else null
        decreases |nodes| - i
      {
        sess := sess.next;
        i := i + 1;
      }
      first, nodes := null, [];
    }
  }

  // ----- one stack per id

  /** The sessions with one id, newest first. */
  function StackOf(s: seq<Entry>, id: Bytes): seq<Bytes>
  {
    if s == [] then []
    else if s[0].id == id then [s[0].der] + StackOf(s[1..], id)
    else StackOf(s[1..], id)
  }

  lemma {:induction false} LookupIsTop(s: seq<Entry>, id: Bytes, i: nat)
    requires i <= |s|
    ensures var k, st := FindFrom(s, id, i), StackOf(s[i..], id);
            if k == |s| then st == [] else st != [] && st[0] == s[k].der && st[1..] == StackOf(s[k + 1..], id)
    decreases |s| - i
  {
    if i < |s| {
      assert s[i..][1..] == s[i + 1..];
      LookupIsTop(s, id, i + 1);
    }
  }

  lemma {:induction false} StackOfParts(a: seq<Entry>, b: seq<Entry>, id: Bytes)
    ensures StackOf(a + b, id) == StackOf(a, id) + StackOf(b, id)
  {
    if a == [] {
      assert a + b == b;
    } else {
      assert (a + b)[1..] == a[1..] + b;
      StackOfParts(a[1..], b, id);
    }
  }

  lemma {:induction false} NoneBefore(s: seq<Entry>, id: Bytes)
    requires forall j :: 0 <= j < |s| ==> s[j].id != id
    ensures StackOf(s, id) == []
  {
    if s != [] {
      NoneBefore(s[1..], id);
    }
  }

  /** Adding pushes on the stack of its id, deleting pops it, looking up reads its
      top, and no other id is affected. */
  lemma CacheIsStacks(s: seq<Entry>, id: Bytes, der: Bytes, other: Bytes)
    ensures StackOf([Entry(id, der)] + s, other) == if other == id then [der] + StackOf(s, id) else StackOf(s, other)
    ensures StackOf(Removed(s, id), other) ==
            if other == id then (if StackOf(s, id) == [] then [] else StackOf(s, id)[1..]) else StackOf(s, other)
    ensures Lookup(s, id) == if StackOf(s, id) == [] then None else Some(StackOf(s, id)[0])
  {
    assert ([Entry(id, der)] + s)[1..] == s;
    var k := FindFrom(s, id, 0);
    assert s[0..] == s;
    LookupIsTop(s, id, 0);
    if k < |s| {
      var rest := s[k + 1..];
      assert s == s[..k] + ([s[k]] + rest) && ([s[k]] + rest)[1..] == rest;
      StackOfParts(s[..k], [s[k]] + rest, other);
      StackOfParts(s[..k], rest, other);
      NoneBefore(s[..k], id);
    }
  }

  // ----- whole histories

  datatype Op = AddOp(id: Bytes, der: Bytes) | GetOp(id: Bytes) | DelOp(id: Bytes)

  /** The stack of one id after the first n operations. */
  function StackAfter(ops: seq<Op>, n: nat, id: Bytes): seq<Bytes>
    requires n <= |ops|
  {
    if n == 0 then [] else
      var st := StackAfter(ops, n - 1, id);
      match ops[n - 1]
      case AddOp(i, der) => if i == id then [der] + st else st
      case DelOp(i) => if i == id && st != [] then st[1..] else st
      case GetOp(_) => st
  }

  function Top(st: seq<Bytes>): Option<Bytes>
  {
    if st == [] then None else Some(st[0])
  }

  /** Every answer is the newest session with that id that has not been deleted. */
  method RunOps(ops: seq<Op>) returns (answers: seq<Option<Bytes>>, cache: Cache)
    ensures fresh(cache) && cache.Valid()
    ensures forall id :: StackOf(cache.Contents(), id) == StackAfter(ops, |ops|, id)
    ensures |answers| == |ops|
    ensures forall i :: 0 <= i < |ops| && ops[i].GetOp? ==> answers[i] == Top(StackAfter(ops, i, ops[i].id))
  {
    cache := new Cache();
    answers := [];
    var n := 0;
    while n < |ops|
      invariant n <= |ops| && |answers| == n
      invariant fresh(cache) && cache.Valid() && (forall i :: 0 <= i < |cache.nodes| ==> fresh(cache.nodes[i]))
      invariant Stacked(cache.Contents(), ops, n) && Answered(answers, ops, n)
    {
      StacksAfterOne(cache.Contents(), ops, n);
      var a := RunOne(cache, ops[n]);
      AnsweredOne(answers, ops, n, a);
      answers := answers + [a];
      n := n + 1;
    }
  }

  /** The entries of every id are its stack. */
  ghost predicate Stacked(s: seq<Entry>, ops: seq<Op>, n: nat)
    requires n <= |ops|
  {
    forall id :: StackOf(s, id) == StackAfter(ops, n, id)
  }

  ghost predicate Answered(answers: seq<Option<Bytes>>, ops: seq<Op>, n: nat)
    requires n <= |ops|
  {
    && |answers| == n
    && forall i :: 0 <= i < n && ops[i].GetOp? ==> answers[i] == Top(StackAfter(ops, i, ops[i].id))
  }

  lemma AnsweredOne(answers: seq<Option<Bytes>>, ops: seq<Op>, n: nat, a: Option<Bytes>)
    requires n < |ops| && Answered(answers, ops, n)
    requires ops[n].GetOp? ==> a == Top(StackAfter(ops, n, ops[n].id))
    ensures Answered(answers + [a], ops, n + 1)
  {
  }

  /** The entries after one operation. */
  function EntriesAfter(s: seq<Entry>, op: Op): seq<Entry>
  {
    match op
    case AddOp(id, der) => [Entry(id, der)] + s
    case DelOp(id) => Removed(s, id)
    case GetOp(_) => s
  }

  lemma StacksAfterOne(s: seq<Entry>, ops: seq<Op>, n: nat)
    requires n < |ops| && Stacked(s, ops, n)
    ensures Stacked(EntriesAfter(s, ops[n]), ops, n + 1)
    ensures ops[n].GetOp? ==> Lookup(s, ops[n].id) == Top(StackAfter(ops, n, ops[n].id))
  {
    forall id
      ensures StackOf(EntriesAfter(s, ops[n]), id) == StackAfter(ops, n + 1, id)
    {
      CacheIsStacks(s, ops[n].id, if ops[n].AddOp? then ops[n].der else [], id);
    }
    CacheIsStacks(s, ops[n].id, [], ops[n].id);
  }

  method RunOne(cache: Cache, op: Op) returns (a: Option<Bytes>)
    requires cache.Valid()
    modifies cache, cache.nodes
    ensures cache.Valid() && cache.Contents() == EntriesAfter(old(cache.Contents()), op)
    ensures forall i :: 0 <= i < |cache.nodes| ==> cache.nodes[i] in old(cache.nodes) || fresh(cache.nodes[i])
    ensures op.GetOp? ==> a == Lookup(old(cache.Contents()), op.id)
  {
    a := None;
    match op {
      case AddOp(id, der) => cache.Add(id, der);
      case GetOp(id) => a := cache.Get(id);
      case DelOp(id) => cache.Del(id);
    }
  }

  /** The cache as a finite map. */
  function MapAfter(ops: seq<Op>, n: nat): map<Bytes, Bytes>
    requires n <= |ops|
  {
    if n == 0 then map[] else
      match ops[n - 1]
      case AddOp(id, der) => MapAfter(ops, n - 1)[id := der]
      case DelOp(id) => MapAfter(ops, n - 1) - {id}
      case GetOp(_) => MapAfter(ops, n - 1)
  }

  function MapGet(m: map<Bytes, Bytes>, id: Bytes): Option<Bytes>
  {
    if id in m then Some(m[id]) else None
  }

  /** After the first n operations every id is answered as the map answers it. */
  ghost predicate LikeMap(ops: seq<Op>, n: nat)
    requires n <= |ops|
  {
    forall id :: Top(StackAfter(ops, n, id)) == MapGet(MapAfter(ops, n), id)
  }

  /** No deletion meets an id under which two sessions are stored. */
  ghost predicate NoDoubleDeleted(ops: seq<Op>, n: nat)
    requires n <= |ops|
  {
    forall i :: 0 <= i < n && ops[i].DelOp? ==> |StackAfter(ops, i, ops[i].id)| <= 1
  }

  lemma LikeMapStep(ops: seq<Op>, n: nat)
    requires n < |ops| && LikeMap(ops, n)
    ensures LikeMap(ops, n + 1) <==> (ops[n].DelOp? ==> |StackAfter(ops, n, ops[n].id)| <= 1)
  {
    var op := ops[n];
    if op.DelOp? && |StackAfter(ops, n, op.id)| > 1 {
      assert Top(StackAfter(ops, n + 1, op.id)).Some?;
      assert MapGet(MapAfter(ops, n + 1), op.id).None?;
    } else {
      var m := n + 1;
      forall id
        ensures Top(StackAfter(ops, m, id)) == MapGet(MapAfter(ops, m), id)
      {
        assert Top(StackAfter(ops, n, id)) == MapGet(MapAfter(ops, n), id);
      }
    }
  }

  /** The cache answers like a finite map throughout a history exactly when no
      deletion meets an id under which two sessions are stored. */
  lemma {:induction false} CacheIsAMapIff(ops: seq<Op>, n: nat)
    requires n <= |ops|
    ensures (forall k :: 0 <= k <= n ==> LikeMap(ops, k)) <==> NoDoubleDeleted(ops, n)
  {
    if n > 0 {
      CacheIsAMapIff(ops, n - 1);
      if NoDoubleDeleted(ops, n - 1) {
        assert LikeMap(ops, n - 1);
        LikeMapStep(ops, n - 1);
      } else if NoDoubleDeleted(ops, n) {
        assert false;
      }
    }
  }

  /** No id is added while a session with it is still there. */
  ghost predicate NoLiveReadded(ops: seq<Op>, n: nat)
    requires n <= |ops|
  {
    forall i :: 0 <= i < n && ops[i].AddOp? ==> StackAfter(ops, i, ops[i].id) == []
  }

  lemma {:induction false} OneEach(ops: seq<Op>, n: nat, id: Bytes)
    requires n <= |ops| && NoLiveReadded(ops, n)
    ensures |StackAfter(ops, n, id)| <= 1
  {
    if n > 0 {
      OneEach(ops, n - 1, id);
    }
  }

  /** In particular the cache is a map when no live id is added again. */
  lemma NeverReadded(ops: seq<Op>, n: nat)
    requires n <= |ops| && NoLiveReadded(ops, n)
    ensures forall k :: 0 <= k <= n ==> LikeMap(ops, k)
  {
    forall i | 0 <= i < n && ops[i].DelOp?
      ensures |StackAfter(ops, i, ops[i].id)| <= 1
    {
      OneEach(ops, i, ops[i].id);
    }
    CacheIsAMapIff(ops, n);
  }

  /** Adding a session under a live id and deleting it once uncovers the older one,
      where a map would have none. */
  lemma ReaddedIdComesBack(id: Bytes, a: Bytes, b: Bytes)
    ensures var ops := [AddOp(id, a), AddOp(id, b), DelOp(id)];
            StackAfter(ops, 3, id) == [a] && id !in MapAfter(ops, 3)
  {
    var ops := [AddOp(id, a), AddOp(id, b), DelOp(id)];
    assert StackAfter(ops, 0, id) == [];
    assert StackAfter(ops, 1, id) == [a];
    assert StackAfter(ops, 2, id) == [b, a];
  }
}
