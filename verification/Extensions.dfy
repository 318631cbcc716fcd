/** Copying the extensions of a request into the certificate (apps/apps.c:1138-1176). */
module Extensions {
  import opened Prelude

  datatype Ext = Ext(oid: nat, critical: bool, value: string)

  datatype CopyType = CopyNone | CopyAdd | CopyAll

  function Oids(s: seq<Ext>): set<nat>
  {
    set e | e in s :: e.oid
  }

  /** The extensions of s whose identifier is not in `oids`, in order. */
  function Except(s: seq<Ext>, oids: set<nat>): seq<Ext>
  {
    if s == [] then []
    else if s[0].oid in oids then Except(s[1..], oids)
    else [s[0]] + Except(s[1..], oids)
  }

  /** The first extension of each identifier that is not in `oids`. */
  function FirstOnes(s: seq<Ext>, oids: set<nat>): seq<Ext>
  {
    if s == [] then []
    else if s[0].oid in oids then FirstOnes(s[1..], oids)
    else [s[0]] + FirstOnes(s[1..], oids + {s[0].oid})
  }

  /** The last extension of each identifier, in order of last occurrence. */
  function LastOnes(s: seq<Ext>): seq<Ext>
  {
    if s == [] then []
    else if s[0].oid in Oids(s[1..]) then LastOnes(s[1..])
    else [s[0]] + LastOnes(s[1..])
  }

  /** What the certificate carries in the end. */
  function Copied(own: seq<Ext>, request: seq<Ext>, t: CopyType): seq<Ext>
  {
    match t
    case CopyNone => own
    case CopyAdd => own + FirstOnes(request, Oids(own))
    case CopyAll => Except(own, Oids(request)) + LastOnes(request)
  }

  // ----- one extension at a time

  lemma OidsOf(s: seq<Ext>, t: seq<Ext>)
    ensures Oids(s + t) == Oids(s) + Oids(t)
  {
    forall x
      ensures x in Oids(s + t) <==> x in Oids(s) || x in Oids(t)
    {
      if x in Oids(s) {
        var e :| e in s && e.oid == x;
        assert e in s + t;
      }
      if x in Oids(t) {
        var e :| e in t && e.oid == x;
        assert e in s + t;
      }
    }
  }

  lemma OidsOne(e: Ext)
    ensures Oids([e]) == {e.oid}
  {
    assert e in [e];
  }

  lemma {:induction false} FirstOnesAppend(s: seq<Ext>, e: Ext, oids: set<nat>)
    ensures FirstOnes(s + [e], oids) ==
            FirstOnes(s, oids) + if e.oid in oids + Oids(FirstOnes(s, oids)) then [] else [e]
  {
    if s == [] {
      assert s + [e] == [e] && [e][1..] == [];
    } else {
      assert (s + [e])[1..] == s[1..] + [e];
      if s[0].oid in oids {
        FirstOnesAppend(s[1..], e, oids);
      } else {
        var rest := FirstOnes(s[1..], oids + {s[0].oid});
        FirstOnesAppend(s[1..], e, oids + {s[0].oid});
        OidsOf([s[0]], rest);
        OidsOne(s[0]);
      }
    }
  }

  lemma {:induction false} ExceptAppend(s: seq<Ext>, t: seq<Ext>, oids: set<nat>)
    ensures Except(s + t, oids) == Except(s, oids) + Except(t, oids)
  {
    if s == [] {
      assert s + t == t;
    } else {
      assert (s + t)[1..] == s[1..] + t;
      ExceptAppend(s[1..], t, oids);
    }
  }

  lemma {:induction false} ExceptTwice(s: seq<Ext>, a: set<nat>, b: set<nat>)
    ensures Except(Except(s, a), b) == Except(s, a + b)
  {
    if s != [] {
      ExceptTwice(s[1..], a, b);
      if s[0].oid !in a {
        assert ([s[0]] + Except(s[1..], a))[1..] == Except(s[1..], a);
      }
    }
  }

  lemma {:induction false} ExceptNone(s: seq<Ext>, oids: set<nat>)
    requires Oids(s) !! oids
    ensures Except(s, oids) == s
  {
    if s != [] {
      assert s[0] in s && s[0].oid in Oids(s);
      assert forall e :: e in s[1..] ==> e in s;
      ExceptNone(s[1..], oids);
    }
  }

  lemma {:induction false} LastOnesAppend(s: seq<Ext>, e: Ext)
    ensures LastOnes(s + [e]) == Except(LastOnes(s), {e.oid}) + [e]
  {
    if s == [] {
      assert s + [e] == [e] && [e][1..] == [];
    } else {
      assert (s + [e])[1..] == s[1..] + [e];
      LastOnesAppend(s[1..], e);
      OidsOf(s[1..], [e]);
      OidsOne(e);
      if s[0].oid !in Oids(s[1..]) {
        assert ([s[0]] + LastOnes(s[1..]))[1..] == LastOnes(s[1..]);
      }
    }
  }

  lemma CopiedAddMore(own: seq<Ext>, s: seq<Ext>, e: Ext)
    ensures var x := Copied(own, s, CopyAdd);
            Copied(own, s + [e], CopyAdd) == if e.oid in Oids(x) then x else x + [e]
  {
    var firsts := FirstOnes(s, Oids(own));
    OidsOf(own, firsts);
    FirstOnesAppend(s, e, Oids(own));
  }

  lemma CopiedAllMore(own: seq<Ext>, s: seq<Ext>, e: Ext)
    ensures Copied(own, s + [e], CopyAll) == Except(Copied(own, s, CopyAll), {e.oid}) + [e]
  {
    OidsOf(s, [e]);
    OidsOne(e);
    ExceptTwice(own, Oids(s), {e.oid});
    ExceptAppend(Except(own, Oids(s)), LastOnes(s), {e.oid});
    LastOnesAppend(s, e);
  }

  // ----- the certificate being built

  class Certificate {
    var exts: seq<Ext>

    /** X509_get_ext_by_OBJ from the start; -1 when there is none. */
    method GetExt(oid: nat) returns (i: int)
      ensures -1 <= i < |exts|
      ensures i >= 0 ==> exts[i].oid == oid
      ensures i == -1 <==> oid !in Oids(exts)
    {
      i := 0;
      while i < |exts|
        invariant 0 <= i <= |exts|
        invariant forall k :: 0 <= k < i ==> exts[k].oid != oid
      {
        if exts[i].oid == oid {
          assert exts[i] in exts;
          return;
        }
        i := i + 1;
      }
      i := -1;
    }

    /** The do loop: delete every extension of one identifier. */
    method DeleteAll(oid: nat, first: nat)
      requires first < |exts| && exts[first].oid == oid
      modifies this
      ensures exts == Except(old(exts), {oid})
    {
      var i: int := first;
      while i != -1
        invariant -1 <= i < |exts|
        invariant i >= 0 ==> exts[i].oid == oid
        invariant i == -1 ==> oid !in Oids(exts)
        invariant Except(exts, {oid}) == Except(old(exts), {oid})
        decreases |exts|, i
      {
        DeleteOne(exts, oid, i);
        exts := exts[..i] + exts[i + 1..];
        i := GetExt(oid);
      }
      ExceptNone(exts, {oid});
    }

    /** copy_extensions. */
    method CopyExtensions(request: seq<Ext>, t: CopyType)
      modifies this
      ensures exts == Copied(old(exts), request, t)
    {
      if t == CopyNone {
        return;
      }
      ghost var own := exts;
      NothingCopied(own);
      var i := 0;
      while i < |request|
        invariant i <= |request|
        invariant exts == Copied(own, request[..i], t)
      {
        CopyOne(request[i], t);
        assert request[..i + 1] == request[..i] + [request[i]];
        CopiedMore(own, request[..i], request[i], t);
        i := i + 1;
      }
      assert request[..i] == request;
    }

    /** One round of the loop. */
    method CopyOne(ext: Ext, t: CopyType)
      requires t != CopyNone
      modifies this
      ensures exts == WithOne(old(exts), ext, t)
    {
      var idx := GetExt(ext.oid);
      if idx != -1 {
        if t == CopyAdd {
          return;
        }
        DeleteAll(ext.oid, idx);
      } else {
        ExceptNone(exts, {ext.oid});
      }
      exts := exts + [ext];
    }
  }

  /** The extensions after one more of the request has been considered. */
  function WithOne(x: seq<Ext>, e: Ext, t: CopyType): seq<Ext>
  {
    if t == CopyAll then Except(x, {e.oid}) + [e]
    else if e.oid in Oids(x) then x
    else x + [e]
  }

  lemma CopiedMore(own: seq<Ext>, s: seq<Ext>, e: Ext, t: CopyType)
    requires t != CopyNone
    ensures Copied(own, s + [e], t) == WithOne(Copied(own, s, t), e, t)
  {
    if t == CopyAdd {
      CopiedAddMore(own, s, e);
    } else {
      CopiedAllMore(own, s, e);
    }
  }

  lemma DeleteOne(s: seq<Ext>, oid: nat, i: nat)
    requires i < |s| && s[i].oid == oid
    ensures Except(s[..i] + s[i + 1..], {oid}) == Except(s, {oid})
  {
    Around(s, i);
    ExceptAppend(s[..i], s[i + 1..], {oid});
    ExceptAppend(s[..i], [s[i]] + s[i + 1..], {oid});
    ExceptFirst(s[i], s[i + 1..], {oid});
  }

  lemma Around(s: seq<Ext>, i: nat)
    requires i < |s|
    ensures s[..i] + ([s[i]] + s[i + 1..]) == s
  {
  }

  lemma ExceptFirst(e: Ext, s: seq<Ext>, oids: set<nat>)
    requires e.oid in oids
    ensures Except([e] + s, oids) == Except(s, oids)
  {
    assert ([e] + s)[1..] == s;
  }

  lemma NothingCopied(own: seq<Ext>)
    ensures Copied(own, [], CopyAdd) == own && Copied(own, [], CopyAll) == own
  {
    ExceptNone(own, {});
    assert Oids([]) == {};
  }

  // ----- what it means for the certificate

  /** The entry is in the list, and the first one there with its identifier. */
  ghost predicate IsFirst(s: seq<Ext>, e: Ext)
  {
    exists i :: 0 <= i < |s| && s[i] == e && forall j :: 0 <= j < i ==> s[j].oid != e.oid
  }

  /** The entry is in the list, and the last one there with its identifier. */
  ghost predicate IsLast(s: seq<Ext>, e: Ext)
  {
    exists i :: 0 <= i < |s| && s[i] == e && forall j :: i < j < |s| ==> s[j].oid != e.oid
  }

  lemma FirstFurtherOn(s: seq<Ext>, e: Ext)
    requires s != [] && s[0].oid != e.oid && IsFirst(s[1..], e)
    ensures IsFirst(s, e)
  {
    var i :| 0 <= i < |s[1..]| && s[1..][i] == e && forall j :: 0 <= j < i ==> s[1..][j].oid != e.oid;
    assert s[i + 1] == e;
    assert forall j :: 1 <= j < i + 1 ==> s[j] == s[1..][j - 1];
  }

  lemma LastFurtherOn(s: seq<Ext>, e: Ext)
    requires s != [] && IsLast(s[1..], e)
    ensures IsLast(s, e)
  {
    var i :| 0 <= i < |s[1..]| && s[1..][i] == e && forall j :: i < j < |s[1..]| ==> s[1..][j].oid != e.oid;
    assert s[i + 1] == e;
    assert forall j :: i + 1 < j < |s| ==> s[j] == s[1..][j - 1];
  }

  lemma {:induction false} FirstOnesAreFirst(s: seq<Ext>, oids: set<nat>, e: Ext)
    requires e in FirstOnes(s, oids)
    ensures IsFirst(s, e)
  {
    if s[0].oid in oids || e != s[0] {
      var seen := oids + {s[0].oid};
      assert s[0].oid in oids ==> seen == oids;
      FirstOnesMeaning(s[1..], seen);
      assert e in FirstOnes(s[1..], seen) && e.oid in Oids(FirstOnes(s[1..], seen));
      FirstOnesAreFirst(s[1..], seen, e);
      FirstFurtherOn(s, e);
    }
  }

  lemma {:induction false} LastOnesAreLast(s: seq<Ext>, e: Ext)
    requires e in LastOnes(s)
    ensures IsLast(s, e)
  {
    if e in LastOnes(s[1..]) {
      LastOnesAreLast(s[1..], e);
      LastFurtherOn(s, e);
    } else {
      assert e == s[0];
      assert forall j :: 0 < j < |s| ==> s[j] == s[1..][j - 1] && s[j].oid in Oids(s[1..]);
    }
  }

  lemma {:induction false} FirstOnesMeaning(s: seq<Ext>, oids: set<nat>)
    ensures Oids(FirstOnes(s, oids)) == Oids(s) - oids
    ensures forall e :: e in FirstOnes(s, oids) ==> e in s
    ensures forall i, j :: 0 <= i < j < |FirstOnes(s, oids)| ==> FirstOnes(s, oids)[i].oid != FirstOnes(s, oids)[j].oid
  {
    if s != [] {
      assert s == [s[0]] + s[1..];
      OidsOf([s[0]], s[1..]);
      OidsOne(s[0]);
      if s[0].oid in oids {
        FirstOnesMeaning(s[1..], oids);
      } else {
        var rest := FirstOnes(s[1..], oids + {s[0].oid});
        FirstOnesMeaning(s[1..], oids + {s[0].oid});
        OidsOf([s[0]], rest);
        forall k | 0 <= k < |rest|
          ensures rest[k].oid != s[0].oid
        {
          assert rest[k] in rest && rest[k].oid in Oids(rest);
        }
      }
    }
  }

  lemma {:induction false} LastOnesMeaning(s: seq<Ext>)
    ensures Oids(LastOnes(s)) == Oids(s)
    ensures forall e :: e in LastOnes(s) ==> e in s
    ensures forall i, j :: 0 <= i < j < |LastOnes(s)| ==> LastOnes(s)[i].oid != LastOnes(s)[j].oid
  {
    if s != [] {
      assert s == [s[0]] + s[1..];
      OidsOf([s[0]], s[1..]);
      OidsOne(s[0]);
      LastOnesMeaning(s[1..]);
      var rest := LastOnes(s[1..]);
      OidsOf([s[0]], rest);
      if s[0].oid !in Oids(s[1..]) {
        forall k | 0 <= k < |rest|
          ensures rest[k].oid != s[0].oid
        {
          assert rest[k] in rest && rest[k].oid in Oids(rest);
        }
      }
    }
  }

  /** Both ways of copying end with every identifier that either side had, and the
      copied part holds no identifier twice. */
  lemma CopiedOids(own: seq<Ext>, request: seq<Ext>, t: CopyType)
    requires t != CopyNone
    ensures Oids(Copied(own, request, t)) == Oids(own) + Oids(request)
  {
    if t == CopyAdd {
      FirstOnesMeaning(request, Oids(own));
      OidsOf(own, FirstOnes(request, Oids(own)));
    } else {
      LastOnesMeaning(request);
      ExceptOids(own, Oids(request));
      OidsOf(Except(own, Oids(request)), LastOnes(request));
    }
  }

  /** Which entries the certificate ends with: adding keeps its own and takes the first
      of every identifier it lacks; replacing takes the last of every identifier in the
      request and keeps the rest of its own. */
  lemma CopiedEntries(own: seq<Ext>, request: seq<Ext>, e: Ext)
    ensures e in Copied(own, request, CopyAdd) <==> e in own || (IsFirst(request, e) && e.oid !in Oids(own))
    ensures e in Copied(own, request, CopyAll) <==> (e in own && e.oid !in Oids(request)) || IsLast(request, e)
  {
    FirstIsKept(request, Oids(own), e);
    LastIsKept(request, e);
    ExceptEntries(own, Oids(request), e);
  }

  lemma FirstIsKept(s: seq<Ext>, oids: set<nat>, e: Ext)
    ensures e in FirstOnes(s, oids) <==> IsFirst(s, e) && e.oid !in oids
  {
    FirstOnesMeaning(s, oids);
    if IsFirst(s, e) && e.oid !in oids {
      assert e.oid in Oids(FirstOnes(s, oids));
      var f :| f in FirstOnes(s, oids) && f.oid == e.oid;
      FirstOnesAreFirst(s, oids, f);
    } else if e in FirstOnes(s, oids) {
      assert e.oid in Oids(FirstOnes(s, oids));
      FirstOnesAreFirst(s, oids, e);
    }
  }

  lemma LastIsKept(s: seq<Ext>, e: Ext)
    ensures e in LastOnes(s) <==> IsLast(s, e)
  {
    LastOnesMeaning(s);
    if IsLast(s, e) {
      assert e.oid in Oids(LastOnes(s));
      var f :| f in LastOnes(s) && f.oid == e.oid;
      LastOnesAreLast(s, f);
    } else if e in LastOnes(s) {
      LastOnesAreLast(s, e);
    }
  }

  lemma {:induction false} ExceptEntries(s: seq<Ext>, oids: set<nat>, e: Ext)
    ensures e in Except(s, oids) <==> e in s && e.oid !in oids
  {
    if s != [] {
      ExceptEntries(s[1..], oids, e);
    }
  }

  lemma {:induction false} ExceptOids(s: seq<Ext>, oids: set<nat>)
    ensures Oids(Except(s, oids)) == Oids(s) - oids
  {
    if s != [] {
      ExceptOids(s[1..], oids);
      assert s == [s[0]] + s[1..];
      OidsOf([s[0]], s[1..]);
      OidsOne(s[0]);
      OidsOf([s[0]], Except(s[1..], oids));
    }
  }

  // ----- the order of the entries

  /** r holds the entries of s at the positions to be kept, in order. */
  ghost predicate Picks(r: seq<Ext>, s: seq<Ext>, keep: nat -> bool)
  {
    exists ps: seq<nat> :: PicksAt(r, s, keep, ps)
  }

  ghost predicate PicksAt(r: seq<Ext>, s: seq<Ext>, keep: nat -> bool, ps: seq<nat>)
  {
    Chosen(ps, 0, |s|, keep) && At(r, s, ps)
  }

  /** One position more, at the front. */
  lemma PicksFront(r: seq<Ext>, s: seq<Ext>, keep: nat -> bool, later: nat -> bool)
    requires s != [] && Picks(r, s[1..], later)
    requires forall i: nat :: i < |s| - 1 ==> later(i) == keep(i + 1)
    ensures Picks(if keep(0) then [s[0]] + r else r, s, keep)
  {
    var qs :| PicksAt(r, s[1..], later, qs);
    ShiftedChosen(qs, |s| - 1, keep, later);
    ShiftedPicks(r, s, qs);
    if keep(0) {
      assert PicksAt([s[0]] + r, s, keep, [0] + Shifted(qs));
    } else {
      assert PicksAt(r, s, keep, Shifted(qs));
    }
  }

  ghost predicate At(r: seq<Ext>, s: seq<Ext>, ps: seq<nat>)
  {
    |r| == |ps| && forall i :: 0 <= i < |ps| ==> ps[i] < |s| && r[i] == s[ps[i]]
  }

  lemma ShiftedPicks(r: seq<Ext>, s: seq<Ext>, qs: seq<nat>)
    requires s != [] && At(r, s[1..], qs)
    ensures At(r, s, Shifted(qs)) && At([s[0]] + r, s, [0] + Shifted(qs))
  {
    var ps := Shifted(qs);
    forall i | 0 <= i < |ps|
      ensures ps[i] < |s| && r[i] == s[ps[i]]
    {
      assert r[i] == s[1..][qs[i]];
    }
    assert At([s[0]] + r, s, [0] + ps) by {
      assert forall i :: 1 <= i < |ps| + 1 ==> ([0] + ps)[i] == ps[i - 1] && ([s[0]] + r)[i] == r[i - 1];
    }
  }

  ghost function Shifted(qs: seq<nat>): (ps: seq<nat>)
    ensures |ps| == |qs| && forall k :: 0 <= k < |qs| ==> ps[k] == qs[k] + 1
  {
    seq(|qs|, k requires 0 <= k < |qs| => qs[k] + 1)
  }

  lemma ShiftedIn(qs: seq<nat>, p: nat)
    ensures p in Shifted(qs) <==> p > 0 && p - 1 in qs
  {
    var ps := Shifted(qs);
    if p > 0 && p - 1 in qs {
      var k :| 0 <= k < |qs| && qs[k] == p - 1;
      assert ps[k] == p;
    }
    if p in ps {
      var k :| 0 <= k < |ps| && ps[k] == p;
      assert qs[k] == p - 1;
    }
  }

  lemma ShiftedChosen(qs: seq<nat>, n: nat, keep: nat -> bool, later: nat -> bool)
    requires Chosen(qs, 0, n, later) && forall i: nat :: i < n ==> later(i) == keep(i + 1)
    ensures Chosen(if keep(0) then [0] + Shifted(qs) else Shifted(qs), 0, n + 1, keep)
  {
    var ps := if keep(0) then [0] + Shifted(qs) else Shifted(qs);
    forall p: nat
      ensures p in ps <==> p < n + 1 && keep(p)
    {
      assert p in ps <==> (keep(0) && p == 0) || p in Shifted(qs);
      ShiftedIn(qs, p);
      if p > 0 {
        assert p - 1 in qs <==> p - 1 < n && later(p - 1);
      }
    }
  }

  ghost predicate Has(s: seq<Ext>, oid: nat)
  {
    exists j :: 0 <= j < |s| && s[j].oid == oid
  }

  lemma HasIs(s: seq<Ext>, oid: nat)
    ensures Has(s, oid) <==> oid in Oids(s)
  {
    if oid in Oids(s) {
      var e :| e in s && e.oid == oid;
      var j :| 0 <= j < |s| && s[j] == e;
    }
  }

  /** Position i has the first entry of its identifier, and none of those given has it. */
  ghost function FirstAt(s: seq<Ext>, own: seq<Ext>): nat -> bool
  {
    (i: nat) => i < |s| && !Has(own, s[i].oid) && !Has(s[..i], s[i].oid)
  }

  /** Position i has the last entry of its identifier. */
  ghost function LastAt(s: seq<Ext>): nat -> bool
  {
    (i: nat) => i < |s| && !Has(s[i + 1..], s[i].oid)
  }

  ghost function NotIn(s: seq<Ext>, request: seq<Ext>): nat -> bool
  {
    (i: nat) => i < |s| && !Has(request, s[i].oid)
  }

  lemma HasFront(s: seq<Ext>, e: Ext, oid: nat)
    ensures Has([e] + s, oid) <==> e.oid == oid || Has(s, oid)
  {
    var t := [e] + s;
    assert t[0] == e;
    if Has(s, oid) {
      var j :| 0 <= j < |s| && s[j].oid == oid;
      assert t[j + 1].oid == oid;
    }
  }

  lemma {:induction false} FirstOnesInOrder(s: seq<Ext>, own: seq<Ext>)
    ensures Picks(FirstOnes(s, Oids(own)), s, FirstAt(s, own))
  {
    if s == [] {
      assert PicksAt([], s, FirstAt(s, own), []);
    } else {
      var rest, keep := s[1..], FirstAt(s, own);
      HasIs(own, s[0].oid);
      var more := if keep(0) then own + [s[0]] else own;
      FirstOnesInOrder(rest, more);
      OidsOf(own, [s[0]]);
      OidsOne(s[0]);
      forall i: nat | i < |rest|
        ensures FirstAt(rest, more)(i) == keep(i + 1)
      {
        SameFirst(s, own, i);
      }
      PicksFront(FirstOnes(rest, Oids(more)), s, keep, FirstAt(rest, more));
    }
  }

  lemma SameFirst(s: seq<Ext>, own: seq<Ext>, i: nat)
    requires i + 1 < |s|
    ensures var more := if FirstAt(s, own)(0) then own + [s[0]] else own;
            FirstAt(s[1..], more)(i) == FirstAt(s, own)(i + 1)
  {
    var rest, oid := s[1..], s[i + 1].oid;
    assert rest[i] == s[i + 1] && s[..i + 1] == [s[0]] + rest[..i];
    HasFront(rest[..i], s[0], oid);
    HasBack(own, s[0], oid);
    HasIs(own, s[0].oid);
  }

  lemma HasBack(s: seq<Ext>, e: Ext, oid: nat)
    ensures Has(s + [e], oid) <==> Has(s, oid) || e.oid == oid
  {
    HasIs(s, oid);
    HasIs(s + [e], oid);
    OidsOf(s, [e]);
    OidsOne(e);
  }

  lemma SameLast(s: seq<Ext>)
    requires s != []
    ensures LastAt(s)(0) <==> s[0].oid !in Oids(s[1..])
    ensures forall i: nat :: i < |s| - 1 ==> LastAt(s[1..])(i) == LastAt(s)(i + 1)
  {
    HasIs(s[1..], s[0].oid);
    forall i: nat | i < |s| - 1
      ensures LastAt(s[1..])(i) == LastAt(s)(i + 1)
    {
      assert s[1..][i + 1..] == s[i + 2..];
    }
  }

  lemma {:induction false} LastOnesInOrder(s: seq<Ext>)
    ensures Picks(LastOnes(s), s, LastAt(s))
  {
    if s == [] {
      assert PicksAt([], s, LastAt(s), []);
    } else {
      LastOnesInOrder(s[1..]);
      SameLast(s);
      PicksFront(LastOnes(s[1..]), s, LastAt(s), LastAt(s[1..]));
    }
  }

  lemma {:induction false} ExceptInOrder(s: seq<Ext>, request: seq<Ext>)
    ensures Picks(Except(s, Oids(request)), s, NotIn(s, request))
  {
    if s == [] {
      assert PicksAt([], s, NotIn(s, request), []);
    } else {
      ExceptInOrder(s[1..], request);
      HasIs(request, s[0].oid);
      PicksFront(Except(s[1..], Oids(request)), s, NotIn(s, request), NotIn(s[1..], request));
    }
  }

  /** What the certificate carries, by positions: its own entries, those that are replaced
      left out, and then the entries copied from the request in the order of the request. */
  lemma CopiedInOrder(own: seq<Ext>, request: seq<Ext>) returns (kept: seq<Ext>, first: seq<Ext>, last: seq<Ext>)
    ensures Copied(own, request, CopyNone) == own
    ensures Copied(own, request, CopyAdd) == own + first && Picks(first, request, FirstAt(request, own))
    ensures Copied(own, request, CopyAll) == kept + last && Picks(kept, own, NotIn(own, request))
            && Picks(last, request, LastAt(request))
  {
    kept, first, last := Except(own, Oids(request)), FirstOnes(request, Oids(own)), LastOnes(request);
    ExceptInOrder(own, request);
    FirstOnesInOrder(request, own);
    LastOnesInOrder(request);
  }
}
