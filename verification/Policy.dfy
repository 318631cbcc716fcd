/** From the subject of a request to the subject of the certificate: the policy
    loop of do_body with its "search after this index" cursors, and the removal of
    e-mail entries (apps/ca.c:1595-1696, 1714-1731). */
module Policy {
  import opened Prelude

  /** A name entry: the object identifier, and the string with its ASN.1 type.
      ASN1_STRING_cmp is zero exactly on equal strings of one type. */
  datatype Entry = Entry(oid: nat, kind: int, data: string)

  type Name = seq<Entry>

  /** One line of the policy section. */
  datatype Field = Field(name: string, keyword: string)

  datatype Rule = Optional | Supplied | Match | Invalid

  function RuleOf(keyword: string): Rule
  {
    if keyword == "optional" then Optional
    else if keyword == "supplied" then Supplied
    else if keyword == "match" then Match
    else Invalid
  }

  /** OBJ_txt2nid: None stands for NID_undef. */
  type NidLookup = string -> Option<nat>

  // ----- X509_NAME_get_index_by_OBJ

  /** The first entry from position i on with the given identifier, or |n|. */
  function NextFrom(n: Name, oid: nat, i: nat): (j: nat)
    requires i <= |n|
    ensures i <= j <= |n|
    ensures j < |n| ==> n[j].oid == oid
    ensures forall k :: i <= k < j ==> n[k].oid != oid
    decreases |n| - i
  {
    if i == |n| || n[i].oid == oid then i else NextFrom(n, oid, i + 1)
  }

  /** The search after position `last`, which is -1 to start; -1 when there is none. */
  method GetIndex(n: Name, oid: nat, last: int) returns (j: int)
    requires -1 <= last < |n|
    ensures var k := NextFrom(n, oid, last + 1); j == if k == |n| then -1 else k
  {
    var i := last + 1;
    while i < |n|
      invariant last + 1 <= i <= |n|
      invariant NextFrom(n, oid, last + 1) == NextFrom(n, oid, i)
    {
      if n[i].oid == oid {
        return i;
      }
      i := i + 1;
    }
    j := -1;
  }

  // ----- what the loop is meant to do

  /** The entries from position i on with the given identifier, in order. */
  function Taken(n: Name, oid: nat, i: nat): (t: Name)
    requires i <= |n|
    decreases |n| - i
  {
    if i == |n| then []
    else if n[i].oid == oid then [n[i]] + Taken(n, oid, i + 1)
    else Taken(n, oid, i + 1)
  }

  /** The request's entries of one identifier satisfy a rule. */
  ghost predicate Satisfies(rule: Rule, wanted: Name, ca: Name)
  {
    match rule
    case Optional => true
    case Supplied => wanted != []
    case Match => wanted != [] && forall e :: e in wanted ==> e in ca
    case Invalid => false
  }

  /** One policy line is met by the request and the authority's name. */
  ghost predicate Meets(nids: NidLookup, f: Field, request: Name, ca: Name)
  {
    nids(f.name).Some? && Satisfies(RuleOf(f.keyword), Taken(request, nids(f.name).value, 0), ca)
  }

  /** The subject: for each policy line, all entries of its identifier. */
  function Subject(nids: NidLookup, policy: seq<Field>, request: Name, n: nat): Name
    requires n <= |policy|
  {
    if n == 0 then []
    else
      var id := nids(policy[n - 1].name);
      Subject(nids, policy, request, n - 1) + if id.None? then [] else Taken(request, id.value, 0)
  }

  lemma {:induction false} TakenFromNext(n: Name, oid: nat, i: nat)
    requires i <= |n|
    ensures var j := NextFrom(n, oid, i);
            Taken(n, oid, i) == if j == |n| then [] else [n[j]] + Taken(n, oid, j + 1)
    decreases |n| - i
  {
    if i < |n| && n[i].oid != oid {
      TakenFromNext(n, oid, i + 1);
    }
  }

  lemma {:induction false} TakenMembers(n: Name, oid: nat, i: nat)
    requires i <= |n|
    ensures forall e :: e in Taken(n, oid, i) <==> e in n[i..] && e.oid == oid
    decreases |n| - i
  {
    if i < |n| {
      TakenMembers(n, oid, i + 1);
      assert n[i..] == [n[i]] + n[i + 1..];
    }
  }

  // ----- the loops

  /** The again2 loop: the authority's entries of one identifier are tried in turn
      until one is equal to the request's. None when there is no equal one. */
  method FindInCa(ca: Name, e: Entry) returns (push: Option<Entry>)
    ensures push == if e in ca then Some(e) else None
  {
    var last2 := -1;
    while true
      invariant -1 <= last2 < |ca|
      invariant forall k :: 0 <= k <= last2 ==> ca[k] != e
      decreases |ca| - last2
    {
      var j := GetIndex(ca, e.oid, last2);
      if j < 0 {
        return None;
      }
      last2 := j;
      if ca[j].kind == e.kind && ca[j].data == e.data {
        return Some(ca[j]);
      }
    }
  }

  /** The inner loop over the request's entries of one identifier. The cursor stays
      a position in the request even when the authority's name has been searched. */
  method TakeField(rule: Rule, oid: nat, request: Name, ca: Name) returns (r: Option<Name>)
    ensures r.Some? <==> Satisfies(rule, Taken(request, oid, 0), ca)
    ensures r.Some? ==> r.value == Taken(request, oid, 0)
  {
    ghost var all := Taken(request, oid, 0);
    var last := -1;
    var subject: Name := [];
    while true
      invariant -1 <= last < |request|
      invariant all == subject + Taken(request, oid, last + 1)
      invariant last == -1 <==> subject == []
      invariant subject != [] ==> Satisfies(rule, subject, ca)
      decreases |request| - last
    {
      var j := GetIndex(request, oid, last);
      TakenFromNext(request, oid, last + 1);
      if j < 0 && last != -1 {
        break;
      }
      var tne := if j < 0 then None else Some(request[j]);
      if tne.None? {
        if rule != Optional {
          return None;
        }
        break;
      }
      last := j;
      var push := tne;
      if rule == Match {
        push := FindInCa(ca, tne.value);
        if push.None? {
          assert tne.value in all;
          return None;
        }
      } else if rule == Invalid {
        return None;
      }
      assert all == (subject + [push.value]) + Taken(request, oid, last + 1);
      subject := subject + [push.value];
    }
    r := Some(subject);
  }

  /** The policy loop. It succeeds exactly when every line is met, and the subject is
      then the request's entries in policy order. */
  method ApplyPolicy(nids: NidLookup, policy: seq<Field>, request: Name, ca: Name) returns (r: Option<Name>)
    ensures r.Some? <==> forall i :: 0 <= i < |policy| ==> Meets(nids, policy[i], request, ca)
    ensures r.Some? ==> r.value == Subject(nids, policy, request, |policy|)
    ensures r.Some? ==>
              forall i, e :: (0 <= i < |policy| && policy[i].keyword == "match" && e in r.value
                              && nids(policy[i].name) == Some(e.oid)) ==> e in ca
  {
    var subject: Name := [];
    var i := 0;
    while i < |policy|
      invariant i <= |policy|
      invariant forall k :: 0 <= k < i ==> Meets(nids, policy[k], request, ca)
      invariant subject == Subject(nids, policy, request, i)
    {
      var id := nids(policy[i].name);
      if id.None? {
        assert !Meets(nids, policy[i], request, ca);
        return None;
      }
      var part := TakeField(RuleOf(policy[i].keyword), id.value, request, ca);
      if part.None? {
        assert !Meets(nids, policy[i], request, ca);
        return None;
      }
      subject := subject + part.value;
      i := i + 1;
    }
    r := Some(subject);
    forall i, e |
      0 <= i < |policy| && policy[i].keyword == "match" && e in subject && nids(policy[i].name) == Some(e.oid)
      ensures e in ca
    {
      MatchedAreInCa(nids, policy, request, ca, i, e);
    }
  }

  // ----- consequences

  /** When the request is its own authority, "match" is "supplied". */
  lemma SelfSignedMatchIsSupplied(nids: NidLookup, name: string, request: Name)
    ensures Meets(nids, Field(name, "match"), request, request) <==>
            Meets(nids, Field(name, "supplied"), request, request)
  {
    KeywordsMean(nids, Field(name, "match"), request, request);
    KeywordsMean(nids, Field(name, "supplied"), request, request);
  }

  /** The subject is made of request entries, and holds every request entry whose
      identifier the policy names; whatever the policy requires to match is also in
      the authority's name. */
  lemma {:induction false} SubjectMembers(nids: NidLookup, policy: seq<Field>, request: Name, n: nat)
    requires n <= |policy|
    ensures forall e :: e in Subject(nids, policy, request, n) <==>
              e in request && exists i :: 0 <= i < n && nids(policy[i].name) == Some(e.oid)
  {
    if n > 0 {
      SubjectMembers(nids, policy, request, n - 1);
      var id := nids(policy[n - 1].name);
      if id.Some? {
        TakenMembers(request, id.value, 0);
        assert request[0..] == request;
      }
    }
  }

  /** What the keywords ask of the request and of the authority's name, entry by entry. */
  lemma KeywordsMean(nids: NidLookup, f: Field, request: Name, ca: Name)
    ensures Meets(nids, f, request, ca) <==>
            && nids(f.name).Some?
            && var o := nids(f.name).value;
               || f.keyword == "optional"
               || (f.keyword == "supplied" && exists e :: e in request && e.oid == o)
               || (f.keyword == "match" && (exists e :: e in request && e.oid == o)
                   && forall e :: e in request && e.oid == o ==> e in ca)
  {
    if nids(f.name).Some? {
      var o := nids(f.name).value;
      var t := Taken(request, o, 0);
      TakenMembers(request, o, 0);
      assert request[0..] == request;
      if t != [] {
        assert t[0] in t;
      } else {
        assert forall e :: e !in t;
      }
    }
  }

  /** What the policy requires to match is in the authority's name. */
  lemma MatchedAreInCa(nids: NidLookup, policy: seq<Field>, request: Name, ca: Name, i: nat, e: Entry)
    requires i < |policy| && Meets(nids, policy[i], request, ca) && policy[i].keyword == "match"
    requires e in Subject(nids, policy, request, |policy|) && nids(policy[i].name) == Some(e.oid)
    ensures e in ca
  {
    SubjectMembers(nids, policy, request, |policy|);
    KeywordsMean(nids, policy[i], request, ca);
  }

  /** The positions of the entries that are taken for one policy line. */
  lemma TakenPositions(n: Name, oid: nat, hi: nat) returns (ps: seq<nat>)
    requires hi <= |n|
    ensures Chosen(ps, 0, hi, (p: nat) => p < |n| && n[p].oid == oid)
    ensures |Taken(n[..hi], oid, 0)| == |ps|
    ensures forall k :: 0 <= k < |ps| ==> ps[k] < |n| && Taken(n[..hi], oid, 0)[k] == n[ps[k]]
  {
    ps := [];
    var i := 0;
    var keep := (p: nat) => p < |n| && n[p].oid == oid;
    while i < hi
      invariant i <= hi && Chosen(ps, 0, i, keep)
      invariant |Taken(n[..i], oid, 0)| == |ps|
      invariant forall k :: 0 <= k < |ps| ==> ps[k] < |n| && Taken(n[..i], oid, 0)[k] == n[ps[k]]
    {
      assert n[..i + 1] == n[..i] + [n[i]];
      TakenAppended(n[..i], n[i], oid, 0);
      ps := ChosenOneMore(ps, 0, i, keep);
      i := i + 1;
    }
  }

  lemma {:induction false} TakenAppended(n: Name, e: Entry, oid: nat, i: nat)
    requires i <= |n|
    ensures Taken(n + [e], oid, i) == Taken(n, oid, i) + if e.oid == oid then [e] else []
    decreases |n| - i
  {
    if i < |n| {
      TakenAppended(n, e, oid, i + 1);
    } else {
      assert Taken(n + [e], oid, |n| + 1) == [];
    }
  }

  /** Lines come in policy order, and the entries of a line in request order. */
  ghost predicate LineByLine(fs: seq<nat>, ps: seq<nat>)
    requires |fs| == |ps|
  {
    forall j, k :: 0 <= j < k < |ps| ==> fs[j] < fs[k] || (fs[j] == fs[k] && ps[j] < ps[k])
  }

  /** Entry k of the subject is the request's entry ps[k], which policy line fs[k]
      names. */
  ghost predicate TakenFor(subject: Name, nids: NidLookup, policy: seq<Field>, request: Name, fs: seq<nat>,
                           ps: seq<nat>)
  {
    && |fs| == |ps| == |subject|
    && forall k :: 0 <= k < |ps| ==> fs[k] < |policy| && ps[k] < |request| && subject[k] == request[ps[k]]
                                     && nids(policy[fs[k]].name) == Some(request[ps[k]].oid)
  }

  /** Every entry that one of the first n lines names is there for that line. */
  ghost predicate Complete(nids: NidLookup, policy: seq<Field>, request: Name, n: nat, fs: seq<nat>, ps: seq<nat>)
    requires |fs| == |ps| && n <= |policy|
  {
    forall f, p :: 0 <= f < n && 0 <= p < |request| && nids(policy[f].name) == Some(request[p].oid) ==>
      exists k :: 0 <= k < |ps| && fs[k] == f && ps[k] == p
  }

  /** The subject by positions. */
  ghost predicate InPolicyOrder(subject: Name, nids: NidLookup, policy: seq<Field>, request: Name, n: nat,
                                fs: seq<nat>, ps: seq<nat>)
    requires n <= |policy|
  {
    && TakenFor(subject, nids, policy, request, fs, ps) && LineByLine(fs, ps)
    && (forall k :: 0 <= k < |fs| ==> fs[k] < n) && Complete(nids, policy, request, n, fs, ps)
  }

  lemma {:induction false} SubjectInOrder(nids: NidLookup, policy: seq<Field>, request: Name, n: nat)
    returns (fs: seq<nat>, ps: seq<nat>)
    requires n <= |policy|
    ensures InPolicyOrder(Subject(nids, policy, request, n), nids, policy, request, n, fs, ps)
  {
    fs, ps := [], [];
    if n > 0 {
      fs, ps := SubjectInOrder(nids, policy, request, n - 1);
      var id := nids(policy[n - 1].name);
      if id.Some? {
        var qs := TakenPositions(request, id.value, |request|);
        assert request[..|request|] == request;
        var gs := seq(|qs|, i => n - 1);
        LineAppended(Subject(nids, policy, request, n - 1), nids, policy, request, n - 1, fs, ps,
                     Taken(request, id.value, 0), gs, qs);
        fs, ps := fs + gs, ps + qs;
      } else {
        assert InPolicyOrder(Subject(nids, policy, request, n - 1), nids, policy, request, n, fs, ps);
      }
    }
  }

  /** One policy line more. */
  lemma LineAppended(subject: Name, nids: NidLookup, policy: seq<Field>, request: Name, n: nat, fs: seq<nat>,
                     ps: seq<nat>, taken: Name, gs: seq<nat>, qs: seq<nat>)
    requires n < |policy| && InPolicyOrder(subject, nids, policy, request, n, fs, ps)
    requires nids(policy[n].name).Some?
    requires |gs| == |qs| == |taken| && forall k :: 0 <= k < |gs| ==> gs[k] == n
    requires Chosen(qs, 0, |request|, (p: nat) => p < |request| && request[p].oid == nids(policy[n].name).value)
    requires forall k :: 0 <= k < |qs| ==> qs[k] < |request| && taken[k] == request[qs[k]]
    ensures InPolicyOrder(subject + taken, nids, policy, request, n + 1, fs + gs, ps + qs)
  {
    LineIsTaken(subject, nids, policy, request, fs, ps, taken, n, gs, qs);
    LineComesLast(fs, ps, n, gs, qs);
    LineIsComplete(nids, policy, request, n, fs, ps, gs, qs);
    assert forall k :: 0 <= k < |fs + gs| ==> (fs + gs)[k] < n + 1;
  }

  lemma LineIsTaken(subject: Name, nids: NidLookup, policy: seq<Field>, request: Name, fs: seq<nat>, ps: seq<nat>,
                    taken: Name, n: nat, gs: seq<nat>, qs: seq<nat>)
    requires n < |policy| && TakenFor(subject, nids, policy, request, fs, ps) && nids(policy[n].name).Some?
    requires |gs| == |qs| == |taken| && forall k :: 0 <= k < |gs| ==> gs[k] == n
    requires Chosen(qs, 0, |request|, (p: nat) => p < |request| && request[p].oid == nids(policy[n].name).value)
    requires forall k :: 0 <= k < |qs| ==> qs[k] < |request| && taken[k] == request[qs[k]]
    ensures TakenFor(subject + taken, nids, policy, request, fs + gs, ps + qs)
  {
    forall k | 0 <= k < |qs|
      ensures request[qs[k]].oid == nids(policy[n].name).value
    {
      assert qs[k] in qs;
    }
  }

  lemma LineComesLast(fs: seq<nat>, ps: seq<nat>, n: nat, gs: seq<nat>, qs: seq<nat>)
    requires |fs| == |ps| && |gs| == |qs| && LineByLine(fs, ps) && forall k :: 0 <= k < |fs| ==> fs[k] < n
    requires forall k :: 0 <= k < |gs| ==> gs[k] == n
    requires forall j, k :: 0 <= j < k < |qs| ==> qs[j] < qs[k]
    ensures LineByLine(fs + gs, ps + qs)
  {
  }

  lemma LineIsComplete(nids: NidLookup, policy: seq<Field>, request: Name, n: nat, fs: seq<nat>, ps: seq<nat>,
                       gs: seq<nat>, qs: seq<nat>)
    requires n < |policy| && |fs| == |ps| && |gs| == |qs| && forall k :: 0 <= k < |gs| ==> gs[k] == n
    requires nids(policy[n].name).Some? && Complete(nids, policy, request, n, fs, ps)
    requires Chosen(qs, 0, |request|, (p: nat) => p < |request| && request[p].oid == nids(policy[n].name).value)
    ensures Complete(nids, policy, request, n + 1, fs + gs, ps + qs)
  {
    var f', p' := fs + gs, ps + qs;
    forall f, p | 0 <= f < n + 1 && 0 <= p < |request| && nids(policy[f].name) == Some(request[p].oid)
      ensures exists k :: 0 <= k < |p'| && f'[k] == f && p'[k] == p
    {
      if f < n {
        var k :| 0 <= k < |ps| && fs[k] == f && ps[k] == p;
        assert f'[k] == f && p'[k] == p;
      } else {
        assert p in qs;
        var k :| 0 <= k < |qs| && qs[k] == p;
        assert f'[|ps| + k] == f && p'[|ps| + k] == p;
      }
    }
  }

  // ----- leaving e-mail addresses out

  /** The name without the entries of one identifier. */
  function Without(n: Name, oid: nat): Name
  {
    if n == [] then [] else
      var last := |n| - 1;
      Without(n[..last], oid) + if n[last].oid == oid then [] else [n[last]]
  }

  /** Deleting one such entry does not change what is left in the end. */
  lemma {:induction false} WithoutDeleted(n: Name, oid: nat, i: nat)
    requires i < |n| && n[i].oid == oid
    ensures Without(n[..i] + n[i + 1..], oid) == Without(n, oid)
  {
    var last := |n| - 1;
    var d := n[..i] + n[i + 1..];
    if i == last {
      assert d == n[..last];
    } else {
      WithoutDeleted(n[..last], oid, i);
      assert d[..|d| - 1] == n[..last][..i] + n[..last][i + 1..];
      assert d[|d| - 1] == n[last];
    }
  }

  lemma {:induction false} WithoutNone(n: Name, oid: nat)
    requires forall i :: 0 <= i < |n| ==> n[i].oid != oid
    ensures Without(n, oid) == n
  {
    if n != [] {
      WithoutNone(n[..|n| - 1], oid);
    }
  }

  /** The loop that deletes e-mail entries one at a time, searching from the start
      each time. */
  method DropEntries(n: Name, oid: nat) returns (r: Name)
    ensures r == Without(n, oid)
  {
    r := n;
    while true
      invariant Without(r, oid) == Without(n, oid)
      decreases |r|
    {
      var i := GetIndex(r, oid, -1);
      if i < 0 {
        WithoutNone(r, oid);
        return;
      }
      WithoutDeleted(r, oid, i);
      r := r[..i] + r[i + 1..];
    }
  }

  /** What is left are the entries with another identifier, in their order. */
  lemma WithoutPositions(n: Name, oid: nat, hi: nat) returns (ps: seq<nat>)
    requires hi <= |n|
    ensures Chosen(ps, 0, hi, (p: nat) => p < |n| && n[p].oid != oid)
    ensures |Without(n[..hi], oid)| == |ps|
    ensures forall k :: 0 <= k < |ps| ==> ps[k] < |n| && Without(n[..hi], oid)[k] == n[ps[k]]
  {
    ps := [];
    var i := 0;
    var keep := (p: nat) => p < |n| && n[p].oid != oid;
    while i < hi
      invariant i <= hi && Chosen(ps, 0, i, keep)
      invariant |Without(n[..i], oid)| == |ps|
      invariant forall k :: 0 <= k < |ps| ==> ps[k] < |n| && Without(n[..i], oid)[k] == n[ps[k]]
    {
      assert n[..i + 1][..i] == n[..i];
      ps := ChosenOneMore(ps, 0, i, keep);
      i := i + 1;
    }
  }
}
