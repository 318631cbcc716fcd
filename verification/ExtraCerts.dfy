/** Extra certificates given with -xcert, -xkey and the like: a doubly linked list
    that grows at the head and is walked backwards from its tail
    (apps/s_cb.c:1006-1093, 1135-1215). */
module ExtraCerts {
  import opened Prelude

  const FORMAT_PEM := 3

  /** What the command line says about one certificate. */
  datatype Record = Record(cert: Option<string>, key: Option<string>, chain: Option<string>,
                           certForm: int, keyForm: int, buildChain: bool)

  const BLANK := Record(None, None, None, FORMAT_PEM, FORMAT_PEM, false)

  datatype Opt =
    | XCert(arg: Option<string>)
    | XKey(arg: Option<string>)
    | XChain(arg: Option<string>)
    | XChainBuild
    | XCertForm(arg: Option<string>)
    | XKeyForm(arg: Option<string>)
    | Unknown

  /** What args_excert answers: the option is not one of these, it is badly used, or
      it has been taken. */
  datatype Answer = NotOurs | Bad | Taken

  // ----- the command line as a list of records

  /** The record that prepending starts: the formats are handed on. */
  function Fresh(rs: seq<Record>): Record
  {
    if rs == [] then BLANK
    else BLANK.(certForm := rs[|rs| - 1].certForm, keyForm := rs[|rs| - 1].keyForm)
  }

  function WithLast(rs: seq<Record>, r: Record): seq<Record>
    requires rs != []
  {
    rs[|rs| - 1 := r]
  }

  /** What an option does to the record it is about: refuse it, change it, start a
      new one for a certificate, or give the whole list up. `fmt` is str2fmt. */
  datatype Effect = Refuse(answer: Answer) | Change(rec: Record) | Start(cert: Option<string>) | GiveUp

  function EffectOn(r: Record, o: Opt, fmt: string -> int): Effect
  {
    match o
    case Unknown => Refuse(NotOurs)
    case XCert(a) => if a.None? then Refuse(Bad) else if r.cert.Some? then Start(a) else Change(r.(cert := a))
    case XKey(a) => if a.None? || r.key.Some? then Refuse(Bad) else Change(r.(key := a))
    case XChain(a) => if a.None? || r.chain.Some? then Refuse(Bad) else Change(r.(chain := a))
    case XChainBuild => Change(r.(buildChain := true))
    case XCertForm(a) => if a.None? then GiveUp else Change(r.(certForm := fmt(a.value)))
    case XKeyForm(a) => if a.None? then GiveUp else Change(r.(keyForm := fmt(a.value)))
  }

  function Last(rs: seq<Record>): Record
    requires rs != []
  {
    rs[|rs| - 1]
  }

  /** The list is never empty when an option is looked at. */
  function Begun(rs: seq<Record>): (r: seq<Record>)
    ensures r != []
  {
    if rs == [] then [BLANK] else rs
  }

  function Effected(rs: seq<Record>, e: Effect): (Answer, seq<Record>)
    requires rs != []
  {
    match e
    case Refuse(a) => (a, rs)
    case Change(r) => (Taken, WithLast(rs, r))
    case Start(c) => (Taken, rs + [Fresh(rs).(cert := c)])
    case GiveUp => (Bad, [])
  }

  /** One option, on the records in command-line order: it is about the last one. */
  function Applied(rs: seq<Record>, o: Opt, fmt: string -> int): (Answer, seq<Record>)
  {
    Effected(Begun(rs), EffectOn(Last(Begun(rs)), o, fmt))
  }

  /** The records after the first n options. */
  function After(opts: seq<Opt>, fmt: string -> int, n: nat): seq<Record>
    requires n <= |opts|
  {
    if n == 0 then [] else Applied(After(opts, fmt, n - 1), opts[n - 1], fmt).1
  }

  /** The first n options are all taken. */
  predicate AllTaken(opts: seq<Opt>, fmt: string -> int, n: nat)
    requires n <= |opts|
  {
    n == 0 || (AllTaken(opts, fmt, n - 1) && Applied(After(opts, fmt, n - 1), opts[n - 1], fmt).0 == Taken)
  }

  /** The arguments of -xcert among the first n options. */
  function CertArgs(opts: seq<Opt>, n: nat): seq<Option<string>>
    requires n <= |opts|
  {
    if n == 0 then []
    else CertArgs(opts, n - 1) + if opts[n - 1].XCert? then [opts[n - 1].arg] else []
  }

  function CertsOf(rs: seq<Record>): (cs: seq<Option<string>>)
    ensures |cs| == |rs| && forall i :: 0 <= i < |rs| ==> cs[i] == rs[i].cert
  {
    seq(|rs|, i requires 0 <= i < |rs| => rs[i].cert)
  }

  /** What an option that is taken does to the certificates. */
  lemma CertsStep(rs: seq<Record>, o: Opt, fmt: string -> int)
    requires rs != [] && Effected(rs, EffectOn(Last(rs), o, fmt)).0 == Taken
    ensures CertsOf(Effected(rs, EffectOn(Last(rs), o, fmt)).1) ==
            if !o.XCert? then CertsOf(rs)
            else if Last(rs).cert.Some? then CertsOf(rs) + [o.arg]
            else CertsOf(rs)[|rs| - 1 := o.arg]
    ensures o.XCert? ==> o.arg.Some?
  {
  }

  /** The records and the -xcert arguments so far. */
  ghost predicate InOrder(certs: seq<Option<string>>, args: seq<Option<string>>)
  {
    && (args != [] ==> certs == args)
    && (args == [] ==> certs == [] || certs == [None])
    && (forall i :: 0 <= i < |args| ==> args[i].Some?)
  }

  /** After options that were all taken, the certificates of the records are the
      -xcert arguments in command-line order; before the first -xcert there is at
      most one record, without a certificate. */
  lemma {:induction false} CertsInOrder(opts: seq<Opt>, fmt: string -> int, n: nat)
    requires n <= |opts|
    requires AllTaken(opts, fmt, n)
    ensures InOrder(CertsOf(After(opts, fmt, n)), CertArgs(opts, n))
  {
    if n > 0 {
      CertsInOrder(opts, fmt, n - 1);
      InOrderStep(After(opts, fmt, n - 1), CertArgs(opts, n - 1), opts[n - 1], fmt);
    }
  }

  lemma InOrderStep(rs: seq<Record>, args: seq<Option<string>>, o: Opt, fmt: string -> int)
    requires Applied(rs, o, fmt).0 == Taken && InOrder(CertsOf(rs), args)
    ensures InOrder(CertsOf(Applied(rs, o, fmt).1), args + if o.XCert? then [o.arg] else [])
  {
    CertsStep(Begun(rs), o, fmt);
    assert CertsOf([BLANK]) == [None];
    if rs != [] {
      assert CertsOf(rs)[|rs| - 1] == Last(rs).cert;
    }
  }

  // ----- which options make up which record

  /** The record that option i is about: -xcert starts one, but the first -xcert joins
      whatever came before it. */
  ghost function Owner(opts: seq<Opt>, i: nat): nat
    requires i < |opts|
  {
    var certs := |CertArgs(opts, i + 1)|;
    if certs == 0 then 0 else certs - 1
  }

  ghost function ArgOf(o: Opt): Option<string>
  {
    match o
    case Unknown => None
    case XChainBuild => None
    case _ => o.arg
  }

  ghost predicate CertOpt(o: Opt) { o.XCert? }
  ghost predicate KeyOpt(o: Opt) { o.XKey? }
  ghost predicate ChainOpt(o: Opt) { o.XChain? }
  ghost predicate BuildOpt(o: Opt) { o.XChainBuild? }
  ghost predicate CertFormOpt(o: Opt) { o.XCertForm? }
  ghost predicate KeyFormOpt(o: Opt) { o.XKeyForm? }

  /** Option i is one of the first n, of this kind, and about record k. */
  ghost predicate Gives(opts: seq<Opt>, n: nat, k: nat, kind: Opt -> bool, i: nat)
  {
    i < n <= |opts| && kind(opts[i]) && Owner(opts, i) == k
  }

  /** The value is the argument of the options of this kind about record k, if any. */
  ghost predicate Given(x: Option<string>, opts: seq<Opt>, n: nat, k: nat, kind: Opt -> bool)
  {
    && (forall i: nat :: Gives(opts, n, k, kind, i) ==> x.Some? && x == ArgOf(opts[i]))
    && (x.Some? ==> Asked(opts, n, k, kind))
  }

  ghost predicate Asked(opts: seq<Opt>, n: nat, k: nat, kind: Opt -> bool)
  {
    exists i: nat :: Gives(opts, n, k, kind, i)
  }

  /** The format is that of the last option of this kind about record k or one before
      it, and PEM if there is none. */
  ghost predicate Form(f: int, opts: seq<Opt>, fmt: string -> int, n: nat, k: nat, kind: Opt -> bool)
  {
    || (f == 3 && forall i: nat :: i < n <= |opts| && kind(opts[i]) ==> Owner(opts, i) > k)
    || exists i: nat :: LastForm(opts, n, k, kind, i) && f == fmt(ArgOf(opts[i]).value)
  }

  ghost predicate LastForm(opts: seq<Opt>, n: nat, k: nat, kind: Opt -> bool, i: nat)
  {
    && i < n <= |opts| && kind(opts[i]) && Owner(opts, i) <= k && ArgOf(opts[i]).Some?
    && forall j: nat :: i < j < n && kind(opts[j]) ==> Owner(opts, j) > k
  }

  /** What record k says, by the options themselves. */
  ghost predicate RecordIs(r: Record, opts: seq<Opt>, fmt: string -> int, n: nat, k: nat)
  {
    && Given(r.cert, opts, n, k, CertOpt) && Given(r.key, opts, n, k, KeyOpt) && Given(r.chain, opts, n, k, ChainOpt)
    && (r.buildChain <==> Asked(opts, n, k, BuildOpt))
    && Form(r.certForm, opts, fmt, n, k, CertFormOpt) && Form(r.keyForm, opts, fmt, n, k, KeyFormOpt)
  }

  ghost predicate Grouped(rs: seq<Record>, opts: seq<Opt>, fmt: string -> int, n: nat)
    requires n <= |opts|
  {
    && |rs| == (if n == 0 then 0 else Owner(opts, n - 1) + 1)
    && forall k :: 0 <= k < |rs| ==> RecordIs(rs[k], opts, fmt, n, k)
  }

  /** Option i can be taken: it is one of these, it has its argument, and it is not a
      second key or a second chain for its record. */
  ghost predicate Fits(opts: seq<Opt>, i: nat)
    requires i < |opts|
  {
    && opts[i] != Unknown && (opts[i] != XChainBuild ==> ArgOf(opts[i]).Some?)
    && (opts[i].XKey? ==> forall j: nat :: !Gives(opts, i, Owner(opts, i), KeyOpt, j))
    && (opts[i].XChain? ==> forall j: nat :: !Gives(opts, i, Owner(opts, i), ChainOpt, j))
  }

  lemma {:induction false} OwnersGrow(opts: seq<Opt>, i: nat, j: nat)
    requires i <= j < |opts|
    ensures Owner(opts, i) <= Owner(opts, j)
  {
    if i < j {
      OwnersGrow(opts, i, j - 1);
    }
  }

  lemma GivesStep(opts: seq<Opt>, n: nat, k: nat, kind: Opt -> bool, i: nat)
    requires n < |opts|
    ensures Gives(opts, n + 1, k, kind, i) <==>
            Gives(opts, n, k, kind, i) || (i == n && kind(opts[n]) && Owner(opts, n) == k)
  {
  }

  lemma AskedStep(opts: seq<Opt>, n: nat, k: nat, kind: Opt -> bool)
    requires n < |opts|
    ensures Asked(opts, n + 1, k, kind) <==> Asked(opts, n, k, kind) || (kind(opts[n]) && Owner(opts, n) == k)
  {
    var m := n + 1;
    if i: nat :| Gives(opts, n, k, kind, i) {
      assert Gives(opts, m, k, kind, i);
    }
    assert Gives(opts, m, k, kind, n) <==> kind(opts[n]) && Owner(opts, n) == k;
    if i: nat :| Gives(opts, m, k, kind, i) {
      GivesStep(opts, n, k, kind, i);
    }
  }

  lemma GivenStep(x: Option<string>, x': Option<string>, opts: seq<Opt>, n: nat, k: nat, kind: Opt -> bool)
    requires n < |opts| && Given(x, opts, n, k, kind)
    requires if kind(opts[n]) && Owner(opts, n) == k then x.None? && x'.Some? && x' == ArgOf(opts[n]) else x' == x
    ensures Given(x', opts, n + 1, k, kind)
  {
    AskedStep(opts, n, k, kind);
    forall i: nat | Gives(opts, n + 1, k, kind, i)
      ensures x'.Some? && x' == ArgOf(opts[i])
    {
      GivesStep(opts, n, k, kind, i);
    }
  }

  lemma FormStep(f: int, f': int, opts: seq<Opt>, fmt: string -> int, n: nat, k: nat, kind: Opt -> bool)
    requires n < |opts| && Form(f, opts, fmt, n, k, kind)
    requires if kind(opts[n]) && Owner(opts, n) <= k then ArgOf(opts[n]).Some? && f' == fmt(ArgOf(opts[n]).value)
             else f' == f
    ensures Form(f', opts, fmt, n + 1, k, kind)
  {
    if kind(opts[n]) && Owner(opts, n) <= k {
      assert LastForm(opts, n + 1, k, kind, n);
    } else if i: nat :| LastForm(opts, n, k, kind, i) && f == fmt(ArgOf(opts[i]).value) {
      assert LastForm(opts, n + 1, k, kind, i);
    }
  }

  /** An option about record k that is taken without starting another. */
  lemma RecordStep(r: Record, r': Record, opts: seq<Opt>, fmt: string -> int, n: nat)
    requires n < |opts| && RecordIs(r, opts, fmt, n, Owner(opts, n)) && EffectOn(r, opts[n], fmt) == Change(r')
    ensures RecordIs(r', opts, fmt, n + 1, Owner(opts, n))
  {
    NewGivens(r, r', opts, fmt, n);
    NewForms(r, r', opts, fmt, n);
    AskedStep(opts, n, Owner(opts, n), BuildOpt);
  }

  lemma NewGivens(r: Record, r': Record, opts: seq<Opt>, fmt: string -> int, n: nat)
    requires n < |opts| && EffectOn(r, opts[n], fmt) == Change(r')
    requires var k := Owner(opts, n);
             && Given(r.cert, opts, n, k, CertOpt) && Given(r.key, opts, n, k, KeyOpt)
             && Given(r.chain, opts, n, k, ChainOpt)
    ensures var k := Owner(opts, n);
            && Given(r'.cert, opts, n + 1, k, CertOpt) && Given(r'.key, opts, n + 1, k, KeyOpt)
            && Given(r'.chain, opts, n + 1, k, ChainOpt)
  {
    var k := Owner(opts, n);
    GivenStep(r.cert, r'.cert, opts, n, k, CertOpt);
    GivenStep(r.key, r'.key, opts, n, k, KeyOpt);
    GivenStep(r.chain, r'.chain, opts, n, k, ChainOpt);
  }

  lemma NewForms(r: Record, r': Record, opts: seq<Opt>, fmt: string -> int, n: nat)
    requires n < |opts| && EffectOn(r, opts[n], fmt) == Change(r')
    requires Form(r.certForm, opts, fmt, n, Owner(opts, n), CertFormOpt)
    requires Form(r.keyForm, opts, fmt, n, Owner(opts, n), KeyFormOpt)
    ensures Form(r'.certForm, opts, fmt, n + 1, Owner(opts, n), CertFormOpt)
    ensures Form(r'.keyForm, opts, fmt, n + 1, Owner(opts, n), KeyFormOpt)
  {
    FormStep(r.certForm, r'.certForm, opts, fmt, n, Owner(opts, n), CertFormOpt);
    FormStep(r.keyForm, r'.keyForm, opts, fmt, n, Owner(opts, n), KeyFormOpt);
  }

  /** An option about a later record. */
  lemma RecordKept(r: Record, opts: seq<Opt>, fmt: string -> int, n: nat, k: nat)
    requires n < |opts| && RecordIs(r, opts, fmt, n, k) && k < Owner(opts, n)
    ensures RecordIs(r, opts, fmt, n + 1, k)
  {
    GivenStep(r.cert, r.cert, opts, n, k, CertOpt);
    GivenStep(r.key, r.key, opts, n, k, KeyOpt);
    GivenStep(r.chain, r.chain, opts, n, k, ChainOpt);
    AskedStep(opts, n, k, BuildOpt);
    FormStep(r.certForm, r.certForm, opts, fmt, n, k, CertFormOpt);
    FormStep(r.keyForm, r.keyForm, opts, fmt, n, k, KeyFormOpt);
  }

  lemma FormHandedOn(f: int, opts: seq<Opt>, fmt: string -> int, n: nat, k: nat, kind: Opt -> bool)
    requires 0 < n <= |opts| && Owner(opts, n - 1) == k && Form(f, opts, fmt, n, k, kind)
    ensures Form(f, opts, fmt, n, k + 1, kind)
  {
    forall i: nat | i < n
      ensures Owner(opts, i) <= k
    {
      OwnersGrow(opts, i, n - 1);
    }
    if i: nat :| LastForm(opts, n, k, kind, i) && f == fmt(ArgOf(opts[i]).value) {
      assert LastForm(opts, n, k + 1, kind, i);
    }
  }

  lemma NoneYet(opts: seq<Opt>, n: nat, k: nat, kind: Opt -> bool)
    requires 0 < n <= |opts| && Owner(opts, n - 1) < k
    ensures !Asked(opts, n, k, kind) && Given(None, opts, n, k, kind)
  {
    forall i: nat
      ensures !Gives(opts, n, k, kind, i)
    {
      if i < n {
        OwnersGrow(opts, i, n - 1);
      }
    }
  }

  /** The record that the next -xcert starts: nothing is said about it but the formats. */
  lemma FreshIs(rs: seq<Record>, opts: seq<Opt>, fmt: string -> int, n: nat)
    requires 0 < n <= |opts| && Grouped(rs, opts, fmt, n)
    ensures RecordIs(Fresh(rs), opts, fmt, n, |rs|)
  {
    NoneYet(opts, n, |rs|, CertOpt);
    NoneYet(opts, n, |rs|, KeyOpt);
    NoneYet(opts, n, |rs|, ChainOpt);
    NoneYet(opts, n, |rs|, BuildOpt);
    FormHandedOn(Last(rs).certForm, opts, fmt, n, |rs| - 1, CertFormOpt);
    FormHandedOn(Last(rs).keyForm, opts, fmt, n, |rs| - 1, KeyFormOpt);
  }

  /** What an option of a group does: nothing is known of the list before the first. */
  lemma BegunGroups(rs: seq<Record>, opts: seq<Opt>, fmt: string -> int, n: nat)
    requires n < |opts| && Grouped(rs, opts, fmt, n)
    ensures forall k :: 0 <= k < |Begun(rs)| ==> RecordIs(Begun(rs)[k], opts, fmt, n, k)
    ensures |Begun(rs)| == if n == 0 then 1 else Owner(opts, n - 1) + 1
  {
    if n == 0 {
      assert RecordIs(BLANK, opts, fmt, 0, 0);
    }
  }

  /** Which record an option is about, by what the last record says. */
  lemma OwnerIs(rs: seq<Record>, opts: seq<Opt>, fmt: string -> int, n: nat)
    requires n < |opts| && Grouped(rs, opts, fmt, n)
    ensures var b := Begun(rs);
            Owner(opts, n) == if opts[n].XCert? && Last(b).cert.Some? then |b| else |b| - 1
  {
    BegunGroups(rs, opts, fmt, n);
    var b := Begun(rs);
    if opts[n].XCert? {
      if CertArgs(opts, n) == [] {
        NoCerts(opts, n);
      } else {
        var i := LastCert(opts, n);
        assert Gives(opts, n, |b| - 1, CertOpt, i);
      }
    }
  }

  lemma {:induction false} LastCert(opts: seq<Opt>, n: nat) returns (i: nat)
    requires 0 < n <= |opts| && CertArgs(opts, n) != []
    ensures Gives(opts, n, Owner(opts, n - 1), CertOpt, i)
  {
    if opts[n - 1].XCert? {
      i := n - 1;
    } else {
      i := LastCert(opts, n - 1);
    }
  }

  lemma {:induction false} NoCerts(opts: seq<Opt>, n: nat)
    requires n <= |opts| && CertArgs(opts, n) == []
    ensures forall i :: 0 <= i < n ==> !opts[i].XCert?
  {
    if n > 0 {
      NoCerts(opts, n - 1);
    }
  }

  /** The record that an option is about, once it is taken. */
  lemma OwnRecord(rs: seq<Record>, opts: seq<Opt>, fmt: string -> int, n: nat)
    requires n < |opts| && Grouped(rs, opts, fmt, n) && Applied(rs, opts[n], fmt).0 == Taken
    ensures var b, rs', k := Begun(rs), Applied(rs, opts[n], fmt).1, Owner(opts, n);
            && k <= |b| && |rs'| == k + 1 && rs'[..k] == b[..k] && RecordIs(rs'[k], opts, fmt, n + 1, k)
  {
    BegunGroups(rs, opts, fmt, n);
    OwnerIs(rs, opts, fmt, n);
    var last := Last(Begun(rs));
    var e := EffectOn(last, opts[n], fmt);
    if e.Start? {
      FreshIs(rs, opts, fmt, n);
      RecordStep(Fresh(rs), Fresh(rs).(cert := e.cert), opts, fmt, n);
    } else {
      RecordStep(last, e.rec, opts, fmt, n);
    }
  }

  /** One more option that is taken. */
  lemma GroupedStep(rs: seq<Record>, opts: seq<Opt>, fmt: string -> int, n: nat)
    requires n < |opts| && Grouped(rs, opts, fmt, n) && Applied(rs, opts[n], fmt).0 == Taken
    ensures Grouped(Applied(rs, opts[n], fmt).1, opts, fmt, n + 1)
  {
    BegunGroups(rs, opts, fmt, n);
    OwnRecord(rs, opts, fmt, n);
    EarlierRecords(Begun(rs), Applied(rs, opts[n], fmt).1, opts, fmt, n);
  }

  lemma EarlierRecords(b: seq<Record>, rs: seq<Record>, opts: seq<Opt>, fmt: string -> int, n: nat)
    requires n < |opts| && forall k :: 0 <= k < |b| ==> RecordIs(b[k], opts, fmt, n, k)
    requires var k := Owner(opts, n);
             k <= |b| && |rs| == k + 1 && rs[..k] == b[..k] && RecordIs(rs[k], opts, fmt, n + 1, k)
    ensures Grouped(rs, opts, fmt, n + 1)
  {
    var last := Owner(opts, n);
    forall k | 0 <= k < last
      ensures RecordIs(rs[k], opts, fmt, n + 1, k)
    {
      assert rs[k] == rs[..last][k] == b[..last][k] == b[k];
      RecordKept(b[k], opts, fmt, n, k);
    }
  }

  /** An option is taken exactly when it fits. */
  lemma TakenIff(rs: seq<Record>, opts: seq<Opt>, fmt: string -> int, n: nat)
    requires n < |opts| && Grouped(rs, opts, fmt, n)
    ensures Applied(rs, opts[n], fmt).0 == Taken <==> Fits(opts, n)
  {
    var k := Owner(opts, n);
    BegunGroups(rs, opts, fmt, n);
    OwnerIs(rs, opts, fmt, n);
    if !opts[n].XCert? {
      assert RecordIs(Last(Begun(rs)), opts, fmt, n, k);
      assert Last(Begun(rs)).key.Some? <==> Asked(opts, n, k, KeyOpt);
      assert Last(Begun(rs)).chain.Some? <==> Asked(opts, n, k, ChainOpt);
    }
  }

  ghost predicate AllFit(opts: seq<Opt>, n: nat)
    requires n <= |opts|
  {
    forall i :: 0 <= i < n ==> Fits(opts, i)
  }

  /** A command line is taken exactly when each of its options fits, and then every
      record holds the arguments of the options about it. */
  lemma {:induction false} OptionsGroup(opts: seq<Opt>, fmt: string -> int, n: nat)
    requires n <= |opts|
    ensures AllTaken(opts, fmt, n) <==> AllFit(opts, n)
    ensures AllTaken(opts, fmt, n) ==> Grouped(After(opts, fmt, n), opts, fmt, n)
  {
    if n > 0 {
      OptionsGroup(opts, fmt, n - 1);
      OneMoreFits(opts, n);
      if AllTaken(opts, fmt, n - 1) {
        OneMoreTaken(After(opts, fmt, n - 1), opts, fmt, n - 1);
      }
    }
  }

  lemma OneMoreFits(opts: seq<Opt>, n: nat)
    requires 0 < n <= |opts|
    ensures AllFit(opts, n) <==> AllFit(opts, n - 1) && Fits(opts, n - 1)
  {
  }

  lemma OneMoreTaken(rs: seq<Record>, opts: seq<Opt>, fmt: string -> int, n: nat)
    requires n < |opts| && Grouped(rs, opts, fmt, n)
    ensures Applied(rs, opts[n], fmt).0 == Taken <==> Fits(opts, n)
    ensures Applied(rs, opts[n], fmt).0 == Taken ==> Grouped(Applied(rs, opts[n], fmt).1, opts, fmt, n + 1)
  {
    TakenIff(rs, opts, fmt, n);
    if Applied(rs, opts[n], fmt).0 == Taken {
      GroupedStep(rs, opts, fmt, n);
    }
  }

  // ----- the linked list

  class Node {
    var rec: Record
    var next: Node?
    var prev: Node?

    constructor (rec: Record, next: Node?)
      ensures this.rec == rec && this.next == next && this.prev == null
    {
      this.rec, this.next, this.prev := rec, next, null;
    }
  }

  /** A doubly linked list from head to tail: the links of each node agree with the
      sequence. */
  ghost predicate Linked(nodes: seq<Node>)
    reads nodes
  {
    && (forall i {:trigger nodes[i].next} :: 0 <= i < |nodes| ==> nodes[i].next == NodeAt(nodes, i + 1))
    && (forall i {:trigger nodes[i].prev} :: 0 <= i < |nodes| ==> nodes[i].prev == NodeAt(nodes, i - 1))
  }

  /** No node occurs twice in such a list, so it has no cycle. */
  lemma {:induction false} LinkedIsAcyclic(nodes: seq<Node>, i: nat, j: nat)
    requires Linked(nodes) && i < j < |nodes|
    ensures nodes[i] != nodes[j]
  {
    assert nodes[i].prev == NodeAt(nodes, i - 1) && nodes[j].prev == NodeAt(nodes, j - 1);
    if i > 0 {
      LinkedIsAcyclic(nodes, i - 1, j - 1);
    }
  }

  ghost function NodeAt(nodes: seq<Node>, i: int): Node?
  {
    if 0 <= i < |nodes| then nodes[i] else null
  }

  /** The records from tail to head. */
  ghost function Backwards(nodes: seq<Node>): (rs: seq<Record>)
    reads nodes`rec
    ensures |rs| == |nodes|
  {
    if nodes == [] then [] else Backwards(nodes[1..]) + [nodes[0].rec]
  }

  lemma {:induction false} BackwardsAt(nodes: seq<Node>, i: nat)
    requires i < |nodes|
    ensures Backwards(nodes)[|nodes| - 1 - i] == nodes[i].rec
  {
    if i > 0 {
      BackwardsAt(nodes[1..], i - 1);
    }
  }

  class List {
    var head: Node?
    ghost var nodes: seq<Node>

    ghost predicate Valid()
      reads this, nodes
    {
      head == NodeAt(nodes, 0) && Linked(nodes)
    }

    ghost function Records(): seq<Record>
      reads this, nodes
    {
      Backwards(nodes)
    }

    constructor ()
      ensures Valid() && Records() == [] && nodes == []
    {
      head, nodes := null, [];
    }

    /** ssl_excert_prepend. */
    method Prepend()
      requires Valid()
      modifies this, head
      ensures Valid() && |nodes| == |old(nodes)| + 1 && fresh(nodes[0])
      ensures forall i :: 0 < i < |nodes| ==> nodes[i] == old(nodes)[i - 1]
      ensures Records() == old(Records()) + [Fresh(old(Records()))]
    {
      ghost var rest := nodes;
      ghost var records := Records();
      forall j | 0 < j < |rest|
        ensures rest[j] != head
      {
        LinkedIsAcyclic(rest, 0, j);
      }
      var rec := BLANK;
      if head != null {
        BackwardsAt(rest, 0);
        rec := rec.(certForm := head.rec.certForm, keyForm := head.rec.keyForm);
      }
      var exc := new Node(rec, head);
      if head != null {
        head.prev := exc;
      }
      head := exc;
      nodes := [exc] + rest;
      assert nodes[1..] == rest;
      assert Backwards(rest) == records;
      LinkedFront(exc, rest);
    }

    /** ssl_excert_free, with the head set to NULL after it. */
    method Free()
      requires Valid()
      modifies this
      ensures Valid() && nodes == []
    {
      var exc := head;
      ghost var i := 0;
      while exc != null
        invariant 0 <= i <= |nodes| && exc == NodeAt(nodes, i)
        decreases |nodes| - i
      {
        exc := exc.next;
        i := i + 1;
      }
      head, nodes := null, [];
    }

    /** The traversal of set_cert_cb: to the end of the list, and back. */
    method Visit() returns (seen: seq<Record>)
      requires Valid()
      ensures seen == Records()
    {
      seen := [];
      if head == null {
        return;
      }
      var exc: Node? := head;
      ghost var i := 0;
      while exc.next != null
        invariant 0 <= i < |nodes| && exc == nodes[i]
        decreases |nodes| - i
      {
        exc := exc.next;
        i := i + 1;
      }
      while exc != null
        invariant -1 <= i < |nodes| && exc == NodeAt(nodes, i)
        invariant |seen| == |nodes| - 1 - i && seen == Records()[..|seen|]
        decreases i + 1
      {
        BackwardsAt(nodes, i);
        seen := seen + [exc.rec];
        exc := exc.prev;
        i := i - 1;
      }
    }

    /** Writing to the record at the head. */
    method SetHead(r: Record)
      requires Valid() && head != null
      modifies head`rec
      ensures Valid() && Records() == WithLast(old(Records()), r)
    {
      forall j | 0 < j < |nodes|
        ensures nodes[j] != head
      {
        LinkedIsAcyclic(nodes, 0, j);
      }
      ghost var rest := nodes[1..];
      assert nodes == [head] + rest;
      head.rec := r;
      assert Backwards(rest) == old(Backwards(nodes[1..]));
    }
  }

  /** args_excert. */
  method ArgsExcert(l: List, o: Opt, fmt: string -> int) returns (a: Answer)
    requires l.Valid()
    modifies l, l.nodes
    ensures l.Valid()
    ensures a == Applied(old(l.Records()), o, fmt).0 && l.Records() == Applied(old(l.Records()), o, fmt).1
    ensures (a == NotOurs <==> o.Unknown?) && (a == Bad && (o.XCertForm? || o.XKeyForm?) ==> l.Records() == [])
    ensures forall i :: 0 <= i < |l.nodes| ==> l.nodes[i] in old(l.nodes) || fresh(l.nodes[i])
  {
    if l.head == null {
      l.Prepend();
      assert l.Records() == [BLANK];
    }
    assert l.Records() == Begun(old(l.Records()));
    a := OnHead(l, o, fmt);
  }

  /** The options, on a list that has a head. */
  method OnHead(l: List, o: Opt, fmt: string -> int) returns (a: Answer)
    requires l.Valid() && l.nodes != []
    modifies l, l.nodes
    ensures l.Valid()
    ensures var r := Effected(old(l.Records()), EffectOn(Last(old(l.Records())), o, fmt));
            a == r.0 && l.Records() == r.1
    ensures forall i :: 0 <= i < |l.nodes| ==> l.nodes[i] in old(l.nodes) || fresh(l.nodes[i])
  {
    var exc := l.head.rec;
    BackwardsAt(l.nodes, 0);
    assert exc == Last(l.Records());
    var e := Decide(exc, o, fmt);
    match e {
      case Refuse(answer) =>
        a := answer;
      case Change(rec) =>
        l.SetHead(rec);
        a := Taken;
      case Start(cert) =>
        l.Prepend();
        BackwardsAt(l.nodes, 0);
        assert l.head.rec == Last(l.Records());
        l.SetHead(l.head.rec.(cert := cert));
        a := Taken;
      case GiveUp =>
        l.Free();
        a := Bad;
    }
  }

  /** The branches on the option. */
  method Decide(exc: Record, o: Opt, fmt: string -> int) returns (e: Effect)
    ensures e == EffectOn(exc, o, fmt)
  {
    match o {
      case Unknown =>
        e := Refuse(NotOurs);
      case XCert(arg) =>
        if arg.None? {
          return Refuse(Bad);
        }
        if exc.cert.Some? {
          return Start(arg);
        }
        e := Change(exc.(cert := arg));
      case XKey(arg) =>
        if arg.None? || exc.key.Some? {
          return Refuse(Bad);
        }
        e := Change(exc.(key := arg));
      case XChain(arg) =>
        if arg.None? || exc.chain.Some? {
          return Refuse(Bad);
        }
        e := Change(exc.(chain := arg));
      case XChainBuild =>
        e := Change(exc.(buildChain := true));
      case XCertForm(arg) =>
        if arg.None? {
          return GiveUp;
        }
        e := Change(exc.(certForm := fmt(arg.value)));
      case XKeyForm(arg) =>
        if arg.None? {
          return GiveUp;
        }
        e := Change(exc.(keyForm := fmt(arg.value)));
    }
  }

  /** Where the parsing stands after n options: all were taken, and these are the
      records, or one was not. */
  ghost predicate Stands(ok: bool, records: seq<Record>, opts: seq<Opt>, fmt: string -> int, n: nat)
    requires n <= |opts|
  {
    (ok <==> AllTaken(opts, fmt, n)) && (ok ==> records == After(opts, fmt, n))
  }

  /** Option n, once the options before it have been taken. */
  method NextOption(l: List, opts: seq<Opt>, fmt: string -> int, n: nat) returns (taken: bool)
    requires n < |opts| && l.Valid() && Stands(true, l.Records(), opts, fmt, n)
    modifies l, l.nodes
    ensures l.Valid() && Stands(taken, l.Records(), opts, fmt, n + 1)
    ensures forall i :: 0 <= i < |l.nodes| ==> l.nodes[i] in old(l.nodes) || fresh(l.nodes[i])
  {
    var a := ArgsExcert(l, opts[n], fmt);
    taken := a == Taken;
  }

  /** The options of a command line, up to the first that is not taken. */
  method ParseOptions(opts: seq<Opt>, fmt: string -> int) returns (l: List, ok: bool)
    ensures l.Valid()
    ensures Stands(ok, l.Records(), opts, fmt, |opts|)
  {
    l := new List();
    var n := 0;
    ok := true;
    while n < |opts| && ok
      invariant n <= |opts| && l.Valid() && fresh(l)
      invariant forall i :: 0 <= i < |l.nodes| ==> fresh(l.nodes[i])
      invariant Stands(ok, l.Records(), opts, fmt, n)
      decreases |opts| - n
    {
      ok := NextOption(l, opts, fmt, n);
      n := n + 1;
    }
    if !ok {
      StandsAtTheEnd(l.Records(), opts, fmt, n);
    }
  }

  lemma StandsAtTheEnd(records: seq<Record>, opts: seq<Opt>, fmt: string -> int, n: nat)
    requires n <= |opts| && Stands(false, records, opts, fmt, n)
    ensures Stands(false, records, opts, fmt, |opts|)
  {
    NotAllTaken(opts, fmt, n, |opts|);
  }

  /** A whole command line: the callback sees the certificates in the order in which
      they were given. */
  method CommandLine(opts: seq<Opt>, fmt: string -> int) returns (ok: bool, seen: seq<Record>)
    ensures ok <==> AllTaken(opts, fmt, |opts|)
    ensures ok ==> seen == After(opts, fmt, |opts|) && InOrder(CertsOf(seen), CertArgs(opts, |opts|))
    ensures ok <==> AllFit(opts, |opts|)
    ensures ok ==> Grouped(seen, opts, fmt, |opts|)
  {
    var l;
    l, ok := ParseOptions(opts, fmt);
    seen := l.Visit();
    OptionsGroup(opts, fmt, |opts|);
    if ok {
      CertsInOrder(opts, fmt, |opts|);
    }
  }

  lemma {:induction false} NotAllTaken(opts: seq<Opt>, fmt: string -> int, n: nat, m: nat)
    requires n <= m <= |opts| && !AllTaken(opts, fmt, n)
    ensures !AllTaken(opts, fmt, m)
  {
    if n < m {
      NotAllTaken(opts, fmt, n, m - 1);
    }
  }

  lemma LinkedFront(n: Node, rest: seq<Node>)
    requires n !in rest && n.prev == null && n.next == NodeAt(rest, 0)
    requires forall i {:trigger rest[i].next} :: 0 <= i < |rest| ==> rest[i].next == NodeAt(rest, i + 1)
    requires forall i {:trigger rest[i].prev} :: 0 <= i < |rest| ==>
               rest[i].prev == if i == 0 then n else rest[i - 1]
    ensures Linked([n] + rest)
  {
    var nodes := [n] + rest;
    forall i {:trigger nodes[i]} | 0 <= i < |nodes|
      ensures nodes[i].next == NodeAt(nodes, i + 1) && nodes[i].prev == NodeAt(nodes, i - 1)
    {
      if i > 0 {
        assert nodes[i] == rest[i - 1];
      }
    }
  }
}
