/** parse_name as it runs: cursors moving through the subject and through one
    buffer, with the starts of types and values kept in arrays whose sizes are
    fixed from the length of the subject (apps/apps.c:1810-1919). */
module SubjectBuffers {
  import opened Prelude
  import opened SubjectName

  function PutAll(t: string, p: Piece): Piece
  {
    p.(text := t + p.text)
  }

  lemma PutMore(t: string, c: char, p: Piece)
    ensures PutAll(t, Put(c, p)) == PutAll(t + [c], p)
  {
    assert t + ([c] + p.text) == (t + [c]) + p.text;
  }

  /** The text stands in the buffer at o with its terminator. */
  ghost predicate StrAt(b: seq<char>, o: nat, t: string)
  {
    o + |t| < |b| && b[o..o + |t|] == t && b[o + |t|] == NUL
  }

  lemma Terminated(b: seq<char>, o: nat, n: nat, t: string)
    requires o <= n < |b| && b[o..n] == t && b[n] == NUL
    ensures StrAt(b[..n + 1], o, t)
  {
    assert b[..n + 1][o..n] == b[o..n];
  }

  /** The loop that collects a type. Each write is paid for by a character read, so
      the write cursor stays behind the read cursor. */
  method CollectType(s: string, sp0: nat, buf: array<char>, bp0: nat) returns (sp: nat, bp: nat, end: End)
    requires bp0 < sp0 <= |s| && buf.Length == |s| + 1
    modifies buf
    ensures buf[..bp0] == old(buf[..bp0])
    ensures var p := ScanType(s, sp0);
            && end == p.end
            && (end.Stop? ==> sp == p.next && bp0 < bp < sp && StrAt(buf[..bp], bp0, p.text))
  {
    sp, bp := sp0, bp0;
    assert PutAll(buf[bp0..bp0], ScanType(s, sp)) == ScanType(s, sp0);
    while true
      invariant sp0 <= sp <= |s| && bp0 <= bp < sp
      invariant buf[..bp0] == old(buf[..bp0])
      invariant ScanType(s, sp0) == PutAll(buf[bp0..bp], ScanType(s, sp))
      decreases |s| - sp
    {
      if sp == |s| {
        return sp, bp, Overrun;
      }
      ghost var t := buf[bp0..bp];
      var c;
      sp, c, end := TypeChar(s, sp);
      if c.None? {
        if end != Dangling {
          PutChar(buf, bp0, bp, NUL);
          Terminated(buf[..], bp0, bp, t);
          bp := bp + 1;
        }
        return;
      }
      PutChar(buf, bp0, bp, c.value);
      bp := bp + 1;
      if sp == |s| {
        return;
      }
      PutMore(t, c.value, ScanType(s, sp));
    }
  }

  /** The character that a type goes on with, or how it ends. */
  method TypeChar(s: string, sp0: nat) returns (sp: nat, c: Option<char>, end: End)
    requires sp0 < |s|
    ensures sp0 < sp <= |s|
    ensures c.None? ==> ScanType(s, sp0) == Piece("", sp, end) && (end == Dangling || end == Stop('='))
    ensures c.Some? && sp == |s| ==> ScanType(s, sp0) == Piece([c.value], sp, end) && end == AtEnd
    ensures c.Some? && sp < |s| ==> ScanType(s, sp0) == Put(c.value, ScanType(s, sp))
  {
    sp, c, end := sp0, None, AtEnd;
    if s[sp] == '\\' {
      sp := sp + 1;
      if sp == |s| {
        end := Dangling;
        return;
      }
    } else if s[sp] == '=' {
      sp := sp + 1;
      end := Stop('=');
      return;
    }
    c := Some(s[sp]);
    sp := sp + 1;
  }

  /** One character more in a text that starts at bp0. */
  method PutChar(buf: array<char>, ghost bp0: nat, bp: nat, c: char)
    requires bp0 <= bp < buf.Length
    modifies buf
    ensures buf[..bp0] == old(buf[..bp0]) && buf[bp0..bp + 1] == old(buf[bp0..bp]) + [c]
    ensures buf[bp0..bp] == old(buf[bp0..bp]) && buf[bp] == c
  {
    buf[bp] := c;
  }

  /** The loop that collects a value. */
  method CollectText(s: string, sp0: nat, buf: array<char>, bp0: nat, multi: bool) returns (sp: nat, bp: nat, end: End)
    requires bp0 < sp0 < |s| && buf.Length == |s| + 1
    modifies buf
    ensures buf[..bp0] == old(buf[..bp0])
    ensures var p := ScanValue(s, sp0, multi);
            && end == p.end
            && (end != Dangling ==> sp == p.next && bp0 <= bp < sp && buf[bp0..bp] == p.text)
            && (end.Stop? ==> bp + 1 < sp)
  {
    sp, bp := sp0, bp0;
    assert PutAll(buf[bp0..bp0], ScanValue(s, sp, multi)) == ScanValue(s, sp0, multi);
    while true
      invariant sp0 <= sp < |s| && bp0 <= bp < sp
      invariant buf[..bp0] == old(buf[..bp0])
      invariant ScanValue(s, sp0, multi) == PutAll(buf[bp0..bp], ScanValue(s, sp, multi))
      decreases |s| - sp
    {
      ghost var t := buf[bp0..bp];
      var c;
      sp, c, end := ValueChar(s, sp, multi);
      if c.None? {
        return;
      }
      PutChar(buf, bp0, bp, c.value);
      bp := bp + 1;
      if sp == |s| {
        return;
      }
      PutMore(t, c.value, ScanValue(s, sp, multi));
    }
  }

  /** The character that a value goes on with, or how it ends. */
  method ValueChar(s: string, sp0: nat, multi: bool) returns (sp: nat, c: Option<char>, end: End)
    requires sp0 < |s|
    ensures sp0 < sp <= |s|
    ensures c.None? ==> ScanValue(s, sp0, multi) == Piece("", sp, end) && end != AtEnd
    ensures c.Some? && sp == |s| ==> ScanValue(s, sp0, multi) == Piece([c.value], sp, end) && end == AtEnd
    ensures c.Some? && sp < |s| ==> ScanValue(s, sp0, multi) == Put(c.value, ScanValue(s, sp, multi))
  {
    sp, c, end := sp0, None, AtEnd;
    if s[sp] == '\\' {
      sp := sp + 1;
      if sp == |s| {
        end := Dangling;
        return;
      }
    } else if Separates(s[sp], multi) {
      sp := sp + 1;
      end := Stop(s[sp - 1]);
      return;
    }
    c := Some(s[sp]);
    sp := sp + 1;
  }

  /** A value with its terminator. */
  method CollectValue(s: string, sp0: nat, buf: array<char>, bp0: nat, multi: bool) returns (sp: nat, bp: nat, end: End)
    requires bp0 < sp0 < |s| && buf.Length == |s| + 1
    modifies buf
    ensures buf[..bp0] == old(buf[..bp0])
    ensures var p := ScanValue(s, sp0, multi);
            && end == p.end
            && (end != Dangling ==> sp == p.next && bp0 < bp <= |s| && StrAt(buf[..bp], bp0, p.text))
            && (end.Stop? ==> bp < sp)
  {
    sp, bp, end := CollectText(s, sp0, buf, bp0, multi);
    if end != Dangling {
      ghost var text := buf[bp0..bp];
      PutChar(buf, bp0, bp, NUL);
      Terminated(buf[..], bp0, bp, text);
      bp := bp + 1;
    }
  }

  // ----- the outer loop

  function Before(es: seq<Elem>, p: Parsed): Parsed
  {
    if p.Elems? then Elems(es + p.elems) else p
  }

  lemma BeforeMore(es: seq<Elem>, e: Elem, p: Parsed)
    ensures Before(es, Cons(e, p)) == Before(es + [e], p)
  {
    if p.Elems? {
      assert es + ([e] + p.elems) == (es + [e]) + p.elems;
    }
  }

  /** The first n entries of the arrays describe the elements. */
  ghost predicate Stored(b: seq<char>, types: seq<nat>, values: seq<nat>, mval: seq<int>, es: seq<Elem>)
  {
    && |types| == |values| == |mval| == |es|
    && forall k :: 0 <= k < |es| ==>
         && StrAt(b, types[k], es[k].kind)
         && StrAt(b, values[k], es[k].value)
         && mval[k] == if es[k].joined then -1 else 0
  }

  lemma StrAtLonger(b: seq<char>, b': seq<char>, o: nat, t: string)
    requires StrAt(b, o, t) && |b| <= |b'| && b'[..|b|] == b
    ensures StrAt(b', o, t)
  {
    assert b'[o..o + |t|] == b[o..o + |t|];
    assert b'[..|b|][o + |t|] == b[o + |t|];
  }

  lemma StoredMore(b: seq<char>, b': seq<char>, types: seq<nat>, values: seq<nat>, mval: seq<int>, es: seq<Elem>,
                   t: nat, v: nat, m: int, e: Elem)
    requires Stored(b, types, values, mval, es) && |b| <= |b'| && b'[..|b|] == b
    requires StrAt(b', t, e.kind) && StrAt(b', v, e.value) && m == if e.joined then -1 else 0
    ensures Stored(b', types + [t], values + [v], mval + [m], es + [e])
  {
    forall k | 0 <= k < |es|
      ensures StrAt(b', types[k], es[k].kind) && StrAt(b', values[k], es[k].value)
    {
      StrAtLonger(b, b', types[k], es[k].kind);
      StrAtLonger(b, b', values[k], es[k].value);
    }
  }

  lemma Slots<T>(a: seq<T>, front: seq<T>, n: nat, x: T)
    requires n < |a| && a[..n] == front && a[n] == x
    ensures a[..n + 1] == front + [x]
  {
  }

  /** The element in slot n joins those before it. */
  lemma StoredHere(b: seq<char>, b': seq<char>, types: seq<nat>, values: seq<nat>, mval: seq<int>, es: seq<Elem>,
                   e: Elem, ts: seq<nat>, vs: seq<nat>, ms: seq<int>)
    requires var n := |es|;
             && n < |ts| && n < |vs| && n < |ms|
             && ts[..n] == types && vs[..n] == values && ms[..n] == mval
             && Stored(b, types, values, mval, es) && |b| <= |b'| && b'[..|b|] == b
             && StrAt(b', ts[n], e.kind) && StrAt(b', vs[n], e.value) && ms[n] == if e.joined then -1 else 0
    ensures Stored(b', ts[..|es| + 1], vs[..|es| + 1], ms[..|es| + 1], es + [e])
  {
    var n := |es|;
    StoredMore(b, b', types, values, mval, es, ts[n], vs[n], ms[n], e);
    Slots(ts, types, n, ts[n]);
    Slots(vs, values, n, vs[n]);
    Slots(ms, mval, n, ms[n]);
  }

  datatype Round = Failed(why: Parsed) | Last | More(joined: bool)

  /** One round of the outer loop: a type, then a value. The element uses up at least
      two characters. */
  method CollectElem(s: string, sp0: nat, buf: array<char>, bp0: nat, multi: bool, ghost joined: bool)
    returns (sp: nat, bp: nat, vp: nat, end: End, round: Round, ghost e: Elem)
    requires bp0 < sp0 <= |s| && buf.Length == |s| + 1
    modifies buf
    ensures buf[..bp0] == old(buf[..bp0])
    ensures round.Failed? ==> ParseFrom(s, sp0, multi, joined) == round.why && !round.why.Elems?
    ensures !round.Failed? ==>
              && sp0 + 2 <= sp <= |s| && bp0 <= bp <= |s|
              && e.joined == joined
              && StrAt(buf[..bp], bp0, e.kind) && StrAt(buf[..bp], vp, e.value)
    ensures round.Last? ==> ParseFrom(s, sp0, multi, joined) == Elems([e])
    ensures round.More? ==> bp < sp < |s| && end.Stop? && (round.joined <==> end == Stop('+'))
                            && ParseFrom(s, sp0, multi, joined) == Cons(e, ParseFrom(s, sp, multi, round.joined))
  {
    sp, bp, end := CollectType(s, sp0, buf, bp0);
    vp, round, e := bp, Failed(Error), Elem("", "", joined);
    if end == Overrun {
      round := Failed(OutOfBounds);
      return;
    }
    if !end.Stop? || sp == |s| {
      return;
    }
    ghost var kind, t := ScanType(s, sp0), buf[..bp];
    sp, bp, end := CollectValue(s, sp, buf, vp, multi);
    if end == Dangling {
      return;
    }
    ghost var value := ScanValue(s, kind.next, multi);
    e := Elem(kind.text, value.text, joined);
    KindKept(t, buf[..], vp, bp, bp0, kind.text);
    round := if sp == |s| then Last else More(end == Stop('+'));
  }

  /** Collecting the value leaves the type in place. */
  lemma KindKept(t: seq<char>, b: seq<char>, vp: nat, bp: nat, bp0: nat, kind: string)
    requires vp <= bp <= |b| && t == b[..vp] && bp0 <= vp && StrAt(t, bp0, kind)
    ensures StrAt(b[..bp], bp0, kind) && b[..bp0] == t[..bp0]
  {
    assert b[..bp][..vp] == t;
    StrAtLonger(t, b[..bp], bp0, kind);
    assert t[..bp0] == b[..bp0];
  }

  /** The elements that X509_NAME gets: known types with a value, in order. */
  datatype NameEntry = NameEntry(nid: nat, value: string, mval: int)

  function Known(es: seq<Elem>, nids: string -> Option<nat>, n: nat): seq<NameEntry>
    requires n <= |es|
  {
    if n == 0 then []
    else
      var e := es[n - 1];
      Known(es, nids, n - 1) +
      if nids(e.kind).None? || e.value == "" then []
      else [NameEntry(nids(e.kind).value, e.value, if e.joined then -1 else 0)]
  }

  /** The C string at o. */
  /** The element gets an entry: its type is known and its value is not empty. */
  predicate GetsEntry(es: seq<Elem>, nids: string -> Option<nat>, p: nat)
  {
    p < |es| && nids(es[p].kind).Some? && es[p].value != ""
  }

  /** The entry that element p gives. */
  ghost predicate GivesEntry(es: seq<Elem>, nids: string -> Option<nat>, p: nat, e: NameEntry)
  {
    && p < |es| && nids(es[p].kind) == Some(e.nid) && e.value == es[p].value
    && e.mval == (if es[p].joined then -1 else 0)
  }

  /** The name by positions: the elements that get an entry, each its own, in order. */
  lemma KnownInOrder(es: seq<Elem>, nids: string -> Option<nat>, n: nat) returns (ps: seq<nat>)
    requires n <= |es|
    ensures Chosen(ps, 0, n, (p: nat) => GetsEntry(es, nids, p))
    ensures |Known(es, nids, n)| == |ps|
    ensures forall k :: 0 <= k < |ps| ==> GivesEntry(es, nids, ps[k], Known(es, nids, n)[k])
  {
    ps := [];
    var keep := (p: nat) => GetsEntry(es, nids, p);
    var m := 0;
    while m < n
      invariant m <= n && Chosen(ps, 0, m, keep) && |Known(es, nids, m)| == |ps|
      invariant forall k :: 0 <= k < |ps| ==> GivesEntry(es, nids, ps[k], Known(es, nids, m)[k])
    {
      ps := ChosenOneMore(ps, 0, m, keep);
      m := m + 1;
    }
  }

  /** When every element gets an entry, entry i is that of element i. */
  lemma {:induction false} AllKnown(es: seq<Elem>, nids: string -> Option<nat>, n: nat)
    requires n <= |es| && forall i :: 0 <= i < |es| ==> GetsEntry(es, nids, i)
    ensures |Known(es, nids, n)| == n && forall i :: 0 <= i < n ==> GivesEntry(es, nids, i, Known(es, nids, n)[i])
  {
    if n > 0 {
      AllKnown(es, nids, n - 1);
      assert GetsEntry(es, nids, n - 1);
    }
  }

  function CString(b: seq<char>, o: nat): string
    requires o <= |b|
    decreases |b| - o
  {
    if o == |b| || b[o] == NUL then "" else [b[o]] + CString(b, o + 1)
  }

  lemma {:induction false} CStringAt(b: seq<char>, o: nat, t: string)
    requires StrAt(b, o, t) && NUL !in t
    ensures CString(b, o) == t
    decreases |t|
  {
    if t != "" {
      assert b[o] == b[o..o + |t|][0] == t[0];
      assert b[o + 1..o + 1 + |t[1..]|] == b[o..o + |t|][1..];
      CStringAt(b, o + 1, t[1..]);
    }
  }

  /** The loop that fills the X509_NAME from the arrays. */
  method BuildName(b: seq<char>, types: seq<nat>, values: seq<nat>, mval: seq<int>, nids: string -> Option<nat>,
                   ghost es: seq<Elem>)
    returns (name: seq<NameEntry>)
    requires Stored(b, types, values, mval, es)
    requires forall k :: 0 <= k < |es| ==> NUL !in es[k].kind && NUL !in es[k].value
    ensures name == Known(es, nids, |es|)
  {
    name := [];
    var i := 0;
    while i < |types|
      invariant i <= |types| && name == Known(es, nids, i)
    {
      StoredTexts(b, types, values, mval, es, i);
      var nid := nids(CString(b, types[i]));
      var value := CString(b, values[i]);
      if nid.Some? && value != "" {
        name := name + [NameEntry(nid.value, value, mval[i])];
      }
      i := i + 1;
    }
  }

  /** The texts that the loop reads for element i. */
  lemma StoredTexts(b: seq<char>, types: seq<nat>, values: seq<nat>, mval: seq<int>, es: seq<Elem>, i: nat)
    requires Stored(b, types, values, mval, es) && i < |es| && NUL !in es[i].kind && NUL !in es[i].value
    ensures types[i] <= |b| && CString(b, types[i]) == es[i].kind
    ensures values[i] <= |b| && CString(b, values[i]) == es[i].value
    ensures mval[i] == if es[i].joined then -1 else 0
  {
    CStringAt(b, types[i], es[i].kind);
    CStringAt(b, values[i], es[i].value);
  }

  datatype Result = Name(entries: seq<NameEntry>) | Refused | ReadPastEnd

  /** The buffer and the arrays, sized from the subject. */
  class Buffers {
    const buf: array<char>
    const types: array<nat>
    const values: array<nat>
    const mval: array<int>

    ghost predicate Sized(s: string)
    {
      && buf.Length == |s| + 1
      && types.Length == values.Length == mval.Length == (|s| + 1) / 2 + 1
      && types != values
    }

    constructor (len: nat)
      ensures fresh(buf) && fresh(types) && fresh(values) && fresh(mval)
      ensures buf.Length == len + 1 && types.Length == values.Length == mval.Length == (len + 1) / 2 + 1
      ensures types != values
    {
      buf := new char[len + 1];
      types := new nat[(len + 1) / 2 + 1];
      values := new nat[(len + 1) / 2 + 1];
      mval := new int[(len + 1) / 2 + 1];
    }

    /** n elements are stored and the mark of the next one is set. */
    ghost predicate Holds(s: string, bp: nat, n: nat, es: seq<Elem>, joined: bool)
      reads buf, types, values, mval
    {
      && Sized(s) && bp <= |s| && n < mval.Length
      && Stored(buf[..bp], types[..n], values[..n], mval[..n], es)
      && mval[n] == if joined then -1 else 0
    }

    /** One round of the outer loop. */
    method StoreElem(s: string, multi: bool, sp0: nat, bp0: nat, n: nat, ghost es: seq<Elem>, ghost joined: bool)
      returns (sp: nat, bp: nat, round: Round, ghost e: Elem)
      requires Holds(s, bp0, n, es, joined) && bp0 < sp0 <= |s| && 2 * n + 1 <= sp0
      modifies buf, types, values, mval
      ensures round.Failed? ==> ParseFrom(s, sp0, multi, joined) == round.why && !round.why.Elems?
      ensures !round.Failed? ==>
                && sp0 + 2 <= sp <= |s| && bp <= |s| && n + 1 < mval.Length
                && Stored(buf[..bp], types[..n + 1], values[..n + 1], mval[..n + 1], es + [e])
      ensures round.Last? ==> ParseFrom(s, sp0, multi, joined) == Elems([e])
      ensures round.More? ==> bp < sp && Holds(s, bp, n + 1, es + [e], round.joined)
                              && ParseFrom(s, sp0, multi, joined) == Cons(e, ParseFrom(s, sp, multi, round.joined))
    {
      ghost var b, ts, vs, ms := buf[..bp0], types[..n], values[..n], mval[..n];
      types[n] := bp0;
      var vp, end;
      sp, bp, vp, end, round, e := CollectElem(s, sp0, buf, bp0, multi, joined);
      if round.Failed? {
        return;
      }
      values[n] := vp;
      if end.Stop? {
        mval[n + 1] := if end == Stop('+') then -1 else 0;
      }
      assert buf[..bp][..bp0] == b;
      assert types[..][..n] == ts && values[..][..n] == vs && mval[..][..n] == ms;
      StoredHere(b, buf[..bp], ts, vs, ms, es, e, types[..], values[..], mval[..]);
      assert types[..n + 1] == types[..][..n + 1];
      assert values[..n + 1] == values[..][..n + 1];
      assert mval[..n + 1] == mval[..][..n + 1];
    }

    /** The outer loop. */
    method Fill(s: string, multi: bool) returns (failed: Round, bp: nat, n: nat, ghost es: seq<Elem>)
      requires Sized(s) && s != ""
      modifies buf, types, values, mval
      ensures failed.Failed? ==> ParseFrom(s, 1, multi, false) == failed.why && !failed.why.Elems?
      ensures !failed.Failed? ==>
                && ParseFrom(s, 1, multi, false) == Elems(es) && bp <= |s| && n <= mval.Length
                && Stored(buf[..bp], types[..n], values[..n], mval[..n], es)
    {
      var sp;
      sp, bp, n, failed := 1, 0, 0, More(false);
      mval[0] := 0;
      es := [];
      ghost var joined, all := false, ParseFrom(s, 1, multi, false);
      while true
        invariant bp < sp <= |s| && 2 * n + 1 <= sp && n == |es|
        invariant Holds(s, bp, n, es, joined)
        invariant all == Before(es, ParseFrom(s, sp, multi, joined))
        decreases |s| - sp
      {
        ghost var e;
        ghost var was := es;
        sp, bp, failed, e := StoreElem(s, multi, sp, bp, n, es, joined);
        if failed.Failed? {
          return;
        }
        es, n := es + [e], n + 1;
        if failed.Last? {
          return;
        }
        BeforeMore(was, e, ParseFrom(s, sp, multi, failed.joined));
        joined := failed.joined;
      }
    }
  }

  /** What parse_name makes of a subject. */
  function NameOf(s: string, multi: bool, nids: string -> Option<nat>): Result
  {
    match Parse(s, multi)
    case Error => Refused
    case OutOfBounds => ReadPastEnd
    case Elems(l) => Name(Known(l, nids, |l|))
  }

  /** A printed list of elements is parsed into a name with one entry for each element,
      in order, when all types are known and all values given. */
  lemma PrintedNameIsBuilt(l: seq<Elem>, escType: char -> bool, escValue: char -> bool, multi: bool,
                           nids: string -> Option<nat>)
    requires Covers(escType, Kind) && Covers(escValue, Val(multi)) && Expressible(l, multi) && !l[0].joined
    requires forall i :: 0 <= i < |l| ==> GetsEntry(l, nids, i)
    ensures var r := NameOf("/" + PrintElems(l, escType, escValue), multi, nids);
            r.Name? && |r.entries| == |l| && forall i :: 0 <= i < |l| ==> GivesEntry(l, nids, i, r.entries[i])
  {
    NameRoundTrip(l, escType, escValue, multi);
    AllKnown(l, nids, |l|);
  }

  /** parse_name on a C string. Every write is inside the buffer of strlen + 1
      characters and the arrays of (strlen + 1) / 2 + 1 entries. */
  method ParseName(s: string, multi: bool, nids: string -> Option<nat>) returns (r: Result)
    requires NUL !in s
    ensures r == NameOf(s, multi, nids)
  {
    if s == "" || s[0] != '/' {
      return Refused;
    }
    var m := new Buffers(|s|);
    var failed, bp, n;
    ghost var es;
    failed, bp, n, es := m.Fill(s, multi);
    if failed.Failed? {
      return if failed.why == OutOfBounds then ReadPastEnd else Refused;
    }
    NoNuls(s, multi, es);
    var name := BuildName(m.buf[..bp], m.types[..n], m.values[..n], m.mval[..n], nids, es);
    r := Name(name);
  }

  lemma {:induction false} ScanNoNul(s: string, i: nat, multi: bool)
    requires NUL !in s && i < |s|
    ensures NUL !in ScanType(s, i).text && NUL !in ScanValue(s, i, multi).text
    decreases |s| - i
  {
    assert s[i] in s;
    if i + 1 < |s| {
      assert s[i + 1] in s;
      ScanNoNul(s, i + 1, multi);
      if i + 2 < |s| {
        ScanNoNul(s, i + 2, multi);
      }
    }
  }

  lemma {:induction false} NoNulsFrom(s: string, i: nat, multi: bool, joined: bool, es: seq<Elem>)
    requires NUL !in s && i <= |s| && ParseFrom(s, i, multi, joined) == Elems(es)
    ensures forall k :: 0 <= k < |es| ==> NUL !in es[k].kind && NUL !in es[k].value
    decreases |s| - i
  {
    var t := ScanType(s, i);
    var v := ScanValue(s, t.next, multi);
    ScanNoNul(s, i, multi);
    ScanNoNul(s, t.next, multi);
    if v.next < |s| {
      var p := ParseFrom(s, v.next, multi, v.end == Stop('+'));
      NoNulsFrom(s, v.next, multi, v.end == Stop('+'), p.elems);
    }
  }

  lemma NoNuls(s: string, multi: bool, es: seq<Elem>)
    requires NUL !in s && Parse(s, multi) == Elems(es)
    ensures forall k :: 0 <= k < |es| ==> NUL !in es[k].kind && NUL !in es[k].value
  {
    NoNulsFrom(s, 1, multi, false, es);
  }
}
