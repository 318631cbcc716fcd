/** The revocation field of a database row: how it is printed when a certificate
    is revoked, how it is read back, and what the CRL and OCSP answers made from
    it contain (apps/ca.c:2418-2552, 2602-2705; apps/ocsp.c:965-983). */
module Revocation {
  import opened Prelude
  import opened Asn1Time

  const REV_CRL_REASON := 1
  const REV_HOLD := 2
  const REV_KEY_COMPROMISE := 3
  const REV_CA_COMPROMISE := 4

  const NO_STATUS := -1
  const KEY_COMPROMISE := 1
  const CA_COMPROMISE := 2
  const CERTIFICATE_HOLD := 6
  const REMOVE_FROM_CRL := 8

  /** Positions in the reason table of the three pseudo reasons, and of the one
      reason whose code is not its position. */
  const NUM_REASONS := 11
  const REMOVE := 7
  const HOLD_INSTRUCTION := 8
  const KEY_TIME := 9
  const CA_KEY_TIME := 10

  /** What the code looks things up in: OBJ_txt2obj(text, 0), and the table
      crl_reasons. */
  datatype Lib = Lib(oids: string -> Option<string>, reasons: seq<string>) {
    predicate Ok() {
      |reasons| == NUM_REASONS
    }

    /** The names have no commas and differ even ignoring case. */
    ghost predicate NamesOk() {
      && Ok()
      && (forall i :: 0 <= i < NUM_REASONS ==> ',' !in reasons[i])
      && (forall i, j :: 0 <= i < j < NUM_REASONS ==> !SameIgnoringCase(reasons[i], reasons[j]))
    }
  }

  /** What a revocation field says. */
  datatype RevInfo = RevInfo(time: string, reason: int, hold: Option<string>, invalidity: Option<string>)

  /** The first of the first n names that s equals, ignoring case. */
  function ReasonFrom(names: seq<string>, s: string, i: nat, n: nat): (r: Option<nat>)
    requires i <= n <= |names|
    ensures r.Some? ==> i <= r.value < n && SameIgnoringCase(s, names[r.value])
    ensures r.None? ==> forall k :: i <= k < n ==> !SameIgnoringCase(s, names[k])
    decreases n - i
  {
    if i == n then None
    else if SameIgnoringCase(s, names[i]) then Some(i)
    else ReasonFrom(names, s, i + 1, n)
  }

  /** The search loops over crl_reasons. */
  method FindReason(names: seq<string>, s: string, n: nat) returns (r: Option<nat>)
    requires n <= |names|
    ensures r == ReasonFrom(names, s, 0, n)
  {
    var i := 0;
    while i < n
      invariant i <= n
      invariant ReasonFrom(names, s, 0, n) == ReasonFrom(names, s, i, n)
    {
      if SameIgnoringCase(s, names[i]) {
        return Some(i);
      }
      i := i + 1;
    }
    r := None;
  }

  // ----- what the operator asked for

  /** The reason code of section 5.3.1 of RFC 5280 behind entry i of crl_reasons. */
  function ReasonCode(i: nat): int
    requires i < NUM_REASONS
  {
    if i == REMOVE then REMOVE_FROM_CRL
    else if i == HOLD_INSTRUCTION then CERTIFICATE_HOLD
    else if i == KEY_TIME then KEY_COMPROMISE
    else if i == CA_KEY_TIME then CA_COMPROMISE
    else i
  }

  /** The information a revocation request carries, None when it is refused. */
  function Asked(lib: Lib, revType: int, arg: string, now: string): Option<RevInfo>
    requires lib.Ok()
  {
    if revType == REV_CRL_REASON then
      var i := ReasonFrom(lib.reasons, arg, 0, 8);
      if i.None? then None else Some(RevInfo(now, ReasonCode(i.value), None, None))
    else if revType == REV_HOLD then
      if lib.oids(arg).None? then None else Some(RevInfo(now, CERTIFICATE_HOLD, lib.oids(arg), None))
    else if revType == REV_KEY_COMPROMISE then
      if !IsGeneralizedTime(arg) then None else Some(RevInfo(now, KEY_COMPROMISE, None, Some(arg)))
    else if revType == REV_CA_COMPROMISE then
      if !IsGeneralizedTime(arg) then None else Some(RevInfo(now, CA_COMPROMISE, None, Some(arg)))
    else
      Some(RevInfo(now, NO_STATUS, None, None))
  }

  // ----- printing

  /** revtime[,reason[,extra]] */
  function Joined(time: string, reason: Option<string>, other: Option<string>): string
  {
    time + (if reason.Some? then "," + reason.value else "") + (if other.Some? then "," + other.value else "")
  }

  /** The reason and the extra argument a request is printed with, the reason as
      a position in the table. */
  function Choice(lib: Lib, revType: int, arg: string): (c: Option<(Option<nat>, Option<string>)>)
    requires lib.Ok()
    ensures c.Some? && c.value.0.Some? ==> c.value.0.value < NUM_REASONS
    ensures c.Some? && c.value.1.Some? ==> c.value.0.Some?
  {
    if revType == REV_CRL_REASON then
      var i := ReasonFrom(lib.reasons, arg, 0, 8);
      if i.None? then None else Some((i, None))
    else if revType == REV_HOLD then
      if lib.oids(arg).None? then None else Some((Some(HOLD_INSTRUCTION), Some(arg)))
    else if revType == REV_KEY_COMPROMISE || revType == REV_CA_COMPROMISE then
      if !IsGeneralizedTime(arg) then None
      else Some((Some(if revType == REV_KEY_COMPROMISE then KEY_TIME else CA_KEY_TIME), Some(arg)))
    else
      Some((None, None))
  }

  function RevocationStr(lib: Lib, revType: int, arg: string, now: string): Option<string>
    requires lib.Ok()
  {
    var c := Choice(lib, revType, arg);
    if c.None? then None
    else Some(Joined(now, if c.value.0.Some? then Some(lib.reasons[c.value.0.value]) else None, c.value.1))
  }

  /** make_revocation_str. */
  method MakeRevocationStr(lib: Lib, revType: int, arg: string, now: string) returns (r: Option<string>)
    requires lib.Ok()
    ensures r == RevocationStr(lib, revType, arg, now)
  {
    var reason: Option<string>, other: Option<string> := None, None;
    if revType == REV_CRL_REASON {
      var i := FindReason(lib.reasons, arg, 8);
      if i.None? {
        return None;
      }
      reason := Some(lib.reasons[i.value]);
    } else if revType == REV_HOLD {
      if lib.oids(arg).None? {
        return None;
      }
      reason, other := Some(lib.reasons[HOLD_INSTRUCTION]), Some(arg);
    } else if revType == REV_KEY_COMPROMISE || revType == REV_CA_COMPROMISE {
      if !IsGeneralizedTime(arg) {
        return None;
      }
      other := Some(arg);
      reason := Some(lib.reasons[if revType == REV_KEY_COMPROMISE then KEY_TIME else CA_KEY_TIME]);
    }
    r := Some(Joined(now, reason, other));
  }

  // ----- reading back

  /** The three pieces between the first two commas. */
  datatype Pieces = Pieces(time: string, reason: Option<string>, arg: Option<string>)

  function Split(str: string): Pieces
  {
    var p := FirstOf(str, ',');
    if p == |str| then Pieces(str, None, None)
    else
      var rest := str[p + 1..];
      var q := FirstOf(rest, ',');
      if q == |rest| then Pieces(str[..p], Some(rest), None)
      else Pieces(str[..p], Some(rest[..q]), Some(rest[q + 1..]))
  }

  /** The meaning of entry i of crl_reasons with the given argument. */
  function WithReason(lib: Lib, time: string, i: nat, arg: Option<string>): Option<RevInfo>
    requires i < NUM_REASONS
  {
    if i == HOLD_INSTRUCTION then
      if arg.None? || lib.oids(arg.value).None? then None
      else Some(RevInfo(time, ReasonCode(i), lib.oids(arg.value), None))
    else if i == KEY_TIME || i == CA_KEY_TIME then
      if arg.None? || !IsGeneralizedTime(arg.value) then None
      else Some(RevInfo(time, ReasonCode(i), None, arg))
    else Some(RevInfo(time, ReasonCode(i), None, None))
  }

  function Unpacked(lib: Lib, str: string): Option<RevInfo>
    requires lib.Ok()
  {
    var s := Split(str);
    if !IsUtcTime(s.time) then None
    else if s.reason.None? then Some(RevInfo(s.time, NO_STATUS, None, None))
    else
      var i := ReasonFrom(lib.reasons, s.reason.value, 0, NUM_REASONS);
      if i.None? then None else WithReason(lib, s.time, i.value, s.arg)
  }

  /** unpack_revinfo. */
  method UnpackRevinfo(lib: Lib, str: string) returns (r: Option<RevInfo>)
    requires lib.Ok()
    ensures r == Unpacked(lib, str)
  {
    var time := str;
    var reasonStr: Option<string>, arg: Option<string> := None, None;
    var p := FirstOf(str, ',');
    if p < |str| {
      time := str[..p];
      var rest := str[p + 1..];
      p := FirstOf(rest, ',');
      reasonStr := Some(rest[..p]);
      if p < |rest| {
        arg := Some(rest[p + 1..]);
      } else {
        assert rest[..p] == rest;
      }
    }
    if !IsUtcTime(time) {
      return None;
    }
    var reason := NO_STATUS;
    var hold: Option<string>, comp: Option<string> := None, None;
    if reasonStr.Some? {
      var i := FindReason(lib.reasons, reasonStr.value, NUM_REASONS);
      if i.None? {
        return None;
      }
      reason := i.value;
      if reason == REMOVE {
        reason := REMOVE_FROM_CRL;
      } else if reason == HOLD_INSTRUCTION {
        if arg.None? {
          return None;
        }
        reason := CERTIFICATE_HOLD;
        hold := lib.oids(arg.value);
        if hold.None? {
          return None;
        }
      } else if reason == KEY_TIME || reason == CA_KEY_TIME {
        if arg.None? || !IsGeneralizedTime(arg.value) {
          return None;
        }
        comp := arg;
        reason := if reason == KEY_TIME then KEY_COMPROMISE else CA_COMPROMISE;
      }
    }
    r := Some(RevInfo(time, reason, hold, comp));
  }

  // ----- the round trip

  lemma UtcHasNoComma(s: string)
    requires IsUtcTime(s)
    ensures ',' !in s
  {
    forall i | 0 <= i < |s|
      ensures s[i] != ','
    {
      if i < 12 {
        assert s[i] == s[..12][i];
      }
    }
  }

  /** The first comma of a + "," + rest, when a has none, is the one after a. */
  lemma {:induction false} FirstComma(a: string, rest: string)
    requires ',' !in a
    ensures FirstOf(a + "," + rest, ',') == |a|
    ensures FirstOf(a, ',') == |a|
  {
    if a != [] {
      FirstComma(a[1..], rest);
      assert (a + "," + rest)[1..] == a[1..] + "," + rest;
    }
  }

  lemma SplitOfJoined(time: string, reason: Option<string>, other: Option<string>)
    requires ',' !in time
    requires reason.Some? ==> ',' !in reason.value
    requires other.Some? ==> reason.Some?
    ensures Split(Joined(time, reason, other)) == Pieces(time, reason, other)
  {
    var s := Joined(time, reason, other);
    if reason.None? {
      assert s == time;
      FirstComma(time, "");
    } else {
      var rest := reason.value + (if other.Some? then "," + other.value else "");
      assert s == time + "," + rest;
      FirstComma(time, rest);
      assert s[|time| + 1..] == rest && s[..|time|] == time;
      if other.None? {
        assert rest == reason.value;
        FirstComma(reason.value, "");
      } else {
        assert rest == reason.value + "," + other.value;
        FirstComma(reason.value, other.value);
        assert rest[..|reason.value|] == reason.value && rest[|reason.value| + 1..] == other.value;
      }
    }
  }

  lemma ReasonIsFound(lib: Lib, i: nat)
    requires lib.NamesOk() && i < NUM_REASONS
    ensures ReasonFrom(lib.reasons, lib.reasons[i], 0, NUM_REASONS) == Some(i)
  {
    assert SameIgnoringCase(lib.reasons[i], lib.reasons[i]);
  }

  lemma UnpackedReason(lib: Lib, now: string, i: nat, other: Option<string>)
    requires lib.NamesOk() && IsUtcTime(now) && i < NUM_REASONS
    ensures Unpacked(lib, Joined(now, Some(lib.reasons[i]), other)) == WithReason(lib, now, i, other)
  {
    UtcHasNoComma(now);
    ReasonIsFound(lib, i);
    SplitOfJoined(now, Some(lib.reasons[i]), other);
  }

  lemma UnpackedTimeOnly(lib: Lib, now: string)
    requires lib.Ok() && IsUtcTime(now)
    ensures var s := Joined(now, None, None);
            s != "" && Unpacked(lib, s) == Some(RevInfo(now, NO_STATUS, None, None))
  {
    UtcHasNoComma(now);
    SplitOfJoined(now, None, None);
  }

  lemma JoinedNotEmpty(time: string, reason: Option<string>, other: Option<string>)
    requires time != ""
    ensures Joined(time, reason, other) != ""
  {
  }

  lemma ChoiceIsAsked(lib: Lib, revType: int, arg: string, now: string)
    requires lib.Ok()
    ensures var c, a := Choice(lib, revType, arg), Asked(lib, revType, arg, now);
            && (c.None? <==> a.None?)
            && (c.Some? && c.value.0.Some? ==>
                  a == WithReason(lib, now, c.value.0.value, c.value.1))
            && (c.Some? && c.value.0.None? ==> a == Some(RevInfo(now, NO_STATUS, None, None)))
  {
  }

  /** Whatever is printed is read back as what was asked for, whatever the
      argument holds, and a request is refused exactly when nothing is printed. */
  lemma RevocationRoundTrip(lib: Lib, revType: int, arg: string, now: string)
    requires lib.NamesOk()
    requires IsUtcTime(now)
    ensures var s := RevocationStr(lib, revType, arg, now);
            && (s.None? <==> Asked(lib, revType, arg, now).None?)
            && (s.Some? ==> s.value != "" && Unpacked(lib, s.value) == Asked(lib, revType, arg, now))
  {
    var c := Choice(lib, revType, arg);
    ChoiceIsAsked(lib, revType, arg, now);
    if c.Some? && c.value.0.Some? {
      UnpackedReason(lib, now, c.value.0.value, c.value.1);
      JoinedNotEmpty(now, Some(lib.reasons[c.value.0.value]), c.value.1);
    } else if c.Some? {
      UnpackedTimeOnly(lib, now);
    }
  }

  // ----- the texts themselves

  /** What a time, the reason at place i of the table and an argument stand for: the
      numbers are those of section 5.3.1 of RFC 5280. */
  ghost function Says(lib: Lib, time: string, i: nat, arg: Option<string>): Option<RevInfo>
    requires i < 11
  {
    if i < 8 then Some(RevInfo(time, [0, 1, 2, 3, 4, 5, 6, 8][i], None, None))
    else if arg.None? then None
    else if i == 8 then
      if lib.oids(arg.value).None? then None else Some(RevInfo(time, 6, lib.oids(arg.value), None))
    else if !IsGeneralizedTime(arg.value) then None
    else Some(RevInfo(time, i - 8, None, arg))
  }

  lemma SaysIs(lib: Lib, time: string, i: nat, arg: Option<string>)
    requires i < 11
    ensures WithReason(lib, time, i, arg) == Says(lib, time, i, arg)
  {
  }

  lemma JoinedIs(time: string, name: string, arg: string)
    ensures Joined(time, None, None) == time
    ensures Joined(time, Some(name), None) == time + "," + name
    ensures Joined(time, Some(name), Some(arg)) == time + "," + name + "," + arg
  {
    assert time + ("," + name) + ("," + arg) == time + "," + name + "," + arg;
    assert time + ("," + name) + "" == time + "," + name;
  }

  /** What is printed for a reason. */
  lemma PrintedReason(lib: Lib, arg: string, now: string)
    requires lib.NamesOk()
    ensures RevocationStr(lib, 1, arg, now).None? <==> forall i :: 0 <= i < 8 ==> !SameIgnoringCase(arg, lib.reasons[i])
    ensures forall i :: 0 <= i < 8 && SameIgnoringCase(arg, lib.reasons[i]) ==>
              RevocationStr(lib, 1, arg, now) == Some(now + "," + lib.reasons[i])
  {
    var r := ReasonFrom(lib.reasons, arg, 0, 8);
    if r.Some? {
      OnlyReason(lib, arg, r.value);
      JoinedIs(now, lib.reasons[r.value], "");
    }
  }

  /** What is printed for the other kinds of request: the pseudo reasons stand at the
      places 8, 9 and 10 of the table. */
  lemma PrintedForms(lib: Lib, arg: string, now: string)
    requires lib.NamesOk()
    ensures RevocationStr(lib, 2, arg, now) ==
            if lib.oids(arg).None? then None else Some(now + "," + lib.reasons[8] + "," + arg)
    ensures RevocationStr(lib, 3, arg, now) ==
            if !IsGeneralizedTime(arg) then None else Some(now + "," + lib.reasons[9] + "," + arg)
    ensures RevocationStr(lib, 4, arg, now) ==
            if !IsGeneralizedTime(arg) then None else Some(now + "," + lib.reasons[10] + "," + arg)
    ensures forall revType :: revType !in {1, 2, 3, 4} ==> RevocationStr(lib, revType, arg, now) == Some(now)
  {
    JoinedIs(now, lib.reasons[8], arg);
    JoinedIs(now, lib.reasons[9], arg);
    JoinedIs(now, lib.reasons[10], arg);
  }

  lemma OnlyReason(lib: Lib, name: string, i: nat)
    requires lib.NamesOk() && i < 11 && SameIgnoringCase(name, lib.reasons[i])
    ensures forall k :: 0 <= k < 11 && SameIgnoringCase(name, lib.reasons[k]) ==> k == i
  {
    forall k | 0 <= k < 11 && SameIgnoringCase(name, lib.reasons[k])
      ensures k == i
    {
      assert SameIgnoringCase(lib.reasons[i], lib.reasons[k]) && SameIgnoringCase(lib.reasons[k], lib.reasons[i]);
    }
  }

  /** A field: a time, or a time and a reason, or these and an argument. */
  ghost function FieldText(time: string, name: string, arg: Option<string>): string
  {
    if arg.None? then time + "," + name else time + "," + name + "," + arg.value
  }

  /** What is read from a field without a reason, and from one with a reason. */
  lemma ReadForms(lib: Lib, time: string, name: string, arg: Option<string>)
    requires lib.NamesOk() && ',' !in time && ',' !in name
    ensures Unpacked(lib, time) == if IsUtcTime(time) then Some(RevInfo(time, -1, None, None)) else None
    ensures var r := Unpacked(lib, FieldText(time, name, arg));
            && (!IsUtcTime(time) ==> r == None)
            && ((forall i :: 0 <= i < 11 ==> !SameIgnoringCase(name, lib.reasons[i])) ==> r == None)
            && (forall i :: 0 <= i < 11 && IsUtcTime(time) && SameIgnoringCase(name, lib.reasons[i]) ==>
                  r == Says(lib, time, i, arg))
  {
    FieldPieces(time, name, arg);
    var i := ReasonFrom(lib.reasons, name, 0, NUM_REASONS);
    if i.Some? {
      OnlyReason(lib, name, i.value);
      SaysIs(lib, time, i.value, arg);
    }
  }

  lemma FieldPieces(time: string, name: string, arg: Option<string>)
    requires ',' !in time && ',' !in name
    ensures Split(time) == Pieces(time, None, None)
    ensures Split(FieldText(time, name, arg)) == Pieces(time, Some(name), arg)
  {
    SplitOfJoined(time, None, None);
    SplitOfJoined(time, Some(name), arg);
    JoinedIs(time, name, if arg.Some? then arg.value else "");
  }

  /** Every field has one of these forms. */
  lemma FieldForms(str: string) returns (time: string, name: string, arg: Option<string>)
    ensures ',' !in time && ',' !in name
    ensures str == time || str == FieldText(time, name, arg)
  {
    var p := FirstOf(str, ',');
    time, name, arg := str[..p], "", None;
    if p < |str| {
      var rest := str[p + 1..];
      var q := FirstOf(rest, ',');
      name := rest[..q];
      if q < |rest| {
        arg := Some(rest[q + 1..]);
      }
    }
  }

  /** From 2050 on the clock reads as a GeneralizedTime and what is printed is
      not accepted back. */
  lemma RoundTripNeedsUtcClock(lib: Lib, revType: int, arg: string, now: string)
    requires lib.Ok()
    requires IsGeneralizedTime(now)
    ensures var s := RevocationStr(lib, revType, arg, now); s.Some? ==> Unpacked(lib, s.value).None?
  {
    var s := RevocationStr(lib, revType, arg, now);
    if s.Some? {
      assert s.value[..15] == now;
      var p := FirstOf(s.value, ',');
      forall k | 0 <= k < 15
        ensures s.value[k] != ','
      {
        assert s.value[k] == now[k];
        if k < 14 {
          assert now[k] == now[..14][k];
        }
      }
      assert p >= 15;
      assert |Split(s.value).time| == p;
    }
  }

  /** The names in the program's table. */
  function ReasonName(i: nat): string
  {
    match i
    case 0 => "unspecified"
    case 1 => "keyCompromise"
    case 2 => "CACompromise"
    case 3 => "affiliationChanged"
    case 4 => "superseded"
    case 5 => "cessationOfOperation"
    case 6 => "certificateHold"
    case 7 => "removeFromCRL"
    case 8 => "holdInstruction"
    case 9 => "keyTime"
    case _ => "CAkeyTime"
  }

  /** Length and first letter tell the names apart. */
  function NameShape(i: nat): (int, char)
  {
    match i
    case 0 => (11, 'U')
    case 1 => (13, 'K')
    case 2 => (12, 'C')
    case 3 => (18, 'A')
    case 4 => (10, 'S')
    case 5 => (20, 'C')
    case 6 => (15, 'C')
    case 7 => (13, 'R')
    case 8 => (15, 'H')
    case 9 => (7, 'K')
    case _ => (9, 'C')
  }

  lemma NameHasShape(i: nat)
    ensures var n := ReasonName(i); n != [] && (|n|, ToUpper(n[0])) == NameShape(i)
    ensures ',' !in ReasonName(i)
  {
  }

  lemma NamesDiffer(a: string, b: string)
    requires a != [] && b != [] && (|a| != |b| || ToUpper(a[0]) != ToUpper(b[0]))
    ensures !SameIgnoringCase(a, b)
  {
    assert Upper(a)[0] == ToUpper(a[0]) && Upper(b)[0] == ToUpper(b[0]);
  }

  lemma ShapesDiffer(i: nat, j: nat)
    requires i < j < NUM_REASONS
    ensures NameShape(i) != NameShape(j)
  {
  }

  /** The program's table meets Lib.NamesOk. */
  lemma ReasonsOk(lib: Lib)
    requires |lib.reasons| == NUM_REASONS
    requires forall i :: 0 <= i < NUM_REASONS ==> lib.reasons[i] == ReasonName(i)
    ensures lib.NamesOk()
  {
    forall i | 0 <= i < NUM_REASONS
      ensures ',' !in lib.reasons[i]
    {
      NameHasShape(i);
    }
    forall i, j | 0 <= i < j < NUM_REASONS
      ensures !SameIgnoringCase(lib.reasons[i], lib.reasons[j])
    {
      NameHasShape(i);
      NameHasShape(j);
      ShapesDiffer(i, j);
      NamesDiffer(ReasonName(i), ReasonName(j));
    }
  }

  // ----- CRL entries and OCSP answers

  datatype Extension = CrlReason(code: int) | InvalidityDate(time: string) | HoldInstruction(oid: string)

  /** The extensions make_revoked adds, in order. */
  function EntryExtensions(i: RevInfo): seq<Extension>
  {
    (if i.reason != NO_STATUS then [CrlReason(i.reason)] else [])
    + (if i.invalidity.Some? then [InvalidityDate(i.invalidity.value)] else [])
    + (if i.hold.Some? then [HoldInstruction(i.hold.value)] else [])
  }

  /** The revoked branch of make_ocsp_response. */
  datatype OcspRevoked = OcspRevoked(reason: int, time: string, extra: Option<Extension>)

  function OcspAnswer(i: RevInfo): OcspRevoked
  {
    OcspRevoked(i.reason, i.time,
                if i.invalidity.Some? then Some(InvalidityDate(i.invalidity.value))
                else if i.hold.Some? then Some(HoldInstruction(i.hold.value))
                else None)
  }

  /** The extensions that the OCSP answer stands for. */
  function OcspExtensions(a: OcspRevoked): seq<Extension>
  {
    (if a.reason != NO_STATUS then [CrlReason(a.reason)] else [])
    + (if a.extra.Some? then [a.extra.value] else [])
  }

  /** Extensions carry exactly what the field says: the reason unless there is none, the
      date of invalidity and the hold instruction, each once. */
  ghost predicate SaysWhat(exts: seq<Extension>, i: RevInfo)
  {
    && (forall r :: CrlReason(r) in exts <==> i.reason == r && r != -1)
    && (forall t :: InvalidityDate(t) in exts <==> i.invalidity == Some(t))
    && (forall o :: HoldInstruction(o) in exts <==> i.hold == Some(o))
    && (forall j, k :: 0 <= j < k < |exts| ==> exts[j] != exts[k])
  }

  lemma ExtensionsSayWhat(i: RevInfo)
    ensures SaysWhat(EntryExtensions(i), i)
  {
  }

  /** What every parsed field satisfies: extra fields come only with a reason, and
      at most one of them is there. */
  predicate InfoOk(i: RevInfo)
  {
    && IsUtcTime(i.time)
    && (i.reason == NO_STATUS ==> i.hold.None? && i.invalidity.None?)
    && (i.hold.None? || i.invalidity.None?)
  }

  lemma UnpackedInfoOk(lib: Lib, str: string)
    requires lib.Ok() && Unpacked(lib, str).Some?
    ensures InfoOk(Unpacked(lib, str).value)
  {
    var s := Split(str);
    if s.reason.Some? {
      var i := ReasonFrom(lib.reasons, s.reason.value, 0, NUM_REASONS);
      assert Unpacked(lib, str) == WithReason(lib, s.time, i.value, s.arg);
    }
  }

  /** The CRL entry and the OCSP answer carry the same reason and the same extra
      field, and a reason is there exactly when there is any extension. */
  lemma CrlAndOcspAgree(i: RevInfo)
    requires InfoOk(i)
    ensures EntryExtensions(i) == OcspExtensions(OcspAnswer(i)) && OcspAnswer(i).time == i.time
    ensures i.reason != NO_STATUS <==> EntryExtensions(i) != []
  {
  }
}
