/** The operations of the certificate authority on its database: issuing,
    revoking, expiring and the status queries (apps/ca.c, apps/ocsp.c). */
module CaDatabase {
  import opened Prelude
  import opened SerialKey
  import opened TxtDb
  import opened Asn1Time
  import opened Expiry
  import opened Revocation

  /** What a certificate puts in its row. */
  datatype Cert = Cert(serial: nat, name: string, notAfter: string)

  /** The row of a new certificate. */
  function NewRow(c: Cert): (r: Row)
    ensures Canonical(r.serial) && Value(r.serial) == c.serial
  {
    ValueOfKey(c.serial);
    Row('V', c.notAfter, "", Key(c.serial), "unknown", c.name)
  }

  // ----- issuing

  /** How a request fares outside the database: its own signature does not match, it
      fails the policy or cannot be signed, the operator declines it, or it is signed. */
  datatype Verdict = Mismatched | Rejected | Declined | Signed

  /** The database part of certify and do_body: the serial is looked up first, the row
      is inserted once the certificate is signed. The result is -1, 0 or 1. A request
      whose signature does not match is passed over before all that. */
  method Issue(db: Db, c: Cert, verdict: Verdict) returns (ok: int)
    requires db.Valid()
    modifies db
    ensures db.Valid()
    ensures ok == if verdict == Mismatched then 0
                  else if verdict == Rejected || Scan(old(db.rows), c.serial).Some? then -1
                  else if verdict == Declined then 0
                  else if c.name in old(db.taken) then -1
                  else 1
    ensures db.rows == if ok == 1 then old(db.rows) + [NewRow(c)] else old(db.rows)
    ensures db.taken == old(db.taken) + if ok == 1 && db.unique then {c.name} else {}
  {
    if verdict == Mismatched {
      return 0;
    }
    if verdict == Rejected {
      return -1;
    }
    ValueOfKey(c.serial);
    var clash := db.GetBySerial(Key(c.serial));
    if clash.Some? {
      return -1;
    }
    if verdict == Declined {
      return 0;
    }
    var done := db.Insert(NewRow(c));
    ok := if done then 1 else -1;
  }

  // ----- revoking

  /** The outcome of do_revoke without its recursion: `taken` says that the name
      index refuses the certificate's name, `rev` is the revocation string. */
  function RevokeResult(rows: seq<Row>, taken: bool, c: Cert, revType: int, rev: Option<string>): (bool, seq<Row>)
  {
    var i := Scan(rows, c.serial);
    if i.None? then
      if taken then (false, rows)
      else if revType == -1 then (true, rows + [NewRow(c)])
      else if rev.None? then (false, rows + [NewRow(c)])
      else (true, rows + [NewRow(c).(kind := 'R', rev := rev.value)])
    else
      var r := rows[i.value];
      if r.name != c.name || revType == -1 || r.kind == 'R' || rev.None? then (false, rows)
      else (true, rows[i.value := r.(kind := 'R', rev := rev.value)])
  }

  /** The outcome of a revocation on the rows and on the names that are taken. */
  ghost predicate Revokes(rows: seq<Row>, taken: set<string>, rows': seq<Row>, taken': set<string>, unique: bool,
                          ok: bool, c: Cert, revType: int, rev: Option<string>)
  {
    && (ok, rows') == RevokeResult(rows, c.name in taken, c, revType, rev)
    && taken' == if |rows'| > |rows| && unique then taken + {c.name} else taken
  }

  /** do_revoke: a certificate the database does not know is added first, and then
      revoked by one recursive call. */
  method DoRevoke(db: Db, lib: Lib, c: Cert, revType: int, value: string, now: string) returns (ok: bool)
    requires db.Valid() && lib.Ok()
    modifies db
    ensures db.Valid()
    ensures Revokes(old(db.rows), old(db.taken), db.rows, db.taken, db.unique, ok, c, revType,
                    RevocationStr(lib, revType, value, now))
    decreases if Scan(db.rows, c.serial).None? then 1 else 0, 1
  {
    ValueOfKey(c.serial);
    var r := db.GetBySerial(Key(c.serial));
    if r.None? {
      ok := AddAndRevoke(db, lib, c, revType, value, now);
    } else {
      ok := RevokeRow(db, lib, r.value, c, revType, value, now);
    }
  }

  /** The branch of do_revoke for a certificate without a row. */
  method AddAndRevoke(db: Db, lib: Lib, c: Cert, revType: int, value: string, now: string) returns (ok: bool)
    requires db.Valid() && lib.Ok() && Scan(db.rows, c.serial).None?
    modifies db
    ensures db.Valid()
    ensures Revokes(old(db.rows), old(db.taken), db.rows, db.taken, db.unique, ok, c, revType,
                    RevocationStr(lib, revType, value, now))
    decreases 1, 0
  {
    ghost var rows, taken := db.rows, db.taken;
    ghost var rev := RevocationStr(lib, revType, value, now);
    var row := NewRow(c);
    ok := db.Insert(row);
    RevokeNew(rows, taken, db.rows, db.taken, db.unique, ok, c, revType, rev);
    if !ok || revType == -1 {
      return;
    }
    ok := DoRevoke(db, lib, c, revType, value, now);
    RevokeAdded(rows, taken, db.rows, db.taken, db.unique, ok, c, revType, rev);
  }

  /** The insertion alone is the outcome when it fails, or when nothing more is asked. */
  lemma RevokeNew(rows: seq<Row>, taken: set<string>, rows': seq<Row>, taken': set<string>, unique: bool,
                  ok: bool, c: Cert, revType: int, rev: Option<string>)
    requires Scan(rows, c.serial).None? && (ok <==> c.name !in taken)
    requires rows' == if ok then rows + [NewRow(c)] else rows
    requires taken' == taken + if ok && unique then {c.name} else {}
    ensures !ok || revType == -1 ==> Revokes(rows, taken, rows', taken', unique, ok, c, revType, rev)
    ensures Scan(rows + [NewRow(c)], c.serial).Some?
  {
    ScanAppended(rows, NewRow(c));
    assert taken + {} == taken;
  }

  /** The branches of do_revoke for a certificate that has a row. */
  method RevokeRow(db: Db, lib: Lib, i: nat, c: Cert, revType: int, value: string, now: string) returns (ok: bool)
    requires db.Valid() && lib.Ok() && i < |db.rows|
    modifies db
    ensures db.Valid()
    ensures var r, rev := old(db.rows)[i], RevocationStr(lib, revType, value, now);
            && (ok <==> r.name == c.name && revType != -1 && r.kind != 'R' && rev.Some?)
            && db.rows == if ok then old(db.rows)[i := r.(kind := 'R', rev := rev.value)] else old(db.rows)
    ensures db.taken == old(db.taken)
  {
    if db.rows[i].name != c.name || revType == -1 || db.rows[i].kind == 'R' {
      return false;
    }
    var rev := MakeRevocationStr(lib, revType, value, now);
    if rev.None? {
      return false;
    }
    db.Change(i, db.rows[i].(kind := 'R', rev := rev.value));
    ok := true;
  }

  lemma {:induction false} ScanAppendedFrom(rows: seq<Row>, row: Row, i: nat)
    requires i <= |rows| && ScanFrom(rows, Value(row.serial), i).None?
    ensures ScanFrom(rows + [row], Value(row.serial), i) == Some(|rows|)
    decreases |rows| - i
  {
    if i < |rows| {
      ScanAppendedFrom(rows, row, i + 1);
    }
  }

  lemma ScanAppended(rows: seq<Row>, row: Row)
    requires Scan(rows, Value(row.serial)).None?
    ensures Scan(rows + [row], Value(row.serial)) == Some(|rows|)
    ensures (rows + [row])[|rows|] == row
    ensures forall r :: (rows + [row])[|rows| := r] == rows + [r]
  {
    ScanAppendedFrom(rows, row, 0);
  }

  /** Adding a row and revoking it is what revoking an unknown certificate comes to. */
  lemma RevokeAdded(rows: seq<Row>, taken: set<string>, rows': seq<Row>, taken': set<string>, unique: bool,
                    ok: bool, c: Cert, revType: int, rev: Option<string>)
    requires Scan(rows, c.serial).None? && c.name !in taken && revType != -1
    requires Revokes(rows + [NewRow(c)], if unique then taken + {c.name} else taken, rows', taken', unique, ok, c,
                     revType, rev)
    ensures Revokes(rows, taken, rows', taken', unique, ok, c, revType, rev)
  {
    ScanAppended(rows, NewRow(c));
  }

  /** What a revocation does, in terms of serial numbers: at most one row is added,
      no row with another serial changes, a failed call changes no row that was
      there, and after a successful one exactly one row has the serial, revoked
      with the new string unless the certificate was only to be added. */
  lemma RevokeMeaning(rows: seq<Row>, taken: bool, c: Cert, revType: int, rev: Option<string>)
    requires DistinctSerials(rows)
    ensures var (ok, after) := RevokeResult(rows, taken, c, revType, rev);
            && |rows| <= |after| <= |rows| + 1
            && (forall i :: 0 <= i < |rows| && Value(rows[i].serial) != c.serial ==> after[i] == rows[i])
            && (|after| > |rows| ==> Value(after[|rows|].serial) == c.serial)
            && (!ok ==> after[..|rows|] == rows)
            && DistinctSerials(after)
            && (ok ==> exists i :: 0 <= i < |after| && Value(after[i].serial) == c.serial
                         && (revType != -1 ==> after[i].kind == 'R' && Some(after[i].rev) == rev)
                         && (revType == -1 ==> after[i] == NewRow(c) && i == |rows|))
  {
    var i := Scan(rows, c.serial);
    var (ok, after) := RevokeResult(rows, taken, c, revType, rev);
    if i.None? {
      if |after| > |rows| {
        assert Value(after[|rows|].serial) == c.serial;
      }
    } else {
      assert Value(after[i.value].serial) == c.serial;
    }
  }

  /** When a revocation succeeds and what it leaves, by the row with the number if there
      is one. */
  lemma RevokeIff(rows: seq<Row>, taken: bool, c: Cert, revType: int, rev: Option<string>)
    requires DistinctSerials(rows)
    ensures var (ok, after) := RevokeResult(rows, taken, c, revType, rev);
            && (forall i :: 0 <= i < |rows| && Value(rows[i].serial) == c.serial ==>
                  && (ok <==> rows[i].name == c.name && rows[i].kind != 'R' && revType != -1 && rev.Some?)
                  && after == if ok then rows[i := rows[i].(kind := 'R', rev := rev.value)] else rows)
            && ((forall i :: 0 <= i < |rows| ==> Value(rows[i].serial) != c.serial) ==>
                  && (ok <==> !taken && (revType == -1 || rev.Some?))
                  && (taken ==> after == rows)
                  && (!taken ==> exists r :: after == rows + [r] && IsAdded(r, c, if revType == -1 then None else rev)))
  {
    var i := Scan(rows, c.serial);
    if i.Some? {
      forall j | 0 <= j < |rows| && Value(rows[j].serial) == c.serial
        ensures j == i.value
      {
        assert Value(rows[j].serial) == Value(rows[i.value].serial);
      }
    } else if !taken {
      ValueOfKey(c.serial);
      var r := NewRow(c);
      if revType != -1 && rev.Some? {
        r := r.(kind := 'R', rev := rev.value);
      }
      assert IsAdded(r, c, if revType == -1 then None else rev);
    }
  }

  /** The row of a certificate that was not in the database, revoked or not. */
  ghost predicate IsAdded(r: Row, c: Cert, rev: Option<string>)
  {
    && r.exp == c.notAfter && r.name == c.name && Canonical(r.serial) && Value(r.serial) == c.serial
    && (if rev.Some? then r.kind == 'R' && r.rev == rev.value else r.kind == 'V' && r.rev == "")
  }

  // ----- expiring

  function ExpireRow(r: Row, now: string): Row
  {
    if r.kind == 'V' && MarksExpired(r.exp, now) then r.(kind := 'E') else r
  }

  function ExpireRows(rows: seq<Row>, now: string): (after: seq<Row>)
    ensures |after| == |rows|
    ensures forall i :: 0 <= i < |rows| ==> after[i] == ExpireRow(rows[i], now)
  {
    seq(|rows|, i requires 0 <= i < |rows| => ExpireRow(rows[i], now))
  }

  /** The rows among the first n that expiry changes. */
  function ExpiringIn(rows: seq<Row>, now: string, n: nat): set<nat>
    requires n <= |rows|
  {
    set i: nat | i < n && rows[i].kind == 'V' && MarksExpired(rows[i].exp, now)
  }

  /** The rows that expiry changes. */
  function Expiring(rows: seq<Row>, now: string): set<nat>
  {
    ExpiringIn(rows, now, |rows|)
  }

  lemma ExpiringStep(rows: seq<Row>, now: string, n: nat)
    requires n < |rows|
    ensures |ExpiringIn(rows, now, n + 1)| ==
            |ExpiringIn(rows, now, n)| + if rows[n].kind == 'V' && MarksExpired(rows[n].exp, now) then 1 else 0
  {
    SetStep(ExpiringIn(rows, now, n), ExpiringIn(rows, now, n + 1), n,
            rows[n].kind == 'V' && MarksExpired(rows[n].exp, now));
  }

  lemma SetStep(a: set<nat>, b: set<nat>, n: nat, hit: bool)
    requires n !in a
    requires forall x :: x in b <==> x in a || (hit && x == n)
    ensures |b| == |a| + if hit then 1 else 0
  {
    assert b == if hit then a + {n} else a;
  }

  /** The rows once the first n have been looked at. */
  ghost function ExpiredUpTo(rows: seq<Row>, now: string, n: nat): seq<Row>
    requires n <= |rows|
  {
    ExpireRows(rows[..n], now) + rows[n..]
  }

  lemma ExpiredStep(rows: seq<Row>, now: string, n: nat)
    requires n < |rows|
    ensures ExpiredUpTo(rows, now, n)[n] == rows[n]
    ensures ExpiredUpTo(rows, now, n + 1) == ExpiredUpTo(rows, now, n)[n := ExpireRow(rows[n], now)]
  {
    assert rows[..n + 1] == rows[..n] + [rows[n]];
    assert ExpireRows(rows[..n + 1], now) == ExpireRows(rows[..n], now) + [ExpireRow(rows[n], now)];
  }

  /** do_updatedb: marks the expired rows and counts them. */
  method DoUpdateDb(db: Db, now: string) returns (cnt: nat)
    requires db.Valid()
    modifies db
    ensures db.Valid()
    ensures db.rows == ExpireRows(old(db.rows), now)
    ensures cnt == |Expiring(old(db.rows), now)|
    ensures db.taken == old(db.taken)
  {
    ghost var rows := db.rows;
    var i := 0;
    cnt := 0;
    while i < |db.rows|
      invariant db.Valid() && i <= |rows| && db.taken == old(db.taken)
      invariant db.rows == ExpiredUpTo(rows, now, i)
      invariant cnt == |ExpiringIn(rows, now, i)|
    {
      ExpiredStep(rows, now, i);
      ExpiringStep(rows, now, i);
      var expired := UpdateRow(db, i, now);
      cnt := cnt + if expired then 1 else 0;
      i := i + 1;
    }
    assert rows[..i] == rows;
  }

  /** One round of the loop. */
  method UpdateRow(db: Db, i: nat, now: string) returns (expired: bool)
    requires db.Valid() && i < |db.rows|
    modifies db
    ensures db.Valid() && db.rows == old(db.rows)[i := ExpireRow(old(db.rows)[i], now)] && db.taken == old(db.taken)
    ensures expired <==> old(db.rows)[i].kind == 'V' && MarksExpired(old(db.rows)[i].exp, now)
  {
    expired := false;
    if db.rows[i].kind == 'V' {
      expired := ExpiredTest(db.rows[i].exp, now);
      if expired {
        db.Change(i, db.rows[i].(kind := 'E'));
      }
    }
  }

  /** The branches of do_updatedb on one row. */
  method ExpiredTest(exp: string, now: string) returns (b: bool)
    ensures b <==> MarksExpired(exp, now)
  {
    var nowY2k := if StrNCmp(now, "49", 2) <= 0 then 1 else 0;
    var dbY2k := if StrNCmp(exp, "49", 2) <= 0 then 1 else 0;
    b := false;
    if dbY2k == nowY2k {
      if StrCmp(exp, now) <= 0 {
        b := true;
      }
    } else if dbY2k < nowY2k {
      b := true;
    }
  }

  /** On rows with UTCTime dates: the valid rows at or past their expiry date, and
      no others, become expired; the count is the number of rows that change; a
      second run at or before the same time changes nothing; a later run marks a
      superset. */
  lemma UpdateDbMeaning(rows: seq<Row>, now: string, later: string)
    requires forall i :: 0 <= i < |rows| && rows[i].kind == 'V' ==> IsUtcTime(rows[i].exp)
    requires IsUtcTime(now) && IsUtcTime(later) && TmCmp(UtcTm(now), UtcTm(later)) <= 0
    ensures var after := ExpireRows(rows, now);
            && Expiring(rows, now) == (set i: nat | i < |rows| && rows[i] != after[i])
            && (forall i :: 0 <= i < |rows| ==>
                  (after[i] != rows[i] <==> rows[i].kind == 'V' && TmCmp(UtcTm(rows[i].exp), UtcTm(now)) <= 0))
            && (forall i :: 0 <= i < |rows| ==> after[i] == rows[i] || after[i] == rows[i].(kind := 'E'))
            && ExpireRows(after, now) == after
            && Expiring(rows, now) <= Expiring(rows, later)
            && ExpireRows(ExpireRows(rows, later), now) == ExpireRows(rows, later)
            && ExpireRows(after, later) == ExpireRows(rows, later)
  {
    forall i | 0 <= i < |rows| && rows[i].kind == 'V'
      ensures MarksExpired(rows[i].exp, now) <==> TmCmp(UtcTm(rows[i].exp), UtcTm(now)) <= 0
      ensures MarksExpired(rows[i].exp, now) ==> MarksExpired(rows[i].exp, later)
    {
      UtcExpiryIsChronological(rows[i].exp, now);
      if MarksExpired(rows[i].exp, now) {
        ExpiryIsMonotone(rows[i].exp, now, later);
      }
    }
  }

  // ----- what every operation keeps

  /** A row is revoked exactly when it has a revocation date, which then parses. */
  ghost predicate RevocationsOk(rows: seq<Row>, lib: Lib)
    requires lib.Ok()
  {
    forall i :: 0 <= i < |rows| ==>
      && (rows[i].kind == 'R' <==> rows[i].rev != "")
      && (rows[i].kind == 'R' ==> Unpacked(lib, rows[i].rev).Some?)
  }

  /** One row may become another: only the type and the revocation date change, a
      revoked row is final and an expired row can only be revoked. */
  ghost predicate RowMay(a: Row, b: Row)
  {
    && b == a.(kind := b.kind, rev := b.rev)
    && (a.kind == b.kind ==> a == b)
    && (a.kind == 'R' ==> b == a)
    && (a.kind != 'V' ==> b.kind == a.kind || b.kind == 'R')
    && (a.kind != b.kind ==> b.kind == 'E' || b.kind == 'R')
  }

  /** No row disappears, and each goes only where it may. */
  ghost predicate Evolves(before: seq<Row>, after: seq<Row>)
  {
    |before| <= |after| && forall i :: 0 <= i < |before| ==> RowMay(before[i], after[i])
  }

  lemma EvolvesTransitive(a: seq<Row>, b: seq<Row>, c: seq<Row>)
    requires Evolves(a, b) && Evolves(b, c)
    ensures Evolves(a, c)
  {
    forall i | 0 <= i < |a|
      ensures RowMay(a[i], c[i])
    {
      assert RowMay(a[i], b[i]) && RowMay(b[i], c[i]);
    }
  }

  predicate EvenHex(digits: string)
  {
    |digits| >= 2 && |digits| % 2 == 0 && forall i :: 0 <= i < |digits| ==> IsHex(digits[i])
  }

  /** The serial column of a row that may be loaded: an optional minus sign, then
      hexadecimal digits making whole bytes. */
  predicate SerialShape(s: string)
  {
    EvenHex(if s != "" && s[0] == '-' then s[1..] else s)
  }

  /** An even number of digits and at least two, with or without a minus sign before them. */
  lemma SerialShapeIs(digits: string)
    ensures SerialShape("-" + digits) <==> EvenHex(digits)
    ensures '-' !in digits ==> (SerialShape(digits) <==> EvenHex(digits))
  {
    var signed := "-" + digits;
    assert signed[0] == '-' && signed[1..] == digits;
  }

  predicate FieldsOk(r: Row, lib: Lib)
    requires lib.Ok()
  {
    && (r.kind != 'R' ==> r.rev == "")
    && (r.kind == 'R' ==> Unpacked(lib, r.rev).Some?)
    && (IsUtcTime(r.exp) || IsGeneralizedTime(r.exp))
    && SerialShape(r.serial)
  }

  /** The checks of ca_main on a loaded database. */
  method CheckFields(rows: seq<Row>, lib: Lib) returns (ok: bool)
    requires lib.Ok()
    ensures ok <==> forall i :: 0 <= i < |rows| ==> FieldsOk(rows[i], lib)
    ensures ok <==> forall i :: 0 <= i < |rows| ==>
                      && (if rows[i].kind == 'R' then Unpacked(lib, rows[i].rev).Some? else rows[i].rev == "")
                      && (IsUtcTime(rows[i].exp) || IsGeneralizedTime(rows[i].exp)) && SerialShape(rows[i].serial)
  {
    var i := 0;
    while i < |rows|
      invariant i <= |rows|
      invariant forall k :: 0 <= k < i ==> FieldsOk(rows[k], lib)
    {
      var r := rows[i];
      if r.kind != 'R' && r.rev != "" {
        return false;
      }
      if r.kind == 'R' {
        var info := UnpackRevinfo(lib, r.rev);
        if info.None? {
          return false;
        }
      }
      if !IsUtcTime(r.exp) && !IsGeneralizedTime(r.exp) {
        return false;
      }
      if !SerialShape(r.serial) {
        return false;
      }
      i := i + 1;
    }
    ok := true;
  }

  /** The checks are enough for the revocation fields to be in step with the types:
      an empty field does not parse. */
  lemma CheckedRowsAgree(rows: seq<Row>, lib: Lib)
    requires lib.Ok() && forall i :: 0 <= i < |rows| ==> FieldsOk(rows[i], lib)
    ensures RevocationsOk(rows, lib)
  {
    assert Unpacked(lib, "").None? by {
      assert Split("").time == "" || FirstOf("", ',') == 0;
    }
  }

  datatype Op =
    | OpIssue(cert: Cert, verdict: Verdict)
    | OpRevoke(cert: Cert, revType: int, value: string, now: string)
    | OpUpdate(now: string)

  /** The rows, and the names that the name index holds. */
  datatype Store = Store(rows: seq<Row>, taken: set<string>)

  /** The rows after one operation. `taken` is the name index's answer for the
      certificate at hand. */
  function StepRows(rows: seq<Row>, taken: bool, lib: Lib, op: Op): seq<Row>
    requires lib.Ok()
  {
    match op
    case OpIssue(c, v) =>
      if v == Signed && Scan(rows, c.serial).None? && !taken then rows + [NewRow(c)] else rows
    case OpRevoke(c, t, value, now) => RevokeResult(rows, taken, c, t, RevocationStr(lib, t, value, now)).1
    case OpUpdate(now) => ExpireRows(rows, now)
  }

  predicate NameTaken(s: Store, op: Op)
  {
    !op.OpUpdate? && op.cert.name in s.taken
  }

  /** One operation: a row that is added takes its name, and no name is given back. */
  function Step(s: Store, unique: bool, lib: Lib, op: Op): Store
    requires lib.Ok()
  {
    var rows := StepRows(s.rows, NameTaken(s, op), lib, op);
    Store(rows, if unique && !op.OpUpdate? && |rows| > |s.rows| then s.taken + {op.cert.name} else s.taken)
  }

  /** The first n operations. */
  function Steps(s: Store, unique: bool, lib: Lib, ops: seq<Op>, n: nat): Store
    requires lib.Ok() && n <= |ops|
  {
    if n == 0 then s else Step(Steps(s, unique, lib, ops, n - 1), unique, lib, ops[n - 1])
  }

  predicate ClockOk(op: Op)
  {
    op.OpRevoke? ==> IsUtcTime(op.now)
  }

  lemma StepKeeps(rows: seq<Row>, taken: bool, lib: Lib, op: Op)
    requires lib.NamesOk() && ClockOk(op) && RevocationsOk(rows, lib)
    ensures RevocationsOk(StepRows(rows, taken, lib, op), lib)
    ensures Evolves(rows, StepRows(rows, taken, lib, op))
  {
    match op
    case OpIssue(c, v) =>
    case OpRevoke(c, t, value, now) => RevokeKeeps(rows, taken, lib, c, t, value, now);
    case OpUpdate(now) =>
  }

  lemma RevokeKeeps(rows: seq<Row>, taken: bool, lib: Lib, c: Cert, t: int, value: string, now: string)
    requires lib.NamesOk() && IsUtcTime(now) && RevocationsOk(rows, lib)
    ensures var after := RevokeResult(rows, taken, c, t, RevocationStr(lib, t, value, now)).1;
            RevocationsOk(after, lib) && Evolves(rows, after)
  {
    RevocationRoundTrip(lib, t, value, now);
    RevokedKeeps(rows, taken, lib, c, t, RevocationStr(lib, t, value, now));
  }

  lemma RevokedKeeps(rows: seq<Row>, taken: bool, lib: Lib, c: Cert, t: int, rev: Option<string>)
    requires lib.Ok() && RevocationsOk(rows, lib)
    requires rev.Some? ==> rev.value != "" && Unpacked(lib, rev.value).Some?
    ensures var after := RevokeResult(rows, taken, c, t, rev).1; RevocationsOk(after, lib) && Evolves(rows, after)
  {
    var i, r := Scan(rows, c.serial), NewRow(c);
    AppendKeeps(rows, r, lib);
    if rev.Some? {
      AppendKeeps(rows, r.(kind := 'R', rev := rev.value), lib);
      if i.Some? && rows[i.value].kind != 'R' {
        ChangeKeeps(rows, i.value, rows[i.value].(kind := 'R', rev := rev.value), lib);
      }
    }
  }

  lemma AppendKeeps(rows: seq<Row>, r: Row, lib: Lib)
    requires lib.Ok() && RevocationsOk(rows, lib) && RevocationsOk([r], lib)
    ensures RevocationsOk(rows + [r], lib) && Evolves(rows, rows + [r])
  {
    assert [r][0] == r;
  }

  lemma ChangeKeeps(rows: seq<Row>, i: nat, r: Row, lib: Lib)
    requires lib.Ok() && i < |rows| && RevocationsOk(rows, lib) && RevocationsOk([r], lib) && RowMay(rows[i], r)
    ensures RevocationsOk(rows[i := r], lib) && Evolves(rows, rows[i := r])
  {
    assert [r][0] == r;
  }

  /** Over any number of operations the revocation fields stay in step with the types
      and every row evolves as it may. */
  lemma {:induction false} StepsKeep(s: Store, unique: bool, lib: Lib, ops: seq<Op>, n: nat)
    requires lib.NamesOk() && n <= |ops| && RevocationsOk(s.rows, lib)
    requires forall op :: op in ops ==> ClockOk(op)
    ensures RevocationsOk(Steps(s, unique, lib, ops, n).rows, lib)
    ensures Evolves(s.rows, Steps(s, unique, lib, ops, n).rows)
  {
    if n > 0 {
      StepsKeep(s, unique, lib, ops, n - 1);
      assert ops[n - 1] in ops;
      OneMoreKeeps(s.rows, Steps(s, unique, lib, ops, n - 1), unique, lib, ops[n - 1]);
    }
  }

  lemma OneMoreKeeps(rows: seq<Row>, mid: Store, unique: bool, lib: Lib, op: Op)
    requires lib.NamesOk() && ClockOk(op) && RevocationsOk(mid.rows, lib) && Evolves(rows, mid.rows)
    ensures var after := Step(mid, unique, lib, op).rows; RevocationsOk(after, lib) && Evolves(rows, after)
  {
    StepKeeps(mid.rows, NameTaken(mid, op), lib, op);
    EvolvesTransitive(rows, mid.rows, Step(mid, unique, lib, op).rows);
  }

  ghost function Now(db: Db): Store
    reads db
  {
    Store(db.rows, db.taken)
  }

  method Apply(db: Db, lib: Lib, op: Op)
    requires db.Valid() && lib.Ok()
    modifies db
    ensures db.Valid() && Now(db) == Step(old(Now(db)), db.unique, lib, op)
  {
    ghost var s := Now(db);
    match op {
      case OpIssue(c, v) =>
        var ok := Issue(db, c, v);
        IssueIsStep(s, db.unique, lib, c, v, ok, Now(db));
      case OpRevoke(c, t, value, now) =>
        var ok := DoRevoke(db, lib, c, t, value, now);
        RevokeIsStep(s, db.unique, lib, op, ok, Now(db));
      case OpUpdate(now) =>
        var cnt := DoUpdateDb(db, now);
        assert Now(db) == Step(s, db.unique, lib, op);
    }
  }

  lemma IssueIsStep(s: Store, unique: bool, lib: Lib, c: Cert, v: Verdict, ok: int, s': Store)
    requires lib.Ok()
    requires (ok == 1) == (v == Signed && Scan(s.rows, c.serial).None? && c.name !in s.taken)
    requires s'.rows == if ok == 1 then s.rows + [NewRow(c)] else s.rows
    requires s'.taken == s.taken + if ok == 1 && unique then {c.name} else {}
    ensures s' == Step(s, unique, lib, OpIssue(c, v))
  {
    assert s.taken + {} == s.taken;
  }

  lemma RevokeIsStep(s: Store, unique: bool, lib: Lib, op: Op, ok: bool, s': Store)
    requires lib.Ok() && op.OpRevoke?
    requires Revokes(s.rows, s.taken, s'.rows, s'.taken, unique, ok, op.cert, op.revType,
                     RevocationStr(lib, op.revType, op.value, op.now))
    ensures s' == Step(s, unique, lib, op)
  {
  }

  lemma StepsNext(s: Store, unique: bool, lib: Lib, ops: seq<Op>, k: nat, t: Store) returns (t': Store)
    requires lib.Ok() && k < |ops| && t == Steps(s, unique, lib, ops, k)
    ensures t' == Step(t, unique, lib, ops[k]) && t' == Steps(s, unique, lib, ops, k + 1)
  {
    t' := Step(t, unique, lib, ops[k]);
  }

  method ApplyAll(db: Db, lib: Lib, ops: seq<Op>)
    requires db.Valid() && lib.Ok()
    modifies db
    ensures db.Valid() && Now(db) == Steps(old(Now(db)), db.unique, lib, ops, |ops|)
  {
    ghost var s := Now(db);
    ghost var t := Steps(s, db.unique, lib, ops, 0);
    var k := 0;
    while k < |ops|
      invariant k <= |ops| && db.Valid()
      invariant t == Steps(s, db.unique, lib, ops, k) && t == Now(db)
    {
      Apply(db, lib, ops[k]);
      t := StepsNext(s, db.unique, lib, ops, k, t);
      k := k + 1;
    }
  }

  /** Every run of operations, in any order, keeps serials distinct, valid names
      distinct when subjects are unique, revocation fields in step with the type,
      and loses no row. */
  method RunOps(db: Db, lib: Lib, ops: seq<Op>)
    requires db.Valid() && lib.NamesOk() && RevocationsOk(db.rows, lib)
    requires forall op :: op in ops ==> ClockOk(op)
    modifies db
    ensures db.Valid() && Now(db) == Steps(old(Now(db)), db.unique, lib, ops, |ops|)
    ensures DistinctSerials(db.rows) && (db.unique ==> DistinctNames(db.rows))
    ensures RevocationsOk(db.rows, lib) && Evolves(old(db.rows), db.rows)
  {
    StepsKeep(Now(db), db.unique, lib, ops, |ops|);
    ApplyAll(db, lib, ops);
    db.ValidIsDistinct();
  }

  // ----- queries

  /** What -status and the OCSP responder know about a serial number. */
  datatype Status = Unknown | Known(row: Row)

  function StatusOf(rows: seq<Row>, n: nat): Status
  {
    var i := Scan(rows, n);
    if i.None? then Unknown else Known(rows[i.value])
  }

  /** The hash of a text is the hash of the key that it compares equal to. */
  predicate HashMeets(strHash: string -> nat, serial: string)
    requires serial != ""
  {
    strHash(HashedPart(StatusKey(serial))) == strHash(HashedPart(Key(Value(serial))))
  }

  /** get_certificate_status, the lookup. A hexadecimal text in either letter case gives
      the answer for its number when its hash meets that of the key, which is so whenever
      both or neither start with a zero once the text is padded to whole bytes; any other
      text is unknown. */
  method GetCertificateStatus(db: Db, serial: string) returns (s: Status)
    requires db.Valid() && serial != ""
    ensures s == if HexText(serial) && HashMeets(db.strHash, serial) then StatusOf(db.rows, Value(serial)) else Unknown
    ensures HexText(serial) && (StatusKey(serial)[0] == '0' <==> Key(Value(serial))[0] == '0') ==>
              s == StatusOf(db.rows, Value(serial))
  {
    var key := StatusKey(serial);
    var r := db.GetBySerial(key);
    s := if r.None? then Unknown else Known(db.rows[r.value]);
    db.ValidIsDistinct();
    StatusAnswer(db.rows, db.strHash, serial, r);
  }

  lemma StatusAnswer(rows: seq<Row>, strHash: string -> nat, serial: string, r: Option<nat>)
    requires CanonicalRows(rows) && DistinctSerials(rows) && serial != ""
    requires r.Some? ==> r.value < |rows| && SerialHit(rows[r.value].serial, StatusKey(serial), strHash)
    requires r.None? ==> forall i :: 0 <= i < |rows| ==> !SerialHit(rows[i].serial, StatusKey(serial), strHash)
    ensures r == if HexText(serial) && HashMeets(strHash, serial) then Scan(rows, Value(serial)) else None
    ensures HexText(serial) && (StatusKey(serial)[0] == '0' <==> Key(Value(serial))[0] == '0') ==>
              HashMeets(strHash, serial)
  {
    StatusHits(rows, strHash, serial);
    if HexText(serial) {
      TextComparesToKey(serial);
      ValueOfKey(Value(serial));
      HashFollowsComparison(StatusKey(serial), Key(Value(serial)));
    }
  }

  /** Which rows a status query can hit. */
  lemma StatusHits(rows: seq<Row>, strHash: string -> nat, serial: string)
    requires CanonicalRows(rows) && serial != ""
    ensures forall i :: 0 <= i < |rows| ==>
              (SerialHit(rows[i].serial, StatusKey(serial), strHash) <==>
               HexText(serial) && HashMeets(strHash, serial) && Value(rows[i].serial) == Value(serial))
  {
    forall i | 0 <= i < |rows|
      ensures SerialHit(rows[i].serial, StatusKey(serial), strHash) <==>
              HexText(serial) && HashMeets(strHash, serial) && Value(rows[i].serial) == Value(serial)
    {
      CanonicalIsKey(rows[i].serial);
      if HexText(serial) {
        TextComparesToKey(serial);
        ValueOfKey(Value(serial));
        CanonicalSame(rows[i].serial, Key(Value(serial)));
      } else {
        OtherTextMatchesNothing(serial, rows[i].serial);
      }
    }
  }

  /** Every spelling without redundant leading zeros gets the answer for its number. */
  lemma SpellingsMeet(serial: string, n: nat, strHash: string -> nat)
    requires Spelling(serial, n)
    ensures HexText(serial) && Value(serial) == n && HashMeets(strHash, serial)
  {
    StatusReachesKey(serial, n);
  }

  /** lookup_serial of the OCSP responder. */
  method LookupSerial(db: Db, n: nat) returns (s: Status)
    requires db.Valid()
    ensures s == StatusOf(db.rows, n)
  {
    ValueOfKey(n);
    var r := db.GetBySerial(Key(n));
    s := if r.None? then Unknown else Known(db.rows[r.value]);
  }
}
