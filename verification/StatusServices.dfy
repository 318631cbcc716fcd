/** What the authority publishes about its rows: the certificate revocation list
    (apps/ca.c:1225-1280) and the OCSP answers (apps/ocsp.c:905-1001). */
module StatusServices {
  import opened Prelude
  import opened SerialKey
  import opened TxtDb
  import opened Revocation
  import opened CaDatabase

  /** The parser of revocation fields, unpack_revinfo. */
  type Parser = string -> Option<RevInfo>

  ghost predicate Sound(parse: Parser)
  {
    forall s :: parse(s).Some? ==> InfoOk(parse(s).value)
  }

  lemma UnpackRevinfoIsSound(lib: Lib)
    requires lib.Ok()
    ensures Sound(s => Unpacked(lib, s))
  {
    forall s | Unpacked(lib, s).Some?
      ensures InfoOk(Unpacked(lib, s).value)
    {
      UnpackedInfoOk(lib, s);
    }
  }

  // ----- the revocation list

  datatype CrlEntry = CrlEntry(serial: nat, time: string, extensions: seq<Extension>)

  /** `version2` is the version field; `revoked` is in database order, which the
      program then sorts by serial number. */
  datatype Crl = Crl(revoked: seq<CrlEntry>, version2: bool)

  /** The entry made from a revoked row, None when its revocation field does not parse. */
  function EntryFor(parse: Parser, r: Row): Option<CrlEntry>
  {
    var i := parse(r.rev);
    if i.None? then None else Some(CrlEntry(Value(r.serial), i.value.time, EntryExtensions(i.value)))
  }

  /** The entries of the first n rows. */
  function Entries(rows: seq<Row>, parse: Parser, n: nat): seq<CrlEntry>
    requires n <= |rows|
  {
    if n == 0 then [] else
      var r := rows[n - 1];
      Entries(rows, parse, n - 1) + if r.kind == 'R' && EntryFor(parse, r).Some? then [EntryFor(parse, r).value] else []
  }

  /** A revoked row that does not parse. */
  predicate Broken(parse: Parser, r: Row)
  {
    r.kind == 'R' && EntryFor(parse, r).None?
  }

  predicate AnyExtension(entries: seq<CrlEntry>)
  {
    exists k :: 0 <= k < |entries| && entries[k].extensions != []
  }

  lemma AnyExtensionAppend(entries: seq<CrlEntry>, e: CrlEntry)
    ensures AnyExtension(entries + [e]) <==> AnyExtension(entries) || e.extensions != []
  {
    if AnyExtension(entries) {
      var k :| 0 <= k < |entries| && entries[k].extensions != [];
      assert (entries + [e])[k].extensions != [];
    }
    if e.extensions != [] {
      assert (entries + [e])[|entries|].extensions != [];
    }
  }

  /** make_revoked: the entry, and whether extensions were added to it. */
  method MakeRevoked(parse: Parser, r: Row) returns (e: Option<CrlEntry>, extended: bool)
    requires Sound(parse)
    ensures e == EntryFor(parse, r)
    ensures e.Some? ==> (extended <==> e.value.extensions != [])
  {
    var info := parse(r.rev);
    if info.None? {
      return None, false;
    }
    CrlAndOcspAgree(info.value);
    e := Some(CrlEntry(Value(r.serial), info.value.time, EntryExtensions(info.value)));
    extended := info.value.reason != NO_STATUS;
  }

  /** The -gencrl loop. `crlExt` says that extensions are configured, `crlNumber`
      that a CRL number is. No list is made when a revoked row does not parse, and
      the list is version 2 (section 5.1.2.1 of RFC 5280) exactly when it or one of
      its entries has an extension. */
  method MakeCrl(rows: seq<Row>, parse: Parser, crlExt: bool, crlNumber: bool) returns (crl: Option<Crl>)
    requires Sound(parse)
    ensures crl.None? <==> exists i :: 0 <= i < |rows| && Broken(parse, rows[i])
    ensures crl.Some? ==> crl.value.revoked == Entries(rows, parse, |rows|)
    ensures crl.Some? ==> (crl.value.version2 <==>
                           || crlExt || crlNumber
                           || exists k :: 0 <= k < |crl.value.revoked| && crl.value.revoked[k].extensions != [])
  {
    var entries: seq<CrlEntry>, crlV2 := [], false;
    var i := 0;
    while i < |rows|
      invariant i <= |rows|
      invariant forall k :: 0 <= k < i ==> !Broken(parse, rows[k])
      invariant entries == Entries(rows, parse, i)
      invariant crlV2 <==> AnyExtension(entries)
    {
      if rows[i].kind == 'R' {
        var e, extended := MakeRevoked(parse, rows[i]);
        if e.None? {
          assert Broken(parse, rows[i]);
          return None;
        }
        AnyExtensionAppend(entries, e.value);
        crlV2 := crlV2 || extended;
        entries := entries + [e.value];
      }
      i := i + 1;
    }
    crl := Some(Crl(entries, crlExt || crlNumber || crlV2));
  }

  /** Entry and row correspond: every entry comes from a revoked row, and every
      revoked row that parses has its entry. */
  lemma {:induction false} EntriesMeaning(rows: seq<Row>, parse: Parser, n: nat)
    requires n <= |rows|
    ensures forall e :: e in Entries(rows, parse, n) ==>
              exists i :: 0 <= i < n && rows[i].kind == 'R' && EntryFor(parse, rows[i]) == Some(e)
    ensures forall i :: 0 <= i < n && rows[i].kind == 'R' && EntryFor(parse, rows[i]).Some? ==>
              EntryFor(parse, rows[i]).value in Entries(rows, parse, n)
  {
    if n > 0 {
      EntriesMeaning(rows, parse, n - 1);
    }
  }

  /** The list by positions: one entry for each revoked row, in database order, with the
      row's number and what its revocation field says. */
  lemma EntriesInOrder(rows: seq<Row>, parse: Parser, n: nat) returns (ps: seq<nat>)
    requires n <= |rows| && forall i :: 0 <= i < |rows| ==> !Broken(parse, rows[i])
    ensures Chosen(ps, 0, n, (p: nat) => p < |rows| && rows[p].kind == 'R')
    ensures |Entries(rows, parse, n)| == |ps|
    ensures forall k :: 0 <= k < |ps| ==>
              && ps[k] < |rows| && parse(rows[ps[k]].rev).Some?
              && var e, i := Entries(rows, parse, n)[k], parse(rows[ps[k]].rev).value;
                 e.serial == Value(rows[ps[k]].serial) && e.time == i.time && SaysWhat(e.extensions, i)
  {
    ps := [];
    var keep := (p: nat) => p < |rows| && rows[p].kind == 'R';
    var m := 0;
    while m < n
      invariant m <= n && Chosen(ps, 0, m, keep) && |Entries(rows, parse, m)| == |ps|
      invariant forall k :: 0 <= k < |ps| ==>
                  && ps[k] < |rows| && parse(rows[ps[k]].rev).Some?
                  && var e, i := Entries(rows, parse, m)[k], parse(rows[ps[k]].rev).value;
                     e.serial == Value(rows[ps[k]].serial) && e.time == i.time && SaysWhat(e.extensions, i)
    {
      assert !Broken(parse, rows[m]);
      if rows[m].kind == 'R' {
        ExtensionsSayWhat(parse(rows[m].rev).value);
      }
      ps := ChosenOneMore(ps, 0, m, keep);
      m := m + 1;
    }
  }

  // ----- OCSP

  /** One certificate id of a request: whether its digest is known, whether it is
      about this authority, and the serial number. */
  datatype CertId = CertId(digestKnown: bool, ours: bool, serial: nat)

  /** A revoked status carries no details when the row does not parse. */
  datatype CertStatus = Good | UnknownCert | RevokedCert(details: Option<OcspRevoked>)

  datatype Response = Malformed | InternalError | Successful(statuses: seq<CertStatus>)

  /** The status added for one id. A row that is neither valid nor revoked, such as
      an expired one, adds none. */
  function AnswerFor(rows: seq<Row>, parse: Parser, id: CertId): Option<CertStatus>
  {
    var s := StatusOf(rows, id.serial);
    if !id.ours || s.Unknown? then Some(UnknownCert)
    else if s.row.kind == 'V' then Some(Good)
    else if s.row.kind == 'R' then
      var i := parse(s.row.rev);
      Some(RevokedCert(if i.None? then None else Some(OcspAnswer(i.value))))
    else None
  }

  /** The statuses added for the first n ids. */
  function Answers(rows: seq<Row>, parse: Parser, ids: seq<CertId>, n: nat): seq<CertStatus>
    requires n <= |ids|
  {
    if n == 0 then []
    else Answers(rows, parse, ids, n - 1) + AsSeq(AnswerFor(rows, parse, ids[n - 1]))
  }

  function AsSeq(a: Option<CertStatus>): seq<CertStatus>
  {
    if a.None? then [] else [a.value]
  }

  /** make_ocsp_response, up to signing. */
  method MakeOcspResponse(db: Db, parse: Parser, ids: seq<CertId>) returns (resp: Response)
    requires db.Valid()
    ensures resp == if ids == [] then Malformed
                    else if exists k :: 0 <= k < |ids| && !ids[k].digestKnown then InternalError
                    else Successful(Answers(db.rows, parse, ids, |ids|))
  {
    resp := Malformed;
    if |ids| > 0 {
      var ok, statuses := AnswerAll(db, parse, ids);
      resp := if ok then Successful(statuses) else InternalError;
    }
  }

  /** The loop over the ids, up to one whose digest is not known. */
  method AnswerAll(db: Db, parse: Parser, ids: seq<CertId>) returns (ok: bool, statuses: seq<CertStatus>)
    requires db.Valid()
    ensures ok <==> forall k :: 0 <= k < |ids| ==> ids[k].digestKnown
    ensures ok ==> statuses == Answers(db.rows, parse, ids, |ids|)
  {
    ok, statuses := true, [];
    var i := 0;
    while i < |ids| && ok
      invariant i <= |ids| && (!ok ==> i < |ids| && !ids[i].digestKnown)
      invariant ok ==> (forall k :: 0 <= k < i ==> ids[k].digestKnown) && statuses == Answers(db.rows, parse, ids, i)
      decreases |ids| - i, ok
    {
      ok := ids[i].digestKnown;
      if ok {
        var a := AnswerOne(db, parse, ids[i]);
        statuses := statuses + AsSeq(a);
        i := i + 1;
      }
    }
  }

  method AnswerOne(db: Db, parse: Parser, id: CertId) returns (a: Option<CertStatus>)
    requires db.Valid()
    ensures a == AnswerFor(db.rows, parse, id)
  {
    if !id.ours {
      return Some(UnknownCert);
    }
    var s := LookupSerial(db, id.serial);
    if s.Unknown? {
      a := Some(UnknownCert);
    } else if s.row.kind == 'V' {
      a := Some(Good);
    } else if s.row.kind == 'R' {
      var i := parse(s.row.rev);
      a := Some(RevokedCert(if i.None? then None else Some(OcspAnswer(i.value))));
    } else {
      a := None;
    }
  }

  /** Some row has this number and type. */
  ghost predicate HasRow(rows: seq<Row>, n: nat, kind: char)
  {
    exists i :: 0 <= i < |rows| && Value(rows[i].serial) == n && rows[i].kind == kind
  }

  /** What is answered, by the rows: good for a valid one, unknown for another authority
      or without a row, revoked for a revoked one with what its field says, and nothing
      for any other. */
  lemma AnswerMeaning(rows: seq<Row>, parse: Parser, id: CertId)
    requires DistinctSerials(rows)
    ensures var a := AnswerFor(rows, parse, id);
            && (a == Some(Good) <==> id.ours && HasRow(rows, id.serial, 'V'))
            && (a == Some(UnknownCert) <==>
                !id.ours || forall i :: 0 <= i < |rows| ==> Value(rows[i].serial) != id.serial)
            && (SaysRevoked(a) <==> id.ours && HasRow(rows, id.serial, 'R'))
            && (a.None? <==> id.ours && exists i :: 0 <= i < |rows| && Value(rows[i].serial) == id.serial
                                                    && rows[i].kind != 'V' && rows[i].kind != 'R')
    ensures SaysRevoked(AnswerFor(rows, parse, id)) ==>
              forall i :: 0 <= i < |rows| && Value(rows[i].serial) == id.serial ==>
                var d, info := AnswerFor(rows, parse, id).value.details, parse(rows[i].rev);
                && (d.None? <==> info.None?)
                && (d.Some? ==> d.value.time == info.value.time && d.value.reason == info.value.reason)
  {
    var j := Scan(rows, id.serial);
    if j.Some? {
      assert forall i :: 0 <= i < |rows| && Value(rows[i].serial) == id.serial ==> i == j.value;
      assert Value(rows[j.value].serial) == id.serial;
    }
  }

  /** The statuses of a response: those of the ids that get one, in order. */
  lemma AnswersInOrder(rows: seq<Row>, parse: Parser, ids: seq<CertId>, n: nat) returns (ps: seq<nat>)
    requires n <= |ids|
    ensures Chosen(ps, 0, n, (p: nat) => p < |ids| && AnswerFor(rows, parse, ids[p]).Some?)
    ensures |Answers(rows, parse, ids, n)| == |ps|
    ensures forall k :: 0 <= k < |ps| ==>
              ps[k] < |ids| && Some(Answers(rows, parse, ids, n)[k]) == AnswerFor(rows, parse, ids[ps[k]])
  {
    ps := [];
    var keep := (p: nat) => p < |ids| && AnswerFor(rows, parse, ids[p]).Some?;
    var m := 0;
    while m < n
      invariant m <= n && Chosen(ps, 0, m, keep) && |Answers(rows, parse, ids, m)| == |ps|
      invariant forall k :: 0 <= k < |ps| ==>
                  ps[k] < |ids| && Some(Answers(rows, parse, ids, m)[k]) == AnswerFor(rows, parse, ids[ps[k]])
    {
      ps := ChosenOneMore(ps, 0, m, keep);
      m := m + 1;
    }
  }

  /** A response says good (or unknown, or revoked) for an id exactly when the rows do. */
  lemma StatusesMeaning(rows: seq<Row>, parse: Parser, ids: seq<CertId>) returns (ps: seq<nat>)
    requires DistinctSerials(rows)
    ensures Chosen(ps, 0, |ids|, (p: nat) => p < |ids| && !Unanswered(rows, ids[p]))
    ensures |Answers(rows, parse, ids, |ids|)| == |ps|
    ensures forall k :: 0 <= k < |ps| ==>
              && ps[k] < |ids|
              && var s, id := Answers(rows, parse, ids, |ids|)[k], ids[ps[k]];
                 && (s == Good <==> id.ours && HasRow(rows, id.serial, 'V'))
                 && (s == UnknownCert <==>
                     !id.ours || forall i :: 0 <= i < |rows| ==> Value(rows[i].serial) != id.serial)
                 && (s.RevokedCert? <==> id.ours && HasRow(rows, id.serial, 'R'))
  {
    ps := AnswersInOrder(rows, parse, ids, |ids|);
    forall p: nat
      ensures p in ps <==> p < |ids| && !Unanswered(rows, ids[p])
    {
      if p < |ids| {
        AnsweredOrNot(rows, parse, ids[p]);
      }
    }
    forall k | 0 <= k < |ps|
      ensures var s, id := Answers(rows, parse, ids, |ids|)[k], ids[ps[k]];
              && (s == Good <==> id.ours && HasRow(rows, id.serial, 'V'))
              && (s == UnknownCert <==>
                  !id.ours || forall i :: 0 <= i < |rows| ==> Value(rows[i].serial) != id.serial)
              && (s.RevokedCert? <==> id.ours && HasRow(rows, id.serial, 'R'))
    {
      AnswerMeaning(rows, parse, ids[ps[k]]);
    }
  }

  /** The id is about a row of this authority that is neither valid nor revoked. */
  ghost predicate Unanswered(rows: seq<Row>, id: CertId)
  {
    var s := StatusOf(rows, id.serial);
    id.ours && s.Known? && s.row.kind != 'V' && s.row.kind != 'R'
  }

  /** The answer has one status for each id, in order, exactly when no id is about
      an expired (or otherwise marked) row. */
  lemma {:induction false} OneStatusPerId(rows: seq<Row>, parse: Parser, ids: seq<CertId>, n: nat)
    requires n <= |ids|
    ensures |Answers(rows, parse, ids, n)| <= n
    ensures |Answers(rows, parse, ids, n)| == n <==> forall i :: 0 <= i < n ==> !Unanswered(rows, ids[i])
    ensures |Answers(rows, parse, ids, n)| == n ==>
              forall i :: 0 <= i < n ==> Some(Answers(rows, parse, ids, n)[i]) == AnswerFor(rows, parse, ids[i])
  {
    if n > 0 {
      OneStatusPerId(rows, parse, ids, n - 1);
      AnsweredOrNot(rows, parse, ids[n - 1]);
    }
  }

  lemma AnsweredOrNot(rows: seq<Row>, parse: Parser, id: CertId)
    ensures AnswerFor(rows, parse, id).None? <==> Unanswered(rows, id)
  {
  }

  /** A request about one expired certificate is answered with no status at all. */
  lemma ExpiredGoesUnanswered(r: Row, parse: Parser)
    requires r.kind == 'E'
    ensures Answers([r], parse, [CertId(true, true, Value(r.serial))], 1) == []
  {
    var id := CertId(true, true, Value(r.serial));
    assert Scan([r], id.serial) == Some(0);
    assert Answers([r], parse, [id], 0) == [];
  }

  // ----- the two agree

  lemma EntryMatchesAnswer(rows: seq<Row>, parse: Parser, i: nat)
    requires Sound(parse)
    requires i < |rows| && rows[i].kind == 'R' && EntryFor(parse, rows[i]).Some?
    requires StatusOf(rows, Value(rows[i].serial)) == Known(rows[i])
    ensures var a := AnswerFor(rows, parse, CertId(true, true, Value(rows[i].serial)));
            var e := EntryFor(parse, rows[i]).value;
            && a.Some? && a.value.RevokedCert? && a.value.details.Some?
            && e.time == a.value.details.value.time
            && e.extensions == OcspExtensions(a.value.details.value)
  {
    CrlAndOcspAgree(parse(rows[i].rev).value);
  }

  lemma ScanUnique(rows: seq<Row>, i: nat)
    requires DistinctSerials(rows) && i < |rows|
    ensures StatusOf(rows, Value(rows[i].serial)) == Known(rows[i])
  {
  }

  predicate SaysRevoked(a: Option<CertStatus>)
  {
    a.Some? && a.value.RevokedCert?
  }

  /** A serial is on the list exactly when the responder answers that it is
      revoked, and the two carry the same time, reason and extra field. */
  lemma CrlMatchesOcsp(rows: seq<Row>, parse: Parser, n: nat)
    requires Sound(parse)
    requires DistinctSerials(rows)
    requires forall i :: 0 <= i < |rows| ==> !Broken(parse, rows[i])
    ensures var entries, a := Entries(rows, parse, |rows|), AnswerFor(rows, parse, CertId(true, true, n));
            && (SaysRevoked(a) <==> exists e :: e in entries && e.serial == n)
            && (forall e :: e in entries && e.serial == n ==>
                  && SaysRevoked(a) && a.value.details.Some?
                  && e.time == a.value.details.value.time
                  && e.extensions == OcspExtensions(a.value.details.value))
  {
    var entries := Entries(rows, parse, |rows|);
    forall e | e in entries && e.serial == n
      ensures var a := AnswerFor(rows, parse, CertId(true, true, n));
              && SaysRevoked(a) && a.value.details.Some?
              && e.time == a.value.details.value.time
              && e.extensions == OcspExtensions(a.value.details.value)
    {
      ListedIsRevoked(rows, parse, e);
    }
    if SaysRevoked(AnswerFor(rows, parse, CertId(true, true, n))) {
      var e := RevokedIsListed(rows, parse, n);
    }
  }

  lemma ListedIsRevoked(rows: seq<Row>, parse: Parser, e: CrlEntry)
    requires Sound(parse) && DistinctSerials(rows) && e in Entries(rows, parse, |rows|)
    ensures var a := AnswerFor(rows, parse, CertId(true, true, e.serial));
            && SaysRevoked(a) && a.value.details.Some?
            && e.time == a.value.details.value.time
            && e.extensions == OcspExtensions(a.value.details.value)
  {
    EntriesMeaning(rows, parse, |rows|);
    var i :| 0 <= i < |rows| && rows[i].kind == 'R' && EntryFor(parse, rows[i]) == Some(e);
    ScanUnique(rows, i);
    EntryMatchesAnswer(rows, parse, i);
  }

  lemma RevokedIsListed(rows: seq<Row>, parse: Parser, n: nat) returns (e: CrlEntry)
    requires forall i :: 0 <= i < |rows| ==> !Broken(parse, rows[i])
    requires SaysRevoked(AnswerFor(rows, parse, CertId(true, true, n)))
    ensures e in Entries(rows, parse, |rows|) && e.serial == n
  {
    var i := Scan(rows, n).value;
    assert rows[i].kind == 'R' && !Broken(parse, rows[i]);
    EntriesMeaning(rows, parse, |rows|);
    e := EntryFor(parse, rows[i]).value;
  }
}
