/** The database between runs: what runs save as text is what the next run loads,
    because every operation keeps the rows in a form that the text can hold
    (crypto/txt_db/txt_db.c:21-139, 196-242, apps/ca.c:1959-1997, 2174-2284,
    2356-2416). */
module SavedText {
  import opened Prelude
  import opened Asn1Time
  import opened CaDatabase
  import opened Commit
  import opened Revocation
  import opened Rotation
  import opened TxtDb
  import File = TxtDbFile

  ghost predicate CleanRows(rows: seq<Row>)
  {
    forall i :: 0 <= i < |rows| ==> File.Clean(rows[i])
  }

  // ----- loading the text

  /** A loaded row; of the type only the first character counts. */
  function RowOf(fs: File.Fields): Row
    requires |fs| == 6
  {
    Row(if fs[0] == "" then '\0' else fs[0][0], fs[1], fs[2], fs[3], fs[4], fs[5])
  }

  ghost predicate Loads(text: string, rows: seq<Row>)
  {
    var r := File.Read(text, 6);
    && r.Rows? && |r.rows| == |rows|
    && forall i :: 0 <= i < |rows| ==> |r.rows[i]| == 6 && RowOf(r.rows[i]) == rows[i]
  }

  function TextOf(rows: seq<Row>): string
  {
    File.Written(File.DatabaseFields(rows))
  }

  /** How many lines of the text are whole within its first p characters. */
  function WholeRows(rows: seq<Row>, p: nat): nat
  {
    File.WholeLines(File.DatabaseFields(rows), p)
  }

  /** The text of clean rows, cut short anywhere, loads as what the file system model
      says a torn index holds: the rows whose lines are whole. A text that is not cut
      loads as all of them. */
  lemma TextLoads(rows: seq<Row>, p: nat)
    requires CleanRows(rows) && p <= |TextOf(rows)|
    ensures var keep := WholeRows(rows, p);
            && keep <= |rows| && Remains(Index(rows), keep) == Index(rows[..keep])
            && Loads(TextOf(rows)[..p], rows[..keep])
    ensures p == |TextOf(rows)| ==> WholeRows(rows, p) == |rows|
  {
    var fs := File.DatabaseFields(rows);
    forall i | 0 <= i < |rows|
      ensures File.Storable(fs[i], 6)
    {
      File.CleanIsStorable(rows[i]);
    }
    File.TornIsRead(fs, p, File.BUFSIZE, 6);
    if p == |TextOf(rows)| {
      File.AllLinesWhole(fs);
    }
    assert rows[..|rows|] == rows;
    FieldsLoad(rows, WholeRows(rows, p));
  }

  lemma FieldsLoad(rows: seq<Row>, keep: nat)
    requires keep <= |rows|
    ensures var fs := File.DatabaseFields(rows)[..keep];
            forall i :: 0 <= i < keep ==> |fs[i]| == 6 && RowOf(fs[i]) == rows[..keep][i]
  {
  }

  // ----- what the operations keep

  predicate CleanText(s: string)
  {
    File.Free(s) && !File.EndsEscape(s)
  }

  predicate CleanCert(c: Cert)
  {
    CleanText(c.notAfter) && File.Free(c.name)
  }

  /** The names of the reasons can be stored. */
  ghost predicate CleanReasons(lib: Lib)
  {
    lib.Ok() && forall i :: 0 <= i < NUM_REASONS ==> CleanText(lib.reasons[i])
  }

  /** The program's table has such names. */
  lemma TableIsClean(lib: Lib)
    requires |lib.reasons| == NUM_REASONS
    requires forall i :: 0 <= i < NUM_REASONS ==> lib.reasons[i] == ReasonName(i)
    ensures CleanReasons(lib)
  {
    forall i | 0 <= i < NUM_REASONS
      ensures CleanText(lib.reasons[i])
    {
      NameIsClean(i);
    }
  }

  lemma NameIsClean(i: nat)
    ensures CleanText(ReasonName(i))
  {
    if i < 4 {
      EarlyNameIsClean(i);
    } else if i < 8 {
      LaterNameIsClean(i);
    } else {
      PseudoNameIsClean(i);
    }
  }

  lemma EarlyNameIsClean(i: nat)
    requires i < 4
    ensures CleanText(ReasonName(i))
  {
  }

  lemma LaterNameIsClean(i: nat)
    requires 4 <= i < 8
    ensures CleanText(ReasonName(i))
  {
  }

  lemma PseudoNameIsClean(i: nat)
    requires 8 <= i
    ensures CleanText(ReasonName(i))
  {
  }

  lemma CleanSum(a: string, b: string)
    requires CleanText(a)
    ensures CleanText(a + "," + b) <==> CleanText(b)
  {
    var t := a + "," + b;
    assert t[|a|] == ',' && forall i :: 0 <= i < |b| ==> t[|a| + 1 + i] == b[i];
    if CleanText(t) {
      forall i | 0 <= i < |b|
        ensures b[i] != '\n' && b[i] != '\0'
      {
        assert t[|a| + 1 + i] == b[i];
      }
    }
  }

  lemma TimesAreClean(s: string)
    requires IsUtcTime(s) || IsGeneralizedTime(s)
    ensures CleanText(s)
  {
    if IsUtcTime(s) {
      assert forall i :: 0 <= i < 12 ==> s[..12][i] == s[i];
    } else {
      assert forall i :: 0 <= i < 14 ==> s[..14][i] == s[i];
    }
  }

  /** A revocation string can be stored unless it carries a hold instruction that
      cannot. */
  lemma RevocationIsClean(lib: Lib, revType: int, value: string, now: string)
    requires CleanReasons(lib) && (IsUtcTime(now) || IsGeneralizedTime(now))
    ensures var rev := RevocationStr(lib, revType, value, now);
            rev.Some? ==> (CleanText(rev.value) <==> (revType == REV_HOLD ==> CleanText(value)))
  {
    TimesAreClean(now);
    var c := Choice(lib, revType, value);
    if c.None? {
      return;
    }
    if c.value.0.None? {
      assert Joined(now, None, None) == now;
      return;
    }
    var reason := lib.reasons[c.value.0.value];
    CleanSum(now, reason);
    if c.value.1.None? {
      assert Joined(now, Some(reason), None) == now + "," + reason;
    } else {
      assert Joined(now, Some(reason), Some(value)) == now + "," + reason + "," + value;
      CleanSum(now + "," + reason, value);
      if revType != REV_HOLD {
        TimesAreClean(value);
      }
    }
  }

  /** The operation adds a row. */
  predicate Adds(rows: seq<Row>, taken: bool, op: Op)
  {
    match op
    case OpIssue(c, v) => v == Signed && Scan(rows, c.serial).None? && !taken
    case OpRevoke(c, _, _, _) => Scan(rows, c.serial).None? && !taken
    case OpUpdate(_) => false
  }

  /** The operation writes a revocation string with a hold instruction. */
  predicate Holds(rows: seq<Row>, taken: bool, lib: Lib, op: Op)
  {
    && op.OpRevoke? && op.revType == REV_HOLD && lib.oids(op.value).Some?
    && var i := Scan(rows, op.cert.serial);
       if i.None? then !taken else rows[i.value].name == op.cert.name && rows[i.value].kind != 'R'
  }

  /** One operation keeps the rows clean exactly when the certificate it adds has a
      date and a name that can be stored, and so has the hold instruction it writes. */
  lemma StepCleanIff(rows: seq<Row>, taken: bool, lib: Lib, op: Op)
    requires CleanRows(rows) && CleanReasons(lib) && ClockOk(op)
    ensures CleanRows(StepRows(rows, taken, lib, op)) <==>
            && (Adds(rows, taken, op) ==> CleanCert(op.cert))
            && (Holds(rows, taken, lib, op) ==> CleanText(op.value))
  {
    match op
    case OpIssue(c, v) =>
      AddedClean(rows, NewRow(c));
      File.IssuedRowIsClean(c);
    case OpRevoke(c, t, value, now) =>
      RevocationIsClean(lib, t, value, now);
      RevokedClean(rows, taken, c, t, RevocationStr(lib, t, value, now));
    case OpUpdate(now) =>
  }

  lemma AddedClean(rows: seq<Row>, r: Row)
    requires CleanRows(rows)
    ensures CleanRows(rows + [r]) <==> File.Clean(r)
  {
    assert (rows + [r])[|rows|] == r;
  }

  lemma ChangedClean(rows: seq<Row>, i: nat, r: Row)
    requires CleanRows(rows) && i < |rows|
    ensures CleanRows(rows[i := r]) <==> File.Clean(r)
  {
    assert rows[i := r][i] == r;
  }

  lemma RevokedClean(rows: seq<Row>, taken: bool, c: Cert, revType: int, rev: Option<string>)
    requires CleanRows(rows)
    ensures var i := Scan(rows, c.serial);
            CleanRows(RevokeResult(rows, taken, c, revType, rev).1) <==>
            if i.None? then taken || (CleanCert(c) && (revType != -1 && rev.Some? ==> CleanText(rev.value)))
            else rows[i.value].name == c.name && revType != -1 && rows[i.value].kind != 'R' && rev.Some? ==>
                   CleanText(rev.value)
  {
    File.IssuedRowIsClean(c);
    var i := Scan(rows, c.serial);
    if i.None? {
      AddedClean(rows, NewRow(c));
      if rev.Some? {
        AddedClean(rows, NewRow(c).(kind := 'R', rev := rev.value));
      }
    } else if rev.Some? {
      ChangedClean(rows, i.value, rows[i.value].(kind := 'R', rev := rev.value));
    }
  }

  /** An operation that asks for nothing that cannot be stored. */
  ghost predicate CleanOp(op: Op)
  {
    && (!op.OpUpdate? ==> CleanCert(op.cert))
    && (op.OpRevoke? && op.revType == REV_HOLD ==> CleanText(op.value))
  }

  /** Over any number of such operations the database can be stored. */
  lemma {:induction false} StepsClean(s: Store, unique: bool, lib: Lib, ops: seq<Op>, n: nat)
    requires n <= |ops| && CleanReasons(lib) && CleanRows(s.rows)
    requires forall op :: op in ops ==> ClockOk(op) && CleanOp(op)
    ensures CleanRows(Steps(s, unique, lib, ops, n).rows)
  {
    if n > 0 {
      StepsClean(s, unique, lib, ops, n - 1);
      var mid := Steps(s, unique, lib, ops, n - 1);
      assert ops[n - 1] in ops;
      StepCleanIff(mid.rows, NameTaken(mid, ops[n - 1]), lib, ops[n - 1]);
    }
  }

  // ----- what runs keep

  ghost predicate CleanRequests(requests: seq<Request>)
  {
    forall i :: 0 <= i < |requests| ==> CleanText(requests[i].notAfter) && File.Free(requests[i].name)
  }

  /** A run that asks for nothing that cannot be stored. */
  ghost predicate CleanRun(run: Run)
  {
    && (run.batch.Some? ==> CleanRequests(run.batch.value.requests))
    && (run.add.Some? ==> CleanCert(run.add.value))
  }

  /** What is on the disk and what is in memory can be stored. */
  ghost predicate CleanGoing(g: Going)
  {
    CleanRows(g.h.Rows()) && (g.on ==> CleanRows(g.rows))
  }

  lemma LeftClean(rows: seq<Row>, d: Decision)
    requires CleanRows(rows)
    ensures var f := Left(Index(rows), d); f.Index? && CleanRows(f.rows)
  {
  }

  lemma SavingClean(cfg: Config, g: Going, rows: seq<Row>)
    requires CleanRows(g.h.Rows()) && CleanRows(rows)
    ensures CleanGoing(Saving(cfg, g, rows))
  {
    LeftClean(rows, At(g.script, 0));
  }

  lemma UpdateClean(cfg: Config, g: Going, update: Option<string>)
    requires CleanGoing(g)
    ensures CleanGoing(AfterUpdate(cfg, g, update))
  {
    if g.on && update.Some? {
      SavingClean(cfg, g, ExpireRows(g.rows, update.value));
    }
  }

  lemma {:induction false} CertifiedClean(p: Progress, unique: bool, requests: seq<Request>, n: nat)
    requires n <= |requests| && CleanRows(p.rows) && CleanRequests(requests)
    ensures CleanRows(Certified(p, unique, requests, n).rows)
  {
    if n > 0 {
      CertifiedClean(p, unique, requests, n - 1);
      var q, r := Certified(p, unique, requests, n - 1), requests[n - 1];
      File.IssuedRowIsClean(Cert(q.next, r.name, r.notAfter));
      AddedClean(q.rows, NewRow(Cert(q.next, r.name, r.notAfter)));
    }
  }

  lemma CommitClean(cfg: Config, s: seq<Decision>, h: Holding, plan: Plan)
    requires plan.Commit? && h.index.Some? && CleanRows(h.Rows()) && CleanRows(plan.rows)
    ensures CleanRows(CommitResult(cfg, s, h, plan).Rows())
  {
    LeftClean(plan.rows, At(s, 1));
  }

  lemma BatchClean(cfg: Config, g: Going, unique: bool, batch: Option<Batch>)
    requires CleanGoing(g) && (batch.Some? ==> CleanRequests(batch.value.requests))
    ensures CleanGoing(AfterBatch(cfg, g, unique, batch))
  {
    if batch.Some? && Issues(g) {
      CertifiedClean(g.Start(), unique, batch.value.requests, |batch.value.requests|);
      var plan := PlanOf(g, unique, batch);
      if plan.Commit? {
        CommitClean(cfg, g.script, g.h, plan);
      }
    }
  }

  lemma AddClean(cfg: Config, g: Going, add: Option<Cert>)
    requires CleanGoing(g) && (add.Some? ==> CleanCert(add.value))
    ensures CleanGoing(AfterAdd(cfg, g, add))
  {
    if add.Some? && Addable(g, add.value) {
      File.IssuedRowIsClean(add.value);
      AddedClean(g.rows, NewRow(add.value));
      SavingClean(cfg, g, g.rows + [NewRow(add.value)]);
    }
  }

  /** Such a run, whatever its calls meet, leaves an index that can be stored. */
  lemma RunClean(m: Moment, cfg: Config, lib: Lib, run: Run)
    requires lib.Ok() && CleanRows(HeldAt(m, cfg).Rows()) && CleanRun(run)
    ensures CleanRows(RunResult(m, cfg, lib, run).Rows())
  {
    UpdateClean(cfg, Loaded(m, cfg, lib, run.script), run.update);
    BatchClean(cfg, AtBatch(m, cfg, lib, run), Unique(m.files, cfg), run.batch);
    AddClean(cfg, AtAdd(m, cfg, lib, run), run.add);
  }

  lemma HistoryClean(h: seq<Moment>, cfg: Config, lib: Lib, runs: seq<Run>, n: nat, k: nat)
    requires lib.Ok() && n <= |runs| && History(h, cfg, lib, runs, n) && k <= n
    requires CleanRows(HeldAt(h[0], cfg).Rows()) && forall i :: 0 <= i < n ==> CleanRun(runs[i])
    ensures CleanRows(HeldAt(h[k], cfg).Rows())
  {
    var clean := i => 0 <= i <= n && CleanRows(HeldAt(h[i], cfg).Rows());
    forall i | 0 <= i < n
      ensures clean(i) ==> clean(i + 1)
    {
      if clean(i) {
        StepClean(h[i], h[i + 1], cfg, lib, runs[i]);
      }
    }
    StaysTrue(clean, k);
  }

  lemma StepClean(m: Moment, m': Moment, cfg: Config, lib: Lib, run: Run)
    requires lib.Ok() && Follows(m, m', cfg, lib, run) && CleanRows(HeldAt(m, cfg).Rows()) && CleanRun(run)
    ensures CleanRows(HeldAt(m', cfg).Rows())
  {
    RunClean(m, cfg, lib, run);
  }

  /** The text of these rows, cut short after p characters or not at all, is loaded as
      what the model of the runs says is there. */
  ghost predicate Reloads(rows: seq<Row>, p: nat)
  {
    if p <= |TextOf(rows)| then Loads(TextOf(rows)[..p], Remains(Index(rows), WholeRows(rows, p)).rows)
    else Loads(TextOf(rows), rows)
  }

  lemma CleanReloads(rows: seq<Row>, p: nat)
    requires CleanRows(rows)
    ensures Reloads(rows, p)
  {
    if p <= |TextOf(rows)| {
      TextLoads(rows, p);
    } else {
      TextLoads(rows, |TextOf(rows)|);
      assert TextOf(rows)[..|TextOf(rows)|] == TextOf(rows) && rows[..|rows|] == rows;
    }
  }

  /** At every moment of a history of such runs the saved index, whole or cut short, is
      loaded by the next run as the rows that the history gives it. */
  lemma HistoryLoads(h: seq<Moment>, cfg: Config, lib: Lib, runs: seq<Run>, n: nat, k: nat, p: nat)
    requires lib.Ok() && n <= |runs| && History(h, cfg, lib, runs, n) && k <= n
    requires CleanRows(HeldAt(h[0], cfg).Rows()) && forall i :: 0 <= i < n ==> CleanRun(runs[i])
    ensures HasIndex(h[k].files, cfg) ==> Reloads(h[k].files[cfg.db].rows, p)
  {
    HistoryClean(h, cfg, lib, runs, n, k);
    if HasIndex(h[k].files, cfg) {
      CleanReloads(h[k].files[cfg.db].rows, p);
    }
  }
}
