/** What a run accomplishes, row by row and date by date, in terms of the files before
    it (apps/ca.c:799-825, 1031-1158, 1301-1325). */
module Outcome {
  import opened Prelude
  import opened SerialKey
  import opened TxtDb
  import opened Asn1Time
  import opened Expiry
  import opened Revocation
  import opened CaDatabase
  import opened Rotation
  import opened Commit
  import opened Counter

  // ----- rows

  /** The rows with the expired ones marked: no row comes or goes, and none changes but
      from valid to expired; one with a UTCTime date does so exactly when the date is at
      or before now on the calendar. */
  ghost predicate Marked(before: seq<Row>, after: seq<Row>, now: string)
    requires IsUtcTime(now)
  {
    && |after| == |before|
    && forall i :: 0 <= i < |before| ==> MarkedRow(before[i], after[i], now)
  }

  ghost predicate MarkedRow(r: Row, r': Row, now: string)
    requires IsUtcTime(now)
  {
    && (r' == r || (r.kind == 'V' && r' == r.(kind := 'E')))
    && (r.kind == 'V' && IsUtcTime(r.exp) ==> (r'.kind == 'E' <==> TmCmp(UtcTm(r.exp), UtcTm(now)) <= 0))
  }

  /** The row of a certificate with this number, name and date. */
  ghost predicate IsRowOf(r: Row, n: nat, name: string, notAfter: string)
  {
    r.kind == 'V' && r.exp == notAfter && r.rev == "" && Canonical(r.serial) && Value(r.serial) == n && r.name == name
  }

  lemma ExpireRowsMark(rows: seq<Row>, now: string)
    requires IsUtcTime(now)
    ensures Marked(rows, ExpireRows(rows, now), now)
    ensures |Expiring(rows, now)| == 0 ==> Marked(rows, rows, now)
  {
    forall i | 0 <= i < |rows|
      ensures MarkedRow(rows[i], ExpireRows(rows, now)[i], now)
    {
      if IsUtcTime(rows[i].exp) {
        UtcExpiryIsChronological(rows[i].exp, now);
      }
    }
    ExpiryKeepsSerials(rows, now);
  }

  lemma NewRowIs(c: Cert)
    ensures IsRowOf(NewRow(c), c.serial, c.name, c.notAfter)
  {
  }

  // ----- saving

  /** The index file is missing, as it was, or holds the first of these rows. */
  ghost predicate SavedFrom(index: Option<File>, was: Option<File>, rows: seq<Row>)
  {
    || index.None? || index == was
    || (index.value.Index? && exists k :: 0 <= k <= |rows| && index.value.rows == rows[..k])
  }

  lemma SavingSaves(cfg: Config, g: Going, rows: seq<Row>)
    ensures SavedFrom(Saving(cfg, g, rows).h.index, g.h.index, rows)
    ensures AllGo(g.script) && ShortNames(cfg) && rows != [] && g.h.index.Some? ==>
              Saving(cfg, g, rows).on && Saving(cfg, g, rows).h.index == Some(Index(rows))
  {
    assert rows[..|rows|] == rows;
    if AllGo(g.script) && ShortNames(cfg) && rows != [] {
      AllGoStart(g.script);
      assert IndexCommitted(cfg, g.script, rows);
      if g.h.index.Some? {
        CommittedIsThere(cfg, g.script, g.h.index.value, rows);
      }
    }
  }

  // ----- updating

  /** A run that only marks expired rows: whatever its calls meet, the index is missing,
      as it was, or holds the first of the marked rows, and nothing else changes; when
      they all go through it holds the marked rows. */
  lemma UpdateRun(m: Moment, cfg: Config, lib: Lib, now: string, s: seq<Decision>) returns (marked: seq<Row>)
    requires lib.Ok() && Loadable(m.files, cfg, lib) && IsUtcTime(now)
    ensures Marked(m.files[cfg.db].rows, marked, now)
    ensures var h, r := HeldAt(m, cfg), RunResult(m, cfg, lib, Run(Some(now), None, None, s));
            && r.counter == h.counter && r.published == h.published
            && SavedFrom(r.index, h.index, marked)
            && (AllGo(s) && ShortNames(cfg) ==> r.index == Some(Index(marked)))
  {
    var rows, g := m.files[cfg.db].rows, Loaded(m, cfg, lib, s);
    marked := if |Expiring(rows, now)| == 0 then rows else ExpireRows(rows, now);
    ExpireRowsMark(rows, now);
    ExpiryKeepsSerials(rows, now);
    SavingSaves(cfg, g, ExpireRows(rows, now));
  }

  // ----- issuing

  /** The rows that certification adds: one for each signed request, in order, numbered
      from `serial` on, with the name and the date of the request. */
  ghost predicate RowsFor(rows: seq<Row>, serial: nat, requests: seq<Request>, ps: seq<nat>)
  {
    && |rows| == |ps|
    && forall k :: 0 <= k < |ps| ==>
         ps[k] < |requests| && IsRowOf(rows[k], serial + k, requests[ps[k]].name, requests[ps[k]].notAfter)
  }

  /** The positions of the signed requests. */
  ghost function SignedAt(requests: seq<Request>): nat -> bool {
    (i: nat) => i < |requests| && requests[i].verdict == Signed
  }

  lemma {:induction false} CertifiedRows(p: Progress, unique: bool, requests: seq<Request>, n: nat)
    returns (ps: seq<nat>)
    requires n <= |requests| && p.ok && Certified(p, unique, requests, n).ok
    ensures Chosen(ps, 0, n, SignedAt(requests)) && AddedFor(p, Certified(p, unique, requests, n), requests, ps)
  {
    if n == 0 {
      ps := [];
    } else {
      StillOk(p, unique, requests, n - 1, n);
      ps := CertifiedRows(p, unique, requests, n - 1);
      OneMoreRow(p, Certified(p, unique, requests, n - 1), unique, requests, n - 1, ps);
      ps := ChosenOneMore(ps, 0, n - 1, SignedAt(requests));
    }
  }

  ghost predicate AddedFor(p: Progress, q: Progress, requests: seq<Request>, ps: seq<nat>)
  {
    && |q.rows| == |p.rows| + |ps| && q.rows[..|p.rows|] == p.rows && q.next == p.next + |ps|
    && RowsFor(q.rows[|p.rows|..], p.next, requests, ps)
  }

  lemma StillOk(p: Progress, unique: bool, requests: seq<Request>, k: nat, n: nat)
    requires k < n <= |requests| && Certified(p, unique, requests, n).ok
    ensures Certified(p, unique, requests, k).ok && Certified(p, unique, requests, k + 1).ok
  {
    if !Certified(p, unique, requests, k).ok {
      ErrorIsTheEnd(p, unique, requests, k, n);
    } else if !Certified(p, unique, requests, k + 1).ok {
      ErrorIsTheEnd(p, unique, requests, k + 1, n);
    }
  }

  lemma OneMoreRow(p: Progress, q: Progress, unique: bool, requests: seq<Request>, k: nat, ps: seq<nat>)
    requires k < |requests| && AddedFor(p, q, requests, ps) && q.ok && Certify(q, requests[k], unique).ok
    ensures AddedFor(p, Certify(q, requests[k], unique), requests,
                     ps + if requests[k].verdict == Signed then [k] else [])
  {
    var r := requests[k];
    var q' := Certify(q, r, unique);
    if r.verdict == Signed {
      var c := Cert(q.next, r.name, r.notAfter);
      NewRowIs(c);
      assert q'.rows[..|p.rows|] == q.rows[..|p.rows|];
      assert q'.rows[|p.rows|..] == q.rows[|p.rows|..] + [NewRow(c)];
    } else {
      assert ps + [] == ps;
    }
  }

  /** What a run sets out to commit: the rows of the index that was loaded, with the
      expired ones marked if that was asked for, and then those of the signed requests. */
  lemma PlanRows(m: Moment, cfg: Config, lib: Lib, run: Run) returns (ps: seq<nat>)
    requires lib.Ok() && PlanAt(m, cfg, lib, run).Commit? && (run.update.Some? ==> IsUtcTime(run.update.value))
    ensures Loadable(m.files, cfg, lib) && run.batch.Some? && HasCounter(m.files, cfg)
    ensures var plan, rows, requests := PlanAt(m, cfg, lib, run), m.files[cfg.db].rows, run.batch.value.requests;
            && plan.serial == m.files[cfg.serial].n && |plan.rows| == |rows| + plan.count && plan.count == |ps|
            && (run.update.None? ==> plan.rows[..|rows|] == rows)
            && (run.update.Some? ==> Marked(rows, plan.rows[..|rows|], run.update.value))
            && Chosen(ps, 0, |requests|, SignedAt(requests))
            && RowsFor(plan.rows[|rows|..], plan.serial, requests, ps)
  {
    AtBatchRows(m, cfg, lib, run);
    AtBatchMarked(m, cfg, lib, run);
    var g, requests := AtBatch(m, cfg, lib, run), run.batch.value.requests;
    ps := CertifiedRows(g.Start(), Unique(m.files, cfg), requests, |requests|);
  }

  lemma AtBatchMarked(m: Moment, cfg: Config, lib: Lib, run: Run)
    requires lib.Ok() && AtBatch(m, cfg, lib, run).on && (run.update.Some? ==> IsUtcTime(run.update.value))
    ensures Loadable(m.files, cfg, lib)
    ensures var rows, after := m.files[cfg.db].rows, AtBatch(m, cfg, lib, run).rows;
            && (run.update.None? ==> after == rows)
            && (run.update.Some? ==> Marked(rows, after, run.update.value))
  {
    if run.update.Some? && Loadable(m.files, cfg, lib) {
      ExpireRowsMark(m.files[cfg.db].rows, run.update.value);
    }
  }

  // ----- adding by hand

  /** No row has the number of the certificate, and no valid row its name if subjects are
      to be unique. */
  ghost predicate IsNew(rows: seq<Row>, unique: bool, c: Cert)
  {
    && (forall i :: 0 <= i < |rows| ==> Value(rows[i].serial) != c.serial)
    && (unique ==> forall i :: 0 <= i < |rows| && rows[i].kind == 'V' ==> rows[i].name != c.name)
  }

  /** A run that only adds a certificate by hand: unless the certificate is new nothing
      changes; if it is, then whatever the calls meet the index is missing, as it was, or
      holds the first of the rows with the new one at the end, and all of them when the
      calls all go through. */
  lemma AddRun(m: Moment, cfg: Config, lib: Lib, c: Cert, s: seq<Decision>) returns (row: Row)
    requires lib.Ok() && Loadable(m.files, cfg, lib)
    ensures IsRowOf(row, c.serial, c.name, c.notAfter)
    ensures var h, r := HeldAt(m, cfg), RunResult(m, cfg, lib, Run(None, None, Some(c), s));
            var rows := m.files[cfg.db].rows;
            && r.counter == h.counter && r.published == h.published
            && (!IsNew(rows, Unique(m.files, cfg), c) ==> r == h)
            && (IsNew(rows, Unique(m.files, cfg), c) ==>
                  && SavedFrom(r.index, h.index, rows + [row])
                  && (AllGo(s) && ShortNames(cfg) ==> r.index == Some(Index(rows + [row]))))
  {
    row := NewRow(c);
    NewRowIs(c);
    var rows, g := m.files[cfg.db].rows, Loaded(m, cfg, lib, s);
    assert Addable(g, c) <==> IsNew(rows, Unique(m.files, cfg), c);
    SavingSaves(cfg, g, rows + [row]);
  }

  // ----- everything in one run

  lemma {:induction false} TakenAfter(p: Progress, unique: bool, requests: seq<Request>, n: nat, name: string)
    requires n <= |requests| && name !in p.taken
    requires unique ==> forall i :: 0 <= i < |requests| ==> requests[i].name != name
    ensures name !in Certified(p, unique, requests, n).taken
  {
    if n > 0 {
      TakenAfter(p, unique, requests, n - 1, name);
    }
  }

  /** When all positions are chosen they are all there. */
  lemma {:induction false} AllChosen(ps: seq<nat>, n: nat, keep: nat -> bool)
    requires Chosen(ps, 0, n, keep) && forall i: nat :: i < n ==> keep(i)
    ensures |ps| == n && forall i :: 0 <= i < n ==> ps[i] == i
  {
    var least := if |ps| > 0 then ps[0] else n;
    forall i | 0 <= i < |ps|
      ensures ps[i] < n
    {
      assert ps[i] in ps;
    }
    if n > 0 {
      assert n - 1 in ps;
      var last := |ps| - 1;
      assert ps[last] == n - 1;
      forall p: nat
        ensures p in ps[..last] <==> p < n - 1 && keep(p)
      {
        assert ps == ps[..last] + [ps[last]];
      }
      AllChosen(ps[..last], n - 1, keep);
    }
  }

  /** The certificate is also new among those that the requests are about to get. */
  ghost predicate NewBeside(c: Cert, n: nat, requests: seq<Request>, unique: bool)
  {
    && !(n <= c.serial < n + |requests|)
    && (unique ==> forall i :: 0 <= i < |requests| ==> requests[i].name != c.name)
  }

  /** Expired rows are marked, one row is added for each request and one by hand, the
      counter is moved past the new numbers and their certificates are written out. */
  ghost predicate AllDone(h: Holding, r: Holding, rows: seq<Row>, now: string, n: nat, requests: seq<Request>, c: Cert)
    requires IsUtcTime(now)
  {
    var k := |requests|;
    && r.Numbered() && r.counter.value.n == n + k && r.published == h.published + Numbers(n, k)
    && r.index.Some? && r.index.value.Index? && AllRows(rows, r.index.value.rows, now, n, requests, c)
  }

  ghost predicate AllRows(was: seq<Row>, rows: seq<Row>, now: string, n: nat, requests: seq<Request>, c: Cert)
    requires IsUtcTime(now)
  {
    && |rows| == |was| + |requests| + 1 && Marked(was, rows[..|was|], now)
    && (forall i :: 0 <= i < |requests| ==>
          IsRowOf(rows[|was| + i], n + i, requests[i].name, requests[i].notAfter))
    && IsRowOf(rows[|was| + |requests|], c.serial, c.name, c.notAfter)
  }

  ghost predicate PlannedRows(was: seq<Row>, rows: seq<Row>, now: string, n: nat, requests: seq<Request>)
    requires IsUtcTime(now)
  {
    && |rows| == |was| + |requests| && Marked(was, rows[..|was|], now)
    && forall i :: 0 <= i < |requests| ==>
         IsRowOf(rows[|was|..][i], n + i, requests[i].name, requests[i].notAfter)
  }

  /** A run that does everything and whose calls all go through. */
  lemma UntroubledRun(m: Moment, cfg: Config, lib: Lib, run: Run)
    requires lib.Ok() && Loadable(m.files, cfg, lib) && HasCounter(m.files, cfg) && ShortNames(cfg) && AllGo(run.script)
    requires run.update.Some? && IsUtcTime(run.update.value)
    requires run.batch.Some? && run.batch.value.commit && run.batch.value.requests != []
    requires AllNew(run.batch.value.requests, Reserved(m.files, cfg), Unique(m.files, cfg))
    requires FreeFrom(m.files[cfg.db].rows, m.files[cfg.serial].n, |run.batch.value.requests|)
    requires run.add.Some? && IsNew(m.files[cfg.db].rows, Unique(m.files, cfg), run.add.value)
    requires NewBeside(run.add.value, m.files[cfg.serial].n, run.batch.value.requests, Unique(m.files, cfg))
    ensures AllDone(HeldAt(m, cfg), RunResult(m, cfg, lib, run), m.files[cfg.db].rows, run.update.value,
                    m.files[cfg.serial].n, run.batch.value.requests, run.add.value)
  {
    var plan := UntroubledPlan(m, cfg, lib, run);
    var r := UntroubledAdd(m, cfg, lib, run, plan);
    AllTheRows(m.files[cfg.db].rows, plan.rows, run.update.value, m.files[cfg.serial].n, run.batch.value.requests,
               run.add.value);
  }

  lemma AllTheRows(was: seq<Row>, rows: seq<Row>, now: string, n: nat, requests: seq<Request>, c: Cert)
    requires IsUtcTime(now) && PlannedRows(was, rows, now, n, requests)
    ensures AllRows(was, rows + [NewRow(c)], now, n, requests, c)
  {
    var after := rows + [NewRow(c)];
    NewRowIs(c);
    assert after[..|was|] == rows[..|was|];
    forall i | 0 <= i < |requests|
      ensures IsRowOf(after[|was| + i], n + i, requests[i].name, requests[i].notAfter)
    {
      assert after[|was| + i] == rows[|was|..][i];
    }
  }

  lemma UntroubledStart(m: Moment, cfg: Config, lib: Lib, run: Run)
    requires lib.Ok() && Loadable(m.files, cfg, lib) && ShortNames(cfg) && AllGo(run.script)
    ensures AtBatch(m, cfg, lib, run).on && AllGo(AtBatch(m, cfg, lib, run).script)
  {
    AllGoRest(run.script, 6);
    if run.update.Some? {
      var rows := m.files[cfg.db].rows;
      ExpiryKeepsSerials(rows, run.update.value);
      SavingSaves(cfg, Loaded(m, cfg, lib, run.script), ExpireRows(rows, run.update.value));
    }
  }

  lemma UntroubledPlan(m: Moment, cfg: Config, lib: Lib, run: Run) returns (plan: Plan)
    requires lib.Ok() && Loadable(m.files, cfg, lib) && HasCounter(m.files, cfg) && ShortNames(cfg) && AllGo(run.script)
    requires run.update.Some? && IsUtcTime(run.update.value) && run.batch.Some? && run.batch.value.commit
    requires run.batch.value.requests != []
    requires AllNew(run.batch.value.requests, Reserved(m.files, cfg), Unique(m.files, cfg))
    requires FreeFrom(m.files[cfg.db].rows, m.files[cfg.serial].n, |run.batch.value.requests|)
    ensures plan == PlanAt(m, cfg, lib, run) && plan.Commit?
    ensures var rows, n, requests := m.files[cfg.db].rows, m.files[cfg.serial].n, run.batch.value.requests;
            && plan.serial == n && plan.count == |requests|
            && PlannedRows(rows, plan.rows, run.update.value, n, requests)
  {
    UntroubledStart(m, cfg, lib, run);
    UpdateGoesIff(m, cfg, lib, run);
    PlannedIff(m, cfg, lib, run);
    plan := PlanAt(m, cfg, lib, run);
    var requests := run.batch.value.requests;
    var ps := PlanRows(m, cfg, lib, run);
    AllChosen(ps, |requests|, SignedAt(requests));
  }

  lemma UntroubledBatch(m: Moment, cfg: Config, lib: Lib, run: Run, plan: Plan)
    requires lib.Ok() && Loadable(m.files, cfg, lib) && ShortNames(cfg) && AllGo(run.script)
    requires plan == PlanAt(m, cfg, lib, run) && plan.Commit?
    ensures var g := AtAdd(m, cfg, lib, run);
            && g.on && AllGo(g.script) && g.rows == plan.rows && g.h.index.Some?
            && g.h.counter == Some(SerialNumber(NewNumber(plan)))
            && g.h.published == m.published + Numbers(plan.serial, plan.count)
  {
    UntroubledStart(m, cfg, lib, run);
    AtBatchRows(m, cfg, lib, run);
    var g := AtBatch(m, cfg, lib, run);
    CommitAccomplished(cfg, g.script, g.h, plan);
    AllGoRest(g.script, 9 + plan.count);
  }

  lemma UntroubledAdd(m: Moment, cfg: Config, lib: Lib, run: Run, plan: Plan) returns (r: Holding)
    requires lib.Ok() && Loadable(m.files, cfg, lib) && HasCounter(m.files, cfg) && ShortNames(cfg) && AllGo(run.script)
    requires plan == PlanAt(m, cfg, lib, run) && plan.Commit? && run.add.Some?
    requires plan.serial == m.files[cfg.serial].n && plan.count == |run.batch.value.requests|
    requires IsNew(m.files[cfg.db].rows, Unique(m.files, cfg), run.add.value)
    requires NewBeside(run.add.value, plan.serial, run.batch.value.requests, Unique(m.files, cfg))
    ensures r == RunResult(m, cfg, lib, run)
    ensures && r.index == Some(Index(plan.rows + [NewRow(run.add.value)]))
            && r.counter == Some(SerialNumber(NewNumber(plan)))
            && r.published == m.published + Numbers(plan.serial, plan.count)
  {
    r := RunResult(m, cfg, lib, run);
    var c, requests := run.add.value, run.batch.value.requests;
    UntroubledBatch(m, cfg, lib, run, plan);
    AtBatchRows(m, cfg, lib, run);
    var g := AtBatch(m, cfg, lib, run);
    CertifiedAreIssued(g.Start(), Unique(m.files, cfg), requests, |requests|);
    TakenAfter(g.Start(), Unique(m.files, cfg), requests, |requests|, c.name);
    SerialIsFree(m.files[cfg.db].rows, g.rows, plan.rows, plan.serial, NewNumber(plan), c.serial);
    SavingSaves(cfg, AtAdd(m, cfg, lib, run), plan.rows + [NewRow(c)]);
  }

  lemma SerialIsFree(was: seq<Row>, before: seq<Row>, rows: seq<Row>, serial: nat, next: nat, n: nat)
    requires SameSerials(was, before) && Issued(before, rows, serial, next) && !(serial <= n < next)
    requires forall i :: 0 <= i < |was| ==> Value(was[i].serial) != n
    ensures Scan(rows, n).None?
  {
    forall i | 0 <= i < |rows|
      ensures Value(rows[i].serial) != n
    {
      if i < |before| {
        assert rows[i] == before[i] && was[i].serial == before[i].serial;
      }
    }
  }

  // ----- when there is something to commit

  /** How many of the first n requests are signed. */
  ghost function SignedBefore(requests: seq<Request>, n: nat): nat
    requires n <= |requests|
  {
    if n == 0 then 0 else SignedBefore(requests, n - 1) + if requests[n - 1].verdict == Signed then 1 else 0
  }

  /** Request k meets no hard error: it is not rejected, the number that it would get is
      not in use, and its name is neither reserved nor, if names are to be unique, that
      of an earlier certificate of the batch. */
  ghost predicate Passes(rows: seq<Row>, taken: set<string>, unique: bool, requests: seq<Request>, n: nat, k: nat)
    requires k < |requests|
  {
    var r := requests[k];
    && r.verdict != Rejected
    && (r.verdict != Mismatched ==> NumberIsFree(rows, n + SignedBefore(requests, k)))
    && (r.verdict == Signed ==> r.name !in taken && !(unique && SignedName(requests, k, r.name)))
  }

  ghost predicate NumberIsFree(rows: seq<Row>, n: nat)
  {
    forall i :: 0 <= i < |rows| ==> Value(rows[i].serial) != n
  }

  /** One of the first n requests is signed and has this name. */
  ghost predicate SignedName(requests: seq<Request>, n: nat, name: string)
    requires n <= |requests|
  {
    exists j :: 0 <= j < n && requests[j].verdict == Signed && requests[j].name == name
  }

  ghost predicate AllPass(rows: seq<Row>, taken: set<string>, unique: bool, requests: seq<Request>, n: nat, k: nat)
    requires k <= |requests|
  {
    forall i :: 0 <= i < k ==> Passes(rows, taken, unique, requests, n, i)
  }

  lemma NumberStaysFree(before: seq<Row>, after: seq<Row>, serial: nat, next: nat)
    requires Issued(before, after, serial, next)
    ensures Scan(after, next).None? <==> NumberIsFree(before, next)
  {
    if Scan(after, next).None? {
      forall i | 0 <= i < |before|
        ensures Value(before[i].serial) != next
      {
        assert after[i] == before[i];
      }
    }
  }

  /** Where certification stands after n requests that all pass. */
  ghost predicate WellSoFar(p: Progress, q: Progress, unique: bool, requests: seq<Request>, n: nat)
    requires n <= |requests|
  {
    && q.ok && q.next == p.next + SignedBefore(requests, n) && Issued(p.rows, q.rows, p.next, q.next)
    && forall name :: name in q.taken <==> name in p.taken || (unique && SignedName(requests, n, name))
  }

  lemma OneMorePasses(p: Progress, q: Progress, unique: bool, requests: seq<Request>, n: nat)
    requires n < |requests| && WellSoFar(p, q, unique, requests, n)
    ensures Certify(q, requests[n], unique).ok <==> Passes(p.rows, p.taken, unique, requests, p.next, n)
    ensures Certify(q, requests[n], unique).ok ==>
              WellSoFar(p, Certify(q, requests[n], unique), unique, requests, n + 1)
  {
    NumberStaysFree(p.rows, q.rows, p.next, q.next);
    forall name
      ensures SignedName(requests, n + 1, name) <==>
              SignedName(requests, n, name) || (requests[n].verdict == Signed && requests[n].name == name)
    {
    }
  }

  lemma AllPassMore(rows: seq<Row>, taken: set<string>, unique: bool, requests: seq<Request>, n: nat, k: nat)
    requires 0 < k <= |requests|
    ensures AllPass(rows, taken, unique, requests, n, k) <==>
            AllPass(rows, taken, unique, requests, n, k - 1) && Passes(rows, taken, unique, requests, n, k - 1)
  {
  }

  /** Certification ends well exactly when every request passes. */
  lemma {:induction false} CertifiedIff(p: Progress, unique: bool, requests: seq<Request>, n: nat)
    requires n <= |requests| && p.ok
    ensures var q := Certified(p, unique, requests, n);
            && (q.ok <==> AllPass(p.rows, p.taken, unique, requests, p.next, n))
            && (q.ok ==> WellSoFar(p, q, unique, requests, n))
  {
    if n > 0 {
      var q := Certified(p, unique, requests, n - 1);
      CertifiedIff(p, unique, requests, n - 1);
      AllPassMore(p.rows, p.taken, unique, requests, p.next, n);
      if q.ok {
        OneMorePasses(p, q, unique, requests, n - 1);
      }
    }
  }

  /** When a run has something to commit: it was agreed to, every request passes, and
      at least one is signed. */
  lemma PlanIff(m: Moment, cfg: Config, lib: Lib, run: Run)
    requires lib.Ok() && AtBatch(m, cfg, lib, run).on && HasCounter(m.files, cfg) && run.batch.Some?
    ensures Loadable(m.files, cfg, lib)
    ensures var rows, n, requests := m.files[cfg.db].rows, m.files[cfg.serial].n, run.batch.value.requests;
            PlanAt(m, cfg, lib, run).Commit? <==>
            && run.batch.value.commit && SignedBefore(requests, |requests|) > 0
            && AllPass(rows, Reserved(m.files, cfg), Unique(m.files, cfg), requests, n, |requests|)
  {
    AtBatchRows(m, cfg, lib, run);
    var g, requests := AtBatch(m, cfg, lib, run), run.batch.value.requests;
    CertifiedIff(g.Start(), Unique(m.files, cfg), requests, |requests|);
    SamePasses(m.files[cfg.db].rows, g.rows, g.taken, Unique(m.files, cfg), requests, g.h.counter.value.n, |requests|);
  }

  lemma SamePasses(a: seq<Row>, b: seq<Row>, taken: set<string>, unique: bool, requests: seq<Request>, n: nat, k: nat)
    requires k <= |requests| && SameSerials(a, b)
    ensures AllPass(a, taken, unique, requests, n, k) <==> AllPass(b, taken, unique, requests, n, k)
  {
    forall i: nat | i < |requests|
      ensures Passes(a, taken, unique, requests, n, i) <==> Passes(b, taken, unique, requests, n, i)
    {
      SameFree(a, b, n + SignedBefore(requests, i));
    }
  }

  lemma SameFree(a: seq<Row>, b: seq<Row>, n: nat)
    requires SameSerials(a, b)
    ensures NumberIsFree(a, n) <==> NumberIsFree(b, n)
  {
  }

  /** A batch that leads to nothing: if all requests pass and none is signed the run goes
      on as if there were none, and otherwise it ends there. */
  lemma NothingToCommit(m: Moment, cfg: Config, lib: Lib, run: Run)
    requires lib.Ok() && Loadable(m.files, cfg, lib) && HasCounter(m.files, cfg)
    requires run.update.None? && run.batch.Some? && PlanAt(m, cfg, lib, run).Nothing?
    ensures var rows, n, requests := m.files[cfg.db].rows, m.files[cfg.serial].n, run.batch.value.requests;
            RunResult(m, cfg, lib, run) ==
            if SignedBefore(requests, |requests|) == 0
               && AllPass(rows, Reserved(m.files, cfg), Unique(m.files, cfg), requests, n, |requests|)
            then RunResult(m, cfg, lib, run.(batch := None))
            else HeldAt(m, cfg)
  {
    var g, requests := AtBatch(m, cfg, lib, run), run.batch.value.requests;
    CertifiedIff(g.Start(), Unique(m.files, cfg), requests, |requests|);
    if SignedBefore(requests, |requests|) == 0 {
      NoneSigned(g.Start(), Unique(m.files, cfg), requests, |requests|);
    }
  }

  lemma {:induction false} NoneSigned(p: Progress, unique: bool, requests: seq<Request>, n: nat)
    requires n <= |requests| && SignedBefore(requests, n) == 0
    ensures var q := Certified(p, unique, requests, n); q.rows == p.rows && q.taken == p.taken
  {
    if n > 0 {
      NoneSigned(p, unique, requests, n - 1);
    }
  }
}
