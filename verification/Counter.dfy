/** The serial counter over runs and histories: when it stays ahead of the index, when
    it stays above the certificates written out, when a number is issued twice and
    when issuing stalls (apps/ca.c:1031-1158, 1733-1797; apps/apps.c:1450-1537). */
module Counter {
  import opened Prelude
  import opened SerialKey
  import opened TxtDb
  import opened CaDatabase
  import opened Revocation
  import opened Rotation
  import opened Commit
  import Asn1Time

  /** Every serial is below n, apart from those that were added by hand. */
  ghost predicate Below(rows: seq<Row>, n: nat, foreign: set<nat>)
  {
    forall i :: 0 <= i < |rows| ==> Value(rows[i].serial) < n || Value(rows[i].serial) in foreign
  }

  /** The counter, when it can be read, is ahead of all that it issued. */
  ghost predicate Ahead(h: Holding, foreign: set<nat>)
  {
    h.Numbered() ==> Below(h.Rows(), h.counter.value.n, foreign)
  }

  /** The serials of these rows. */
  ghost function Listed(rows: seq<Row>): set<nat>
  {
    set i | 0 <= i < |rows| :: Value(rows[i].serial)
  }

  /** Only the serials that are there matter. */
  lemma TrimmedBelow(rows: seq<Row>, n: nat, foreign: set<nat>)
    ensures Below(rows, n, foreign) <==> Below(rows, n, foreign * Listed(rows))
  {
    forall i | 0 <= i < |rows|
      ensures Value(rows[i].serial) in Listed(rows)
    {
    }
  }

  lemma SameBelow(a: seq<Row>, b: seq<Row>, n: nat, foreign: set<nat>)
    requires SameSerials(a, b) && Below(a, n, foreign)
    ensures Below(b, n, foreign)
  {
  }

  lemma BelowMore(rows: seq<Row>, c: Cert, n: nat, foreign: set<nat>)
    requires Below(rows, n, foreign)
    ensures Below(rows + [NewRow(c)], n, foreign + {c.serial})
  {
    assert Value(NewRow(c).serial) == c.serial;
  }

  // ----- a commit

  /** The commit gets as far as installing a serial file. */
  predicate InstallsCounter(cfg: Config, s: seq<Decision>, plan: Plan)
    requires plan.Commit?
  {
    var r := Rest(s, 3 + plan.count);
    Out(cfg, s, plan) == plan.count && At(r, 0).Go? && At(r, 1).Go?
  }

  /** A serial file that was cut short to a smaller number is installed. */
  predicate TearsCounter(cfg: Config, s: seq<Decision>, plan: Plan)
    requires plan.Commit?
  {
    var f := NewCounter(s, plan);
    InstallsCounter(cfg, s, plan) && f.SerialNumber? && f.n < NewNumber(plan)
  }

  /** What is left of a file is never ahead of the file. */
  lemma RemainsBelow(n: nat, d: Decision)
    ensures var f := Left(SerialNumber(n), d); f.SerialNumber? ==> f.n <= n
  {
    if d.Torn? && d.keep < |Key(n)| {
      PrefixIsSmaller(Key(n), d.keep);
      ValueOfKey(n);
    }
  }

  /** The index after a commit is the old one, the new one as it was saved, or missing;
      it changes only with the counter. */
  lemma IndexIs(cfg: Config, s: seq<Decision>, h: Holding, plan: Plan)
    requires plan.Commit? && h.index.Some?
    ensures var i := CommitResult(cfg, s, h, plan).index;
            i.None? || i == h.index || i == Some(Left(Index(plan.rows), At(s, 1)))
    ensures !InstallsCounter(cfg, s, plan) ==> CommitResult(cfg, s, h, plan).index == h.index
  {
  }

  /** The counter after a commit is the new one when it is installed, and otherwise the
      old one or missing. */
  lemma CounterIs(cfg: Config, s: seq<Decision>, h: Holding, plan: Plan)
    requires plan.Commit? && h.index.Some? && h.counter == Some(SerialNumber(plan.serial))
    ensures var c := CommitResult(cfg, s, h, plan).counter;
            if InstallsCounter(cfg, s, plan) then c == Some(NewCounter(s, plan)) else c.None? || c == h.counter
    ensures Committed(cfg, s, plan) ==> InstallsCounter(cfg, s, plan)
  {
  }

  lemma PrefixBelow(rows: seq<Row>, d: Decision, n: nat, foreign: set<nat>)
    requires Below(rows, n, foreign)
    ensures var f := Left(Index(rows), d); f.Index? && Below(f.rows, n, foreign)
  {
  }

  /** A commit that installs no torn number keeps the counter ahead. */
  lemma CommitAhead(cfg: Config, s: seq<Decision>, h: Holding, plan: Plan, foreign: set<nat>)
    requires plan.Commit? && h.index.Some? && h.counter == Some(SerialNumber(plan.serial))
    requires Ahead(h, foreign) && Below(plan.rows, NewNumber(plan), foreign) && !TearsCounter(cfg, s, plan)
    ensures var r := CommitResult(cfg, s, h, plan);
            Ahead(r, foreign) && (Committed(cfg, s, plan) && r.Numbered() ==> r.counter.value.n == NewNumber(plan))
  {
    RemainsBelow(NewNumber(plan), At(s, 0));
    PrefixBelow(plan.rows, At(s, 1), NewNumber(plan), foreign);
    IndexIs(cfg, s, h, plan);
    CounterIs(cfg, s, h, plan);
  }

  // ----- the parts of a run

  /** The counter is ahead of the index on the disk and of the rows in memory. */
  ghost predicate Leads(g: Going, foreign: set<nat>)
  {
    Ahead(g.h, foreign) && (g.on && g.h.Numbered() ==> Below(g.rows, g.h.counter.value.n, foreign))
  }

  lemma SavingLeads(cfg: Config, g: Going, rows: seq<Row>, foreign: set<nat>)
    requires Ahead(g.h, foreign) && (g.h.Numbered() ==> Below(rows, g.h.counter.value.n, foreign))
    ensures Leads(Saving(cfg, g, rows), foreign)
  {
    if g.h.Numbered() {
      PrefixBelow(rows, At(g.script, 0), g.h.counter.value.n, foreign);
    }
  }

  lemma UpdateLeads(cfg: Config, g: Going, update: Option<string>, foreign: set<nat>)
    requires Leads(g, foreign)
    ensures Leads(AfterUpdate(cfg, g, update), foreign)
  {
    if g.on && update.Some? {
      ExpiryKeepsSerials(g.rows, update.value);
      if g.h.Numbered() {
        SameBelow(g.rows, ExpireRows(g.rows, update.value), g.h.counter.value.n, foreign);
      }
      SavingLeads(cfg, g, ExpireRows(g.rows, update.value), foreign);
    }
  }

  lemma CertifiedBelow(p: Progress, unique: bool, requests: seq<Request>, foreign: set<nat>)
    requires Below(p.rows, p.next, foreign)
    ensures var q := Certified(p, unique, requests, |requests|); Below(q.rows, q.next, foreign)
  {
    CertifiedAreIssued(p, unique, requests, |requests|);
  }

  lemma BatchLeads(cfg: Config, g: Going, unique: bool, batch: Option<Batch>, foreign: set<nat>)
    requires Leads(g, foreign)
    requires var plan := PlanOf(g, unique, batch); plan.Commit? ==> !TearsCounter(cfg, g.script, plan)
    ensures Leads(AfterBatch(cfg, g, unique, batch), foreign)
  {
    if batch.Some? && Issues(g) {
      CertifiedBelow(g.Start(), unique, batch.value.requests, foreign);
      var plan := PlanOf(g, unique, batch);
      if plan.Commit? {
        CommitAhead(cfg, g.script, g.h, plan, foreign);
      }
    }
  }

  /** The serial that a run adds by hand, if it does. */
  ghost function Hand(g: Going, add: Option<Cert>): set<nat>
  {
    if add.Some? && Addable(g, add.value) then {add.value.serial} else {}
  }

  lemma AddLeads(cfg: Config, g: Going, add: Option<Cert>, foreign: set<nat>)
    requires Leads(g, foreign)
    ensures Ahead(AfterAdd(cfg, g, add).h, foreign + Hand(g, add))
  {
    if Hand(g, add) != {} {
      if g.h.Numbered() {
        BelowMore(g.rows, add.value, g.h.counter.value.n, foreign);
      }
      SavingLeads(cfg, g, g.rows + [NewRow(add.value)], foreign + {add.value.serial});
    }
  }

  // ----- where a torn number falls behind

  /** What is in the index file in the end: nothing, what was there, or the first k of
      the rows in memory. */
  datatype Kept = Gone | Unchanged | First(k: nat)

  function KeptBy(w: Which, d: Decision, len: nat): Kept
  {
    match w
    case Neither => Gone
    case Old => Unchanged
    case New => First(if d.Torn? && d.keep < len then d.keep else len)
  }

  /** The index file after it is saved with so many rows. */
  function KeptSaving(cfg: Config, s: seq<Decision>, rows: seq<Row>, kept: Kept): Kept
  {
    if !SavesIndex(cfg, s, rows) || DbWhich(Rest(s, 2)) == Old then kept
    else KeptBy(DbWhich(Rest(s, 2)), At(s, 0), |rows|)
  }

  /** The index file after a commit and, if there is one, an addition by hand. */
  ghost function IndexKept(cfg: Config, g: Going, unique: bool, batch: Option<Batch>, add: Option<Cert>): Kept
    requires PlanOf(g, unique, batch).Commit?
  {
    var plan, after := PlanOf(g, unique, batch), AfterBatch(cfg, g, unique, batch);
    var kept := KeptBy(BothWhich(Rest(g.script, 3 + plan.count)), At(g.script, 1), |plan.rows|);
    if Hand(after, add) == {} then kept
    else KeptSaving(cfg, after.script, InTheEnd(cfg, g, unique, batch, add), kept)
  }

  /** The rows in memory in the end. */
  ghost function InTheEnd(cfg: Config, g: Going, unique: bool, batch: Option<Batch>, add: Option<Cert>): seq<Row>
    requires PlanOf(g, unique, batch).Commit?
  {
    PlanOf(g, unique, batch).rows +
    if Hand(AfterBatch(cfg, g, unique, batch), add) == {} then [] else [NewRow(add.value)]
  }

  ghost predicate Holds(index: Option<File>, kept: Kept, was: Option<File>, rows: seq<Row>)
  {
    match kept
    case Gone => index.None?
    case Unchanged => index == was
    case First(k) => k <= |rows| && index == Some(Index(rows[..k]))
  }

  lemma KeptByIs(w: Which, d: Decision, was: File, rows: seq<Row>, more: seq<Row>)
    ensures Holds(Pick(w, was, Left(Index(rows), d)), KeptBy(w, d, |rows|), Some(was), rows + more)
  {
    assert (rows + more)[..|rows|] == rows && rows[..|rows|] == rows;
    assert forall k :: 0 <= k <= |rows| ==> (rows + more)[..k] == rows[..k];
  }

  lemma SavingKept(cfg: Config, g: Going, rows: seq<Row>, kept: Kept, was: Option<File>)
    requires g.h.index.Some? && Holds(g.h.index, kept, was, rows)
    ensures Holds(Saving(cfg, g, rows).h.index, KeptSaving(cfg, g.script, rows, kept), was, rows)
  {
    KeptByIs(DbWhich(Rest(g.script, 2)), At(g.script, 0), g.h.index.value, rows, []);
    assert rows + [] == rows;
  }

  /** IndexKept says what the index file holds. */
  lemma KeptIs(cfg: Config, g: Going, unique: bool, batch: Option<Batch>, add: Option<Cert>)
    requires var plan := PlanOf(g, unique, batch); plan.Commit? && Out(cfg, g.script, plan) == plan.count
    requires Fit(g)
    ensures Holds(AfterAdd(cfg, AfterBatch(cfg, g, unique, batch), add).h.index, IndexKept(cfg, g, unique, batch, add),
                  g.h.index, InTheEnd(cfg, g, unique, batch, add))
  {
    var plan, after := PlanOf(g, unique, batch), AfterBatch(cfg, g, unique, batch);
    var which, rows := BothWhich(Rest(g.script, 3 + plan.count)), InTheEnd(cfg, g, unique, batch, add);
    KeptByIs(which, At(g.script, 1), g.h.index.value, plan.rows, rows[|plan.rows|..]);
    assert plan.rows + rows[|plan.rows|..] == rows;
    if Hand(after, add) != {} {
      BatchFit(cfg, g, unique, batch);
      SavingKept(cfg, after, rows, KeptBy(which, At(g.script, 1), |plan.rows|), g.h.index);
    }
  }

  /** A torn number t is behind what the index file then holds: if the file is as it
      was, behind a serial it had, and if it holds the first k of the rows in memory,
      behind one of those from before the commit or behind the last new one. */
  ghost predicate Behind(kept: Kept, g: Going, plan: Plan, t: nat, foreign: set<nat>)
    requires plan.Commit?
  {
    match kept
    case Gone => false
    case Unchanged => !Below(g.h.Rows(), t, foreign)
    case First(k) =>
      if k <= |g.rows| then !Below(g.rows[..k], t, foreign)
      else !Below(g.rows, t, foreign) || t < plan.serial + Least(k - |g.rows|, plan.count)
  }

  function Least(a: nat, b: nat): nat
  {
    if a < b then a else b
  }

  /** A run falls behind: it installs a serial file that was cut short, with a number
      that is behind what the index file then holds. */
  ghost predicate FallsBehind(cfg: Config, g: Going, unique: bool, batch: Option<Batch>, add: Option<Cert>,
                              foreign: set<nat>)
  {
    var plan := PlanOf(g, unique, batch);
    && plan.Commit? && TearsCounter(cfg, g.script, plan)
    && Behind(IndexKept(cfg, g, unique, batch, add), g, plan, NewCounter(g.script, plan).n, foreign)
  }

  /** The first k rows, of those from before a commit, new ones numbered from `serial`
      on and perhaps one added by hand, are below t. */
  lemma FirstBelow(before: seq<Row>, rows: seq<Row>, serial: nat, count: nat, hand: set<nat>, k: nat, t: nat,
                   foreign: set<nat>)
    requires count > 0 && |before| + count <= |rows| && k <= |rows|
    requires Issued(before, rows[..|before| + count], serial, serial + count)
    requires forall i :: |before| + count <= i < |rows| ==> Value(rows[i].serial) in hand
    requires forall i :: 0 <= i < |before| ==> Value(before[i].serial) !in hand
    requires forall x :: serial <= x < serial + count ==> x !in foreign && x !in hand
    ensures Below(rows[..k], t, foreign + hand) <==>
            if k <= |before| then Below(before[..k], t, foreign)
            else Below(before, t, foreign) && serial + Least(k - |before|, count) <= t
  {
    var up := rows[..|before| + count];
    assert forall i :: 0 <= i < |before| ==> rows[i] == up[i] == before[i];
    assert forall i :: |before| <= i < |before| + count ==>
             rows[i] == up[i] && Value(rows[i].serial) == serial + (i - |before|);
    if k <= |before| {
      assert rows[..k] == before[..k];
    } else {
      OldAndNewBelow(before, rows, serial, count, hand, k, t, foreign);
    }
  }

  lemma OldAndNewBelow(before: seq<Row>, rows: seq<Row>, serial: nat, count: nat, hand: set<nat>, k: nat, t: nat,
                       foreign: set<nat>)
    requires count > 0 && |before| + count <= |rows| && |before| < k <= |rows|
    requires forall i :: 0 <= i < |before| ==> rows[i] == before[i] && Value(before[i].serial) !in hand
    requires forall i :: |before| <= i < |before| + count ==> Value(rows[i].serial) == serial + (i - |before|)
    requires forall i :: |before| + count <= i < |rows| ==> Value(rows[i].serial) in hand
    requires forall x :: serial <= x < serial + count ==> x !in foreign && x !in hand
    ensures Below(rows[..k], t, foreign + hand) <==>
            Below(before, t, foreign) && serial + Least(k - |before|, count) <= t
  {
    var first, last := rows[..k], |before| + Least(k - |before|, count) - 1;
    assert first[last] == rows[last];
    if Below(first, t, foreign + hand) {
      assert forall i :: 0 <= i < |before| ==> first[i] == before[i];
    }
  }

  /** The rows in memory in the end are those from before, the new ones, and perhaps one
      added by hand, with numbers that are all different. */
  lemma EndRows(cfg: Config, g: Going, unique: bool, batch: Option<Batch>, add: Option<Cert>, foreign: set<nat>)
    requires Fit(g) && PlanOf(g, unique, batch).Commit? && foreign <= Listed(g.rows)
    ensures var plan, rows := PlanOf(g, unique, batch), InTheEnd(cfg, g, unique, batch, add);
            var hand, n := Hand(AfterBatch(cfg, g, unique, batch), add), |g.rows| + plan.count;
            && n <= |rows| && rows[..n] == plan.rows && Issued(g.rows, plan.rows, plan.serial, NewNumber(plan))
            && (forall i :: n <= i < |rows| ==> Value(rows[i].serial) in hand)
            && (forall i :: 0 <= i < |g.rows| ==> Value(g.rows[i].serial) !in hand)
            && (forall x :: plan.serial <= x < NewNumber(plan) ==> x !in foreign && x !in hand)
  {
    var plan, b := PlanOf(g, unique, batch), batch.value;
    CertifiedAreIssued(g.Start(), unique, b.requests, |b.requests|);
    CertifiedSaved(g.Start(), unique, b.requests, |b.requests|);
    NewAreOthers(g.rows, plan.rows, plan.serial, NewNumber(plan), foreign);
    if Hand(AfterBatch(cfg, g, unique, batch), add) != {} {
      AddedIsAnother(g.rows, plan.rows, plan.serial, NewNumber(plan), add.value, {add.value.serial});
    }
  }

  lemma NewAreOthers(before: seq<Row>, rows: seq<Row>, serial: nat, next: nat, foreign: set<nat>)
    requires Issued(before, rows, serial, next) && SavedOk(rows) && foreign <= Listed(before)
    ensures forall x :: serial <= x < next ==> x !in foreign
  {
    forall x | serial <= x < next
      ensures x !in foreign
    {
      var j := |before| + (x - serial);
      assert Value(rows[j].serial) == x;
      assert forall i :: 0 <= i < |before| ==> rows[i] == before[i] && Value(before[i].serial) != x;
    }
  }

  lemma AddedIsAnother(before: seq<Row>, rows: seq<Row>, serial: nat, next: nat, c: Cert, hand: set<nat>)
    requires Issued(before, rows, serial, next) && Scan(rows, c.serial).None? && hand == {c.serial}
    ensures forall i :: 0 <= i < |before| ==> Value(before[i].serial) !in hand
    ensures forall x :: serial <= x < next ==> x !in hand
    ensures Value(NewRow(c).serial) == c.serial
  {
    assert forall i :: 0 <= i < |before| ==> rows[i] == before[i];
    forall x | serial <= x < next
      ensures x !in hand
    {
      assert Value(rows[|before| + (x - serial)].serial) == x;
    }
  }

  /** When the index file is as it was, nothing was added by hand. */
  lemma UnchangedAddsNothing(cfg: Config, g: Going, unique: bool, batch: Option<Batch>, add: Option<Cert>)
    requires PlanOf(g, unique, batch).Commit? && IndexKept(cfg, g, unique, batch, add) == Unchanged
    ensures Hand(AfterBatch(cfg, g, unique, batch), add) == {}
  {
    var plan := PlanOf(g, unique, batch);
    SixGoParts(Rest(g.script, 3 + plan.count));
    if Committed(cfg, g.script, plan) {
      var r := Rest(Rest(g.script, 3 + plan.count), 2);
      assert At(r, 0).Go? && At(r, 1).Go? && At(r, 2).Go? && At(r, 3).Go?;
    }
  }

  /** The serial file in the end, when a torn number is installed. */
  lemma TornIsInstalled(cfg: Config, g: Going, unique: bool, batch: Option<Batch>, add: Option<Cert>)
    requires var plan := PlanOf(g, unique, batch); plan.Commit? && TearsCounter(cfg, g.script, plan)
    ensures var h := AfterAdd(cfg, AfterBatch(cfg, g, unique, batch), add).h;
            h.Numbered() && h.counter.value.n == NewCounter(g.script, PlanOf(g, unique, batch)).n
  {
    CounterIs(cfg, g.script, g.h, PlanOf(g, unique, batch));
  }

  /** With a torn number installed, the counter is ahead exactly when the run does not
      fall behind. */
  lemma TornIff(cfg: Config, g: Going, unique: bool, batch: Option<Batch>, add: Option<Cert>, foreign: set<nat>)
    requires Fit(g) && foreign <= Listed(g.rows)
    requires var plan := PlanOf(g, unique, batch); plan.Commit? && TearsCounter(cfg, g.script, plan)
    ensures var after := AfterBatch(cfg, g, unique, batch);
            Ahead(AfterAdd(cfg, after, add).h, foreign + Hand(after, add)) <==>
            !FallsBehind(cfg, g, unique, batch, add, foreign)
  {
    var h := AfterAdd(cfg, AfterBatch(cfg, g, unique, batch), add).h;
    TornIsInstalled(cfg, g, unique, batch, add);
    KeptIs(cfg, g, unique, batch, add);
    KeptBelow(cfg, g, unique, batch, add, foreign, h, NewCounter(g.script, PlanOf(g, unique, batch)).n);
  }

  lemma KeptBelow(cfg: Config, g: Going, unique: bool, batch: Option<Batch>, add: Option<Cert>, foreign: set<nat>,
                  h: Holding, t: nat)
    requires Fit(g) && foreign <= Listed(g.rows) && PlanOf(g, unique, batch).Commit?
    requires Holds(h.index, IndexKept(cfg, g, unique, batch, add), g.h.index, InTheEnd(cfg, g, unique, batch, add))
    ensures var plan, hand := PlanOf(g, unique, batch), Hand(AfterBatch(cfg, g, unique, batch), add);
            Below(h.Rows(), t, foreign + hand) <==>
            !Behind(IndexKept(cfg, g, unique, batch, add), g, plan, t, foreign)
  {
    var plan, hand := PlanOf(g, unique, batch), Hand(AfterBatch(cfg, g, unique, batch), add);
    match IndexKept(cfg, g, unique, batch, add)
    case Gone =>
    case Unchanged =>
      UnchangedAddsNothing(cfg, g, unique, batch, add);
      assert foreign + hand == foreign;
    case First(k) =>
      EndRows(cfg, g, unique, batch, add, foreign);
      FirstBelow(g.rows, InTheEnd(cfg, g, unique, batch, add), plan.serial, plan.count, hand, k, t, foreign);
  }

  // ----- whole runs

  /** The serials in the index that were added by hand, after a run. */
  ghost function ForeignAfter(m: Moment, cfg: Config, lib: Lib, run: Run, foreign: set<nat>): set<nat>
    requires lib.Ok()
  {
    (foreign + Hand(AtAdd(m, cfg, lib, run), run.add)) * Listed(RunResult(m, cfg, lib, run).Rows())
  }

  ghost predicate RunFallsBehind(m: Moment, cfg: Config, lib: Lib, run: Run, foreign: set<nat>)
    requires lib.Ok()
  {
    FallsBehind(cfg, AtBatch(m, cfg, lib, run), Unique(m.files, cfg), run.batch, run.add, foreign)
  }

  /** The rows in memory have the serials of the index that was loaded. */
  lemma AtBatchRows(m: Moment, cfg: Config, lib: Lib, run: Run)
    requires lib.Ok()
    ensures var g := AtBatch(m, cfg, lib, run);
            && g.h.counter == HeldAt(m, cfg).counter && g.h.published == m.published
            && (g.on ==> Loadable(m.files, cfg, lib) && SameSerials(HeldAt(m, cfg).Rows(), g.rows)
                         && g.h.index.Some? && g.taken == Reserved(m.files, cfg))
  {
    if Loadable(m.files, cfg, lib) && run.update.Some? {
      var rows := m.files[cfg.db].rows;
      ExpiryKeepsSerials(rows, run.update.value);
      if IndexCommitted(cfg, run.script, ExpireRows(rows, run.update.value)) {
        CommittedIsThere(cfg, run.script, Index(rows), ExpireRows(rows, run.update.value));
      }
    }
  }

  lemma SameListed(a: seq<Row>, b: seq<Row>)
    requires SameSerials(a, b)
    ensures Listed(a) <= Listed(b)
  {
    forall x | x in Listed(a)
      ensures x in Listed(b)
    {
      var i :| 0 <= i < |a| && Value(a[i].serial) == x;
      assert Value(b[i].serial) == x;
    }
  }

  lemma LoadedLeads(m: Moment, cfg: Config, lib: Lib, s: seq<Decision>, foreign: set<nat>)
    requires lib.Ok() && Ahead(HeldAt(m, cfg), foreign)
    ensures Leads(Loaded(m, cfg, lib, s), foreign)
  {
  }

  /** The counter stays ahead through a run exactly when the run does not fall behind.
      `foreign` are the serials in the index that were added by hand. */
  lemma RunAheadIff(m: Moment, cfg: Config, lib: Lib, run: Run, foreign: set<nat>)
    requires lib.Ok() && Sound(HeldAt(m, cfg)) && Ahead(HeldAt(m, cfg), foreign)
    requires foreign <= Listed(HeldAt(m, cfg).Rows())
    ensures Ahead(RunResult(m, cfg, lib, run), ForeignAfter(m, cfg, lib, run, foreign)) <==>
            !RunFallsBehind(m, cfg, lib, run, foreign)
  {
    var g, unique := AtBatch(m, cfg, lib, run), Unique(m.files, cfg);
    var r, f := RunResult(m, cfg, lib, run), foreign + Hand(AtAdd(m, cfg, lib, run), run.add);
    if r.Numbered() {
      TrimmedBelow(r.Rows(), r.counter.value.n, f);
    }
    RunFit(m, cfg, lib, run);
    AtBatchRows(m, cfg, lib, run);
    var plan := PlanOf(g, unique, run.batch);
    if plan.Commit? && TearsCounter(cfg, g.script, plan) {
      SameListed(HeldAt(m, cfg).Rows(), g.rows);
      TornIff(cfg, g, unique, run.batch, run.add, foreign);
    } else {
      LoadedLeads(m, cfg, lib, run.script, foreign);
      UpdateLeads(cfg, Loaded(m, cfg, lib, run.script), run.update, foreign);
      BatchLeads(cfg, g, unique, run.batch, foreign);
      AddLeads(cfg, AtAdd(m, cfg, lib, run), run.add, foreign);
    }
  }

  /** A run none of whose writes is cut short never falls behind. */
  lemma WholeWritesStayAhead(m: Moment, cfg: Config, lib: Lib, run: Run, foreign: set<nat>)
    requires lib.Ok() && forall d :: d in run.script ==> !d.Torn?
    ensures !RunFallsBehind(m, cfg, lib, run, foreign)
  {
    var g, s := AtBatch(m, cfg, lib, run), run.script;
    assert g.script == s || g.script == Rest(s, 6);
    assert At(Rest(s, 6), 0) == At(s, 6);
    assert !At(s, 0).Torn? && !At(s, 6).Torn?;
  }

  // ----- the certificates written out

  /** The counter is above every certificate that was written out. */
  ghost predicate NoReuse(h: Holding)
  {
    h.Numbered() ==> forall p :: p in h.published ==> p < h.counter.value.n
  }

  /** Some certificate is written out, and the serial file ends with a number that is
      not above it: the old one, because a later certificate is refused or the renames
      leave or restore it, or a smaller one that was cut short. */
  predicate LeavesBehind(cfg: Config, s: seq<Decision>, plan: Plan)
    requires plan.Commit?
  {
    var c := CounterAfter(s, plan);
    && Out(cfg, s, plan) > 0
    && (Out(cfg, s, plan) < plan.count || (c.Some? && c.value.SerialNumber? && c.value.n < NewNumber(plan)))
  }

  lemma CommitReuse(cfg: Config, s: seq<Decision>, h: Holding, plan: Plan)
    requires plan.Commit? && plan.count > 0 && h.index.Some?
    requires h.counter == Some(SerialNumber(plan.serial)) && NoReuse(h)
    ensures NoReuse(CommitResult(cfg, s, h, plan)) <==> !LeavesBehind(cfg, s, plan)
  {
    RemainsBelow(NewNumber(plan), At(s, 0));
    PublishedBelow(h.published, plan.serial, Out(cfg, s, plan));
  }

  lemma PublishedBelow(was: seq<nat>, serial: nat, done: nat)
    requires forall p :: p in was ==> p < serial
    ensures var now := was + Numbers(serial, done);
            && (forall p :: p in now ==> p < serial + done)
            && (done > 0 ==> serial in now && serial + done - 1 in now)
  {
    var now := was + Numbers(serial, done);
    if done > 0 {
      assert now[|was|] == serial && now[|was| + done - 1] == serial + done - 1;
    }
    forall p | p in now
      ensures p < serial + done
    {
      var i :| 0 <= i < |now| && now[i] == p;
      if i < |was| {
        assert was[i] == p;
      }
    }
  }

  ghost predicate RunLeavesBehind(m: Moment, cfg: Config, lib: Lib, run: Run)
    requires lib.Ok()
  {
    var plan := PlanAt(m, cfg, lib, run); plan.Commit? && LeavesBehind(cfg, AtBatch(m, cfg, lib, run).script, plan)
  }

  /** The counter stays above the certificates written out exactly when the run does not
      leave it behind. */
  lemma RunReuseIff(m: Moment, cfg: Config, lib: Lib, run: Run)
    requires lib.Ok() && NoReuse(HeldAt(m, cfg))
    ensures NoReuse(RunResult(m, cfg, lib, run)) <==> !RunLeavesBehind(m, cfg, lib, run)
  {
    AtBatchRows(m, cfg, lib, run);
    RunPublishes(m, cfg, lib, run);
    var g, plan := AtBatch(m, cfg, lib, run), PlanAt(m, cfg, lib, run);
    if plan.Commit? {
      CommitReuse(cfg, g.script, g.h, plan);
    }
  }

  /** What a run does to the serial file and to the certificates. */
  lemma RunPublishes(m: Moment, cfg: Config, lib: Lib, run: Run)
    requires lib.Ok()
    ensures var g, plan, r := AtBatch(m, cfg, lib, run), PlanAt(m, cfg, lib, run), RunResult(m, cfg, lib, run);
            if plan.Nothing? then r.counter == HeldAt(m, cfg).counter && r.published == m.published
            else var c := CommitResult(cfg, g.script, g.h, plan);
                 && r.counter == c.counter && r.published == c.published
                 && r.published == m.published + Numbers(plan.serial, Out(cfg, g.script, plan))
                 && HeldAt(m, cfg).counter == Some(SerialNumber(plan.serial)) && plan.count > 0
  {
    AtBatchRows(m, cfg, lib, run);
  }

  // ----- numbers that are issued twice

  /** Two certificates with one number have been written out. */
  ghost predicate Repeats(published: seq<nat>)
  {
    exists i, j :: 0 <= i < j < |published| && published[i] == published[j]
  }

  /** A run writes out a number that is out already. */
  ghost predicate Republishes(m: Moment, cfg: Config, lib: Lib, run: Run)
    requires lib.Ok()
  {
    var plan := PlanAt(m, cfg, lib, run);
    && plan.Commit?
    && exists p :: p in m.published && plan.serial <= p < plan.serial + Out(cfg, AtBatch(m, cfg, lib, run).script, plan)
  }

  lemma RepeatsMore(was: seq<nat>, n: nat, k: nat)
    requires !Repeats(was)
    ensures Repeats(was + Numbers(n, k)) <==> exists p :: p in was && n <= p < n + k
  {
    var now := was + Numbers(n, k);
    if p :| p in was && n <= p < n + k {
      var i :| 0 <= i < |was| && was[i] == p;
      assert now[i] == now[|was| + (p - n)];
    }
    if i, j :| 0 <= i < j < |now| && now[i] == now[j] {
      assert forall a, b :: 0 <= a < b < |was| ==> now[a] != now[b];
      assert forall a, b :: |was| <= a < b < |now| ==> now[a] != now[b];
      assert was[i] in was && n <= was[i] < n + k;
    }
  }

  /** A number is issued twice by a run exactly when one that is out already is among
      those that the run writes out. */
  lemma RunRepeatsIff(m: Moment, cfg: Config, lib: Lib, run: Run)
    requires lib.Ok() && !Repeats(m.published)
    ensures Repeats(RunResult(m, cfg, lib, run).published) <==> Republishes(m, cfg, lib, run)
  {
    RunPublishes(m, cfg, lib, run);
    var plan := PlanAt(m, cfg, lib, run);
    if plan.Commit? {
      RepeatsMore(m.published, plan.serial, Out(cfg, AtBatch(m, cfg, lib, run).script, plan));
    }
  }

  /** A counter above all that is out repeats nothing. */
  lemma AboveRepeatsNothing(m: Moment, cfg: Config, lib: Lib, run: Run)
    requires lib.Ok() && !Repeats(m.published) && NoReuse(HeldAt(m, cfg))
    ensures !Repeats(RunResult(m, cfg, lib, run).published)
  {
    RunRepeatsIff(m, cfg, lib, run);
    RunPublishes(m, cfg, lib, run);
  }

  // ----- what a run will do

  /** Marking expired rows, if asked for, goes through. */
  ghost predicate UpdateGoes(m: Moment, cfg: Config, run: Run)
    requires HasIndex(m.files, cfg)
  {
    var rows := m.files[cfg.db].rows;
    || run.update.None? || |Expiring(rows, run.update.value)| == 0
    || IndexCommitted(cfg, run.script, ExpireRows(rows, run.update.value))
  }

  lemma UpdateGoesIff(m: Moment, cfg: Config, lib: Lib, run: Run)
    requires lib.Ok() && Loadable(m.files, cfg, lib)
    ensures AtBatch(m, cfg, lib, run).on <==> UpdateGoes(m, cfg, run)
  {
  }

  /** Certification that ends well has used free numbers only. */
  lemma {:induction false} CertifiedWereFree(p: Progress, unique: bool, requests: seq<Request>, n: nat)
    requires n <= |requests| && Certified(p, unique, requests, n).ok
    ensures var q := Certified(p, unique, requests, n); p.next <= q.next && FreeFrom(p.rows, p.next, q.next - p.next)
  {
    if n > 0 {
      CertifiedWereFree(p, unique, requests, n - 1);
      CertifiedAreIssued(p, unique, requests, n - 1);
      OneMoreFree(p.rows, Certified(p, unique, requests, n - 1), requests[n - 1], p.next, unique);
    }
  }

  lemma OneMoreFree(before: seq<Row>, p: Progress, r: Request, serial: nat, unique: bool)
    requires Issued(before, p.rows, serial, p.next) && FreeFrom(before, serial, p.next - serial)
    requires Certify(p, r, unique).ok && p.ok
    ensures FreeFrom(before, serial, Certify(p, r, unique).next - serial)
  {
    if Certify(p, r, unique).next > p.next {
      assert Scan(p.rows, p.next).None?;
      assert forall i :: 0 <= i < |before| ==> p.rows[i] == before[i];
    }
  }

  /** Signed requests that are all certified take one number each. */
  lemma {:induction false} SignedTakeOneEach(p: Progress, unique: bool, requests: seq<Request>, n: nat)
    requires n <= |requests| && Certified(p, unique, requests, n).ok
    requires forall i :: 0 <= i < |requests| ==> requests[i].verdict == Signed
    ensures Certified(p, unique, requests, n).next == p.next + n
  {
    if n > 0 {
      SignedTakeOneEach(p, unique, requests, n - 1);
    }
  }

  lemma SameFree(a: seq<Row>, b: seq<Row>, n: nat, k: nat)
    requires SameSerials(a, b)
    ensures FreeFrom(a, n, k) <==> FreeFrom(b, n, k)
  {
  }

  /** Signed requests for new subjects are committed, all of them, exactly when the
      numbers they need are free; otherwise nothing is. */
  lemma PlannedIff(m: Moment, cfg: Config, lib: Lib, run: Run)
    requires lib.Ok() && Loadable(m.files, cfg, lib) && HasCounter(m.files, cfg)
    requires run.batch.Some? && run.batch.value.commit && run.batch.value.requests != []
    requires AllNew(run.batch.value.requests, Reserved(m.files, cfg), Unique(m.files, cfg))
    ensures var plan, n := PlanAt(m, cfg, lib, run), m.files[cfg.serial].n;
            && (plan.Commit? <==> UpdateGoes(m, cfg, run)
                                  && FreeFrom(m.files[cfg.db].rows, n, |run.batch.value.requests|))
            && (plan.Commit? ==> plan.serial == n && plan.count == |run.batch.value.requests|
                                 && Issued(AtBatch(m, cfg, lib, run).rows, plan.rows, n, n + plan.count))
  {
    var g, requests := AtBatch(m, cfg, lib, run), run.batch.value.requests;
    AtBatchRows(m, cfg, lib, run);
    UpdateGoesIff(m, cfg, lib, run);
    if g.on {
      SameFree(m.files[cfg.db].rows, g.rows, m.files[cfg.serial].n, |requests|);
      BatchPlanned(g, Unique(m.files, cfg), requests);
    }
  }

  lemma BatchPlanned(g: Going, unique: bool, requests: seq<Request>)
    requires g.on && g.h.Numbered() && requests != [] && AllNew(requests, g.taken, unique)
    ensures var q, n := Certified(g.Start(), unique, requests, |requests|), g.h.counter.value.n;
            && (q.ok <==> FreeFrom(g.rows, n, |requests|))
            && (q.ok ==> q.next == n + |requests|) && Issued(g.rows, q.rows, n, q.next)
  {
    var p := g.Start();
    CertifiedAreIssued(p, unique, requests, |requests|);
    if FreeFrom(g.rows, p.next, |requests|) {
      AllCertified(p, unique, requests, |requests|);
    }
    if Certified(p, unique, requests, |requests|).ok {
      SignedTakeOneEach(p, unique, requests, |requests|);
      CertifiedWereFree(p, unique, requests, |requests|);
    }
  }

  /** The counter has run into a serial that is in use. */
  ghost predicate CounterInUse(h: Holding)
  {
    h.Numbered() && Scan(h.Rows(), h.counter.value.n).Some?
  }

  /** Such a counter commits nothing, whatever is asked. */
  lemma CounterInUseStalls(m: Moment, cfg: Config, lib: Lib, run: Run)
    requires lib.Ok() && CounterInUse(HeldAt(m, cfg))
    ensures PlanAt(m, cfg, lib, run) == Nothing
  {
    AtBatchRows(m, cfg, lib, run);
    var g, h := AtBatch(m, cfg, lib, run), HeldAt(m, cfg);
    if g.on && run.batch.Some? {
      var i := Scan(h.Rows(), h.counter.value.n).value;
      assert Value(g.rows[i].serial) == h.counter.value.n;
      CertifiedAreIssued(g.Start(), Unique(m.files, cfg), run.batch.value.requests, |run.batch.value.requests|);
    }
  }

  // ----- when a number can come up again

  /** Some certificate that is out has a number which the counter can still reach. */
  ghost predicate InReach(m: Moment, cfg: Config, lib: Lib)
    requires lib.Ok()
  {
    && Loadable(m.files, cfg, lib) && HasCounter(m.files, cfg)
    && exists p: nat :: p in m.published && Reaches(m.files[cfg.db].rows, m.files[cfg.serial].n, p)
  }

  /** All numbers from n up to p are free. */
  ghost predicate Reaches(rows: seq<Row>, n: nat, p: nat)
  {
    n <= p && FreeFrom(rows, n, p - n + 1)
  }

  /** There is a run that issues a number for the second time exactly when a number that
      is out is in reach of the counter. */
  lemma CanRepeatIff(m: Moment, cfg: Config, lib: Lib)
    requires lib.Ok() && ShortNames(cfg) && !Repeats(m.published)
    ensures (exists run :: Repeats(RunResult(m, cfg, lib, run).published)) <==> InReach(m, cfg, lib)
  {
    if run :| Repeats(RunResult(m, cfg, lib, run).published) {
      RepeatedWasInReach(m, cfg, lib, run);
    }
    if InReach(m, cfg, lib) {
      var n := m.files[cfg.serial].n;
      var p: nat :| p in m.published && Reaches(m.files[cfg.db].rows, n, p);
      var run := Reaching(m, cfg, lib, p);
      assert Repeats(RunResult(m, cfg, lib, run).published);
    }
  }

  lemma RepeatedWasInReach(m: Moment, cfg: Config, lib: Lib, run: Run)
    requires lib.Ok() && !Repeats(m.published) && Repeats(RunResult(m, cfg, lib, run).published)
    ensures InReach(m, cfg, lib)
  {
    RunRepeatsIff(m, cfg, lib, run);
    AtBatchRows(m, cfg, lib, run);
    var g, plan := AtBatch(m, cfg, lib, run), PlanAt(m, cfg, lib, run);
    var p :| p in m.published && plan.serial <= p < plan.serial + Out(cfg, g.script, plan);
    CertifiedWereFree(g.Start(), Unique(m.files, cfg), run.batch.value.requests, |run.batch.value.requests|);
    SameFree(m.files[cfg.db].rows, g.rows, plan.serial, plan.count);
    assert Reaches(m.files[cfg.db].rows, m.files[cfg.serial].n, p);
  }

  /** A run that reaches p: as many signed requests as it takes, for subjects with names
      longer than any that is taken. */
  lemma Reaching(m: Moment, cfg: Config, lib: Lib, p: nat) returns (run: Run)
    requires lib.Ok() && ShortNames(cfg) && !Repeats(m.published)
    requires Loadable(m.files, cfg, lib) && HasCounter(m.files, cfg) && p in m.published
    requires Reaches(m.files[cfg.db].rows, m.files[cfg.serial].n, p)
    ensures Repeats(RunResult(m, cfg, lib, run).published)
  {
    run := ReachingRun(m, cfg, lib, p);
    UntroubledRepeats(m, cfg, lib, run, p);
  }

  lemma ReachingRun(m: Moment, cfg: Config, lib: Lib, p: nat) returns (run: Run)
    requires lib.Ok() && Loadable(m.files, cfg, lib) && HasCounter(m.files, cfg)
    requires Reaches(m.files[cfg.db].rows, m.files[cfg.serial].n, p)
    ensures run.update.None? && run.script == []
    ensures var plan := PlanAt(m, cfg, lib, run); plan.Commit? && plan.serial <= p < NewNumber(plan)
  {
    var n, rows := m.files[cfg.serial].n, m.files[cfg.db].rows;
    var requests := NewSubjects(rows, p - n + 1, Reserved(m.files, cfg), Unique(m.files, cfg));
    run := Run(None, Some(Batch(requests, true)), None, []);
    PlannedIff(m, cfg, lib, run);
  }

  /** An untroubled run writes out all that it set out to. */
  lemma UntroubledRepeats(m: Moment, cfg: Config, lib: Lib, run: Run, p: nat)
    requires lib.Ok() && ShortNames(cfg) && run.update.None? && run.script == [] && PlanAt(m, cfg, lib, run).Commit?
    requires var plan := PlanAt(m, cfg, lib, run); p in m.published && plan.serial <= p < NewNumber(plan)
    requires !Repeats(m.published)
    ensures Repeats(RunResult(m, cfg, lib, run).published)
  {
    CommitAccomplished(cfg, [], AtBatch(m, cfg, lib, run).h, PlanAt(m, cfg, lib, run));
    RunRepeatsIff(m, cfg, lib, run);
  }

  function Longest(rows: seq<Row>): (l: nat)
    ensures forall i :: 0 <= i < |rows| ==> |rows[i].name| <= l
  {
    if rows == [] then 0
    else
      var l := Longest(rows[1..]);
      assert forall i :: 1 <= i < |rows| ==> rows[i] == rows[1..][i - 1];
      if |rows[0].name| > l then |rows[0].name| else l
  }

  /** Signed requests with names longer than l, each longer than the one before. */
  function NewRequests(l: nat, k: nat): (requests: seq<Request>)
    ensures |requests| == k
    ensures forall i :: 0 <= i < k ==> |requests[i].name| == l + 1 + i && requests[i].verdict == Signed
  {
    seq(k, i requires 0 <= i < k => Request(seq(l + 1 + i, _ => 'a'), "", Signed))
  }

  lemma NewSubjects(rows: seq<Row>, k: nat, taken: set<string>, unique: bool) returns (requests: seq<Request>)
    requires taken <= ValidNames(rows)
    ensures |requests| == k && AllNew(requests, taken, unique)
  {
    requests := NewRequests(Longest(rows), k);
    forall i | 0 <= i < |requests|
      ensures requests[i].name !in taken
    {
      assert forall j :: 0 <= j < |rows| ==> rows[j].name != requests[i].name;
    }
    forall i, j | 0 <= i < j < |requests|
      ensures requests[i].name != requests[j].name
    {
      assert |requests[i].name| < |requests[j].name|;
    }
  }

  // ----- whole histories

  /** The serials in the index that were added by hand, before run k. */
  ghost function ForeignBy(h: seq<Moment>, cfg: Config, lib: Lib, runs: seq<Run>, foreign: set<nat>, k: nat): set<nat>
    requires lib.Ok() && k <= |runs| && k <= |h|
  {
    if k == 0 then foreign
    else ForeignAfter(h[k - 1], cfg, lib, runs[k - 1], ForeignBy(h, cfg, lib, runs, foreign, k - 1))
  }

  ghost predicate AheadAt(h: seq<Moment>, cfg: Config, lib: Lib, runs: seq<Run>, foreign: set<nat>, i: nat)
    requires lib.Ok() && i <= |runs| && i < |h|
  {
    Ahead(HeldAt(h[i], cfg), ForeignBy(h, cfg, lib, runs, foreign, i))
  }

  ghost predicate BehindAt(h: seq<Moment>, cfg: Config, lib: Lib, runs: seq<Run>, foreign: set<nat>, i: nat)
    requires lib.Ok() && i < |runs| && i < |h|
  {
    RunFallsBehind(h[i], cfg, lib, runs[i], ForeignBy(h, cfg, lib, runs, foreign, i))
  }

  /** None of the first k runs falls behind. */
  ghost predicate NoneFallsBehind(h: seq<Moment>, cfg: Config, lib: Lib, runs: seq<Run>, foreign: set<nat>, k: nat)
    requires lib.Ok() && k <= |runs| && k <= |h|
  {
    forall i :: 0 <= i < k ==> !BehindAt(h, cfg, lib, runs, foreign, i)
  }

  /** The counter is ahead at each of the first k + 1 moments. */
  ghost predicate AlwaysAhead(h: seq<Moment>, cfg: Config, lib: Lib, runs: seq<Run>, foreign: set<nat>, k: nat)
    requires lib.Ok() && k <= |runs| && k < |h|
  {
    forall i :: 0 <= i <= k ==> AheadAt(h, cfg, lib, runs, foreign, i)
  }

  /** The counter, whenever both files are there, is ahead of every saved serial that it
      issued, at every moment of a history, exactly when no run falls behind. */
  lemma HistoryAheadIff(h: seq<Moment>, cfg: Config, lib: Lib, runs: seq<Run>, foreign: set<nat>, n: nat)
    requires lib.Ok() && n <= |runs| && History(h, cfg, lib, runs, n)
    requires Sound(HeldAt(h[0], cfg)) && Ahead(HeldAt(h[0], cfg), foreign)
    requires foreign <= Listed(HeldAt(h[0], cfg).Rows())
    ensures AlwaysAhead(h, cfg, lib, runs, foreign, n) <==> NoneFallsBehind(h, cfg, lib, runs, foreign, n)
  {
    forall i | 0 <= i < n
      ensures StepDecides(h, cfg, lib, runs, foreign, i)
    {
      AheadStep(h, cfg, lib, runs, foreign, n, i);
    }
    AheadThroughout(h, cfg, lib, runs, foreign, n);
  }

  /** A counter that is ahead stays so through run i exactly when the run does not fall
      behind. */
  ghost predicate StepDecides(h: seq<Moment>, cfg: Config, lib: Lib, runs: seq<Run>, foreign: set<nat>, i: nat)
    requires lib.Ok() && i < |runs| && i + 1 < |h|
  {
    AheadAt(h, cfg, lib, runs, foreign, i) ==>
      (AheadAt(h, cfg, lib, runs, foreign, i + 1) <==> !BehindAt(h, cfg, lib, runs, foreign, i))
  }

  lemma AheadThroughout(h: seq<Moment>, cfg: Config, lib: Lib, runs: seq<Run>, foreign: set<nat>, n: nat)
    requires lib.Ok() && n <= |runs| && n < |h| && AheadAt(h, cfg, lib, runs, foreign, 0)
    requires forall i :: 0 <= i < n ==> StepDecides(h, cfg, lib, runs, foreign, i)
    ensures AlwaysAhead(h, cfg, lib, runs, foreign, n) <==> NoneFallsBehind(h, cfg, lib, runs, foreign, n)
  {
    var good := i => 0 <= i <= n && AheadAt(h, cfg, lib, runs, foreign, i);
    var bad := i => 0 <= i < n && BehindAt(h, cfg, lib, runs, foreign, i);
    Decided(h, cfg, lib, runs, foreign, n, good, bad);
    assert forall i :: 0 <= i <= n ==> good(i) == AheadAt(h, cfg, lib, runs, foreign, i);
    assert forall i :: 0 <= i < n ==> bad(i) == BehindAt(h, cfg, lib, runs, foreign, i);
  }

  lemma Decided(h: seq<Moment>, cfg: Config, lib: Lib, runs: seq<Run>, foreign: set<nat>, n: nat, good: int -> bool,
                bad: int -> bool)
    requires lib.Ok() && n <= |runs| && n < |h| && good(0)
    requires forall i :: 0 <= i <= n ==> good(i) == AheadAt(h, cfg, lib, runs, foreign, i)
    requires forall i :: 0 <= i < n ==> bad(i) == BehindAt(h, cfg, lib, runs, foreign, i)
    requires forall i :: 0 <= i < n ==> StepDecides(h, cfg, lib, runs, foreign, i)
    ensures (forall i :: 0 <= i <= n ==> good(i)) <==> forall i :: 0 <= i < n ==> !bad(i)
  {
    forall i | 0 <= i < n
      ensures good(i) ==> (good(i + 1) <==> !bad(i))
    {
      assert StepDecides(h, cfg, lib, runs, foreign, i);
    }
    FirstFailure(good, bad, n);
  }

  lemma AheadStep(h: seq<Moment>, cfg: Config, lib: Lib, runs: seq<Run>, foreign: set<nat>, n: nat, i: nat)
    requires lib.Ok() && n <= |runs| && History(h, cfg, lib, runs, n) && i < n
    requires Sound(HeldAt(h[0], cfg)) && foreign <= Listed(HeldAt(h[0], cfg).Rows())
    ensures AheadAt(h, cfg, lib, runs, foreign, i) ==>
              (AheadAt(h, cfg, lib, runs, foreign, i + 1) <==> !BehindAt(h, cfg, lib, runs, foreign, i))
  {
    HistorySound(h, cfg, lib, runs, n, i);
    ForeignIsListed(h, cfg, lib, runs, foreign, n, i);
    if AheadAt(h, cfg, lib, runs, foreign, i) {
      RunAheadIff(h[i], cfg, lib, runs[i], ForeignBy(h, cfg, lib, runs, foreign, i));
      assert Follows(h[i], h[i + 1], cfg, lib, runs[i]);
    }
  }

  lemma ForeignIsListed(h: seq<Moment>, cfg: Config, lib: Lib, runs: seq<Run>, foreign: set<nat>, n: nat, k: nat)
    requires lib.Ok() && n <= |runs| && History(h, cfg, lib, runs, n) && k <= n
    requires foreign <= Listed(HeldAt(h[0], cfg).Rows())
    ensures ForeignBy(h, cfg, lib, runs, foreign, k) <= Listed(HeldAt(h[k], cfg).Rows())
  {
    if k > 0 {
      assert Follows(h[k - 1], h[k], cfg, lib, runs[k - 1]);
    }
  }

  /** When no write is cut short, the counter is ahead at every moment, whatever else
      fails: the serial file is rotated before the index. */
  lemma WholeHistoryStaysAhead(h: seq<Moment>, cfg: Config, lib: Lib, runs: seq<Run>, foreign: set<nat>, n: nat)
    requires lib.Ok() && n <= |runs| && History(h, cfg, lib, runs, n)
    requires Sound(HeldAt(h[0], cfg)) && Ahead(HeldAt(h[0], cfg), foreign)
    requires foreign <= Listed(HeldAt(h[0], cfg).Rows())
    requires forall i :: 0 <= i < n ==> forall d :: d in runs[i].script ==> !d.Torn?
    ensures AlwaysAhead(h, cfg, lib, runs, foreign, n)
  {
    forall i | 0 <= i < n
      ensures !BehindAt(h, cfg, lib, runs, foreign, i)
    {
      WholeWritesStayAhead(h[i], cfg, lib, runs[i], ForeignBy(h, cfg, lib, runs, foreign, i));
    }
    HistoryAheadIff(h, cfg, lib, runs, foreign, n);
  }

  /** None of the first k runs leaves the counter behind a certificate. */
  ghost predicate NoneLeavesBehind(h: seq<Moment>, cfg: Config, lib: Lib, runs: seq<Run>, k: nat)
    requires lib.Ok() && k <= |runs| && k <= |h|
  {
    forall i :: 0 <= i < k ==> !RunLeavesBehind(h[i], cfg, lib, runs[i])
  }

  /** The counter is above all certificates at each of the first k + 1 moments. */
  ghost predicate AlwaysAbove(h: seq<Moment>, cfg: Config, k: nat)
    requires k < |h|
  {
    forall i :: 0 <= i <= k ==> NoReuse(HeldAt(h[i], cfg))
  }

  /** The counter is above every certificate written out, at every moment of a history,
      exactly when no run leaves it behind. */
  lemma HistoryReuseIff(h: seq<Moment>, cfg: Config, lib: Lib, runs: seq<Run>, n: nat)
    requires lib.Ok() && n <= |runs| && History(h, cfg, lib, runs, n) && NoReuse(HeldAt(h[0], cfg))
    ensures AlwaysAbove(h, cfg, n) <==> NoneLeavesBehind(h, cfg, lib, runs, n)
  {
    var good := i => 0 <= i <= n && NoReuse(HeldAt(h[i], cfg));
    var bad := i => 0 <= i < n && RunLeavesBehind(h[i], cfg, lib, runs[i]);
    forall i | 0 <= i < n
      ensures good(i) ==> (good(i + 1) <==> !bad(i))
    {
      ReuseStep(h[i], h[i + 1], cfg, lib, runs[i]);
    }
    FirstFailure(good, bad, n);
    assert forall i :: 0 <= i <= n ==> good(i) == NoReuse(HeldAt(h[i], cfg));
    assert forall i :: 0 <= i < n ==> bad(i) == RunLeavesBehind(h[i], cfg, lib, runs[i]);
  }

  lemma ReuseStep(m: Moment, m': Moment, cfg: Config, lib: Lib, run: Run)
    requires lib.Ok() && Follows(m, m', cfg, lib, run)
    ensures NoReuse(HeldAt(m, cfg)) ==> (NoReuse(HeldAt(m', cfg)) <==> !RunLeavesBehind(m, cfg, lib, run))
  {
    if NoReuse(HeldAt(m, cfg)) {
      RunReuseIff(m, cfg, lib, run);
    }
  }

  /** None of the first k runs writes out a number that is out already. */
  ghost predicate NoneRepublishes(h: seq<Moment>, cfg: Config, lib: Lib, runs: seq<Run>, k: nat)
    requires lib.Ok() && k <= |runs| && k <= |h|
  {
    forall i :: 0 <= i < k ==> !Republishes(h[i], cfg, lib, runs[i])
  }

  /** At every moment of a history no number has been issued twice. */
  ghost predicate NeverRepeats(h: seq<Moment>, k: nat)
    requires k < |h|
  {
    forall i :: 0 <= i <= k ==> !Repeats(h[i].published)
  }

  /** Over a history no number is issued twice exactly when no run writes out one that
      is out already. */
  lemma HistoryRepeatsIff(h: seq<Moment>, cfg: Config, lib: Lib, runs: seq<Run>, n: nat)
    requires lib.Ok() && n <= |runs| && History(h, cfg, lib, runs, n) && !Repeats(h[0].published)
    ensures NeverRepeats(h, n) <==> NoneRepublishes(h, cfg, lib, runs, n)
  {
    var good := i => 0 <= i <= n && !Repeats(h[i].published);
    var bad := i => 0 <= i < n && Republishes(h[i], cfg, lib, runs[i]);
    forall i | 0 <= i < n
      ensures good(i) ==> (good(i + 1) <==> !bad(i))
    {
      RepeatsStep(h[i], h[i + 1], cfg, lib, runs[i]);
    }
    FirstFailure(good, bad, n);
    assert forall i :: 0 <= i <= n ==> good(i) == !Repeats(h[i].published);
    assert forall i :: 0 <= i < n ==> bad(i) == Republishes(h[i], cfg, lib, runs[i]);
  }

  lemma RepeatsStep(m: Moment, m': Moment, cfg: Config, lib: Lib, run: Run)
    requires lib.Ok() && Follows(m, m', cfg, lib, run)
    ensures !Repeats(m.published) ==> (!Repeats(m'.published) <==> !Republishes(m, cfg, lib, run))
    ensures !Repeats(m.published) && NoReuse(HeldAt(m, cfg)) ==> !Republishes(m, cfg, lib, run)
  {
    assert m'.published == HeldAt(m', cfg).published;
    if !Repeats(m.published) {
      RunRepeatsIff(m, cfg, lib, run);
      if NoReuse(HeldAt(m, cfg)) {
        AboveRepeatsNothing(m, cfg, lib, run);
      }
    }
  }

  /** While no run but the last leaves the counter behind, no number is issued twice. */
  lemma AboveNeverRepeats(h: seq<Moment>, cfg: Config, lib: Lib, runs: seq<Run>, n: nat)
    requires lib.Ok() && n < |runs| && History(h, cfg, lib, runs, n + 1)
    requires NoReuse(HeldAt(h[0], cfg)) && !Repeats(h[0].published) && NoneLeavesBehind(h, cfg, lib, runs, n)
    ensures NeverRepeats(h, n + 1)
  {
    assert History(h[..n + 1], cfg, lib, runs, n) && h[..n + 1][0] == h[0];
    assert NoneLeavesBehind(h[..n + 1], cfg, lib, runs, n);
    HistoryReuseIff(h[..n + 1], cfg, lib, runs, n);
    assert forall i :: 0 <= i <= n ==> h[..n + 1][i] == h[i];
    AboveStays(h, cfg, lib, runs, n + 1);
  }

  lemma {:induction false} AboveStays(h: seq<Moment>, cfg: Config, lib: Lib, runs: seq<Run>, k: nat)
    requires lib.Ok() && k <= |runs| && History(h, cfg, lib, runs, k) && !Repeats(h[0].published)
    requires forall i :: 0 <= i < k ==> NoReuse(HeldAt(h[i], cfg))
    ensures NeverRepeats(h, k)
  {
    var good := i => 0 <= i <= k && !Repeats(h[i].published);
    var bad := i => false;
    forall i | 0 <= i < k
      ensures good(i) ==> (good(i + 1) <==> !bad(i))
    {
      RepeatsStep(h[i], h[i + 1], cfg, lib, runs[i]);
    }
    FirstFailure(good, bad, k);
    assert forall i :: 0 <= i <= k ==> good(i) == !Repeats(h[i].published);
  }

  // ----- runs that go wrong

  /** A database with these rows, a counter, and certificates written out. */
  function Start(cfg: Config, n: nat, rows: seq<Row>, published: seq<nat>): Moment
  {
    Moment(map[cfg.db := Index(rows), cfg.serial := SerialNumber(n)], published)
  }

  lemma StartHolds(cfg: Config, n: nat, rows: seq<Row>, published: seq<nat>)
    requires cfg.Ok()
    ensures var m := Start(cfg, n, rows, published);
            && HasIndex(m.files, cfg) && HasCounter(m.files, cfg) && cfg.Names().attr !in m.files
            && m.files[cfg.serial].n == n && m.files[cfg.db].rows == rows
            && HeldAt(m, cfg) == Holding(Some(SerialNumber(n)), Some(Index(rows)), published)
  {
    cfg.NamesOk();
    assert cfg.serial in cfg.Serials().All() && cfg.db in cfg.Names().All() && cfg.Names().attr in cfg.Names().All();
  }

  /** One signed request, to a database of no rows. */
  lemma FreshPlan(cfg: Config, n: nat, published: seq<nat>, lib: Lib, r: Request, s: seq<Decision>) returns (plan: Plan)
    requires cfg.Ok() && lib.Ok() && r.verdict == Signed
    ensures plan.Commit? && plan.serial == n && plan.count == 1
    ensures |plan.rows| == 1 && Value(plan.rows[0].serial) == n
    ensures var m, run := Start(cfg, n, [], published), Run(None, Some(Batch([r], true)), None, s);
            && PlanAt(m, cfg, lib, run) == plan
            && RunResult(m, cfg, lib, run) == CommitResult(cfg, s, HeldAt(m, cfg), plan)
  {
    var m, run := Start(cfg, n, [], published), Run(None, Some(Batch([r], true)), None, s);
    StartHolds(cfg, n, [], published);
    PlannedIff(m, cfg, lib, run);
    plan := PlanAt(m, cfg, lib, run);
  }

  /** The first rename of the serial file is refused after the certificate is written
      out, and an untroubled run then issues the number again. */
  lemma NumberIssuedTwice(cfg: Config, lib: Lib, r: Request, r': Request) returns (h: seq<Moment>, runs: seq<Run>)
    requires cfg.Ok() && lib.Ok() && ShortNames(cfg) && r.verdict == r'.verdict == Signed
    ensures runs == [Run(None, Some(Batch([r], true)), None, [Go, Go, Go, Go, Refuse]),
                     Run(None, Some(Batch([r'], true)), None, [])]
    ensures History(h, cfg, lib, runs, 2) && h[0] == Start(cfg, 1, [], [])
    ensures h[1].published == [1] && h[2].published == [1, 1] && Repeats(h[2].published)
  {
    var s := [Go, Go, Go, Go, Refuse];
    runs := [Run(None, Some(Batch([r], true)), None, s), Run(None, Some(Batch([r'], true)), None, [])];
    RefusedRename(cfg, lib, r);
    var plan := FreshPlan(cfg, 1, [1], lib, r', []);
    StartHolds(cfg, 1, [], [1]);
    StartHolds(cfg, 2, plan.rows, [1, 1]);
    CommitAccomplished(cfg, [], HeldAt(Start(cfg, 1, [], [1]), cfg), plan);
    assert [1] + Numbers(1, 1) == [1, 1];
    h := [Start(cfg, 1, [], []), Start(cfg, 1, [], [1]), Start(cfg, 2, plan.rows, [1, 1])];
    assert h[2].published[0] == h[2].published[1];
  }

  lemma RefusedRename(cfg: Config, lib: Lib, r: Request)
    requires cfg.Ok() && lib.Ok() && ShortNames(cfg) && r.verdict == Signed
    ensures var run := Run(None, Some(Batch([r], true)), None, [Go, Go, Go, Go, Refuse]);
            RunResult(Start(cfg, 1, [], []), cfg, lib, run) == HeldAt(Start(cfg, 1, [], [1]), cfg)
  {
    var s := [Go, Go, Go, Go, Refuse];
    var plan := FreshPlan(cfg, 1, [], lib, r, s);
    StartHolds(cfg, 1, [], []);
    StartHolds(cfg, 1, [], [1]);
    assert At(s, 0).Go? && At(s, 1).Go? && At(s, 2).Go? && At(s, 3).Go? && At(s, 4).Refuse?;
    assert At(Rest(s, 3), 0) == At(s, 3) && At(Rest(s, 4), 0) == At(s, 4);
    assert CertsOut(Rest(s, 3), 1) == 1 + CertsOut(Rest(Rest(s, 3), 1), 0);
    assert [] + Numbers(1, 1) == [1];
  }

  /** A certificate added by hand has the counter's number, and issuing then stalls. */
  lemma HandAddStalls(cfg: Config, lib: Lib, c: Cert, r: Request, s: seq<Decision>)
    returns (h: seq<Moment>, runs: seq<Run>)
    requires cfg.Ok() && lib.Ok() && ShortNames(cfg) && r.verdict == Signed && Asn1Time.IsUtcTime(c.notAfter)
    ensures runs == [Run(None, None, Some(c), []), Run(None, Some(Batch([r], true)), None, s)]
    ensures History(h, cfg, lib, runs, 2) && h[0] == Start(cfg, c.serial, [], [])
    ensures PlanAt(h[0], cfg, lib, runs[1]).Commit?
    ensures Loadable(h[1].files, cfg, lib) && PlanAt(h[1], cfg, lib, runs[1]) == Nothing && h[2] == h[1]
  {
    var n := c.serial;
    var m, m' := Start(cfg, n, [], []), Start(cfg, n, [NewRow(c)], []);
    runs := [Run(None, None, Some(c), []), Run(None, Some(Batch([r], true)), None, s)];
    h := [m, m', m'];
    StartHolds(cfg, n, [], []);
    StartHolds(cfg, n, [NewRow(c)], []);
    var plan := FreshPlan(cfg, n, [], lib, r, s);
    AddedToNone(cfg, lib, c);
    NewRowLoads(c, lib);
    CounterInUseStalls(m', cfg, lib, runs[1]);
    RunPublishes(m', cfg, lib, runs[1]);
    StalledHolds(m', cfg, lib, runs[1]);
  }

  lemma StalledHolds(m: Moment, cfg: Config, lib: Lib, run: Run)
    requires lib.Ok() && run.update.None? && run.add.None? && PlanAt(m, cfg, lib, run).Nothing?
    ensures RunResult(m, cfg, lib, run) == HeldAt(m, cfg)
  {
  }

  lemma NewRowLoads(c: Cert, lib: Lib)
    requires lib.Ok() && Asn1Time.IsUtcTime(c.notAfter)
    ensures FieldsOk(NewRow(c), lib)
  {
    ValueOfKey(c.serial);
    var s := Key(c.serial);
    forall i | 0 <= i < |s|
      ensures IsHex(s[i]) && s[i] != '-'
    {
      assert s[i] in s;
    }
  }

  lemma AddedToNone(cfg: Config, lib: Lib, c: Cert)
    requires cfg.Ok() && lib.Ok() && ShortNames(cfg)
    ensures RunResult(Start(cfg, c.serial, [], []), cfg, lib, Run(None, None, Some(c), [])) ==
            HeldAt(Start(cfg, c.serial, [NewRow(c)], []), cfg)
  {
    StartHolds(cfg, c.serial, [], []);
    StartHolds(cfg, c.serial, [NewRow(c)], []);
    assert [] + [NewRow(c)] == [NewRow(c)];
    assert forall i: nat :: At([], i).Go?;
    CommittedIsThere(cfg, [], Index([]), [NewRow(c)]);
  }

  /** The serial file is cut short to two of its four digits, which nobody notices: the
      counter is then behind the very row that was added. */
  lemma TornSerialFallsBehind(cfg: Config, lib: Lib, r: Request)
    requires cfg.Ok() && lib.Ok() && ShortNames(cfg) && r.verdict == Signed
    ensures var run := Run(None, Some(Batch([r], true)), None, [Torn(2, true)]);
            var h := RunResult(Start(cfg, 256, [], []), cfg, lib, run);
            && h.counter == Some(SerialNumber(1)) && |h.Rows()| == 1 && Value(h.Rows()[0].serial) == 256
            && !Ahead(h, {})
  {
    var s := [Torn(2, true)];
    var plan := FreshPlan(cfg, 256, [], lib, r, s);
    StartHolds(cfg, 256, [], []);
    OnlySerialTorn(cfg, s, HeldAt(Start(cfg, 256, [], []), cfg), plan);
    TornKey();
  }

  /** A commit whose only trouble is that its first write is cut short. */
  lemma OnlySerialTorn(cfg: Config, s: seq<Decision>, h: Holding, plan: Plan)
    requires ShortNames(cfg) && h.index.Some? && plan.Commit? && |s| == 1 && s[0].Torn?
    ensures CommitResult(cfg, s, h, plan) ==
            Holding(Some(NewCounter(s, plan)), Some(Index(plan.rows)), h.published + Numbers(plan.serial, plan.count))
  {
    AllGoRestOf(s, 3);
    AllGoRestOf(s, 3 + plan.count);
    AllCertsOut(Rest(s, 3), plan.count);
    var r := Rest(s, 3 + plan.count);
    AllGoStart(r);
    AllGoRest(r, 2);
    AllGoStart(Rest(r, 2));
  }

  lemma AllGoRestOf(s: seq<Decision>, k: nat)
    requires k >= 1 && forall i: nat :: i >= 1 ==> At(s, i).Go?
    ensures AllGo(Rest(s, k))
  {
    forall i: nat
      ensures At(Rest(s, k), i).Go?
    {
      assert At(Rest(s, k), i) == At(s, k + i);
    }
  }

  lemma TornKey()
    ensures Remains(SerialNumber(257), 2) == SerialNumber(1)
  {
    assert HexBytes(1) == HexBytes(0) + [HexChar(0), HexChar(1)];
    assert Key(257) == HexBytes(1) + [HexChar(0), HexChar(1)];
    assert Key(257)[..2] == ['0', '1'];
    assert ['0', '1'][..1] == ['0'] && ['0'][..0] == [];
    assert Value(['0']) == 0;
  }
}
