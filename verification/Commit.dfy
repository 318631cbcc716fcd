/** Whole runs of the ca program over its files: load, change, save, rotate, with
    any call refused, any write cut short and the process cut off anywhere
    (apps/ca.c:739-825, 963-1100, 1104-1158, 1301-1325). */
module Commit {
  import opened Prelude
  import opened SerialKey
  import opened TxtDb
  import opened CaDatabase
  import opened Revocation
  import opened Rotation

  /** The configured files. */
  datatype Config = Config(db: string, serial: string, unique: bool) {
    function Names(): IndexNames {
      NamesFor(db, "new", "old")
    }

    function Serials(): SerialNames {
      SerialNamesFor(serial, "new", "old")
    }

    /** The serial file and the database do not share a name. */
    ghost predicate Ok() {
      Serials().All() !! Names().All()
    }

    lemma NamesOk()
      ensures Names().Distinct()
    {
      NamesDistinct(db, "new", "old");
      assert |"attr." + "old"| == 8 && |"attr." + "new"| == 8;
    }
  }

  // ----- what is on the disk

  ghost predicate HasIndex(fs: Files, cfg: Config)
  {
    cfg.db in fs && fs[cfg.db].Index?
  }

  ghost predicate HasCounter(fs: Files, cfg: Config)
  {
    cfg.serial in fs && fs[cfg.serial].SerialNumber?
  }

  ghost predicate SavedOk(rows: seq<Row>)
  {
    CanonicalRows(rows) && DistinctSerials(rows)
  }

  /** The three things that runs are about: what the serial file and the index file
      hold, and the certificates written out. */
  datatype Holding = Holding(counter: Option<File>, index: Option<File>, published: seq<nat>) {
    /** The serial file holds a number. */
    predicate Numbered() {
      counter.Some? && counter.value.SerialNumber?
    }

    /** The rows of the index file, if it is there. */
    function Rows(): seq<Row> {
      if index.Some? && index.value.Index? then index.value.rows else []
    }
  }

  ghost function Held(fs: Files, cfg: Config, published: seq<nat>): Holding
  {
    Holding(Content(fs, cfg.serial), Content(fs, cfg.db), published)
  }

  /** The saved index has canonical, distinct serials. */
  ghost predicate Sound(h: Holding)
  {
    SavedOk(h.Rows())
  }

  /** Two sets of rows with one serial column. */
  ghost predicate SameSerials(a: seq<Row>, b: seq<Row>)
  {
    |a| == |b| && forall i :: 0 <= i < |a| ==> a[i].serial == b[i].serial
  }

  // ----- loading

  /** Whether subjects are unique: the attribute file decides when it is there. */
  ghost function Unique(fs: Files, cfg: Config): bool
  {
    var attr := cfg.Names().attr;
    if attr in fs && fs[attr].Attr? && fs[attr].unique.Some? then fs[attr].unique.value else cfg.unique
  }

  /** The index and the attribute file pass every check of a run that loads them. */
  ghost predicate Loadable(fs: Files, cfg: Config, lib: Lib)
    requires lib.Ok()
  {
    && HasIndex(fs, cfg)
    && (cfg.Names().attr in fs ==> fs[cfg.Names().attr].Attr?)
    && (forall i :: 0 <= i < |fs[cfg.db].rows| ==> FieldsOk(fs[cfg.db].rows[i], lib))
    && (Unique(fs, cfg) ==> DistinctNames(fs[cfg.db].rows))
  }

  /** The names that the loaded database refuses to issue again. */
  ghost function Reserved(fs: Files, cfg: Config): set<string>
    requires HasIndex(fs, cfg)
  {
    if Unique(fs, cfg) then ValidNames(fs[cfg.db].rows) else {}
  }

  /** load_index, the checks of ca_main, and index_index. */
  method LoadIndex(disk: Disk, cfg: Config, strHash: string -> nat, lib: Lib) returns (db: Db?)
    requires lib.Ok() && (HasIndex(disk.files, cfg) ==> SavedOk(disk.files[cfg.db].rows))
    ensures db != null <==> Loadable(disk.files, cfg, lib)
    ensures db != null ==> fresh(db) && db.Valid() && db.rows == disk.files[cfg.db].rows && RevocationsOk(db.rows, lib)
    ensures db != null ==> db.unique == Unique(disk.files, cfg) && db.taken == Reserved(disk.files, cfg)
    ensures db != null && cfg.Names().attr !in disk.files ==> db.unique == cfg.unique
    ensures db != null && cfg.Names().attr in disk.files ==>
              || disk.files[cfg.Names().attr] == Attr(Some(db.unique))
              || (disk.files[cfg.Names().attr] == Attr(None) && db.unique == cfg.unique)
  {
    if cfg.db !in disk.files || !disk.files[cfg.db].Index? {
      return null;
    }
    var unique := cfg.unique;
    var attr := cfg.Names().attr;
    if attr in disk.files {
      match disk.files[attr]
      case Attr(u) => unique := if u.Some? then u.value else unique;
      case _ => return null;
    }
    var ok := CheckFields(disk.files[cfg.db].rows, lib);
    if !ok {
      return null;
    }
    CheckedRowsAgree(disk.files[cfg.db].rows, lib);
    db := Open(strHash, unique, disk.files[cfg.db].rows);
  }

  // ----- saving the index alone

  /** The names are short enough for every length test. */
  predicate ShortNames(cfg: Config)
  {
    |cfg.serial| + 4 < BSIZE && |cfg.db| + 9 < BSIZE
  }

  /** save_index reports success. */
  predicate SavesIndex(cfg: Config, s: seq<Decision>, rows: seq<Row>)
  {
    |cfg.db| + 9 < BSIZE && rows != [] && At(s, 0).Writes() && At(s, 1).Opens()
  }

  /** save_index and rotate_index both report success. */
  ghost predicate IndexCommitted(cfg: Config, s: seq<Decision>, rows: seq<Row>)
  {
    SavesIndex(cfg, s, rows) && forall i: nat :: 2 <= i < 6 ==> At(s, i).Go?
  }

  /** The index file after save_index and rotate_index: `was` before. */
  function IndexAfter(cfg: Config, s: seq<Decision>, was: File, rows: seq<Row>): Option<File>
  {
    if SavesIndex(cfg, s, rows) then Pick(DbWhich(Rest(s, 2)), was, Left(Index(rows), At(s, 0))) else Some(was)
  }

  /** save_index followed by rotate_index. Nothing outside the database is touched and
      the previous index stays on the disk. */
  method CommitIndex(disk: Disk, cfg: Config, rows: seq<Row>, unique: bool) returns (ok: bool)
    requires disk.alive && cfg.db in disk.files
    modifies disk
    ensures disk.published == old(disk.published)
    ensures SameOutside(old(disk.files), disk.files, cfg.Names().All())
    ensures Survives(old(disk.files)[cfg.db], disk.files, cfg.db, cfg.Names().prev)
    ensures Content(disk.files, cfg.db) == IndexAfter(cfg, old(disk.script), old(disk.files)[cfg.db], rows)
    ensures ok <==> IndexCommitted(cfg, old(disk.script), rows)
    ensures ok ==> disk.alive && disk.script == Rest(old(disk.script), 6)
  {
    cfg.NamesOk();
    ghost var s := disk.script;
    RestOfRest(s, 2, 4);
    assert forall i: nat :: At(Rest(s, 2), i) == At(s, 2 + i);
    ok := SaveIndex(disk, cfg.db, "new", rows, unique);
    if ok {
      ok := RotateIndex(disk, cfg.db, "new", "old");
      CommittedIff(cfg, s, rows);
    }
  }

  lemma CommittedIff(cfg: Config, s: seq<Decision>, rows: seq<Row>)
    requires SavesIndex(cfg, s, rows)
    ensures IndexCommitted(cfg, s, rows) <==> forall i: nat :: i < 4 ==> At(Rest(s, 2), i).Go?
  {
    var r := Rest(s, 2);
    assert forall i: nat :: At(r, i) == At(s, 2 + i);
    if forall i: nat :: i < 4 ==> At(r, i).Go? {
      forall i: nat | 2 <= i < 6
        ensures At(s, i).Go?
      {
        assert At(r, i - 2) == At(s, i);
      }
    }
  }

  // ----- issuing

  datatype Request = Request(name: string, notAfter: string, verdict: Verdict)

  /** The serials n, n + 1, ... of k certificates. */
  function Numbers(n: nat, k: nat): (s: seq<nat>)
    ensures |s| == k && forall i :: 0 <= i < k ==> s[i] == n + i
  {
    seq(k, i => n + i)
  }

  /** The rows after the counter went from `serial` to `next`: one new row for each
      number, in order. */
  ghost predicate Issued(before: seq<Row>, after: seq<Row>, serial: nat, next: nat)
  {
    && serial <= next && |after| == |before| + (next - serial)
    && (forall i :: 0 <= i < |before| ==> after[i] == before[i])
    && (forall i :: |before| <= i < |after| ==> Value(after[i].serial) == serial + (i - |before|))
  }

  /** How far certification has come: no hard error so far, the rows, the names that
      the name index holds, and the counter. */
  datatype Progress = Progress(ok: bool, rows: seq<Row>, taken: set<string>, next: nat)

  /** One request more. */
  function Certify(p: Progress, r: Request, unique: bool): Progress
  {
    if !p.ok || r.verdict == Mismatched then p
    else if r.verdict == Rejected || Scan(p.rows, p.next).Some? then p.(ok := false)
    else if r.verdict == Declined then p
    else if r.name in p.taken then p.(ok := false)
    else Progress(true, p.rows + [NewRow(Cert(p.next, r.name, r.notAfter))],
                  if unique then p.taken + {r.name} else p.taken, p.next + 1)
  }

  /** The first n requests: the first hard error is the end. */
  function Certified(p: Progress, unique: bool, requests: seq<Request>, n: nat): Progress
    requires n <= |requests|
  {
    if n == 0 then p else Certify(Certified(p, unique, requests, n - 1), requests[n - 1], unique)
  }

  /** The counter and the rows go up together; a counter that has run into a serial
      in use issues nothing. */
  lemma {:induction false} CertifiedAreIssued(p: Progress, unique: bool, requests: seq<Request>, n: nat)
    requires n <= |requests|
    ensures Issued(p.rows, Certified(p, unique, requests, n).rows, p.next, Certified(p, unique, requests, n).next)
    ensures Scan(p.rows, p.next).Some? ==> Certified(p, unique, requests, n).(ok := p.ok) == p
  {
    if n > 0 {
      CertifiedAreIssued(p, unique, requests, n - 1);
      IssuedMore(p.rows, Certified(p, unique, requests, n - 1), requests[n - 1], p.next, unique);
    }
  }

  lemma IssuedMore(before: seq<Row>, p: Progress, r: Request, serial: nat, unique: bool)
    requires Issued(before, p.rows, serial, p.next)
    ensures Issued(before, Certify(p, r, unique).rows, serial, Certify(p, r, unique).next)
  {
  }

  /** Nothing happens after a hard error. */
  lemma {:induction false} ErrorIsTheEnd(p: Progress, unique: bool, requests: seq<Request>, n: nat, m: nat)
    requires n <= m <= |requests| && !Certified(p, unique, requests, n).ok
    ensures Certified(p, unique, requests, m) == Certified(p, unique, requests, n)
  {
    if n < m {
      ErrorIsTheEnd(p, unique, requests, n, m - 1);
    }
  }

  /** Requests that are all signed and name new subjects. */
  ghost predicate AllNew(requests: seq<Request>, taken: set<string>, unique: bool)
  {
    && (forall i :: 0 <= i < |requests| ==> requests[i].verdict == Signed && requests[i].name !in taken)
    && (unique ==> forall i, j :: 0 <= i < j < |requests| ==> requests[i].name != requests[j].name)
  }

  /** The numbers from n on, k of them, are free. */
  ghost predicate FreeFrom(rows: seq<Row>, n: nat, k: nat)
  {
    forall i :: 0 <= i < |rows| ==> !(n <= Value(rows[i].serial) < n + k)
  }

  /** Signed requests for new names are all certified while the numbers from the
      counter on are free. */
  lemma {:induction false} AllCertified(p: Progress, unique: bool, requests: seq<Request>, n: nat)
    requires n <= |requests| && p.ok && AllNew(requests, p.taken, unique) && FreeFrom(p.rows, p.next, |requests|)
    ensures var q := Certified(p, unique, requests, n);
            && q.ok && q.next == p.next + n && FreeFrom(q.rows, q.next, |requests| - n)
            && (forall i :: n <= i < |requests| ==> requests[i].name !in q.taken)
  {
    if n > 0 {
      AllCertified(p, unique, requests, n - 1);
      CertifyNew(Certified(p, unique, requests, n - 1), requests[n - 1], unique, |requests| - n + 1);
    }
  }

  lemma CertifyNew(p: Progress, r: Request, unique: bool, k: nat)
    requires p.ok && r.verdict == Signed && r.name !in p.taken && k > 0 && FreeFrom(p.rows, p.next, k)
    ensures var q := Certify(p, r, unique);
            && q.ok && q.next == p.next + 1 && FreeFrom(q.rows, q.next, k - 1)
            && q.taken == if unique then p.taken + {r.name} else p.taken
  {
    assert Scan(p.rows, p.next).None?;
  }

  /** Where certification of a database stands. */
  ghost function InMemory(db: Db, ok: bool, next: nat): Progress
    reads db
  {
    Progress(ok, db.rows, db.taken, next)
  }

  lemma CertifiedNext(p: Progress, unique: bool, requests: seq<Request>, i: nat, q: Progress) returns (q': Progress)
    requires i < |requests| && q == Certified(p, unique, requests, i)
    ensures q' == Certify(q, requests[i], unique) && q' == Certified(p, unique, requests, i + 1)
  {
    q' := Certify(q, requests[i], unique);
  }

  /** The certification loop of ca_main. */
  method IssueAll(db: Db, serial: nat, requests: seq<Request>) returns (ok: bool, next: nat)
    requires db.Valid()
    modifies db
    ensures db.Valid()
    ensures InMemory(db, ok, next) == Certified(old(InMemory(db, true, serial)), db.unique, requests, |requests|)
  {
    ok, next := true, serial;
    ghost var p := InMemory(db, true, serial);
    ghost var q := Certified(p, db.unique, requests, 0);
    var i := 0;
    while i < |requests| && ok
      invariant i <= |requests| && db.Valid()
      invariant q == Certified(p, db.unique, requests, i) && q == InMemory(db, ok, next)
    {
      ok, next := IssueOne(db, next, requests[i]);
      q := CertifiedNext(p, db.unique, requests, i, q);
      i := i + 1;
    }
    if !ok {
      ErrorIsTheEnd(p, db.unique, requests, i, |requests|);
    }
  }

  /** One round of the loop. */
  method IssueOne(db: Db, next: nat, r: Request) returns (ok: bool, next': nat)
    requires db.Valid()
    modifies db
    ensures db.Valid()
    ensures InMemory(db, ok, next') == Certify(old(InMemory(db, true, next)), r, db.unique)
  {
    ghost var p := InMemory(db, true, next);
    var c := Cert(next, r.name, r.notAfter);
    var j := Issue(db, c, r.verdict);
    ok := j >= 0;
    next' := if j > 0 then next + 1 else next;
    CertifyIs(p, r, db.unique, j, InMemory(db, ok, next'));
  }

  lemma CertifyIs(p: Progress, r: Request, unique: bool, j: int, q: Progress)
    requires p.ok
    requires j == if r.verdict == Mismatched then 0
                  else if r.verdict == Rejected || Scan(p.rows, p.next).Some? then -1
                  else if r.verdict == Declined then 0
                  else if r.name in p.taken then -1
                  else 1
    requires q.ok == (j >= 0) && q.next == if j > 0 then p.next + 1 else p.next
    requires q.rows == if j == 1 then p.rows + [NewRow(Cert(p.next, r.name, r.notAfter))] else p.rows
    requires q.taken == p.taken + if j == 1 && unique then {r.name} else {}
    ensures q == Certify(p, r, unique)
  {
    assert p.taken + {} == p.taken;
  }

  // ----- committing what was certified

  /** How many of k certificates are written out, one file each. */
  function CertsOut(s: seq<Decision>, k: nat): (done: nat)
    ensures done <= k && (done > 0 <==> k > 0 && At(s, 0).Opens())
  {
    if k == 0 || !At(s, 0).Opens() then 0 else 1 + CertsOut(Rest(s, 1), k - 1)
  }

  /** Writing out the certificates. */
  method PublishAll(disk: Disk, n: nat, k: nat) returns (ok: bool)
    requires disk.alive
    modifies disk
    ensures disk.files == old(disk.files)
    ensures disk.published == old(disk.published) + Numbers(n, CertsOut(old(disk.script), k))
    ensures ok <==> CertsOut(old(disk.script), k) == k
    ensures ok ==> disk.alive && disk.script == Rest(old(disk.script), k)
  {
    ghost var s, was, all := disk.script, disk.published, CertsOut(disk.script, k);
    assert Rest(s, 0) == s && was + Numbers(n, 0) == was;
    var i := 0;
    while i < k
      invariant i <= k && disk.files == old(disk.files) && disk.alive && disk.script == Rest(s, i)
      invariant disk.published == was + Numbers(n, i) && all == i + CertsOut(disk.script, k - i)
    {
      RestOfRest(s, i, 1);
      CertsOutNext(disk.script, k - i);
      SerialsMore(was, n, i);
      ok := disk.Publish(n + i);
      if !ok {
        return;
      }
      i := i + 1;
    }
    ok := true;
  }

  lemma SerialsMore(was: seq<nat>, n: nat, i: nat)
    ensures was + Numbers(n, i) + [n + i] == was + Numbers(n, i + 1)
  {
  }

  lemma CertsOutNext(s: seq<Decision>, k: nat)
    requires k > 0
    ensures CertsOut(s, k) == if At(s, 0).Opens() then 1 + CertsOut(Rest(s, 1), k - 1) else 0
  {
  }

  /** save_serial and save_index report success. */
  predicate SavesBoth(cfg: Config, s: seq<Decision>)
  {
    ShortNames(cfg) && At(s, 0).Opens() && At(s, 1).Writes() && At(s, 2).Opens()
  }

  /** save_serial and save_index. */
  method SaveBoth(disk: Disk, cfg: Config, rows: seq<Row>, unique: bool, next: nat) returns (ok: bool)
    requires disk.alive && cfg.Ok() && rows != []
    modifies disk
    ensures disk.published == old(disk.published)
    ensures SameOutside(old(disk.files), disk.files, {cfg.Serials().next, cfg.Names().next, cfg.Names().attrNext})
    ensures ok ==> SavesBoth(cfg, old(disk.script))
    ensures SavesBoth(cfg, old(disk.script)) ==> ok
    ensures ok ==> && disk.alive && disk.script == Rest(old(disk.script), 3)
                   && Content(disk.files, cfg.Serials().next) == Some(Left(SerialNumber(next), At(old(disk.script), 0)))
                   && Content(disk.files, cfg.Names().next) == Some(Left(Index(rows), At(old(disk.script), 1)))
                   && cfg.Names().attrNext in disk.files
  {
    cfg.NamesOk();
    ghost var s := disk.script;
    RestOfRest(s, 1, 2);
    assert At(Rest(s, 1), 0) == At(s, 1) && At(Rest(s, 1), 1) == At(s, 2);
    ok := SaveSerial(disk, cfg.serial, "new", next);
    if ok {
      ok := SaveIndex(disk, cfg.db, "new", rows, unique);
    }
  }

  /** The index file after rotate_serial and rotate_index: the second is reached only
      when the first goes through. */
  function BothWhich(s: seq<Decision>): Which
  {
    if At(s, 0).Go? && At(s, 1).Go? then DbWhich(Rest(s, 2)) else Old
  }

  predicate SixGo(s: seq<Decision>)
  {
    At(s, 0).Go? && At(s, 1).Go? && At(s, 2).Go? && At(s, 3).Go? && At(s, 4).Go? && At(s, 5).Go?
  }

  lemma SixGoParts(s: seq<Decision>)
    ensures SixGo(s) <==> At(s, 0).Go? && At(s, 1).Go? && forall i: nat :: i < 4 ==> At(Rest(s, 2), i).Go?
  {
    var r := Rest(s, 2);
    assert At(r, 0) == At(s, 2) && At(r, 1) == At(s, 3) && At(r, 2) == At(s, 4) && At(r, 3) == At(s, 5);
  }

  /** rotate_serial and then rotate_index. */
  method RotateBoth(disk: Disk, cfg: Config) returns (ok: bool)
    requires disk.alive && cfg.Ok() && ShortNames(cfg)
    requires {cfg.db, cfg.serial, cfg.Serials().next, cfg.Names().next, cfg.Names().attrNext} <= disk.files.Keys
    modifies disk
    ensures disk.published == old(disk.published)
    ensures var s, fs := old(disk.script), old(disk.files);
            && Content(disk.files, cfg.serial) == Pick(PairWhich(s), fs[cfg.serial], fs[cfg.Serials().next])
            && Content(disk.files, cfg.db) == Pick(BothWhich(s), fs[cfg.db], fs[cfg.Names().next])
    ensures ok <==> SixGo(old(disk.script))
    ensures ok ==> disk.alive && disk.script == Rest(old(disk.script), 6)
  {
    ghost var s := disk.script;
    RestOfRest(s, 2, 4);
    SixGoParts(s);
    cfg.NamesOk();
    assert cfg.serial !in cfg.Names().All() && cfg.db !in cfg.Serials().All();
    assert cfg.Names().next !in cfg.Serials().All() && cfg.Names().attrNext !in cfg.Serials().All();
    ok := RotateSerial(disk, cfg.serial, "new", "old");
    if ok {
      ok := RotateIndex(disk, cfg.db, "new", "old");
    }
  }

  /** What a run sets out to commit: `count` new certificates from the counter's number
      on, and the rows with them. */
  datatype Plan = Nothing | Commit(serial: nat, count: nat, rows: seq<Row>)

  /** The number that the counter is to have. */
  function NewNumber(plan: Plan): nat
    requires plan.Commit?
  {
    plan.serial + plan.count
  }

  /** How many certificates a commit writes out. */
  function Out(cfg: Config, s: seq<Decision>, plan: Plan): (done: nat)
    requires plan.Commit?
    ensures done <= plan.count
  {
    if SavesBoth(cfg, s) then CertsOut(Rest(s, 3), plan.count) else 0
  }

  /** What a commit comes to, call by call: the serial file and the index are saved, the
      certificates written out, and then the serial file is rotated before the index. */
  function CommitResult(cfg: Config, s: seq<Decision>, h: Holding, plan: Plan): Holding
    requires plan.Commit? && h.index.Some?
  {
    var out := h.published + Numbers(plan.serial, Out(cfg, s, plan));
    if Out(cfg, s, plan) < plan.count then h.(published := out)
    else Holding(CounterAfter(s, plan), IndexRotated(s, h.index.value, plan), out)
  }

  /** The new serial file as it was saved. */
  function NewCounter(s: seq<Decision>, plan: Plan): File
    requires plan.Commit?
  {
    Left(SerialNumber(NewNumber(plan)), At(s, 0))
  }

  /** The serial file after the renames of a commit. */
  function CounterAfter(s: seq<Decision>, plan: Plan): Option<File>
    requires plan.Commit?
  {
    Pick(PairWhich(Rest(s, 3 + plan.count)), SerialNumber(plan.serial), NewCounter(s, plan))
  }

  /** The index file after the renames of a commit. */
  function IndexRotated(s: seq<Decision>, was: File, plan: Plan): Option<File>
    requires plan.Commit?
  {
    Pick(BothWhich(Rest(s, 3 + plan.count)), was, Left(Index(plan.rows), At(s, 1)))
  }

  /** Every call of a commit reports success. */
  predicate Committed(cfg: Config, s: seq<Decision>, plan: Plan)
    requires plan.Commit?
  {
    Out(cfg, s, plan) == plan.count && SixGo(Rest(s, 3 + plan.count))
  }

  /** The end of the issuing part. */
  method CommitIssue(disk: Disk, cfg: Config, unique: bool, plan: Plan) returns (ok: bool)
    requires disk.alive && cfg.Ok() && plan.Commit? && plan.rows != [] && plan.count > 0
    requires cfg.db in disk.files && Content(disk.files, cfg.serial) == Some(SerialNumber(plan.serial))
    modifies disk
    ensures Held(disk.files, cfg, disk.published) ==
            CommitResult(cfg, old(disk.script), old(Held(disk.files, cfg, disk.published)), plan)
    ensures ok <==> Committed(cfg, old(disk.script), plan)
    ensures ok ==> disk.alive && disk.script == Rest(old(disk.script), 9 + plan.count)
  {
    ghost var s, h := disk.script, Held(disk.files, cfg, disk.published);
    cfg.NamesOk();
    RestOfRest(s, 3, plan.count);
    RestOfRest(s, 3 + plan.count, 6);
    CommitCases(cfg, s, h, plan);
    ok := SaveBoth(disk, cfg, plan.rows, unique, NewNumber(plan));
    if ok {
      ok := PublishAll(disk, plan.serial, plan.count);
      if ok {
        ok := RotateBoth(disk, cfg);
      }
    }
  }

  lemma CommitCases(cfg: Config, s: seq<Decision>, h: Holding, plan: Plan)
    requires plan.Commit? && h.index.Some? && plan.count > 0
    ensures var r, done := CommitResult(cfg, s, h, plan), CertsOut(Rest(s, 3), plan.count);
            && (!SavesBoth(cfg, s) ==> r == h)
            && (SavesBoth(cfg, s) ==> r.published == h.published + Numbers(plan.serial, done))
            && (SavesBoth(cfg, s) && done < plan.count ==> r.counter == h.counter && r.index == h.index)
            && (SavesBoth(cfg, s) && done == plan.count ==>
                  r.counter == CounterAfter(s, plan) && r.index == IndexRotated(s, h.index.value, plan))
  {
    assert h.published + Numbers(plan.serial, 0) == h.published;
  }

  lemma PrefixSaved(rows: seq<Row>, d: Decision)
    requires SavedOk(rows)
    ensures var f := Left(Index(rows), d); f.Index? && SavedOk(f.rows)
  {
  }

  lemma {:induction false} AllCertsOut(s: seq<Decision>, k: nat)
    requires AllGo(s)
    ensures CertsOut(s, k) == k
  {
    if k > 0 {
      assert At(s, 0).Go?;
      AllGoRest(s, 1);
      AllCertsOut(Rest(s, 1), k - 1);
    }
  }

  lemma AllGoRest(s: seq<Decision>, k: nat)
    requires AllGo(s)
    ensures AllGo(Rest(s, k))
  {
    forall i: nat
      ensures At(Rest(s, k), i).Go?
    {
      assert At(Rest(s, k), i) == At(s, k + i);
    }
  }

  /** When every call goes through, everything is in place. */
  lemma CommitAccomplished(cfg: Config, s: seq<Decision>, h: Holding, plan: Plan)
    requires plan.Commit? && h.index.Some? && ShortNames(cfg) && AllGo(s)
    ensures Committed(cfg, s, plan)
    ensures CommitResult(cfg, s, h, plan) ==
            Holding(Some(SerialNumber(NewNumber(plan))), Some(Index(plan.rows)),
                    h.published + Numbers(plan.serial, plan.count))
  {
    AllGoRest(s, 3);
    AllCertsOut(Rest(s, 3), plan.count);
    AllGoRest(s, 3 + plan.count);
    AllGoStart(s);
    var r := Rest(s, 3 + plan.count);
    AllGoStart(r);
    AllGoRest(r, 2);
    AllGoStart(Rest(r, 2));
  }

  lemma AllGoStart(s: seq<Decision>)
    requires AllGo(s)
    ensures SixGo(s)
  {
  }

  // ----- one run

  lemma SameSerialsKeep(a: seq<Row>, b: seq<Row>)
    requires SameSerials(a, b)
    ensures SavedOk(a) ==> SavedOk(b)
  {
  }

  lemma ExpiryKeepsSerials(rows: seq<Row>, now: string)
    ensures SavedOk(rows) ==> SavedOk(ExpireRows(rows, now))
    ensures SameSerials(rows, ExpireRows(rows, now))
    ensures |Expiring(rows, now)| == 0 ==> ExpireRows(rows, now) == rows
    ensures |Expiring(rows, now)| > 0 ==> rows != []
  {
    SameSerialsKeep(rows, ExpireRows(rows, now));
    if |Expiring(rows, now)| == 0 {
      forall i | 0 <= i < |rows|
        ensures ExpireRows(rows, now)[i] == rows[i]
      {
        assert i !in Expiring(rows, now);
      }
    } else {
      var i :| i in Expiring(rows, now);
    }
  }

  /** A row with a new serial keeps the serials distinct. */
  lemma AppendSaved(rows: seq<Row>, c: Cert)
    requires SavedOk(rows) && Scan(rows, c.serial).None?
    ensures SavedOk(rows + [NewRow(c)])
  {
    assert Value(NewRow(c).serial) == c.serial;
  }

  /** Certification keeps the serials distinct. */
  lemma {:induction false} CertifiedSaved(p: Progress, unique: bool, requests: seq<Request>, n: nat)
    requires n <= |requests| && SavedOk(p.rows)
    ensures SavedOk(Certified(p, unique, requests, n).rows)
  {
    if n > 0 {
      CertifiedSaved(p, unique, requests, n - 1);
      CertifySaved(Certified(p, unique, requests, n - 1), requests[n - 1], unique);
    }
  }

  lemma CertifySaved(p: Progress, r: Request, unique: bool)
    requires SavedOk(p.rows)
    ensures SavedOk(Certify(p, r, unique).rows)
  {
    if Scan(p.rows, p.next).None? {
      AppendSaved(p.rows, Cert(p.next, r.name, r.notAfter));
    }
  }

  /** The requests of a run, and whether the operator commits what was certified. */
  datatype Batch = Batch(requests: seq<Request>, commit: bool)

  /** One invocation of the program: expired rows are marked, requests certified and a
      certificate added by hand, each if asked for and in this order; and what its
      calls meet. */
  datatype Run = Run(update: Option<string>, batch: Option<Batch>, add: Option<Cert>, script: seq<Decision>)

  /** The files and the certificates written out so far. */
  datatype Moment = Moment(files: Files, published: seq<nat>)

  ghost function HeldAt(m: Moment, cfg: Config): Holding
  {
    Held(m.files, cfg, m.published)
  }

  /** A run under way: whether it goes on, the calls still to be met, what is held, and
      the database in memory. */
  datatype Going = Going(on: bool, script: seq<Decision>, h: Holding, rows: seq<Row>, taken: set<string>) {
    /** What is certified goes on from here. */
    function Start(): Progress
      requires h.Numbered()
    {
      Progress(true, rows, taken, h.counter.value.n)
    }
  }

  ghost function Loaded(m: Moment, cfg: Config, lib: Lib, s: seq<Decision>): Going
    requires lib.Ok()
  {
    if Loadable(m.files, cfg, lib) then Going(true, s, HeldAt(m, cfg), m.files[cfg.db].rows, Reserved(m.files, cfg))
    else Going(false, s, HeldAt(m, cfg), [], {})
  }

  /** The index is saved with these rows. */
  ghost function Saving(cfg: Config, g: Going, rows: seq<Row>): Going
  {
    g.(on := IndexCommitted(cfg, g.script, rows), script := Rest(g.script, 6), rows := rows,
       h := g.h.(index := if g.h.index.None? then None else IndexAfter(cfg, g.script, g.h.index.value, rows)))
  }

  /** Expired rows are marked, and the index saved if there are any. */
  ghost function AfterUpdate(cfg: Config, g: Going, update: Option<string>): Going
  {
    if !g.on || update.None? || |Expiring(g.rows, update.value)| == 0 then g
    else Saving(cfg, g, ExpireRows(g.rows, update.value))
  }

  /** What certifying sets out to commit: something, when it ends well, gave a
      certificate and the operator agrees. */
  function PlanOf(g: Going, unique: bool, batch: Option<Batch>): Plan
  {
    if batch.None? || !Issues(g) then Nothing
    else
      var q := Certified(g.Start(), unique, batch.value.requests, |batch.value.requests|);
      if q.ok && batch.value.commit && q.next > g.h.counter.value.n then
        Commit(g.h.counter.value.n, q.next - g.h.counter.value.n, q.rows)
      else Nothing
  }

  /** There is something to issue from. */
  predicate Issues(g: Going)
  {
    g.on && g.h.index.Some? && g.h.Numbered()
  }

  /** Requests are certified and committed. The run goes on when all that went well or
      there was nothing to commit. */
  function AfterBatch(cfg: Config, g: Going, unique: bool, batch: Option<Batch>): Going
  {
    if batch.None? then g
    else if !Issues(g) then g.(on := false)
    else
      var q := Certified(g.Start(), unique, batch.value.requests, |batch.value.requests|);
      var plan := PlanOf(g, unique, batch);
      if plan.Nothing? then g.(on := q.ok && q.next == g.h.counter.value.n, rows := q.rows, taken := q.taken)
      else Committing(cfg, g, plan, q.taken)
  }

  /** A plan is committed. */
  function Committing(cfg: Config, g: Going, plan: Plan, taken: set<string>): Going
    requires plan.Commit? && g.h.index.Some?
  {
    Going(Committed(cfg, g.script, plan), Rest(g.script, 9 + plan.count), CommitResult(cfg, g.script, g.h, plan),
          plan.rows, taken)
  }

  /** A certificate can be added by hand. */
  predicate Addable(g: Going, c: Cert)
  {
    g.on && Scan(g.rows, c.serial).None? && c.name !in g.taken
  }

  /** A certificate is added by hand, if there is one to add. */
  ghost function AfterAdd(cfg: Config, g: Going, add: Option<Cert>): Going
  {
    if add.Some? && Addable(g, add.value) then Saving(cfg, g, g.rows + [NewRow(add.value)]) else g
  }

  /** A run as it comes to its requests. */
  ghost function AtBatch(m: Moment, cfg: Config, lib: Lib, run: Run): Going
    requires lib.Ok()
  {
    AfterUpdate(cfg, Loaded(m, cfg, lib, run.script), run.update)
  }

  /** What a run sets out to commit. */
  ghost function PlanAt(m: Moment, cfg: Config, lib: Lib, run: Run): Plan
    requires lib.Ok()
  {
    PlanOf(AtBatch(m, cfg, lib, run), Unique(m.files, cfg), run.batch)
  }

  /** A run as it comes to the certificate to be added. */
  ghost function AtAdd(m: Moment, cfg: Config, lib: Lib, run: Run): Going
    requires lib.Ok()
  {
    AfterBatch(cfg, AtBatch(m, cfg, lib, run), Unique(m.files, cfg), run.batch)
  }

  /** What a run comes to. */
  ghost function RunResult(m: Moment, cfg: Config, lib: Lib, run: Run): Holding
    requires lib.Ok()
  {
    AfterAdd(cfg, AtAdd(m, cfg, lib, run), run.add).h
  }

  // ----- the run on the disk

  ghost function Present(disk: Disk): Moment
    reads disk
  {
    Moment(disk.files, disk.published)
  }

  /** The run as it stands, while it goes on. */
  ghost function Standing(disk: Disk, cfg: Config, db: Db): Going
    reads disk, db
  {
    Going(true, disk.script, Held(disk.files, cfg, disk.published), db.rows, db.taken)
  }

  /** The run has come to g, or has ended with what g holds. */
  ghost predicate Reached(disk: Disk, cfg: Config, db: Db, ok: bool, g: Going)
    reads disk, db
  {
    && Held(disk.files, cfg, disk.published) == g.h && ok == g.on
    && (ok ==> disk.alive && Standing(disk, cfg, db) == g)
  }

  /** A run that goes on has its database in memory and an index file. */
  ghost predicate Fit(g: Going)
  {
    Sound(g.h) && (g.on ==> SavedOk(g.rows) && g.h.index.Some?)
  }

  /** save_index and rotate_index, from within a run. */
  method SavePart(disk: Disk, cfg: Config, db: Db, ghost was: Going) returns (ok: bool)
    requires disk.alive && cfg.Ok() && cfg.db in disk.files && db.Valid()
    requires was == Standing(disk, cfg, db).(rows := was.rows)
    modifies disk
    ensures Reached(disk, cfg, db, ok, Saving(cfg, was, db.rows))
  {
    assert cfg.serial !in cfg.Names().All();
    ok := CommitIndex(disk, cfg, db.rows, db.unique);
  }

  /** -updatedb: the index is saved when some row expired. The serial file and the
      certificates are left alone. */
  method UpdatePart(disk: Disk, cfg: Config, db: Db, update: Option<string>) returns (ok: bool)
    requires disk.alive && cfg.Ok() && cfg.db in disk.files && db.Valid()
    modifies disk, db
    ensures db.Valid() && Reached(disk, cfg, db, ok, AfterUpdate(cfg, old(Standing(disk, cfg, db)), update))
  {
    ok := true;
    if update.Some? {
      ghost var g := Standing(disk, cfg, db);
      ExpiryKeepsSerials(db.rows, update.value);
      var cnt := DoUpdateDb(db, update.value);
      if cnt > 0 {
        ok := SavePart(disk, cfg, db, g);
      }
    }
  }

  /** Certifying the requests and committing. */
  method BatchPart(disk: Disk, cfg: Config, db: Db, batch: Option<Batch>) returns (ok: bool)
    requires disk.alive && cfg.Ok() && cfg.db in disk.files && db.Valid()
    modifies disk, db
    ensures db.Valid() && Reached(disk, cfg, db, ok, AfterBatch(cfg, old(Standing(disk, cfg, db)), db.unique, batch))
  {
    ok := true;
    if batch.Some? {
      ok := cfg.serial in disk.files && disk.files[cfg.serial].SerialNumber?;
      if ok {
        ok := CertifyPart(disk, cfg, db, disk.files[cfg.serial].n, batch.value);
      }
    }
  }

  method CertifyPart(disk: Disk, cfg: Config, db: Db, serial: nat, b: Batch) returns (ok: bool)
    requires disk.alive && cfg.Ok() && cfg.db in disk.files && db.Valid()
    requires Content(disk.files, cfg.serial) == Some(SerialNumber(serial))
    modifies disk, db
    ensures db.Valid() && Reached(disk, cfg, db, ok, AfterBatch(cfg, old(Standing(disk, cfg, db)), db.unique, Some(b)))
  {
    ghost var g := Standing(disk, cfg, db);
    var next;
    ok, next := IssueAll(db, serial, b.requests);
    ghost var g' := BatchCases(cfg, g, db.unique, b, InMemory(db, ok, next));
    if ok && next > serial {
      ok := b.commit;
      if ok {
        ok := CommitIssue(disk, cfg, db.unique, Commit(serial, next - serial, db.rows));
      }
    }
  }

  /** What becomes of a batch, by the outcome q of its certification. */
  lemma BatchCases(cfg: Config, g: Going, unique: bool, b: Batch, q: Progress) returns (g': Going)
    requires Issues(g) && q == Certified(g.Start(), unique, b.requests, |b.requests|)
    ensures q.next >= g.h.counter.value.n
    ensures g' == AfterBatch(cfg, g, unique, Some(b))
    ensures var n := g.h.counter.value.n;
            if q.ok && b.commit && q.next > n then
              q.rows != [] && g' == Committing(cfg, g, Commit(n, q.next - n, q.rows), q.taken)
            else g' == g.(on := q.ok && q.next == n, rows := q.rows, taken := q.taken)
  {
    g' := AfterBatch(cfg, g, unique, Some(b));
    CertifiedAreIssued(g.Start(), unique, b.requests, |b.requests|);
  }

  /** A certificate is added by hand: ca_main revokes with type -1, which only adds it. */
  method AddPart(disk: Disk, cfg: Config, db: Db, lib: Lib, c: Cert)
    requires disk.alive && cfg.Ok() && lib.Ok() && cfg.db in disk.files && db.Valid()
    modifies disk, db
    ensures Held(disk.files, cfg, disk.published) == AfterAdd(cfg, old(Standing(disk, cfg, db)), Some(c)).h
  {
    ghost var g := Standing(disk, cfg, db);
    var ok := DoRevoke(db, lib, c, -1, "", "");
    ghost var h := AddedOnly(cfg, g, db.rows, db.taken, db.unique, ok, c, RevocationStr(lib, -1, "", ""));
    if ok {
      ok := SavePart(disk, cfg, db, g.(taken := db.taken));
    }
  }

  /** A revocation of type -1 adds the certificate and does nothing else. */
  lemma AddedOnly(cfg: Config, g: Going, rows: seq<Row>, taken: set<string>, unique: bool, ok: bool, c: Cert,
                  rev: Option<string>)
    returns (h: Holding)
    requires g.on && Revokes(g.rows, g.taken, rows, taken, unique, ok, c, -1, rev)
    ensures h == AfterAdd(cfg, g, Some(c)).h
    ensures h == if ok then Saving(cfg, g.(taken := taken), rows).h else g.h
  {
    h := AfterAdd(cfg, g, Some(c)).h;
  }

  /** One invocation of the program. */
  method OneRun(disk: Disk, cfg: Config, strHash: string -> nat, lib: Lib, run: Run)
    requires cfg.Ok() && lib.Ok() && Sound(HeldAt(Present(disk), cfg))
    modifies disk
    ensures HeldAt(Present(disk), cfg) == RunResult(old(Present(disk)), cfg, lib, run)
  {
    ghost var m := Present(disk);
    disk.alive, disk.script := true, run.script;
    var db := LoadIndex(disk, cfg, strHash, lib);
    if db != null {
      LoadedRun(disk, cfg, db, lib, run, m);
    }
  }

  /** The parts of a run, once the database is loaded. */
  method LoadedRun(disk: Disk, cfg: Config, db: Db, lib: Lib, run: Run, ghost m: Moment)
    requires cfg.Ok() && lib.Ok() && db.Valid() && disk.alive && m == Present(disk) && Sound(HeldAt(m, cfg))
    requires Loadable(m.files, cfg, lib) && Standing(disk, cfg, db) == Loaded(m, cfg, lib, run.script)
    requires db.unique == Unique(m.files, cfg)
    modifies disk, db
    ensures HeldAt(Present(disk), cfg) == RunResult(m, cfg, lib, run)
  {
    RunFit(m, cfg, lib, run);
    OffStaysOff(m, cfg, lib, run);
    var ok := UpdatePart(disk, cfg, db, run.update);
    if ok {
      ok := BatchPart(disk, cfg, db, run.batch);
      if ok && run.add.Some? {
        AddPart(disk, cfg, db, lib, run.add.value);
      }
    }
  }

  /** A run that has ended changes nothing any more. */
  lemma OffStaysOff(m: Moment, cfg: Config, lib: Lib, run: Run)
    requires lib.Ok()
    ensures !AtBatch(m, cfg, lib, run).on ==> RunResult(m, cfg, lib, run) == AtBatch(m, cfg, lib, run).h
    ensures !AtAdd(m, cfg, lib, run).on ==> RunResult(m, cfg, lib, run) == AtAdd(m, cfg, lib, run).h
  {
  }

  // ----- what every run keeps

  lemma LoadedFit(m: Moment, cfg: Config, lib: Lib, s: seq<Decision>)
    requires lib.Ok() && Sound(HeldAt(m, cfg))
    ensures Fit(Loaded(m, cfg, lib, s))
  {
  }

  lemma SavingFit(cfg: Config, g: Going, rows: seq<Row>)
    requires Fit(g) && g.on && SavedOk(rows)
    ensures Fit(Saving(cfg, g, rows))
  {
    PrefixSaved(rows, At(g.script, 0));
    if IndexCommitted(cfg, g.script, rows) {
      CommittedIsThere(cfg, g.script, g.h.index.value, rows);
    }
  }

  lemma CommittedIsThere(cfg: Config, s: seq<Decision>, was: File, rows: seq<Row>)
    requires IndexCommitted(cfg, s, rows)
    ensures IndexAfter(cfg, s, was, rows) == Some(Left(Index(rows), At(s, 0)))
  {
    CommittedIff(cfg, s, rows);
    var r := Rest(s, 2);
    assert At(r, 0).Go? && At(r, 1).Go? && At(r, 2).Go? && At(r, 3).Go?;
  }

  lemma UpdateFit(cfg: Config, g: Going, update: Option<string>)
    requires Fit(g)
    ensures Fit(AfterUpdate(cfg, g, update))
  {
    if g.on && update.Some? {
      ExpiryKeepsSerials(g.rows, update.value);
      SavingFit(cfg, g, ExpireRows(g.rows, update.value));
    }
  }

  lemma BatchFit(cfg: Config, g: Going, unique: bool, batch: Option<Batch>)
    requires Fit(g)
    ensures Fit(AfterBatch(cfg, g, unique, batch))
  {
    if Issues(g) && batch.Some? {
      CertifiedSaved(g.Start(), unique, batch.value.requests, |batch.value.requests|);
      var plan := PlanOf(g, unique, batch);
      if plan.Commit? {
        CommitFit(cfg, g.script, g.h, plan);
      }
    }
  }

  lemma CommitFit(cfg: Config, s: seq<Decision>, h: Holding, plan: Plan)
    requires plan.Commit? && h.index.Some? && Sound(h) && SavedOk(plan.rows)
    ensures Sound(CommitResult(cfg, s, h, plan))
    ensures Committed(cfg, s, plan) ==> CommitResult(cfg, s, h, plan).index.Some?
  {
    PrefixSaved(plan.rows, At(s, 1));
    var r := Rest(s, 3 + plan.count);
    SixGoParts(r);
    if SixGo(r) {
      assert At(Rest(r, 2), 0).Go? && At(Rest(r, 2), 1).Go? && At(Rest(r, 2), 2).Go? && At(Rest(r, 2), 3).Go?;
    }
  }

  lemma AddFit(cfg: Config, g: Going, add: Option<Cert>)
    requires Fit(g)
    ensures Fit(AfterAdd(cfg, g, add))
  {
    if add.Some? && Addable(g, add.value) {
      AppendSaved(g.rows, add.value);
      SavingFit(cfg, g, g.rows + [NewRow(add.value)]);
    }
  }

  /** A run comes to each of its parts with sound files. */
  lemma RunFit(m: Moment, cfg: Config, lib: Lib, run: Run)
    requires lib.Ok() && Sound(HeldAt(m, cfg))
    ensures Fit(AtBatch(m, cfg, lib, run)) && Fit(AtAdd(m, cfg, lib, run))
  {
    LoadedFit(m, cfg, lib, run.script);
    UpdateFit(cfg, Loaded(m, cfg, lib, run.script), run.update);
    BatchFit(cfg, AtBatch(m, cfg, lib, run), Unique(m.files, cfg), run.batch);
  }

  /** No run, whatever its calls meet, leaves two rows with one serial in the index. */
  lemma RunSound(m: Moment, cfg: Config, lib: Lib, run: Run)
    requires lib.Ok() && Sound(HeldAt(m, cfg))
    ensures Sound(RunResult(m, cfg, lib, run))
  {
    RunFit(m, cfg, lib, run);
    AddFit(cfg, AtAdd(m, cfg, lib, run), run.add);
  }

  // ----- whole histories

  /** One run leads from m to m'. */
  ghost predicate Follows(m: Moment, m': Moment, cfg: Config, lib: Lib, run: Run)
    requires lib.Ok()
  {
    HeldAt(m', cfg) == RunResult(m, cfg, lib, run)
  }

  /** A chain of moments, one before each run and one after the last. */
  ghost predicate History(h: seq<Moment>, cfg: Config, lib: Lib, runs: seq<Run>, n: nat)
    requires lib.Ok() && n <= |runs|
  {
    && |h| == n + 1
    && forall i :: 0 <= i < n ==> Follows(h[i], h[i + 1], cfg, lib, runs[i])
  }

  lemma HistoryGrows(h: seq<Moment>, m: Moment, cfg: Config, lib: Lib, runs: seq<Run>, n: nat)
    requires lib.Ok() && n < |runs| && History(h, cfg, lib, runs, n)
    requires Follows(h[n], m, cfg, lib, runs[n])
    ensures History(h + [m], cfg, lib, runs, n + 1)
  {
    var g := h + [m];
    forall i | 0 <= i < n + 1
      ensures Follows(g[i], g[i + 1], cfg, lib, runs[i])
    {
      assert g[i] == h[i] && g[i + 1] == if i < n then h[i + 1] else m;
    }
  }

  /** Any sequence of runs, each with any calls refused or cut short and cut off
      anywhere. */
  method AllRuns(disk: Disk, cfg: Config, strHash: string -> nat, lib: Lib, runs: seq<Run>)
    returns (ghost h: seq<Moment>)
    requires cfg.Ok() && lib.Ok() && Sound(HeldAt(Present(disk), cfg))
    modifies disk
    ensures History(h, cfg, lib, runs, |runs|)
    ensures h[0] == old(Present(disk)) && h[|runs|] == Present(disk)
  {
    h := [Present(disk)];
    var i := 0;
    while i < |runs|
      invariant i <= |runs| && History(h, cfg, lib, runs, i)
      invariant h[0] == old(Present(disk)) && h[i] == Present(disk) && Sound(HeldAt(h[i], cfg))
    {
      RunSound(h[i], cfg, lib, runs[i]);
      OneRun(disk, cfg, strHash, lib, runs[i]);
      HistoryGrows(h, Present(disk), cfg, lib, runs, i);
      h := h + [Present(disk)];
      i := i + 1;
    }
  }

  /** At every moment of every history the saved serials are distinct. */
  lemma HistorySound(h: seq<Moment>, cfg: Config, lib: Lib, runs: seq<Run>, n: nat, k: nat)
    requires lib.Ok() && n <= |runs| && History(h, cfg, lib, runs, n) && k <= n
    requires Sound(HeldAt(h[0], cfg))
    ensures Sound(HeldAt(h[k], cfg))
  {
    var sound := i => 0 <= i <= n && Sound(HeldAt(h[i], cfg));
    forall i | 0 <= i < n
      ensures sound(i) ==> sound(i + 1)
    {
      if sound(i) {
        StepSound(h[i], h[i + 1], cfg, lib, runs[i]);
      }
    }
    StaysTrue(sound, k);
  }

  lemma StepSound(m: Moment, m': Moment, cfg: Config, lib: Lib, run: Run)
    requires lib.Ok() && Follows(m, m', cfg, lib, run) && Sound(HeldAt(m, cfg))
    ensures Sound(HeldAt(m', cfg))
  {
    RunSound(m, cfg, lib, run);
  }
}
