/** Replacing the database and the serial file on disk: `.new` files are renamed
    into place, the previous ones are kept as `.old`, and a failed rename is
    rolled back (apps/apps.c:1450-1537, 1653-1768). Every call may be refused, a
    write may be cut short with or without the program noticing, and the process may
    be cut off before or within any call. */
module Rotation {
  import opened Prelude
  import opened SerialKey
  import opened TxtDb

  const BSIZE := 256

  /** What a file holds. An attribute file without a value is Attr(None); Garbage is
      whatever cannot be loaded. */
  datatype File = SerialNumber(n: nat) | Index(rows: seq<Row>) | Attr(unique: Option<bool>) | Garbage

  /** What is left of a file when only the first part of it was written: `keep` is the
      number of whole lines for an index, and of characters for the other two. A line
      that is not ended is not read, a number of an odd number of digits is refused,
      and a shorter even one is simply a smaller number. */
  function Remains(f: File, keep: nat): File
  {
    match f
    case SerialNumber(n) =>
      if keep >= |Key(n)| then f
      else if keep == 0 || keep % 2 == 1 then Garbage
      else SerialNumber(Value(Key(n)[..keep]))
    case Index(rows) => if keep >= |rows| then f else Index(rows[..keep])
    case Attr(_) =>
      if keep == 0 then Attr(None)
      else if keep < ASSIGNED then Garbage
      else if keep < ASSIGNED + 2 then Attr(Some(true))
      else f
    case Garbage => Garbage
  }

  /** The length of the attribute's name with the equals sign: before it the line is an
      error, right after it the value is empty, which means yes. */
  const ASSIGNED := 16

  /** What happens to a call: it goes through, it is refused, its data is cut short, or
      the process is cut off. `seen` says that the writing call reports the short data
      and not only the closing, whose result nobody looks at. A process cut off within
      a write may leave some of the data. */
  datatype Decision = Go | Refuse | Torn(keep: nat, seen: bool) | Cut(left: Option<nat>) {
    /** The file is opened. */
    predicate Opens() {
      Go? || Torn?
    }

    /** The file is opened and the writing call reports success. */
    predicate Writes() {
      Go? || (Torn? && !seen)
    }

    /** A call that does not go through while the process goes on. */
    predicate Denied() {
      Refuse? || Torn?
    }
  }

  /** What a write that opened the file leaves in it. */
  function Left(f: File, d: Decision): File
  {
    if d.Torn? then Remains(f, d.keep) else f
  }

  datatype Outcome = Done | Missing | Failed

  type Files = map<string, File>

  function Moved(fs: Files, src: string, dst: string): Files
    requires src in fs && src != dst
  {
    fs[dst := fs[src]] - {src}
  }

  function At(script: seq<Decision>, i: nat): Decision
  {
    if i < |script| then script[i] else Go
  }

  /** The decisions after the first k. */
  function Rest(script: seq<Decision>, k: nat): seq<Decision>
  {
    if k <= |script| then script[k..] else []
  }

  class Disk {
    var files: Files
    /** What the coming system calls meet; calls beyond the end go through. */
    var script: seq<Decision>
    /** False once the process has been cut off: nothing happens any more. */
    var alive: bool
    /** The serial numbers of the certificates written out, in order. */
    var published: seq<nat>

    /** The decision for the next system call. */
    method Next() returns (d: Decision)
      modifies this
      ensures files == old(files) && published == old(published)
      ensures d == if !old(alive) then Cut(None) else At(old(script), 0)
      ensures alive == (old(alive) && !d.Cut?)
      ensures script == Rest(old(script), 1)
    {
      d := if !alive then Cut(None) else At(script, 0);
      alive := alive && !d.Cut?;
      script := Rest(script, 1);
    }

    /** rename(2): atomic, and ENOENT exactly when the source is missing. */
    method Rename(src: string, dst: string) returns (r: Outcome)
      requires src != dst
      modifies this
      ensures published == old(published)
      ensures script == Rest(old(script), 1)
      ensures old(alive) && At(old(script), 0).Go? ==> alive && r == if src in old(files) then Done else Missing
      ensures !(old(alive) && At(old(script), 0).Go?) ==> r == Failed
      ensures alive == (old(alive) && !At(old(script), 0).Cut?)
      ensures files == if r == Done then Moved(old(files), src, dst) else old(files)
      ensures r == Done ==> src in old(files)
    {
      var d := Next();
      if !d.Go? {
        return Failed;
      }
      if src !in files {
        return Missing;
      }
      files := Moved(files, src, dst);
      r := Done;
    }

    /** Opening a file for writing and writing it: `open` is the result of the first,
        `whole` what the writing call reports. */
    method Write(name: string, f: File) returns (open: bool, whole: bool)
      modifies this
      ensures published == old(published) && script == Rest(old(script), 1)
      ensures alive == (old(alive) && !At(old(script), 0).Cut?)
      ensures open <==> old(alive) && At(old(script), 0).Opens()
      ensures whole <==> old(alive) && At(old(script), 0).Writes()
      ensures open ==> files == old(files)[name := Left(f, At(old(script), 0))]
      ensures SameOutside(old(files), files, {name})
      ensures old(alive) && At(old(script), 0).Refuse? ==> files == old(files)
    {
      var d := Next();
      open, whole := d.Opens(), d.Writes();
      if open {
        files := files[name := Left(f, d)];
      } else if d.Cut? && d.left.Some? {
        files := files[name := Remains(f, d.left.value)];
      }
    }

    /** Writing out one certificate: only the opening of its file is looked at. */
    method Publish(serial: nat) returns (ok: bool)
      modifies this
      ensures files == old(files)
      ensures ok <==> old(alive) && At(old(script), 0).Opens()
      ensures ok ==> alive && script == Rest(old(script), 1)
      ensures published == old(published) + if ok then [serial] else []
    {
      var d := Next();
      ok := d.Opens();
      if ok {
        published := published + [serial];
      }
    }
  }

  // ----- names

  datatype IndexNames = IndexNames(db: string, next: string, prev: string,
                                   attr: string, attrNext: string, attrPrev: string) {
    ghost predicate Distinct() {
      && db != next && db != prev && db != attr && db != attrNext && db != attrPrev
      && next != prev && next != attr && next != attrNext && next != attrPrev
      && prev != attr && prev != attrNext && prev != attrPrev
      && attr != attrNext && attr != attrPrev && attrNext != attrPrev
    }

    ghost function All(): set<string> {
      {db, next, prev, attr, attrNext, attrPrev}
    }
  }

  /** The names rotate_index and save_index build. */
  function NamesFor(db: string, newSuffix: string, oldSuffix: string): IndexNames
  {
    IndexNames(db, db + "." + newSuffix, db + "." + oldSuffix,
               db + ".attr", db + ".attr." + newSuffix, db + ".attr." + oldSuffix)
  }

  /** The length test of rotate_index. */
  predicate Fits(db: string, newSuffix: string, oldSuffix: string)
  {
    |db| + |newSuffix| + 6 < BSIZE && |db| + |oldSuffix| + 6 < BSIZE
  }

  lemma SamePrefix(p: string, a: string, b: string)
    ensures p + a == p + b <==> a == b
  {
    if p + a == p + b {
      assert (p + a)[|p|..] == a && (p + b)[|p|..] == b;
    }
  }

  lemma SuffixNames(db: string, s: string)
    ensures db + "." + s == db + ("." + s)
    ensures db + ".attr." + s == db + (".attr." + s)
    ensures ".attr." + s == "." + ("attr." + s)
    ensures ".attr" == "." + "attr"
  {
  }

  /** Under the length test no name is cut short, and the names are distinct exactly
      when the suffixes are different, neither is "attr", and neither is the other
      behind "attr." . */
  lemma NamesDistinct(db: string, newSuffix: string, oldSuffix: string)
    ensures Fits(db, newSuffix, oldSuffix) ==> forall s :: s in NamesFor(db, newSuffix, oldSuffix).All() ==> |s| < BSIZE
    ensures NamesFor(db, newSuffix, oldSuffix).Distinct() <==>
            && newSuffix != oldSuffix && newSuffix != "attr" && oldSuffix != "attr"
            && newSuffix != "attr." + oldSuffix && oldSuffix != "attr." + newSuffix
  {
    SuffixNames(db, newSuffix);
    SuffixNames(db, oldSuffix);
    SamePrefix(db, "." + newSuffix, "." + oldSuffix);
    SamePrefix(".", newSuffix, oldSuffix);
    SamePrefix(db, "." + newSuffix, ".attr");
    SamePrefix(".", newSuffix, "attr");
    SamePrefix(db, "." + oldSuffix, ".attr");
    SamePrefix(".", oldSuffix, "attr");
    SamePrefix(db, "." + newSuffix, ".attr." + oldSuffix);
    SamePrefix(".", newSuffix, "attr." + oldSuffix);
    SamePrefix(db, "." + oldSuffix, ".attr." + newSuffix);
    SamePrefix(".", oldSuffix, "attr." + newSuffix);
    SamePrefix(db, ".attr." + newSuffix, ".attr." + oldSuffix);
    SamePrefix(".attr.", newSuffix, oldSuffix);
  }

  // ----- renames in pairs

  ghost predicate AllGo(script: seq<Decision>)
  {
    forall i: nat :: At(script, i).Go?
  }

  /** Call number j is refused and every other call goes through. */
  ghost predicate OnlyRefused(script: seq<Decision>, j: nat)
  {
    At(script, j).Denied() && forall i: nat :: i != j ==> At(script, i).Go?
  }

  /** The current file kept as the previous one, and the next one installed. */
  function Installed(fs: Files, cur: string, next: string, prev: string): Files
    requires next in fs && cur != next && cur != prev && next != prev
  {
    Moved(if cur in fs then Moved(fs, cur, prev) else fs, next, cur)
  }

  /** What a failed pair of renames can leave behind. */
  ghost predicate Interrupted(fs: Files, fs': Files, cur: string, prev: string)
    requires cur != prev
  {
    || fs' == fs
    || (cur in fs && fs' == Moved(fs, cur, prev))
    || (cur in fs && fs' == fs - {prev})
    || (cur !in fs && prev in fs && fs' == Moved(fs, prev, cur))
  }

  /** What a pair of renames leaves when all three files can be there: the second
      rename is undone only if it was refused, not cut off, and the undoing works. */
  function PairResult(fs: Files, script: seq<Decision>, cur: string, next: string, prev: string): Files
    requires cur in fs && next in fs && cur != next && cur != prev && next != prev
  {
    if !At(script, 0).Go? then fs
    else if At(script, 1).Go? then Installed(fs, cur, next, prev)
    else if At(script, 1).Denied() && At(script, 2).Go? then fs - {prev}
    else Moved(fs, cur, prev)
  }

  function Content(fs: Files, name: string): Option<File>
  {
    if name in fs then Some(fs[name]) else None
  }

  /** Which file is there under the current name in the end. */
  datatype Which = Neither | Old | New

  function Pick(w: Which, was: File, next: File): Option<File>
  {
    match w
    case Neither => None
    case Old => Some(was)
    case New => Some(next)
  }

  /** The outcome of a pair of renames for the current file. */
  function PairWhich(script: seq<Decision>): Which
  {
    if !At(script, 0).Go? then Old
    else if At(script, 1).Go? then New
    else if At(script, 1).Denied() && At(script, 2).Go? then Old
    else Neither
  }

  /** Two renames, the second undone by a third: the whole of rotate_serial, and
      each half of rotate_index. */
  method RotatePair(disk: Disk, cur: string, next: string, prev: string) returns (ok: bool)
    requires cur != next && cur != prev && next != prev
    modifies disk
    ensures disk.published == old(disk.published) && (disk.alive ==> old(disk.alive))
    ensures ok <==> && old(disk.alive) && At(old(disk.script), 0).Go? && At(old(disk.script), 1).Go?
                    && next in old(disk.files)
    ensures ok ==> disk.alive && disk.script == Rest(old(disk.script), 2)
                   && disk.files == Installed(old(disk.files), cur, next, prev)
    ensures !ok ==> Interrupted(old(disk.files), disk.files, cur, prev)
    ensures !ok && next in old(disk.files) ==> StoppedAt(old(disk.script), disk.script, old(disk.alive), disk.alive)
    ensures old(disk.alive) && cur in old(disk.files) && next in old(disk.files) ==>
              disk.files == PairResult(old(disk.files), old(disk.script), cur, next, prev)
  {
    ghost var s := disk.script;
    RestOfRest(s, 1, 1);
    RestOfRest(s, 2, 1);
    var r := disk.Rename(cur, prev);
    if r == Failed {
      return false;
    }
    r := disk.Rename(next, cur);
    if r == Done {
      return true;
    }
    r := disk.Rename(prev, cur);
    ok := false;
  }

  lemma RestOfRest(s: seq<Decision>, i: nat, j: nat)
    ensures Rest(Rest(s, i), j) == Rest(s, i + j)
  {
  }

  /** One refused rename of a pair leaves the pair as it was, apart from the previous
      file when that had been overwritten, and everything after it goes through. */
  lemma PairRefused(fs: Files, s: seq<Decision>, s': seq<Decision>, alive': bool, j: nat,
                    cur: string, next: string, prev: string)
    requires cur in fs && next in fs && cur != next && cur != prev && next != prev
    requires j < 2 && OnlyRefused(s, j) && StoppedAt(s, s', true, alive')
    ensures alive' && AllGo(s') && PairResult(fs, s, cur, next, prev) == fs - if j == 0 then {} else {prev}
  {
    var k := if j == 0 then 1 else 3;
    forall i: nat
      ensures At(s', i).Go?
    {
      assert At(s', i) == At(s, k + i);
    }
  }

  /** How many calls a failed pair of renames used, and whether the process is there
      after them. */
  ghost predicate StoppedAt(script: seq<Decision>, script': seq<Decision>, alive: bool, alive': bool)
  {
    if alive && At(script, 0).Go?
    then alive' == (!At(script, 1).Cut? && !At(script, 2).Cut?) && script' == Rest(script, 3)
    else alive' == (alive && !At(script, 0).Cut?) && script' == Rest(script, 1)
  }

  // ----- rotate_index

  /** The content `was` is still on the disk, under its own name or as the previous file. */
  ghost predicate Survives(was: File, fs: Files, cur: string, prev: string)
  {
    (cur in fs && fs[cur] == was) || (prev in fs && fs[prev] == was)
  }

  /** The files that are not part of the database are as they were. */
  ghost predicate SameOutside(fs: Files, fs': Files, names: set<string>)
  {
    forall s :: s !in names ==> (s in fs <==> s in fs') && (s in fs ==> fs[s] == fs'[s])
  }

  /** Both halves installed. */
  function BothInstalled(fs: Files, n: IndexNames): Files
    requires n.Distinct() && n.next in fs && n.attrNext in fs
  {
    Installed(Installed(fs, n.db, n.next, n.prev), n.attr, n.attrNext, n.attrPrev)
  }

  /** The .old files given up when forward rename j is the one refused. */
  ghost function GivenUp(n: IndexNames, j: nat): set<string>
  {
    if j == 0 then {} else if j < 3 then {n.prev} else {n.prev, n.attrPrev}
  }

  /** What the rollback of the index can leave behind. */
  ghost predicate Undone(fs: Files, fs': Files, n: IndexNames)
    requires n.Distinct()
  {
    var mid := if n.db in fs then Moved(fs, n.db, n.next) else fs;
    || fs' == fs
    || fs' == mid
    || (n.prev in fs && fs' == Moved(fs, n.prev, n.db))
    || (n.prev in fs && fs' == Moved(mid, n.prev, n.db))
  }

  /** The index file after its rollback: the new one is moved away and the old one put
      back, each if it goes. */
  function UndoneWhich(script: seq<Decision>): Which
  {
    if At(script, 0).Cut? then New
    else if At(script, 1).Go? then Old
    else if At(script, 0).Go? then Neither
    else New
  }

  /** The index file after rotate_index, whatever its renames meet. */
  function DbWhich(script: seq<Decision>): Which
  {
    if !At(script, 0).Go? || !At(script, 1).Go? then PairWhich(script)
    else if !At(script, 2).Go? then
      if At(script, 2).Cut? then New else UndoneWhich(Rest(script, 3))
    else if At(script, 3).Go? then New
    else if At(script, 3).Cut? || At(script, 4).Cut? then New
    else UndoneWhich(Rest(script, 5))
  }

  /** The rollback of the index when the attribute half failed. */
  method UndoIndex(disk: Disk, n: IndexNames)
    requires n.Distinct()
    modifies disk
    ensures disk.published == old(disk.published) && (disk.alive ==> old(disk.alive))
    ensures Undone(old(disk.files), disk.files, n)
    ensures n.db in old(disk.files) && n.prev in old(disk.files) ==>
              Content(disk.files, n.db) ==
              if !old(disk.alive) then Some(old(disk.files)[n.db])
              else Pick(UndoneWhich(old(disk.script)), old(disk.files)[n.prev], old(disk.files)[n.db])
    ensures old(disk.alive) && AllGo(old(disk.script)) && n.db in old(disk.files) && n.prev in old(disk.files) ==>
              disk.alive && disk.files == Moved(Moved(old(disk.files), n.db, n.next), n.prev, n.db)
  {
    ghost var fs, s, alive := disk.files, disk.script, disk.alive;
    var r := disk.Rename(n.db, n.next);
    ghost var mid := disk.files;
    assert At(disk.script, 0) == At(s, 1);
    r := disk.Rename(n.prev, n.db);
    UndoneIs(fs, s, alive, mid, disk.files, n);
    if alive && AllGo(s) {
      assert At(s, 0).Go? && At(s, 1).Go?;
    }
  }

  /** What the two renames of the rollback come to. */
  lemma UndoneIs(fs: Files, s: seq<Decision>, alive: bool, mid: Files, fs': Files, n: IndexNames)
    requires n.Distinct()
    requires mid == if alive && At(s, 0).Go? && n.db in fs then Moved(fs, n.db, n.next) else fs
    requires fs' == if alive && !At(s, 0).Cut? && At(s, 1).Go? && n.prev in mid then Moved(mid, n.prev, n.db) else mid
    ensures Undone(fs, fs', n)
    ensures n.db in fs && n.prev in fs ==>
              Content(fs', n.db) == if !alive then Some(fs[n.db]) else Pick(UndoneWhich(s), fs[n.prev], fs[n.db])
  {
  }

  /** What rotate_index can leave behind when it fails. */
  ghost predicate RotationFailed(fs: Files, fs': Files, n: IndexNames)
    requires n.Distinct()
  {
    || Interrupted(fs, fs', n.db, n.prev)
    || (n.next in fs && exists mid :: Interrupted(Installed(fs, n.db, n.next, n.prev), mid, n.attr, n.attrPrev)
                                      && Undone(mid, fs', n))
  }

  /** The six renames and rollbacks of rotate_index. */
  method RotateNames(disk: Disk, n: IndexNames) returns (ok: bool)
    requires n.Distinct()
    modifies disk
    ensures disk.published == old(disk.published) && (disk.alive ==> old(disk.alive))
    ensures ok <==> && old(disk.alive)
                    && (forall i: nat :: i < 4 ==> At(old(disk.script), i).Go?)
                    && n.next in old(disk.files) && n.attrNext in old(disk.files)
    ensures ok ==> disk.alive && disk.script == Rest(old(disk.script), 4)
                   && disk.files == BothInstalled(old(disk.files), n)
    ensures !ok ==> RotationFailed(old(disk.files), disk.files, n)
    ensures old(disk.alive) && {n.db, n.next, n.attrNext} <= old(disk.files).Keys ==>
              Content(disk.files, n.db) ==
              Pick(DbWhich(old(disk.script)), old(disk.files)[n.db], old(disk.files)[n.next])
    ensures forall j :: 0 <= j < 4 && old(disk.alive) && OnlyRefused(old(disk.script), j)
                        && {n.db, n.next, n.attr, n.attrNext} <= old(disk.files).Keys ==>
              disk.alive && disk.files == old(disk.files) - GivenUp(n, j)
  {
    ghost var s, start := disk.script, disk.files;
    ok := RotatePair(disk, n.db, n.next, n.prev);
    if !ok {
      if old(disk.alive) {
        FirstHalfRefused(start, s, disk.script, disk.alive, n);
      }
      return;
    }
    RestOfRest(s, 2, 2);
    ok := RotateAttr(disk, n, start, s);
  }

  /** A refusal in the first half. */
  lemma FirstHalfRefused(fs: Files, s: seq<Decision>, s': seq<Decision>, alive': bool, n: IndexNames)
    requires n.Distinct()
    requires n.next in fs ==> StoppedAt(s, s', true, alive') && !(At(s, 0).Go? && At(s, 1).Go?)
    ensures forall j :: 0 <= j < 4 && OnlyRefused(s, j) && n.db in fs && n.next in fs ==>
              alive' && PairResult(fs, s, n.db, n.next, n.prev) == fs - GivenUp(n, j)
    ensures n.db in fs && n.next in fs ==>
              Content(PairResult(fs, s, n.db, n.next, n.prev), n.db) == Pick(DbWhich(s), fs[n.db], fs[n.next])
  {
    forall j | 0 <= j < 4 && OnlyRefused(s, j) && n.db in fs && n.next in fs
      ensures alive' && PairResult(fs, s, n.db, n.next, n.prev) == fs - GivenUp(n, j)
    {
      PairRefused(fs, s, s', alive', j, n.db, n.next, n.prev);
    }
  }

  /** The attribute half of rotate_index, after the index half went through. */
  method RotateAttr(disk: Disk, n: IndexNames, ghost fs: Files, ghost s: seq<Decision>) returns (ok: bool)
    requires n.Distinct() && n.next in fs && disk.files == Installed(fs, n.db, n.next, n.prev)
    requires disk.alive && disk.script == Rest(s, 2) && At(s, 0).Go? && At(s, 1).Go?
    modifies disk
    ensures disk.published == old(disk.published)
    ensures ok <==> At(s, 2).Go? && At(s, 3).Go? && n.attrNext in fs
    ensures ok ==> disk.alive && disk.script == Rest(s, 4) && disk.files == BothInstalled(fs, n)
    ensures !ok ==> RotationFailed(fs, disk.files, n)
    ensures n.db in fs && n.attrNext in fs ==> Content(disk.files, n.db) == Pick(DbWhich(s), fs[n.db], fs[n.next])
    ensures forall j :: 0 <= j < 4 && OnlyRefused(s, j) && {n.db, n.attr, n.attrNext} <= fs.Keys ==>
              disk.alive && disk.files == fs - GivenUp(n, j)
  {
    ghost var now := disk.files;
    RestOfRest(s, 2, 1);
    RestOfRest(s, 2, 2);
    RestOfRest(s, 2, 3);
    assert At(disk.script, 0) == At(s, 2) && At(disk.script, 1) == At(s, 3) && At(disk.script, 2) == At(s, 4);
    ok := RotatePair(disk, n.attr, n.attrNext, n.attrPrev);
    if ok {
      assert disk.files[n.db] == fs[n.next];
    } else {
      ghost var mid, rest, alive := disk.files, disk.script, disk.alive;
      SecondHalf(fs, now, mid, n);
      UndoIndex(disk, n);
      assert Interrupted(now, mid, n.attr, n.attrPrev) && Undone(mid, disk.files, n);
      SecondHalfRefused(fs, s, mid, rest, alive, n);
    }
  }

  /** A refusal in the second half. */
  lemma SecondHalfRefused(fs: Files, s: seq<Decision>, mid: Files, rest: seq<Decision>, alive: bool, n: IndexNames)
    requires n.Distinct() && n.next in fs && At(s, 0).Go? && At(s, 1).Go?
    requires n.attrNext in fs ==> StoppedAt(Rest(s, 2), rest, true, alive)
    requires n.attr in fs && n.attrNext in fs ==>
               mid == PairResult(Installed(fs, n.db, n.next, n.prev), Rest(s, 2), n.attr, n.attrNext, n.attrPrev)
    ensures forall j :: 0 <= j < 4 && OnlyRefused(s, j) && {n.db, n.attr, n.attrNext} <= fs.Keys ==>
              && alive && AllGo(rest) && n.db in mid && n.prev in mid
              && Moved(Moved(mid, n.db, n.next), n.prev, n.db) == fs - GivenUp(n, j)
  {
    var now := Installed(fs, n.db, n.next, n.prev);
    forall j | 0 <= j < 4 && OnlyRefused(s, j) && {n.db, n.attr, n.attrNext} <= fs.Keys
      ensures && alive && AllGo(rest) && n.db in mid && n.prev in mid
              && Moved(Moved(mid, n.db, n.next), n.prev, n.db) == fs - GivenUp(n, j)
    {
      OnlyRefusedRest(s, j);
      PairRefused(now, Rest(s, 2), rest, alive, j - 2, n.attr, n.attrNext, n.attrPrev);
      RolledBack(fs, n, if j == 2 then {} else {n.attrPrev});
    }
  }

  lemma OnlyRefusedRest(script: seq<Decision>, j: nat)
    requires OnlyRefused(script, j) && At(script, 0).Go? && At(script, 1).Go?
    ensures j >= 2 && OnlyRefused(Rest(script, 2), j - 2)
  {
    assert j >= 2;
    var r := Rest(script, 2);
    assert At(r, j - 2) == At(script, j);
    forall i: nat | i != j - 2
      ensures At(r, i).Go?
    {
      assert At(r, i) == At(script, 2 + i);
    }
  }

  /** Undoing the index half puts the index and its successor back. */
  lemma RolledBack(fs: Files, n: IndexNames, gone: set<string>)
    requires n.Distinct() && n.db in fs && n.next in fs && gone <= {n.attrPrev}
    ensures var mid := Installed(fs, n.db, n.next, n.prev) - gone;
            n.db in mid && n.prev in mid && Moved(Moved(mid, n.db, n.next), n.prev, n.db) == fs - {n.prev} - gone
  {
  }

  /** However rotate_index goes, the previous index and the previous attributes are
      still on the disk, the index file holds the old or the new rows, and no other
      file is touched. */
  lemma NothingIsLost(fs: Files, fs': Files, n: IndexNames)
    requires n.Distinct()
    requires (n.next in fs && n.attrNext in fs && fs' == BothInstalled(fs, n)) || RotationFailed(fs, fs', n)
    ensures SameOutside(fs, fs', n.All()) && Kept(fs, fs', n)
  {
    if n.next in fs && n.attrNext in fs && fs' == BothInstalled(fs, n) {
      InstalledKeeps(fs, n);
    } else if Interrupted(fs, fs', n.db, n.prev) {
      InterruptedKeeps(fs, fs', n);
    } else {
      var mid :| Interrupted(Installed(fs, n.db, n.next, n.prev), mid, n.attr, n.attrPrev) && Undone(mid, fs', n);
      UndoneKeepsAll(fs, mid, fs', n);
    }
  }

  /** The previous index and attributes are somewhere, and the index file holds the old
      or the new rows. */
  ghost predicate Kept(fs: Files, fs': Files, n: IndexNames)
  {
    && (n.db in fs ==> Survives(fs[n.db], fs', n.db, n.prev))
    && (n.attr in fs ==> Survives(fs[n.attr], fs', n.attr, n.attrPrev))
    && (n.db in fs && n.db in fs' ==> fs'[n.db] == fs[n.db] || (n.next in fs && fs'[n.db] == fs[n.next]))
  }

  lemma InstalledKeeps(fs: Files, n: IndexNames)
    requires n.Distinct() && n.next in fs && n.attrNext in fs
    ensures SameOutside(fs, BothInstalled(fs, n), n.All()) && Kept(fs, BothInstalled(fs, n), n)
  {
  }

  /** Where everything is when both pairs are in place: the new files under the names,
      what stood there before under the old names, and nothing under the new names. */
  lemma InstalledMeaning(fs: Files, n: IndexNames)
    requires n.Distinct() && n.next in fs && n.attrNext in fs
    ensures var r := BothInstalled(fs, n);
            && n.db in r && r[n.db] == fs[n.next] && n.next !in r
            && n.attr in r && r[n.attr] == fs[n.attrNext] && n.attrNext !in r
            && Content(r, n.prev) == Content(fs, if n.db in fs then n.db else n.prev)
            && Content(r, n.attrPrev) == Content(fs, if n.attr in fs then n.attr else n.attrPrev)
            && SameOutside(fs, r, n.All())
  {
    InstalledKeeps(fs, n);
  }

  lemma InterruptedKeeps(fs: Files, fs': Files, n: IndexNames)
    requires n.Distinct() && Interrupted(fs, fs', n.db, n.prev)
    ensures SameOutside(fs, fs', n.All()) && Kept(fs, fs', n)
  {
  }

  lemma UndoneKeepsAll(fs: Files, mid: Files, fs': Files, n: IndexNames)
    requires n.Distinct() && n.next in fs && Undone(mid, fs', n)
    requires Interrupted(Installed(fs, n.db, n.next, n.prev), mid, n.attr, n.attrPrev)
    ensures SameOutside(fs, fs', n.All()) && Kept(fs, fs', n)
  {
    SecondHalf(fs, Installed(fs, n.db, n.next, n.prev), mid, n);
    UndoneKeeps(mid, fs', n);
  }

  lemma SecondHalf(fs: Files, now: Files, mid: Files, n: IndexNames)
    requires n.Distinct() && n.next in fs
    requires now == Installed(fs, n.db, n.next, n.prev) && Interrupted(now, mid, n.attr, n.attrPrev)
    ensures SameOutside(fs, mid, n.All())
    ensures n.db in mid && mid[n.db] == fs[n.next]
    ensures n.db in fs ==> n.prev in mid && mid[n.prev] == fs[n.db]
    ensures n.attr in fs ==> Survives(fs[n.attr], mid, n.attr, n.attrPrev)
  {
  }

  lemma UndoneKeeps(fs: Files, fs': Files, n: IndexNames)
    requires n.Distinct() && n.db in fs && Undone(fs, fs', n)
    ensures SameOutside(fs, fs', {n.db, n.next, n.prev})
    ensures n.prev in fs ==> Survives(fs[n.prev], fs', n.db, n.prev)
    ensures n.db in fs' ==> fs'[n.db] == fs[n.db] || (n.prev in fs && fs'[n.db] == fs[n.prev])
  {
  }

  // ----- the functions of apps/apps.c

  /** rotate_index. The names are distinct for the suffixes in use; NamesDistinct
      says exactly when. */
  method RotateIndex(disk: Disk, db: string, newSuffix: string, oldSuffix: string) returns (ok: bool)
    requires NamesFor(db, newSuffix, oldSuffix).Distinct()
    modifies disk
    ensures disk.published == old(disk.published) && (disk.alive ==> old(disk.alive))
    ensures var n, fs, fs' := NamesFor(db, newSuffix, oldSuffix), old(disk.files), disk.files;
            && (ok <==> && Fits(db, newSuffix, oldSuffix) && old(disk.alive)
                        && (forall i: nat :: i < 4 ==> At(old(disk.script), i).Go?)
                        && n.next in fs && n.attrNext in fs)
            && (ok ==> disk.alive && disk.script == Rest(old(disk.script), 4) && fs' == BothInstalled(fs, n))
            && (Fits(db, newSuffix, oldSuffix) && old(disk.alive) && {n.db, n.next, n.attrNext} <= fs.Keys ==>
                  Content(fs', n.db) == Pick(DbWhich(old(disk.script)), fs[n.db], fs[n.next]))
            && (!Fits(db, newSuffix, oldSuffix) ==> fs' == fs)
            && SameOutside(fs, fs', n.All())
            && (n.db in fs ==> Survives(fs[n.db], fs', n.db, n.prev))
            && (n.attr in fs ==> Survives(fs[n.attr], fs', n.attr, n.attrPrev))
            && (n.db in fs && n.db in fs' ==> fs'[n.db] == fs[n.db] || (n.next in fs && fs'[n.db] == fs[n.next]))
            && (forall j :: 0 <= j < 4 && Fits(db, newSuffix, oldSuffix) && old(disk.alive)
                            && OnlyRefused(old(disk.script), j) && {n.db, n.next, n.attr, n.attrNext} <= fs.Keys ==>
                  disk.alive && fs' == fs - GivenUp(n, j))
  {
    var n := NamesFor(db, newSuffix, oldSuffix);
    if !Fits(db, newSuffix, oldSuffix) {
      return false;
    }
    ok := RotateNames(disk, n);
    NothingIsLost(old(disk.files), disk.files, n);
  }

  datatype SerialNames = SerialNames(cur: string, next: string, prev: string) {
    ghost function All(): set<string> {
      {cur, next, prev}
    }
  }

  function SerialNamesFor(serial: string, newSuffix: string, oldSuffix: string): SerialNames
  {
    SerialNames(serial, serial + "." + newSuffix, serial + "." + oldSuffix)
  }

  /** The length test of rotate_serial. */
  predicate SerialFits(serial: string, newSuffix: string, oldSuffix: string)
  {
    |serial| + |newSuffix| + 1 < BSIZE && |serial| + |oldSuffix| + 1 < BSIZE
  }

  /** rotate_serial. */
  method RotateSerial(disk: Disk, serial: string, newSuffix: string, oldSuffix: string) returns (ok: bool)
    requires newSuffix != oldSuffix
    modifies disk
    ensures disk.published == old(disk.published) && (disk.alive ==> old(disk.alive))
    ensures var n, fs, fs' := SerialNamesFor(serial, newSuffix, oldSuffix), old(disk.files), disk.files;
            && n.cur != n.next && n.cur != n.prev && n.next != n.prev
            && (ok <==> && SerialFits(serial, newSuffix, oldSuffix) && old(disk.alive)
                        && At(old(disk.script), 0).Go? && At(old(disk.script), 1).Go? && n.next in fs)
            && (ok ==> disk.alive && disk.script == Rest(old(disk.script), 2)
                       && fs' == Installed(fs, n.cur, n.next, n.prev))
            && (!ok ==> Interrupted(fs, fs', n.cur, n.prev))
            && (SerialFits(serial, newSuffix, oldSuffix) && old(disk.alive) && n.cur in fs && n.next in fs ==>
                  && fs' == PairResult(fs, old(disk.script), n.cur, n.next, n.prev)
                  && Content(fs', n.cur) == Pick(PairWhich(old(disk.script)), fs[n.cur], fs[n.next]))
  {
    var n := SerialNamesFor(serial, newSuffix, oldSuffix);
    assert |n.next| > |n.cur| && |n.prev| > |n.cur|;
    assert n.next != n.prev by {
      assert n.next == (serial + ".") + newSuffix && n.prev == (serial + ".") + oldSuffix;
      SamePrefix(serial + ".", newSuffix, oldSuffix);
    }
    if !SerialFits(serial, newSuffix, oldSuffix) {
      return false;
    }
    ok := RotatePair(disk, n.cur, n.next, n.prev);
  }

  /** save_serial with a suffix: once the file is open nothing more is looked at. */
  method SaveSerial(disk: Disk, serial: string, suffix: string, n: nat) returns (ok: bool)
    modifies disk
    ensures disk.published == old(disk.published)
    ensures ok <==> |serial| + |suffix| + 1 < BSIZE && old(disk.alive) && At(old(disk.script), 0).Opens()
    ensures ok ==> disk.alive && disk.script == Rest(old(disk.script), 1)
                   && disk.files ==
                      old(disk.files)[serial + "." + suffix := Left(SerialNumber(n), At(old(disk.script), 0))]
    ensures SameOutside(old(disk.files), disk.files, {serial + "." + suffix})
  {
    if |serial| + |suffix| + 1 >= BSIZE {
      return false;
    }
    var whole;
    ok, whole := disk.Write(serial + "." + suffix, SerialNumber(n));
  }

  /** save_index: the rows, whose writing is looked at but not their closing, then the
      attributes, of which only the opening is looked at. An empty database is not
      saved. */
  method SaveIndex(disk: Disk, db: string, suffix: string, rows: seq<Row>, unique: bool) returns (ok: bool)
    modifies disk
    ensures disk.published == old(disk.published)
    ensures ok <==> && |db| + |suffix| + 6 < BSIZE && rows != []
                    && old(disk.alive) && At(old(disk.script), 0).Writes() && At(old(disk.script), 1).Opens()
    ensures ok ==> disk.alive && disk.script == Rest(old(disk.script), 2)
                   && disk.files ==
                      old(disk.files)[db + "." + suffix := Left(Index(rows), At(old(disk.script), 0))]
                                     [db + ".attr." + suffix := Left(Attr(Some(unique)), At(old(disk.script), 1))]
    ensures SameOutside(old(disk.files), disk.files, {db + "." + suffix, db + ".attr." + suffix})
  {
    if |db| + |suffix| + 6 >= BSIZE {
      return false;
    }
    var whole;
    ok, whole := disk.Write(db + "." + suffix, Index(rows));
    if !ok || !whole || rows == [] {
      return false;
    }
    ok, whole := disk.Write(db + ".attr." + suffix, Attr(Some(unique)));
  }
}
