/** The text form of the database: a line per row, its fields separated by tabs, with a
    backslash before a tab inside a field (crypto/txt_db/txt_db.c:21-139, 196-242). */
module TxtDbFile {
  import opened Prelude
  import CaDatabase
  import SerialKey
  import TxtDb

  const BUFSIZE := 512

  type Fields = seq<string>

  // ----- writing

  predicate EndsEscape(s: string)
  {
    s != "" && s[|s| - 1] == '\\'
  }

  function Escaped(f: string): (e: string)
    ensures |e| <= 2 * |f|
  {
    if f == "" then "" else (if f[0] == '\t' then ['\\', '\t'] else [f[0]]) + Escaped(f[1..])
  }

  /** A line without its end. */
  function Joined(fs: Fields): string
    requires fs != []
  {
    if |fs| == 1 then Escaped(fs[0]) else Escaped(fs[0]) + ['\t'] + Joined(fs[1..])
  }

  function Written(rows: seq<Fields>): string
    requires forall i :: 0 <= i < |rows| ==> rows[i] != []
  {
    if rows == [] then "" else Joined(rows[0]) + ['\n'] + Written(rows[1..])
  }

  // ----- splitting a line

  /** The fields from here on, when `cur` is what the current field, number n, holds so
      far; None when their number is wrong. A tab after a backslash takes its place. */
  function FieldsFrom(rest: string, cur: string, n: nat, num: nat): Option<Fields>
    decreases |rest|
  {
    if rest == "" then if n == num then Some([cur]) else None
    else if rest[0] == '\t' && !EndsEscape(cur) then
      if n >= num then if n == num && rest == ['\t'] then Some([cur]) else None
      else match FieldsFrom(rest[1..], "", n + 1, num)
        case None => None
        case Some(fs) => Some([cur] + fs)
    else if rest[0] == '\t' then FieldsFrom(rest[1..], cur[..|cur| - 1] + ['\t'], n, num)
    else FieldsFrom(rest[1..], cur + [rest[0]], n, num)
  }

  function SplitLine(line: string, num: nat): Option<Fields>
  {
    FieldsFrom(line, "", 1, num)
  }

  /** Escaping a field and reading it again gives the field. */
  lemma {:induction false} FieldThrough(f: string, cur: string, rest: string, n: nat, num: nat)
    ensures FieldsFrom(Escaped(f) + rest, cur, n, num) == FieldsFrom(rest, cur + f, n, num)
    decreases |f|
  {
    if f == "" {
      assert Escaped(f) + rest == rest && cur + f == cur;
    } else {
      var t := Escaped(f[1..]) + rest;
      assert cur + f == (cur + [f[0]]) + f[1..];
      FieldThrough(f[1..], cur + [f[0]], rest, n, num);
      assert Escaped(f) + rest == (if f[0] == '\t' then ['\\', '\t'] else [f[0]]) + t;
      CharThrough(f[0], cur, t, n, num);
    }
  }

  /** One character of a field. */
  lemma CharThrough(c: char, cur: string, t: string, n: nat, num: nat)
    ensures FieldsFrom((if c == '\t' then ['\\', '\t'] else [c]) + t, cur, n, num) == FieldsFrom(t, cur + [c], n, num)
  {
    if c == '\t' {
      var e, u := cur + ['\\'], ['\t'] + t;
      assert ['\\', '\t'] + t == ['\\'] + u && (['\\'] + u)[1..] == u && u[1..] == t;
      assert e[..|e| - 1] == cur;
    } else {
      assert ([c] + t)[1..] == t;
    }
  }

  /** No field but the last ends in a backslash. */
  predicate Separable(fs: Fields)
  {
    forall i :: 0 <= i < |fs| - 1 ==> !EndsEscape(fs[i])
  }

  lemma {:induction false} LineThrough(fs: Fields, n: nat, num: nat)
    requires fs != [] && n + |fs| == num + 1 && Separable(fs)
    ensures FieldsFrom(Joined(fs), "", n, num) == Some(fs)
    decreases |fs|
  {
    if |fs| == 1 {
      FieldThrough(fs[0], "", "", n, num);
      assert Escaped(fs[0]) + "" == Joined(fs) && "" + fs[0] == fs[0] && fs == [fs[0]];
    } else {
      LineThrough(fs[1..], n + 1, num);
      TabEnds(fs[0], Joined(fs[1..]), n, num, fs[1..]);
      var t := ['\t'] + Joined(fs[1..]);
      FieldThrough(fs[0], "", t, n, num);
      assert Escaped(fs[0]) + t == Joined(fs) && "" + fs[0] == fs[0];
      assert [fs[0]] + fs[1..] == fs;
    }
  }

  lemma TabEnds(cur: string, rest: string, n: nat, num: nat, fs: Fields)
    requires !EndsEscape(cur) && n < num && FieldsFrom(rest, "", n + 1, num) == Some(fs)
    ensures FieldsFrom(['\t'] + rest, cur, n, num) == Some([cur] + fs)
  {
    assert (['\t'] + rest)[1..] == rest;
  }

  predicate Free(s: string)
  {
    forall i :: 0 <= i < |s| ==> s[i] != '\n' && s[i] != '\0'
  }

  predicate AllFree(fs: Fields)
  {
    forall i :: 0 <= i < |fs| ==> Free(fs[i])
  }

  /** What the fields of any line look like. */
  lemma {:induction false} FieldsShape(rest: string, cur: string, n: nat, num: nat)
    requires Free(rest) && Free(cur) && FieldsFrom(rest, cur, n, num).Some?
    ensures var fs := FieldsFrom(rest, cur, n, num).value;
            && fs != [] && n + |fs| == num + 1 && AllFree(fs) && Separable(fs)
            && (cur != "" && cur[0] != '#' ==> fs[0] != "" && fs[0][0] != '#')
    decreases |rest|
  {
    var fs := FieldsFrom(rest, cur, n, num).value;
    if rest == "" || (rest[0] == '\t' && !EndsEscape(cur) && n >= num) {
    } else if rest[0] == '\t' && !EndsEscape(cur) {
      FieldsShape(rest[1..], "", n + 1, num);
      assert forall i :: 1 <= i < |fs| ==> fs[i] == fs[1..][i - 1];
    } else if rest[0] == '\t' {
      FieldsShape(rest[1..], cur[..|cur| - 1] + ['\t'], n, num);
    } else {
      FieldsShape(rest[1..], cur + [rest[0]], n, num);
    }
  }

  /** The rows that a file can hold. */
  predicate Storable(fs: Fields, num: nat)
  {
    && fs != [] && |fs| == num
    && AllFree(fs) && Separable(fs)
    && (fs[0] == "" || fs[0][0] != '#')
  }

  lemma SplitIsStorable(line: string, num: nat)
    requires Free(line) && (line == "" || line[0] != '#') && SplitLine(line, num).Some?
    ensures Storable(SplitLine(line, num).value, num)
  {
    FieldsShape(line, "", 1, num);
    if line != "" && line[0] != '\t' {
      assert "" + [line[0]] == [line[0]];
      FieldsShape(line[1..], [line[0]], 1, num);
    }
  }

  // ----- reading a file

  datatype Result = Failed | Rows(rows: seq<Fields>)

  /** How many characters BIO_gets takes: through the end of the line, at most `room`. */
  function Gets(t: string, room: nat): (k: nat)
    ensures k <= |t| && k <= room && (room > 0 && t != "" ==> k > 0)
  {
    if room == 0 || t == "" then 0 else if t[0] == '\n' then 1 else 1 + Gets(t[1..], room - 1)
  }

  /** The characters that strlen counts. */
  function Visible(s: string): (v: string)
    ensures |v| <= |s| && v == s[..|v|] && (forall i :: 0 <= i < |v| ==> v[i] != '\0')
    ensures |v| < |s| ==> s[|v|] == '\0'
  {
    if s == "" || s[0] == '\0' then "" else [s[0]] + Visible(s[1..])
  }

  /** The room left in the buffer, which grows whenever a line is continued. */
  function Grown(line: string, size: nat): nat
  {
    if line == "" then size else size + BUFSIZE
  }

  /** Reading on, with a line begun and a buffer of the given size. */
  function ReadFrom(t: string, line: string, size: nat, num: nat): Result
    requires |line| < size
    decreases |t|
  {
    var k := Gets(t, Grown(line, size) - |line| - 1);
    var v := Visible(t[..k]);
    if v == "" then Rows([])
    else if line == "" && v[0] == '#' then
      ReadFrom(t[k..], "", size, num)
    else if v[|v| - 1] != '\n' then ReadFrom(t[k..], line + v, Grown(line, size), num)
    else AddRow(SplitLine(line + v[..|v| - 1], num), ReadFrom(t[k..], "", Grown(line, size), num))
  }

  function AddRow(row: Option<Fields>, rest: Result): Result
  {
    if row.None? || rest.Failed? then Failed else Rows([row.value] + rest.rows)
  }

  function Read(t: string, num: nat): Result
  {
    ReadFrom(t, "", BUFSIZE, num)
  }

  // ----- what can be read

  lemma {:induction false} GetsStops(t: string, room: nat)
    ensures forall i :: 0 <= i < Gets(t, room) - 1 ==> t[i] != '\n'
    decreases room
  {
    if room > 0 && t != "" && t[0] != '\n' {
      GetsStops(t[1..], room - 1);
      assert forall i :: 1 <= i < Gets(t, room) - 1 ==> t[i] == t[1..][i - 1];
    }
  }

  /** What one BIO_gets adds to a line holds at most one line end, at its end. */
  lemma ChunkShape(t: string, room: nat)
    ensures var v := Visible(t[..Gets(t, room)]);
            v != "" ==> Free(v[..|v| - 1]) && (v[|v| - 1] != '\n' ==> Free(v))
  {
    GetsStops(t, room);
    var v := Visible(t[..Gets(t, room)]);
    assert forall i :: 0 <= i < |v| ==> v[i] == t[..Gets(t, room)][i] == t[i];
  }

  ghost predicate AllStorable(rows: seq<Fields>, num: nat)
  {
    forall i :: 0 <= i < |rows| ==> Storable(rows[i], num)
  }

  /** Every row that is read, from whatever file, can be stored again. */
  lemma {:induction false} ReadIsStorable(t: string, line: string, size: nat, num: nat)
    requires |line| < size && Free(line) && (line == "" || line[0] != '#')
    requires ReadFrom(t, line, size, num).Rows?
    ensures AllStorable(ReadFrom(t, line, size, num).rows, num)
    decreases |t|
  {
    var k := Gets(t, Grown(line, size) - |line| - 1);
    var v := Visible(t[..k]);
    ChunkShape(t, Grown(line, size) - |line| - 1);
    if v == "" {
    } else if line == "" && v[0] == '#' {
      ReadIsStorable(t[k..], "", size, num);
    } else if v[|v| - 1] != '\n' {
      FreeSum(line, v);
      ReadIsStorable(t[k..], line + v, Grown(line, size), num);
    } else {
      FreeSum(line, v[..|v| - 1]);
      ReadIsStorable(t[k..], "", Grown(line, size), num);
      var row, rest := SplitLine(line + v[..|v| - 1], num), ReadFrom(t[k..], "", Grown(line, size), num);
      assert row.Some? && rest.Rows?;
      SplitIsStorable(line + v[..|v| - 1], num);
      StorableAdded(row.value, rest.rows, num);
    }
  }

  lemma StorableAdded(row: Fields, rows: seq<Fields>, num: nat)
    requires Storable(row, num) && AllStorable(rows, num)
    ensures AllStorable([row] + rows, num)
  {
  }

  lemma FreeSum(a: string, b: string)
    requires Free(a) && Free(b)
    ensures Free(a + b)
    ensures a != "" ==> (a + b)[0] == a[0]
    ensures a == "" && b != "" ==> (a + b)[0] == b[0]
  {
  }

  // ----- reading what was written

  lemma {:induction false} GetsLine(l: string, rest: string, room: nat)
    requires Free(l)
    ensures Gets(l + ['\n'] + rest, room) == if room > |l| then |l| + 1 else room
    decreases |l|
  {
    var t := l + ['\n'] + rest;
    if l != "" && room > 0 {
      assert t[1..] == l[1..] + ['\n'] + rest;
      GetsLine(l[1..], rest, room - 1);
    }
  }

  lemma {:induction false} AllVisible(s: string)
    requires forall i :: 0 <= i < |s| ==> s[i] != '\0'
    ensures Visible(s) == s
  {
    var v := Visible(s);
    assert |v| == |s|;
  }

  /** The rest of a line fits the buffer. */
  lemma LineFits(l: string, rest: string, line: string, size: nat, num: nat)
    requires |line| < size && Free(l) && (line != "" || l == "" || l[0] != '#')
    requires Grown(line, size) - |line| - 1 > |l|
    ensures ReadFrom(l + ['\n'] + rest, line, size, num) ==
            AddRow(SplitLine(line + l, num), ReadFrom(rest, "", Grown(line, size), num))
  {
    var t := l + ['\n'] + rest;
    GetsLine(l, rest, Grown(line, size) - |line| - 1);
    AllVisible(l + ['\n']);
    LinePieces(l, rest);
    ReadStep(t, line, size, num, |l| + 1, l + ['\n']);
    var v := l + ['\n'];
    assert (line + v)[..|line + v| - 1] == line + l;
  }

  lemma LinePieces(l: string, rest: string)
    ensures var t := l + ['\n'] + rest; t[..|l| + 1] == l + ['\n'] && t[|l| + 1..] == rest
  {
  }

  /** It does not fit: the line is continued. */
  lemma LineContinues(l: string, rest: string, line: string, size: nat, num: nat, room: nat)
    requires |line| < size && Free(l) && (line != "" || l == "" || l[0] != '#')
    requires 0 < room == Grown(line, size) - |line| - 1 <= |l|
    ensures ReadFrom(l + ['\n'] + rest, line, size, num) ==
            ReadFrom(l[room..] + ['\n'] + rest, line + l[..room], Grown(line, size), num)
  {
    var t := l + ['\n'] + rest;
    GetsLine(l, rest, room);
    assert t[..room] == l[..room] && t[room..] == l[room..] + ['\n'] + rest;
    AllVisible(l[..room]);
  }

  /** A line is read as one line, in however many pieces. */
  lemma {:induction false} LineRead(l: string, rest: string, line: string, size: nat, num: nat) returns (after: nat)
    requires 1 < size && |line| < size && Free(l) && (line != "" || l == "" || l[0] != '#')
    ensures after >= size
    ensures ReadFrom(l + ['\n'] + rest, line, size, num) ==
            AddRow(SplitLine(line + l, num), ReadFrom(rest, "", after, num))
    decreases |l|
  {
    var room := Grown(line, size) - |line| - 1;
    if room > |l| {
      LineFits(l, rest, line, size, num);
      after := Grown(line, size);
    } else {
      LineContinues(l, rest, line, size, num, room);
      assert line + l == (line + l[..room]) + l[room..];
      after := LineRead(l[room..], rest, line + l[..room], Grown(line, size), num);
    }
  }

  /** A line that is written is not taken for a comment. */
  lemma JoinedStarts(fs: Fields, num: nat)
    requires Storable(fs, num)
    ensures Joined(fs) == "" || Joined(fs)[0] != '#'
  {
  }

  lemma {:induction false} EscapedFree(f: string)
    requires Free(f)
    ensures Free(Escaped(f))
    decreases |f|
  {
    if f != "" {
      EscapedFree(f[1..]);
    }
  }

  lemma {:induction false} JoinedFree(fs: Fields)
    requires fs != [] && AllFree(fs)
    ensures Free(Joined(fs))
    decreases |fs|
  {
    EscapedFree(fs[0]);
    if |fs| > 1 {
      JoinedFree(fs[1..]);
    }
  }

  lemma {:induction false} WrittenIsRead(rows: seq<Fields>, size: nat, num: nat)
    requires AllStorable(rows, num) && size > 1
    ensures ReadFrom(Written(rows), "", size, num) == Rows(rows)
    decreases |rows|
  {
    if rows != [] {
      var after := FirstLine(rows[0], Written(rows[1..]), size, num);
      WrittenIsRead(rows[1..], after, num);
      assert [rows[0]] + rows[1..] == rows;
    }
  }

  lemma {:induction false} GetsFree(l: string, room: nat)
    requires Free(l)
    ensures Gets(l, room) == if room < |l| then room else |l|
    decreases |l|
  {
    if l != "" && room > 0 {
      GetsFree(l[1..], room - 1);
    }
  }

  /** A line that is not ended is not read. */
  lemma {:induction false} UnendedLine(l: string, line: string, size: nat, num: nat)
    requires 1 < size && |line| < size && Free(l) && (line != "" || l == "" || l[0] != '#')
    ensures ReadFrom(l, line, size, num) == Rows([])
    decreases |l|
  {
    var room := Grown(line, size) - |line| - 1;
    var k := if room < |l| then room else |l|;
    GetsFree(l, room);
    AllVisible(l[..k]);
    ReadStep(l, line, size, num, k, l[..k]);
    if l != "" {
      UnendedLine(l[k..], line + l[..k], Grown(line, size), num);
    }
  }

  /** How many lines are whole in the first p characters. */
  function WholeLines(rows: seq<Fields>, p: nat): (k: nat)
    requires forall i :: 0 <= i < |rows| ==> rows[i] != []
    ensures k <= |rows|
  {
    if rows == [] || p <= |Joined(rows[0])| then 0
    else 1 + WholeLines(rows[1..], p - |Joined(rows[0])| - 1)
  }

  lemma {:induction false} AllLinesWhole(rows: seq<Fields>)
    requires forall i :: 0 <= i < |rows| ==> rows[i] != []
    ensures WholeLines(rows, |Written(rows)|) == |rows|
    decreases |rows|
  {
    if rows != [] {
      AllLinesWhole(rows[1..]);
    }
  }

  /** What is read from a file that was cut short: the rows whose lines are whole. */
  lemma {:induction false} TornIsRead(rows: seq<Fields>, p: nat, size: nat, num: nat)
    requires AllStorable(rows, num) && size > 1 && p <= |Written(rows)|
    ensures ReadFrom(Written(rows)[..p], "", size, num) == Rows(rows[..WholeLines(rows, p)])
    decreases |rows|
  {
    if rows == [] {
      TornNone(rows, p, size, num);
    } else if p <= |Joined(rows[0])| {
      TornFirst(rows, p, size, num);
    } else {
      var q, after := TornLater(rows, p, size, num);
      TornIsRead(rows[1..], q, after, num);
      TornMore(rows, p, q, size, after, num);
    }
  }

  lemma TornNone(rows: seq<Fields>, p: nat, size: nat, num: nat)
    requires rows == [] && size > 1 && p <= |Written(rows)|
    ensures ReadFrom(Written(rows)[..p], "", size, num) == Rows(rows[..WholeLines(rows, p)])
  {
    UnendedLine("", "", size, num);
  }

  lemma TornMore(rows: seq<Fields>, p: nat, q: nat, size: nat, after: nat, num: nat)
    requires AllStorable(rows, num) && size > 1 && after > 1 && rows != [] && p <= |Written(rows)|
    requires q <= |Written(rows[1..])| && WholeLines(rows, p) == WholeLines(rows[1..], q) + 1
    requires ReadFrom(Written(rows[1..])[..q], "", after, num) == Rows(rows[1..][..WholeLines(rows[1..], q)])
    requires ReadFrom(Written(rows)[..p], "", size, num) ==
             AddRow(Some(rows[0]), ReadFrom(Written(rows[1..])[..q], "", after, num))
    ensures ReadFrom(Written(rows)[..p], "", size, num) == Rows(rows[..WholeLines(rows, p)])
  {
    OneMore(rows, WholeLines(rows[1..], q), ReadFrom(Written(rows[1..])[..q], "", after, num));
  }

  lemma OneMore(rows: seq<Fields>, k: nat, r: Result)
    requires rows != [] && k < |rows| && r == Rows(rows[1..][..k])
    ensures AddRow(Some(rows[0]), r) == Rows(rows[..k + 1])
  {
    FirstKept(rows, k);
  }

  lemma TornFirst(rows: seq<Fields>, p: nat, size: nat, num: nat)
    requires AllStorable(rows, num) && size > 1 && rows != [] && p <= |Joined(rows[0])|
    ensures ReadFrom(Written(rows)[..p], "", size, num) == Rows(rows[..WholeLines(rows, p)])
  {
    var l := Joined(rows[0]);
    JoinedFree(rows[0]);
    JoinedStarts(rows[0], num);
    CutText(l, Written(rows[1..]), p);
    UnendedLine(l[..p], "", size, num);
  }

  lemma TornLater(rows: seq<Fields>, p: nat, size: nat, num: nat) returns (q: nat, after: nat)
    requires AllStorable(rows, num) && size > 1 && rows != [] && |Joined(rows[0])| < p <= |Written(rows)|
    ensures after >= size && AllStorable(rows[1..], num)
    ensures q <= |Written(rows[1..])| && WholeLines(rows, p) == WholeLines(rows[1..], q) + 1
    ensures ReadFrom(Written(rows)[..p], "", size, num) ==
            AddRow(Some(rows[0]), ReadFrom(Written(rows[1..])[..q], "", after, num))
  {
    var l, rest := Joined(rows[0]), Written(rows[1..]);
    CutText(l, rest, p);
    q := p - |l| - 1;
    after := FirstLine(rows[0], rest[..q], size, num);
  }

  lemma CutText(l: string, rest: string, p: nat)
    requires p <= |l| + 1 + |rest|
    ensures var t := l + ['\n'] + rest;
            t[..p] == if p <= |l| then l[..p] else l + ['\n'] + rest[..p - |l| - 1]
  {
  }

  lemma FirstKept(rows: seq<Fields>, k: nat)
    requires rows != [] && k < |rows|
    ensures [rows[0]] + rows[1..][..k] == rows[..k + 1]
  {
  }

  /** A row that can be stored is read back from its line. */
  lemma FirstLine(fs: Fields, rest: string, size: nat, num: nat) returns (after: nat)
    requires Storable(fs, num) && size > 1
    ensures after >= size
    ensures ReadFrom(Joined(fs) + ['\n'] + rest, "", size, num) == AddRow(Some(fs), ReadFrom(rest, "", after, num))
  {
    JoinedFree(fs);
    JoinedStarts(fs, num);
    after := LineRead(Joined(fs), rest, "", size, num);
    assert "" + Joined(fs) == Joined(fs);
    LineThrough(fs, 1, num);
  }

  /** Rows come back from a file exactly when each of them can be stored: it has the
      right number of fields, no line end inside, no first field that starts like a
      comment, and no field but the last ending in a backslash. */
  lemma FileRoundTrip(rows: seq<Fields>, num: nat)
    requires forall i :: 0 <= i < |rows| ==> rows[i] != []
    ensures Read(Written(rows), num) == Rows(rows) <==> AllStorable(rows, num)
  {
    if AllStorable(rows, num) {
      WrittenIsRead(rows, BUFSIZE, num);
    }
    if Read(Written(rows), num) == Rows(rows) {
      ReadIsStorable(Written(rows), "", BUFSIZE, num);
    }
  }

  /** Whatever file could be read, writing its rows and reading them again gives the
      same rows. */
  lemma SavingKeepsWhatWasLoaded(t: string, num: nat)
    requires Read(t, num).Rows?
    ensures AllStorable(Read(t, num).rows, num) && Read(Written(Read(t, num).rows), num) == Read(t, num)
  {
    ReadIsStorable(t, "", BUFSIZE, num);
    FileRoundTrip(Read(t, num).rows, num);
  }

  // ----- the loops

  /** The inner loop of TXT_DB_read: it leaves the line at an unescaped tab too many. */
  method SplitFields(line: string, num: nat) returns (r: Option<Fields>)
    requires num > 0
    ensures r == SplitLine(line, num)
  {
    var fields: Fields, cur := [], "";
    var f, esc := 0, false;
    var left := false;
    AddFrontNone(SplitLine(line, num));
    assert line[0..] == line;
    while f < |line| && !left
      invariant f <= |line| && |fields| < num && esc == EndsEscape(cur)
      invariant !left ==> SplitLine(line, num) == AddFront(fields, FieldsFrom(line[f..], cur, |fields| + 1, num))
      invariant left ==> |fields| + 1 == num
      invariant left ==> SplitLine(line, num) == if f == |line| then Some(fields + [cur]) else None
      decreases |line| - f
    {
      assert line[f..][1..] == line[f + 1..];
      if line[f] == '\t' && !esc {
        f := f + 1;
        if |fields| + 1 >= num {
          left := true;
        } else {
          AddFrontMore(fields, cur, FieldsFrom(line[f..], "", |fields| + 2, num));
          fields, cur := fields + [cur], "";
        }
      } else {
        if line[f] == '\t' {
          cur := cur[..|cur| - 1];
        }
        esc := line[f] == '\\';
        cur := cur + [line[f]];
        f := f + 1;
      }
    }
    assert f == |line| ==> line[f..] == "";
    r := if |fields| + 1 != num || f != |line| then None else Some(fields + [cur]);
  }

  ghost function AddFront(fs: Fields, r: Option<Fields>): Option<Fields>
  {
    if r.None? then None else Some(fs + r.value)
  }

  lemma AddFrontNone(r: Option<Fields>)
    ensures AddFront([], r) == r
  {
    if r.Some? {
      assert [] + r.value == r.value;
    }
  }

  lemma AddFrontMore(fs: Fields, cur: string, r: Option<Fields>)
    ensures AddFront(fs, if r.None? then None else Some([cur] + r.value)) == AddFront(fs + [cur], r)
  {
    if r.Some? {
      assert fs + ([cur] + r.value) == (fs + [cur]) + r.value;
    }
  }

  /** TXT_DB_read, the text being what the file holds. */
  method ReadDb(text: string, num: nat) returns (r: Result)
    requires num > 0
    ensures r == Read(text, num)
  {
    var rows: seq<Fields> := [];
    var t, line, size := text, "", BUFSIZE;
    AddRowsNone(Read(text, num));
    while true
      invariant |line| < size
      invariant Read(text, num) == AddRows(rows, ReadFrom(t, line, size, num))
      decreases |t|
    {
      var v;
      t, size, v := NextChunk(t, line, size, num);
      if v == "" {
        return Rows(rows);
      }
      if line == "" && v[0] == '#' {
        continue;
      }
      line := line + v;
      if line[|line| - 1] == '\n' {
        var ok;
        ok, rows := StoreRow(line[..|line| - 1], rows, num, ReadFrom(t, "", size, num));
        if !ok {
          return Failed;
        }
        line := "";
      }
    }
  }

  /** A finished line. */
  method StoreRow(line: string, rows: seq<Fields>, num: nat, ghost rest: Result) returns (ok: bool, rows': seq<Fields>)
    requires num > 0
    ensures AddRows(rows, AddRow(SplitLine(line, num), rest)) == if ok then AddRows(rows', rest) else Failed
  {
    rows' := rows;
    var row := SplitFields(line, num);
    ok := row.Some?;
    if ok {
      AddRowsMore(rows, row.value, rest);
      rows' := rows + [row.value];
    }
  }

  /** The growing of the buffer and BIO_gets: a chunk `v` and what it means for the
      rest of the reading. */
  method NextChunk(t: string, line: string, size: nat, ghost num: nat) returns (t': string, size': nat, v: string)
    requires |line| < size
    ensures |line| + |v| < size' && (v != "" ==> |t'| < |t|)
    ensures Continues(ReadFrom(t, line, size, num), t', line, size', v, num)
  {
    size' := size;
    if line != "" {
      size' := size' + BUFSIZE;
    }
    var k := Gets(t, size' - |line| - 1);
    v, t' := Visible(t[..k]), t[k..];
    ReadStep(t, line, size, num, k, v);
  }

  lemma ReadStep(t: string, line: string, size: nat, num: nat, k: nat, v: string)
    requires |line| < size && k == Gets(t, Grown(line, size) - |line| - 1) && v == Visible(t[..k])
    ensures Continues(ReadFrom(t, line, size, num), t[k..], line, Grown(line, size), v, num)
  {
    if v != "" {
      assert (line + v)[..|line + v| - 1] == line + v[..|v| - 1];
    }
  }

  ghost predicate Continues(all: Result, t: string, line: string, size: nat, v: string, num: nat)
    requires |line| + |v| < size
  {
    if v == "" then all == Rows([])
    else if line == "" && v[0] == '#' then all == ReadFrom(t, "", size, num)
    else
      var l := line + v;
      if l[|l| - 1] != '\n' then all == ReadFrom(t, l, size, num)
      else all == AddRow(SplitLine(l[..|l| - 1], num), ReadFrom(t, "", size, num))
  }

  ghost function AddRows(rows: seq<Fields>, r: Result): Result
  {
    if r.Failed? then Failed else Rows(rows + r.rows)
  }

  lemma AddRowsNone(r: Result)
    ensures AddRows([], r) == r
  {
    if r.Rows? {
      assert [] + r.rows == r.rows;
    }
  }

  lemma AddRowsMore(rows: seq<Fields>, row: Fields, r: Result)
    ensures AddRows(rows, AddRow(Some(row), r)) == AddRows(rows + [row], r)
  {
    if r.Rows? {
      assert rows + ([row] + r.rows) == (rows + [row]) + r.rows;
    }
  }

  /** A missing field is written like an empty one. */
  function Texts(pp: seq<Option<string>>): (fs: Fields)
    ensures |fs| == |pp| && forall j :: 0 <= j < |pp| ==> fs[j] == if pp[j].None? then "" else pp[j].value
  {
    seq(|pp|, j requires 0 <= j < |pp| => if pp[j].None? then "" else pp[j].value)
  }

  /** The first n fields, each with a tab after it. */
  ghost function Closed(fs: Fields, n: nat): string
    requires n <= |fs|
  {
    if n == 0 then "" else Closed(fs, n - 1) + Escaped(fs[n - 1]) + ['\t']
  }

  function Total(fs: Fields, n: nat): nat
    requires n <= |fs|
  {
    if n == 0 then 0 else Total(fs, n - 1) + |fs[n - 1]|
  }

  lemma {:induction false} TotalGrows(fs: Fields, n: nat, m: nat)
    requires n <= m <= |fs|
    ensures Total(fs, n) <= Total(fs, m)
  {
    if n < m {
      TotalGrows(fs, n, m - 1);
    }
  }

  lemma {:induction false} EscapedAppended(f: string, c: char)
    ensures Escaped(f + [c]) == Escaped(f) + if c == '\t' then ['\\', '\t'] else [c]
    decreases |f|
  {
    if f == "" {
      assert f + [c] == [c] && [c][1..] == "";
    } else {
      assert (f + [c])[1..] == f[1..] + [c];
      EscapedAppended(f[1..], c);
    }
  }

  lemma {:induction false} ClosedTail(fs: Fields, n: nat)
    requires 0 < n <= |fs|
    ensures Closed(fs, n) == Escaped(fs[0]) + ['\t'] + Closed(fs[1..], n - 1)
  {
    if n > 1 {
      ClosedTail(fs, n - 1);
      assert fs[n - 1] == fs[1..][n - 2];
    }
  }

  /** With the last tab replaced, this is the line. */
  lemma {:induction false} ClosedIsJoined(fs: Fields)
    requires fs != []
    ensures Closed(fs, |fs|) == Joined(fs) + ['\t']
    decreases |fs|
  {
    ClosedTail(fs, |fs|);
    if |fs| > 1 {
      ClosedIsJoined(fs[1..]);
    }
  }

  /** One character of a field. */
  method PutChar(buf: array<char>, start: nat, c: char) returns (p: nat)
    requires start + 1 < buf.Length
    modifies buf
    ensures start < p <= start + 2
    ensures buf[..p] == old(buf[..start]) + if c == '\t' then ['\\', '\t'] else [c]
  {
    p := start;
    if c == '\t' {
      buf[p] := '\\';
      p := p + 1;
    }
    buf[p] := c;
    p := p + 1;
  }

  /** The inner loop of TXT_DB_write: one field. */
  method PutField(buf: array<char>, start: nat, f: string) returns (p: nat)
    requires start + 2 * |f| <= buf.Length
    modifies buf
    ensures start <= p <= start + 2 * |f|
    ensures buf[..p] == old(buf[..start]) + Escaped(f)
  {
    ghost var front := buf[..start];
    p := start;
    var k := 0;
    while k < |f|
      invariant k <= |f| && start <= p <= start + 2 * k
      invariant buf[..p] == front + Escaped(f[..k])
    {
      p := PutChar(buf, p, f[k]);
      assert f[..k + 1] == f[..k] + [f[k]];
      EscapedAppended(f[..k], f[k]);
      k := k + 1;
    }
    assert f[..k] == f;
  }

  /** Writing one more character. */
  method PutOne(buf: array<char>, p: nat, c: char)
    requires p < buf.Length
    modifies buf
    ensures buf[..p] == old(buf[..p]) && buf[..p + 1] == old(buf[..p]) + [c]
  {
    buf[p] := c;
  }

  /** The outer loop of TXT_DB_write for one row: everything stays inside a buffer of
      twice the text and a character for each field. */
  method WriteRow(pp: seq<Option<string>>) returns (line: string)
    requires pp != []
    ensures line == Joined(Texts(pp)) + ['\n']
  {
    var fs := Texts(pp);
    var buf := new char[Total(fs, |fs|) * 2 + |pp|];
    var p, j := 0, 0;
    while j < |fs|
      invariant j <= |fs| && p <= 2 * Total(fs, j) + j && p <= buf.Length
      invariant buf[..p] == Closed(fs, j) && (j > 0 ==> p > 0)
    {
      TotalGrows(fs, j + 1, |fs|);
      p := PutField(buf, p, fs[j]);
      PutOne(buf, p, '\t');
      p := p + 1;
      j := j + 1;
    }
    ClosedIsJoined(fs);
    ghost var whole := buf[..p];
    PutOne(buf, p - 1, '\n');
    assert whole[..p - 1] == Joined(fs);
    line := buf[..p];
  }

  /** TXT_DB_write, when every row reaches the file. */
  method WriteDb(rows: seq<seq<Option<string>>>) returns (text: string)
    requires forall i :: 0 <= i < |rows| ==> rows[i] != []
    ensures text == Written(AllTexts(rows))
  {
    text := "";
    var i := 0;
    while i < |rows|
      invariant i <= |rows|
      invariant Written(AllTexts(rows)) == text + Written(AllTexts(rows[i..]))
    {
      var line := WriteRow(rows[i]);
      ghost var rest := Written(AllTexts(rows[i + 1..]));
      assert AllTexts(rows[i..])[1..] == AllTexts(rows[i + 1..]);
      assert text + (line + rest) == text + line + rest;
      text := text + line;
      i := i + 1;
    }
    assert AllTexts(rows[i..]) == [];
  }

  ghost function AllTexts(rows: seq<seq<Option<string>>>): (r: seq<Fields>)
    ensures |r| == |rows| && forall i :: 0 <= i < |rows| ==> r[i] == Texts(rows[i])
  {
    seq(|rows|, i requires 0 <= i < |rows| => Texts(rows[i]))
  }

  // ----- the certificate database

  function FieldsOf(r: TxtDb.Row): (fs: Fields)
    ensures |fs| == 6
  {
    [[r.kind], r.exp, r.rev, r.serial, r.file, r.name]
  }

  /** A row of the certificate database that can be stored; its name comes last and
      may end in a backslash. */
  predicate Clean(r: TxtDb.Row)
  {
    && Free([r.kind]) && r.kind != '#' && r.kind != '\\'
    && Free(r.exp) && Free(r.rev) && Free(r.serial) && Free(r.file) && Free(r.name)
    && !EndsEscape(r.exp) && !EndsEscape(r.rev) && !EndsEscape(r.serial) && !EndsEscape(r.file)
  }

  lemma CleanIsStorable(r: TxtDb.Row)
    ensures Storable(FieldsOf(r), 6) <==> Clean(r)
  {
    var fs := FieldsOf(r);
    assert fs[0] == [r.kind] && fs[1] == r.exp && fs[2] == r.rev;
    assert fs[3] == r.serial && fs[4] == r.file && fs[5] == r.name;
  }

  function DatabaseFields(rows: seq<TxtDb.Row>): (fs: seq<Fields>)
    ensures |fs| == |rows| && forall i :: 0 <= i < |rows| ==> fs[i] == FieldsOf(rows[i])
  {
    seq(|rows|, i requires 0 <= i < |rows| => FieldsOf(rows[i]))
  }

  /** A database comes back from its file exactly when all its rows are clean. */
  lemma DatabaseRoundTrip(rows: seq<TxtDb.Row>)
    ensures Read(Written(DatabaseFields(rows)), 6) == Rows(DatabaseFields(rows)) <==>
            forall i :: 0 <= i < |rows| ==> Clean(rows[i])
  {
    forall i | 0 <= i < |rows|
      ensures Storable(DatabaseFields(rows)[i], 6) <==> Clean(rows[i])
    {
      CleanIsStorable(rows[i]);
    }
    FileRoundTrip(DatabaseFields(rows), 6);
    if AllStorable(DatabaseFields(rows), 6) {
      assert forall i :: 0 <= i < |rows| ==> Storable(DatabaseFields(rows)[i], 6);
    }
  }

  /** Of an issued row only the expiry date and the subject matter. */
  lemma IssuedRowIsClean(c: CaDatabase.Cert)
    ensures Clean(CaDatabase.NewRow(c)) <==> Free(c.notAfter) && !EndsEscape(c.notAfter) && Free(c.name)
  {
    var s := CaDatabase.NewRow(c).serial;
    forall i | 0 <= i < |s|
      ensures s[i] != '\n' && s[i] != '\0' && s[i] != '\\'
    {
      assert s[i] in s && SerialKey.IsUpperHex(s[i]);
    }
  }

  /** The row of a certificate whose date ends in a backslash does not come back: the
      date runs into the next column. */
  lemma TrailingBackslashIsLost(c: CaDatabase.Cert)
    requires EndsEscape(c.notAfter)
    ensures var fs := DatabaseFields([CaDatabase.NewRow(c)]); Read(Written(fs), 6) != Rows(fs)
  {
    IssuedRowIsClean(c);
    DatabaseRoundTrip([CaDatabase.NewRow(c)]);
    assert [CaDatabase.NewRow(c)][0] == CaDatabase.NewRow(c);
  }
}
