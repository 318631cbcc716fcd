/** What a line of a database file says and which lines a file is read as, without the
    loops: a line is the text of its fields, and comments are passed over
    (crypto/txt_db/txt_db.c:46-118). */
module LineSyntax {
  import opened Prelude
  import opened TxtDbFile

  // ----- a line

  /** The line is the text of the fields, with or without one more tab at its end. */
  ghost predicate Spells(line: string, fs: Fields)
  {
    && fs != [] && Separable(fs)
    && (line == Joined(fs) || (line == Joined(fs) + ['\t'] && !EndsEscape(fs[|fs| - 1])))
  }

  /** A line gives these fields exactly when it is their text and they are the right number. */
  lemma SplitIff(line: string, num: nat, fs: Fields)
    ensures SplitLine(line, num) == Some(fs) <==> |fs| == num && Spells(line, fs)
  {
    if SplitLine(line, num) == Some(fs) {
      FieldsAreSpelled(line, "", 1, num, fs);
      assert Escaped("") + line == line;
    }
    if |fs| == num && Spells(line, fs) {
      if line == Joined(fs) {
        LineThrough(fs, 1, num);
      } else {
        ClosedThrough(fs, 1, num);
      }
    }
  }

  lemma {:induction false} FieldsAreSpelled(rest: string, cur: string, n: nat, num: nat, fs: Fields)
    requires FieldsFrom(rest, cur, n, num) == Some(fs)
    ensures n + |fs| == num + 1 && Spells(Escaped(cur) + rest, fs)
    decreases |rest|
  {
    if rest == "" {
      assert Escaped(cur) + rest == Joined([cur]);
    } else if rest[0] == '\t' && !EndsEscape(cur) {
      if n < num {
        FieldsAreSpelled(rest[1..], "", n + 1, num, fs[1..]);
        FieldBefore(cur, rest, fs);
      } else {
        assert Escaped(cur) + rest == Joined([cur]) + ['\t'];
      }
    } else if rest[0] == '\t' {
      TabTaken(cur, rest);
      FieldsAreSpelled(rest[1..], cur[..|cur| - 1] + ['\t'], n, num, fs);
    } else {
      EscapedAppended(cur, rest[0]);
      assert Escaped(cur + [rest[0]]) + rest[1..] == Escaped(cur) + rest;
      FieldsAreSpelled(rest[1..], cur + [rest[0]], n, num, fs);
    }
  }

  lemma TabTaken(cur: string, rest: string)
    requires EndsEscape(cur) && rest != "" && rest[0] == '\t'
    ensures Escaped(cur[..|cur| - 1] + ['\t']) + rest[1..] == Escaped(cur) + rest
  {
    var front := cur[..|cur| - 1];
    EscapedAppended(front, '\t');
    EscapedAppended(front, '\\');
    assert front + ['\\'] == cur;
    AfterBackslash(Escaped(front), rest);
  }

  lemma AfterBackslash(e: string, rest: string)
    requires rest != "" && rest[0] == '\t'
    ensures e + ['\\', '\t'] + rest[1..] == e + ['\\'] + rest
  {
  }

  lemma Regroup(a: string, b: string, c: string, d: string)
    ensures (a + (b + c)) + d == (a + b) + (c + d) == ((a + b) + c) + d
  {
  }

  lemma FieldBefore(cur: string, rest: string, fs: Fields)
    requires rest != "" && rest[0] == '\t' && !EndsEscape(cur)
    requires |fs| > 1 && fs[0] == cur && Spells(Escaped("") + rest[1..], fs[1..])
    ensures Spells(Escaped(cur) + rest, fs)
  {
    var tail := fs[1..];
    assert Escaped("") + rest[1..] == rest[1..];
    SplitsOff(cur, rest, fs);
    forall i | 0 <= i < |fs| - 1
      ensures !EndsEscape(fs[i])
    {
      assert i > 0 ==> fs[i] == tail[i - 1];
    }
  }

  lemma SplitsOff(cur: string, rest: string, fs: Fields)
    requires rest != "" && rest[0] == '\t' && |fs| > 1 && fs[0] == cur
    ensures rest[1..] == Joined(fs[1..]) ==> Escaped(cur) + rest == Joined(fs)
    ensures rest[1..] == Joined(fs[1..]) + ['\t'] ==> Escaped(cur) + rest == Joined(fs) + ['\t']
  {
    assert rest == ['\t'] + rest[1..];
    assert Escaped(cur) + rest == Escaped(cur) + ['\t'] + rest[1..];
    JoinedFront(fs);
  }

  lemma JoinedFront(fs: Fields)
    requires |fs| > 1
    ensures Joined(fs) == Escaped(fs[0]) + ['\t'] + Joined(fs[1..])
    ensures Joined(fs) + ['\t'] == Escaped(fs[0]) + ['\t'] + (Joined(fs[1..]) + ['\t'])
  {
    Regroup(Escaped(fs[0]), ['\t'], Joined(fs[1..]), ['\t']);
  }

  /** A tab after the last field is passed over. */
  lemma {:induction false} ClosedThrough(fs: Fields, n: nat, num: nat)
    requires fs != [] && n + |fs| == num + 1 && Separable(fs) && !EndsEscape(fs[|fs| - 1])
    ensures FieldsFrom(Joined(fs) + ['\t'], "", n, num) == Some(fs)
    decreases |fs|
  {
    if |fs| == 1 {
      LastThrough(fs[0], n, num);
      assert fs == [fs[0]];
    } else {
      ClosedThrough(fs[1..], n + 1, num);
      FirstThrough(fs[0], Joined(fs[1..]) + ['\t'], n, num, fs[1..]);
      JoinedFront(fs);
      assert [fs[0]] + fs[1..] == fs;
    }
  }

  lemma LastThrough(f: string, n: nat, num: nat)
    requires n == num && !EndsEscape(f)
    ensures FieldsFrom(Escaped(f) + ['\t'], "", n, num) == Some([f])
  {
    FieldThrough(f, "", ['\t'], n, num);
    assert "" + f == f;
  }

  lemma FirstThrough(f: string, text: string, n: nat, num: nat, fs: Fields)
    requires n < num && !EndsEscape(f) && FieldsFrom(text, "", n + 1, num) == Some(fs)
    ensures FieldsFrom(Escaped(f) + ['\t'] + text, "", n, num) == Some([f] + fs)
  {
    TabEnds(f, text, n, num, fs);
    FieldThrough(f, "", ['\t'] + text, n, num);
    assert "" + f == f && Escaped(f) + (['\t'] + text) == Escaped(f) + ['\t'] + text;
  }

  // ----- a file

  /** The text of these lines. */
  ghost function Text(lines: seq<string>): string
  {
    if lines == [] then "" else lines[0] + ['\n'] + Text(lines[1..])
  }

  predicate IsComment(line: string)
  {
    line != "" && line[0] == '#'
  }

  /** The lines that are not comments, in order. */
  ghost function Kept(lines: seq<string>): seq<string>
  {
    if lines == [] then [] else (if IsComment(lines[0]) then [] else [lines[0]]) + Kept(lines[1..])
  }

  /** A comment is passed over only as far as the buffer reaches: what is left of a
      longer one is read as the next line. */
  lemma CommentRead(l: string, rest: string, size: nat, num: nat)
    requires Free(l) && IsComment(l) && size > 1
    ensures ReadFrom(l + ['\n'] + rest, "", size, num) ==
            if |l| < size - 1 then ReadFrom(rest, "", size, num)
            else ReadFrom(l[size - 1..] + ['\n'] + rest, "", size, num)
  {
    var t := l + ['\n'] + rest;
    GetsLine(l, rest, size - 1);
    if |l| < size - 1 {
      AllVisible(l + ['\n']);
      LinePieces(l, rest);
      ReadStep(t, "", size, num, |l| + 1, l + ['\n']);
    } else {
      AllVisible(l[..size - 1]);
      assert t[..size - 1] == l[..size - 1] && t[size - 1..] == l[size - 1..] + ['\n'] + rest;
      ReadStep(t, "", size, num, size - 1, l[..size - 1]);
    }
  }

  /** What a file of such lines is read as. */
  ghost predicate ReadAs(r: Result, kept: seq<string>, num: nat)
  {
    && (r.Failed? <==> exists i :: 0 <= i < |kept| && SplitLine(kept[i], num).None?)
    && (r.Rows? ==> |r.rows| == |kept| && forall i :: 0 <= i < |kept| ==> SplitLine(kept[i], num) == Some(r.rows[i]))
  }

  lemma ReadOneMore(r: Result, line: string, kept: seq<string>, num: nat)
    requires ReadAs(r, kept, num)
    ensures ReadAs(AddRow(SplitLine(line, num), r), [line] + kept, num)
  {
    var all, row := [line] + kept, SplitLine(line, num);
    if row.None? {
      assert SplitLine(all[0], num).None?;
    } else if r.Failed? {
      var i :| 0 <= i < |kept| && SplitLine(kept[i], num).None?;
      assert SplitLine(all[i + 1], num).None?;
    } else {
      forall i | 0 <= i < |all|
        ensures SplitLine(all[i], num) == Some(([row.value] + r.rows)[i])
      {
        assert i > 0 ==> all[i] == kept[i - 1];
      }
    }
  }

  /** A file is read as its lines, comments left out, each line giving one row; and it is
      refused exactly when one of those lines has the wrong number of fields. */
  lemma {:induction false} LinesAreRead(lines: seq<string>, size: nat, num: nat)
    requires size > 1
    requires forall i :: 0 <= i < |lines| ==> Free(lines[i]) && (IsComment(lines[i]) ==> |lines[i]| < size - 1)
    ensures ReadAs(ReadFrom(Text(lines), "", size, num), Kept(lines), num)
    decreases |lines|
  {
    if lines != [] {
      var line, rest := lines[0], lines[1..];
      if IsComment(line) {
        CommentRead(line, Text(rest), size, num);
        LinesAreRead(rest, size, num);
        assert [] + Kept(rest) == Kept(rest);
      } else {
        var after := LineRead(line, Text(rest), "", size, num);
        LinesAreRead(rest, after, num);
        assert "" + line == line;
        ReadOneMore(ReadFrom(Text(rest), "", after, num), line, Kept(rest), num);
      }
    }
  }

  /** The end of a long comment becomes a row. */
  lemma LongCommentIsData()
    ensures Read(seq(511, _ => '#') + "x" + ['\n'], 1) == Rows([["x"]])
  {
    var l := seq(511, _ => '#') + "x";
    assert l + ['\n'] + "" == l + ['\n'];
    CommentRead(l, "", 512, 1);
    assert l[511..] == "x";
    var after := LineRead("x", "", "", 512, 1);
    SplitIff("x", 1, ["x"]);
    assert "" + "x" == "x" && Escaped("x") == "x";
  }
}
