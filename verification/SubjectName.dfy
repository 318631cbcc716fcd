/** Parsing a subject of the form /type0=value0/type1=value1+type2=value2, with
    backslash escapes, into one bounded buffer and three bounded arrays
    (apps/apps.c:1806-1919). */
module SubjectName {
  const NUL: char := '\0'

  /** One name element; `joined` says that it belongs to the set of the one before. */
  datatype Elem = Elem(kind: string, value: string, joined: bool)

  /** Why a scan ended: at an unescaped separator, at the end of the string, at a
      backslash with nothing after it, or past the terminator. */
  datatype End = Stop(c: char) | AtEnd | Dangling | Overrun

  /** The text collected, where the cursor is, and why the scan ended. */
  datatype Piece = Piece(text: string, next: nat, end: End)

  datatype Parsed = Error | OutOfBounds | Elems(elems: seq<Elem>)

  // ----- the grammar

  function Put(c: char, p: Piece): Piece
  {
    p.(text := [c] + p.text)
  }

  /** The do loop that collects a type: it runs once before it looks for the end. */
  function ScanType(s: string, i: nat): (p: Piece)
    requires i <= |s|
    ensures p.end != Overrun ==> i < p.next <= |s|
    ensures p.end.Stop? ==> i + |p.text| + 1 <= p.next
    ensures p.end == Overrun <==> i == |s|
    ensures p.end.Stop? ==> p.end == Stop('=') && s[p.next - 1] == '='
    decreases |s| - i
  {
    if i == |s| then Piece("", i, Overrun)
    else if s[i] == '\\' then
      if i + 1 == |s| then Piece("", i + 1, Dangling)
      else if i + 2 == |s| then Piece([s[i + 1]], i + 2, AtEnd)
      else Put(s[i + 1], ScanType(s, i + 2))
    else if s[i] == '=' then Piece("", i + 1, Stop('='))
    else if i + 1 == |s| then Piece([s[i]], i + 1, AtEnd)
    else Put(s[i], ScanType(s, i + 1))
  }

  predicate Separates(c: char, multi: bool)
  {
    c == '/' || (c == '+' && multi)
  }

  /** The do loop that collects a value. */
  function ScanValue(s: string, i: nat, multi: bool): (p: Piece)
    requires i < |s|
    ensures i < p.next <= |s| && p.end != Overrun
    ensures p.end.Stop? ==> i + |p.text| + 1 <= p.next
    ensures p.end == AtEnd ==> i + |p.text| <= p.next == |s| && p.text != ""
    ensures p.end.Stop? ==> Separates(s[p.next - 1], multi) && p.end == Stop(s[p.next - 1])
    decreases |s| - i
  {
    if s[i] == '\\' then
      if i + 1 == |s| then Piece("", i + 1, Dangling)
      else if i + 2 == |s| then Piece([s[i + 1]], i + 2, AtEnd)
      else Put(s[i + 1], ScanValue(s, i + 2, multi))
    else if Separates(s[i], multi) then Piece("", i + 1, Stop(s[i]))
    else if i + 1 == |s| then Piece([s[i]], i + 1, AtEnd)
    else Put(s[i], ScanValue(s, i + 1, multi))
  }

  function Cons(e: Elem, p: Parsed): Parsed
  {
    if p.Elems? then Elems([e] + p.elems) else p
  }

  /** The elements from position i on. */
  function ParseFrom(s: string, i: nat, multi: bool, joined: bool): (r: Parsed)
    requires i <= |s|
    ensures r.OutOfBounds? <==> i == |s|
    decreases |s| - i
  {
    var t := ScanType(s, i);
    if t.end == Overrun then OutOfBounds
    else if !t.end.Stop? || t.next == |s| then Error
    else
      var v := ScanValue(s, t.next, multi);
      var e := Elem(t.text, v.text, joined);
      if v.end == Dangling then Error
      else if v.next == |s| then Elems([e])
      else Cons(e, ParseFrom(s, v.next, multi, v.end == Stop('+')))
  }

  function Parse(s: string, multi: bool): Parsed
  {
    if s == "" || s[0] != '/' then Error else ParseFrom(s, 1, multi, false)
  }

  /** The string is read past its terminator exactly when it is a lone slash. */
  lemma OnlyALoneSlashOverruns(s: string, multi: bool)
    ensures Parse(s, multi).OutOfBounds? <==> s == "/"
  {
  }

  // ----- what the syntax says

  /** The characters that a type or a value has to escape. */
  datatype Part = Kind | Val(multi: bool) {
    predicate Special(c: char) {
      || c == '\\'
      || (Kind? && c == '=')
      || (Val? && (c == '/' || (c == '+' && multi)))
    }
  }

  /** s[i..j] spells the text t: every character stands for itself or follows a
      backslash, and special ones must follow one. */
  ghost predicate Spells(s: string, i: nat, j: nat, t: string, part: Part)
    decreases |t|
  {
    if t == "" then i == j
    else
      i < j <= |s| &&
      (|| (s[i] == '\\' && i + 1 < |s| && s[i + 1] == t[0] && Spells(s, i + 2, j, t[1..], part))
       || (s[i] == t[0] && !part.Special(s[i]) && Spells(s, i + 1, j, t[1..], part)))
  }

  lemma {:induction false} TypeIsSpelled(s: string, i: nat, j: nat, t: string)
    requires i <= j < |s| && s[j] == '='
    ensures ScanType(s, i) == Piece(t, j + 1, Stop('=')) <==> Spells(s, i, j, t, Kind)
    decreases |s| - i
  {
    if s[i] == '\\' && i + 2 <= j {
      if t != "" {
        TypeIsSpelled(s, i + 2, j, t[1..]);
        PutIs(s[i + 1], ScanType(s, i + 2), t, j + 1, Stop('='));
      }
    } else if s[i] != '\\' && s[i] != '=' {
      if t != "" {
        TypeIsSpelled(s, i + 1, j, t[1..]);
        PutIs(s[i], ScanType(s, i + 1), t, j + 1, Stop('='));
      }
    }
  }

  lemma PutIs(c: char, p: Piece, t: string, next: nat, end: End)
    requires t != ""
    ensures Put(c, p) == Piece(t, next, end) <==> c == t[0] && p == Piece(t[1..], next, end)
  {
    assert ([c] + p.text)[1..] == p.text;
    assert t == [t[0]] + t[1..];
  }

  lemma {:induction false} ValueIsSpelled(s: string, i: nat, j: nat, t: string, multi: bool)
    requires i <= j < |s| && Separates(s[j], multi)
    ensures ScanValue(s, i, multi) == Piece(t, j + 1, Stop(s[j])) <==> Spells(s, i, j, t, Val(multi))
    decreases |s| - i
  {
    if s[i] == '\\' && i + 2 <= j {
      if t != "" {
        ValueIsSpelled(s, i + 2, j, t[1..], multi);
        PutIs(s[i + 1], ScanValue(s, i + 2, multi), t, j + 1, Stop(s[j]));
      }
    } else if s[i] != '\\' && !Separates(s[i], multi) {
      if t != "" {
        ValueIsSpelled(s, i + 1, j, t[1..], multi);
        PutIs(s[i], ScanValue(s, i + 1, multi), t, j + 1, Stop(s[j]));
      }
    }
  }

  lemma {:induction false} LastValueIsSpelled(s: string, i: nat, t: string, multi: bool)
    requires i < |s|
    ensures ScanValue(s, i, multi) == Piece(t, |s|, AtEnd) <==> t != "" && Spells(s, i, |s|, t, Val(multi))
    decreases |s| - i
  {
    if t == "" {
    } else if s[i] == '\\' {
      if i + 2 < |s| {
        LastValueIsSpelled(s, i + 2, t[1..], multi);
        PutIs(s[i + 1], ScanValue(s, i + 2, multi), t, |s|, AtEnd);
      } else if i + 2 == |s| {
        assert t == [s[i + 1]] <==> t[0] == s[i + 1] && t[1..] == "";
      }
    } else if !Separates(s[i], multi) {
      if i + 1 < |s| {
        LastValueIsSpelled(s, i + 1, t[1..], multi);
        PutIs(s[i], ScanValue(s, i + 1, multi), t, |s|, AtEnd);
      } else {
        assert t == [s[i]] <==> t[0] == s[i] && t[1..] == "";
      }
    }
  }

  /** The string from i on spells the list: elements between separators, where '+'
      joins an element to the one before. A last value that is empty needs a
      separator after it, and any last value may have one. */
  ghost predicate SpellsList(s: string, i: nat, l: seq<Elem>, multi: bool)
    decreases |l|, 1
  {
    l != [] && exists j: nat, k: nat :: SpellsFirst(s, i, j, k, l[0], multi) && SpellsRest(s, k, l, multi)
  }

  /** What follows the first value, which ends at k. */
  ghost predicate SpellsRest(s: string, k: nat, l: seq<Elem>, multi: bool)
    requires l != []
    decreases |l|, 0
  {
    if |l| == 1 then (k == |s| && l[0].value != "") || (k + 1 == |s| && Separates(s[k], multi))
    else k + 1 < |s| && Separates(s[k], multi) && (s[k] == '+' <==> l[1].joined) && SpellsList(s, k + 1, l[1..], multi)
  }

  /** One element: its type in s[i..j], an equals sign, its value in s[j + 1..k]. */
  ghost predicate SpellsFirst(s: string, i: nat, j: nat, k: nat, e: Elem, multi: bool)
  {
    && i <= j < k <= |s| && s[j] == '='
    && Spells(s, i, j, e.kind, Kind)
    && Spells(s, j + 1, k, e.value, Val(multi))
  }

  /** The element that the code reads at i is the one spelled there. */
  lemma FirstElement(s: string, i: nat, j: nat, k: nat, e: Elem, multi: bool)
    requires i <= j < k <= |s| && s[j] == '=' && j + 1 < |s|
    requires k < |s| ==> Separates(s[k], multi)
    requires k == |s| ==> e.value != ""
    ensures SpellsFirst(s, i, j, k, e, multi) <==>
            && ScanType(s, i) == Piece(e.kind, j + 1, Stop('='))
            && ScanValue(s, j + 1, multi) ==
               if k == |s| then Piece(e.value, k, AtEnd) else Piece(e.value, k + 1, Stop(s[k]))
  {
    TypeIsSpelled(s, i, j, e.kind);
    if k == |s| {
      LastValueIsSpelled(s, j + 1, e.value, multi);
    } else {
      ValueIsSpelled(s, j + 1, k, e.value, multi);
    }
  }

  /** One round of the outer loop, in terms of what is spelled. */
  lemma ParseStep(s: string, i: nat, j: nat, k: nat, e: Elem, multi: bool)
    requires SpellsFirst(s, i, j, k, e, multi)
    requires k < |s| ==> Separates(s[k], multi)
    requires k == |s| ==> e.value != ""
    ensures i < |s|
    ensures ParseFrom(s, i, multi, e.joined) ==
            if k + 1 >= |s| then Elems([e]) else Cons(e, ParseFrom(s, k + 1, multi, s[k] == '+'))
  {
    FirstElement(s, i, j, k, e, multi);
  }

  lemma {:induction false} SpelledIsParsed(s: string, i: nat, l: seq<Elem>, multi: bool)
    requires SpellsList(s, i, l, multi)
    ensures i < |s| && ParseFrom(s, i, multi, l[0].joined) == Elems(l)
    decreases |l|, 1
  {
    var j: nat, k: nat :| SpellsFirst(s, i, j, k, l[0], multi) && SpellsRest(s, k, l, multi);
    SpelledWith(s, i, j, k, l, multi);
  }

  lemma {:induction false} SpelledWith(s: string, i: nat, j: nat, k: nat, l: seq<Elem>, multi: bool)
    requires l != [] && SpellsFirst(s, i, j, k, l[0], multi) && SpellsRest(s, k, l, multi)
    ensures i < |s| && ParseFrom(s, i, multi, l[0].joined) == Elems(l)
    decreases |l|, 0
  {
    RestSeparates(s, k, l, multi);
    ParseStep(s, i, j, k, l[0], multi);
    FrontElement(l);
    if |l| > 1 {
      SpelledIsParsed(s, k + 1, l[1..], multi);
    }
  }

  lemma FrontElement(l: seq<Elem>)
    requires l != []
    ensures |l| == 1 ==> Elems([l[0]]) == Elems(l)
    ensures Cons(l[0], Elems(l[1..])) == Elems(l)
  {
    assert [l[0]] + l[1..] == l;
    assert |l| == 1 ==> [l[0]] == l;
  }

  /** After the first value comes the end of the string or a separator. */
  lemma RestSeparates(s: string, k: nat, l: seq<Elem>, multi: bool)
    requires l != [] && k <= |s| && SpellsRest(s, k, l, multi)
    ensures k < |s| ==> Separates(s[k], multi)
    ensures k == |s| ==> l[0].value != ""
    ensures |l| == 1 <==> k + 1 >= |s|
    ensures |l| > 1 ==> (s[k] == '+' <==> l[1].joined) && SpellsList(s, k + 1, l[1..], multi)
  {
  }

  /** Where the code finds the first element. */
  lemma ParsedFirst(s: string, i: nat, multi: bool, joined: bool) returns (j: nat, k: nat, e: Elem)
    requires i <= |s| && ParseFrom(s, i, multi, joined).Elems?
    ensures e.joined == joined && SpellsFirst(s, i, j, k, e, multi)
    ensures k < |s| ==> Separates(s[k], multi)
    ensures k == |s| ==> e.value != ""
  {
    var t := ScanType(s, i);
    var v := ScanValue(s, t.next, multi);
    j := t.next - 1;
    k := if v.end == AtEnd then |s| else v.next - 1;
    e := Elem(t.text, v.text, joined);
    FirstElement(s, i, j, k, e, multi);
  }

  lemma {:induction false} ParsedIsSpelled(s: string, i: nat, l: seq<Elem>, multi: bool, joined: bool)
    requires i <= |s| && ParseFrom(s, i, multi, joined) == Elems(l)
    ensures SpellsList(s, i, l, multi) && l[0].joined == joined
    decreases |s| - i
  {
    var j, k, e := ParsedFirst(s, i, multi, joined);
    ParseStep(s, i, j, k, e, multi);
    if k + 1 < |s| {
      var p := ParseFrom(s, k + 1, multi, s[k] == '+');
      assert l == [e] + p.elems && l[1..] == p.elems;
      ParsedIsSpelled(s, k + 1, l[1..], multi, s[k] == '+');
    }
    SpellsFrom(s, i, j, k, l, multi);
  }

  lemma SpellsFrom(s: string, i: nat, j: nat, k: nat, l: seq<Elem>, multi: bool)
    requires l != [] && SpellsFirst(s, i, j, k, l[0], multi) && SpellsRest(s, k, l, multi)
    ensures SpellsList(s, i, l, multi)
  {
  }

  /** The parser accepts exactly the strings of the syntax, with the list they spell. */
  lemma ParseIsSyntax(s: string, l: seq<Elem>, multi: bool)
    ensures Parse(s, multi) == Elems(l) <==>
            s != "" && s[0] == '/' && l != [] && !l[0].joined && SpellsList(s, 1, l, multi)
  {
    if s != "" && s[0] == '/' {
      if l != [] && !l[0].joined && SpellsList(s, 1, l, multi) {
        SpelledIsParsed(s, 1, l, multi);
      }
      if Parse(s, multi) == Elems(l) {
        ParsedIsSpelled(s, 1, l, multi, false);
      }
    }
  }

  // ----- printing with escapes

  /** A backslash before every character that `esc` picks. */
  function Escape(t: string, esc: char -> bool): string
  {
    if t == "" then ""
    else if esc(t[0]) then ['\\', t[0]] + Escape(t[1..], esc)
    else [t[0]] + Escape(t[1..], esc)
  }

  /** Elements after the leading slash. */
  function PrintElems(l: seq<Elem>, escType: char -> bool, escValue: char -> bool): (s: string)
    requires l != []
    ensures s != ""
    decreases |l|, 1
  {
    Escape(l[0].kind, escType) + "=" + Escape(l[0].value, escValue) + Tail(l, escType, escValue)
  }

  /** What follows the first element. */
  function Tail(l: seq<Elem>, escType: char -> bool, escValue: char -> bool): string
    requires l != []
    decreases |l|, 0
  {
    if |l| == 1 then "" else [if l[1].joined then '+' else '/'] + PrintElems(l[1..], escType, escValue)
  }

  ghost predicate Covers(esc: char -> bool, part: Part)
  {
    forall c :: part.Special(c) ==> esc(c)
  }

  /** The text u stands in s at position i. */
  ghost predicate StandsAt(s: string, i: nat, u: string)
  {
    i + |u| <= |s| && forall k {:trigger u[k]} :: 0 <= k < |u| ==> s[i + k] == u[k]
  }

  lemma {:induction false} EscapedIsSpelled(s: string, i: nat, t: string, esc: char -> bool, part: Part)
    requires Covers(esc, part) && StandsAt(s, i, Escape(t, esc))
    ensures Spells(s, i, i + |Escape(t, esc)|, t, part)
    decreases |t|
  {
    if t != "" {
      var e, rest := Escape(t, esc), Escape(t[1..], esc);
      var k := |e| - |rest|;
      assert forall x :: 0 <= x < |rest| ==> rest[x] == e[k + x];
      EscapedIsSpelled(s, i + k, t[1..], esc, part);
      assert s[i + 0] == e[0];
      if esc(t[0]) {
        assert s[i + 1] == e[1];
      }
    }
  }

  lemma StandsApart(s: string, i: nat, u: string, v: string)
    requires StandsAt(s, i, u + v)
    ensures StandsAt(s, i, u) && StandsAt(s, i + |u|, v)
  {
    forall k | 0 <= k < |u|
      ensures s[i + k] == u[k]
    {
      assert (u + v)[k] == u[k];
    }
    forall k | 0 <= k < |v|
      ensures s[i + |u| + k] == v[k]
    {
      assert (u + v)[|u| + k] == v[k];
    }
  }

  /** A list that printing can express: joins need multi-valued names and the last
      value is not empty. */
  ghost predicate Expressible(l: seq<Elem>, multi: bool)
  {
    && l != [] && l[|l| - 1].value != ""
    && (forall i :: 0 < i < |l| && l[i].joined ==> multi)
  }

  lemma {:induction false} PrintedIsSpelled(s: string, i: nat, l: seq<Elem>, escType: char -> bool,
                                            escValue: char -> bool, multi: bool)
    requires Covers(escType, Kind) && Covers(escValue, Val(multi)) && Expressible(l, multi)
    requires StandsAt(s, i, PrintElems(l, escType, escValue)) && |s| == i + |PrintElems(l, escType, escValue)|
    ensures SpellsList(s, i, l, multi)
    decreases |l|
  {
    var j, k := FirstIsSpelled(s, i, l[0], escType, escValue, Tail(l, escType, escValue), multi);
    if |l| > 1 {
      SeparatorStands(s, k, if l[1].joined then '+' else '/', PrintElems(l[1..], escType, escValue));
      PrintedIsSpelled(s, k + 1, l[1..], escType, escValue, multi);
    }
    SpellsFrom(s, i, j, k, l, multi);
  }

  /** The first element of a printed list. */
  lemma FirstIsSpelled(s: string, i: nat, e: Elem, escType: char -> bool, escValue: char -> bool, tail: string,
                       multi: bool)
    returns (j: nat, k: nat)
    requires Covers(escType, Kind) && Covers(escValue, Val(multi))
    requires StandsAt(s, i, Escape(e.kind, escType) + "=" + Escape(e.value, escValue) + tail)
    ensures SpellsFirst(s, i, j, k, e, multi) && StandsAt(s, k, tail)
    ensures k == i + |Escape(e.kind, escType)| + 1 + |Escape(e.value, escValue)|
  {
    var a, b := Escape(e.kind, escType), Escape(e.value, escValue);
    j := i + |a|;
    k := j + 1 + |b|;
    ElemStands(s, i, a, b, tail);
    EscapedIsSpelled(s, i, e.kind, escType, Kind);
    EscapedIsSpelled(s, j + 1, e.value, escValue, Val(multi));
  }

  lemma ElemStands(s: string, i: nat, a: string, b: string, tail: string)
    requires StandsAt(s, i, a + "=" + b + tail)
    ensures StandsAt(s, i, a) && s[i + |a|] == '=' && StandsAt(s, i + |a| + 1, b)
    ensures StandsAt(s, i + |a| + 1 + |b|, tail)
  {
    StandsApart(s, i, a + "=" + b, tail);
    StandsApart(s, i, a + "=", b);
    StandsApart(s, i, a, "=");
    assert s[i + |a| + 0] == "="[0];
  }

  lemma SeparatorStands(s: string, k: nat, c: char, rest: string)
    requires StandsAt(s, k, [c] + rest)
    ensures s[k] == c && StandsAt(s, k + 1, rest)
  {
    StandsApart(s, k, [c], rest);
    assert s[k + 0] == [c][0];
  }

  /** Printing and then parsing gives the list back, whatever else is escaped. */
  lemma NameRoundTrip(l: seq<Elem>, escType: char -> bool, escValue: char -> bool, multi: bool)
    requires Covers(escType, Kind) && Covers(escValue, Val(multi)) && Expressible(l, multi) && !l[0].joined
    ensures Parse("/" + PrintElems(l, escType, escValue), multi) == Elems(l)
  {
    var s := "/" + PrintElems(l, escType, escValue);
    PrintedIsSpelled(s, 1, l, escType, escValue, multi);
    ParseIsSyntax(s, l, multi);
  }
}
