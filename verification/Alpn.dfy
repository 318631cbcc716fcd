/** Protocol lists for ALPN and NPN: the comma-separated text is turned into a list
    of length-prefixed names in one pass, and the lists are walked and matched
    (apps/apps.c:2193-2229, apps/s_client.c:184-189, apps/s_server.c:470-475,
    ssl/ssl_lib.c:1414-1450). */
module Alpn {
  import opened Prelude

  const COMMA: byte := 44

  type Names = seq<seq<byte>>

  // ----- the text

  /** The components of the text from `start` on, where the cursor is at i. */
  function SplitFrom(s: seq<byte>, start: nat, i: nat): (r: Names)
    requires start <= i <= |s|
    ensures r != []
    decreases |s| - i
  {
    if i == |s| then [s[start..i]]
    else if s[i] == COMMA then [s[start..i]] + SplitFrom(s, i + 1, i + 1)
    else SplitFrom(s, start, i + 1)
  }

  /** The comma-separated components, empty ones included. */
  function Split(s: seq<byte>): Names
  {
    SplitFrom(s, 0, 0)
  }

  function Join(names: Names): seq<byte>
    requires names != []
  {
    if |names| == 1 then names[0] else names[0] + [COMMA] + Join(names[1..])
  }

  /** Splitting loses nothing: no component has a comma and joining gives the text back. */
  lemma {:induction false} SplitIsExact(s: seq<byte>, start: nat, i: nat)
    requires start <= i <= |s| && COMMA !in s[start..i]
    ensures Join(SplitFrom(s, start, i)) == s[start..]
    ensures forall n :: n in SplitFrom(s, start, i) ==> COMMA !in n
    decreases |s| - i
  {
    if i < |s| {
      if s[i] == COMMA {
        var rest := SplitFrom(s, i + 1, i + 1);
        SplitIsExact(s, i + 1, i + 1);
        assert ([s[start..i]] + rest)[1..] == rest;
        assert s[start..] == s[start..i] + [COMMA] + s[i + 1..];
      } else {
        assert s[start..i + 1] == s[start..i] + [s[i]];
        SplitIsExact(s, start, i + 1);
      }
    }
  }

  // ----- the wire form

  /** Every name is short enough for its length byte. */
  ghost predicate Short(names: Names)
  {
    forall i :: 0 <= i < |names| ==> |names[i]| <= 255
  }

  function Encode(names: Names): seq<int>
  {
    if names == [] then [] else [|names[0]|] + names[0] + Encode(names[1..])
  }

  /** Reading length-prefixed names from position i; None when the last one is cut short. */
  function DecodeFrom(b: seq<byte>, i: nat): (r: Option<Names>)
    requires i <= |b|
    decreases |b| - i
  {
    if i == |b| then Some([])
    else
      var next := i + 1 + b[i];
      if next > |b| then None
      else
        var rest := DecodeFrom(b, next);
        if rest.None? then None else Some([b[i + 1..next]] + rest.value)
  }

  function Decode(b: seq<byte>): Option<Names>
  {
    DecodeFrom(b, 0)
  }

  /** The names are decoded from i exactly when their encoding stands there. */
  lemma {:induction false} DecodeIsInverse(b: seq<byte>, i: nat, names: Names)
    requires i <= |b|
    ensures DecodeFrom(b, i) == Some(names) <==> Short(names) && b[i..] == Encode(names)
    decreases |b| - i
  {
    if i == |b| {
      if names != [] {
        assert |Encode(names)| > 0;
      }
    } else if names == [] {
      assert Encode(names) == [];
    } else {
      var next := i + 1 + b[i];
      var tail := names[1..];
      assert Encode(names) == [|names[0]|] + names[0] + Encode(tail);
      if next <= |b| {
        DecodeIsInverse(b, next, tail);
        assert b[i..] == [b[i]] + b[i + 1..next] + b[next..];
        HeadsAgree(b[i], b[i + 1..next], b[next..], names[0], Encode(tail));
        assert Short(names) <==> |names[0]| <= 255 && Short(tail) by {
          assert forall k :: 0 <= k < |tail| ==> tail[k] == names[k + 1];
          assert names == [names[0]] + tail;
        }
        assert names == [b[i + 1..next]] + tail <==> names[0] == b[i + 1..next];
        var rest := DecodeFrom(b, next);
        if rest.Some? {
          assert ([b[i + 1..next]] + rest.value)[1..] == rest.value;
        }
      }
    }
  }

  lemma HeadsAgree(n: byte, a: seq<byte>, x: seq<byte>, c: seq<byte>, y: seq<int>)
    requires |a| == n
    ensures [n] + a + x == [|c|] + c + y <==> a == c && x == y
  {
    if [n] + a + x == [|c|] + c + y {
      var l, r := [n] + a + x, [|c|] + c + y;
      assert l[0] == n && r[0] == |c|;
      assert l[1..1 + n] == a && r[1..1 + n] == c;
      assert l[1 + n..] == x && r[1 + n..] == y;
    }
  }

  // ----- next_protos_parse

  /** The positions hold each of 0, ..., n - 1 once. */
  ghost predicate EachOnce(positions: seq<nat>, n: nat)
  {
    && |positions| == n
    && (forall p :: p in positions ==> p < n)
    && (forall i, j :: 0 <= i < j < n ==> positions[i] != positions[j])
  }

  /** What is written by the time the cursor is at i: all up to i but the length byte
      of the component at hand. */
  ghost predicate Written(positions: seq<nat>, start: nat, i: nat)
  {
    && |positions| == i
    && (forall p :: p in positions ==> p <= i && p != start)
    && (forall x, y :: 0 <= x < y < i ==> positions[x] != positions[y])
  }

  lemma WroteByte(positions: seq<nat>, start: nat, i: nat)
    requires start <= i && Written(positions, start, i)
    ensures Written(positions + [i + 1], start, i + 1)
  {
    AppendedNew(positions, i + 1);
  }

  lemma WroteLength(positions: seq<nat>, start: nat, i: nat)
    requires start <= i && Written(positions, start, i)
    ensures Written(positions + [start], i + 1, i + 1) && EachOnce(positions + [start], i + 1)
  {
    AppendedNew(positions, start);
  }

  lemma AppendedNew(positions: seq<nat>, p: nat)
    requires p !in positions
    requires forall x, y :: 0 <= x < y < |positions| ==> positions[x] != positions[y]
    ensures var q := positions + [p];
            && (forall x, y :: 0 <= x < y < |q| ==> q[x] != q[y])
            && (forall n :: n in q <==> n in positions || n == p)
  {
    var q := positions + [p];
    forall x, y | 0 <= x < y < |q|
      ensures q[x] != q[y]
    {
      assert q[x] == positions[x] && q[x] in positions;
    }
  }

  /** The state of the loop: the components before `start` are encoded, and the one at
      hand is copied up to i, behind the place of its length byte. */
  ghost predicate Parsing(out: seq<byte>, positions: seq<nat>, s: seq<byte>, start: nat, i: nat)
  {
    && start <= i <= |s| && |out| == |s| + 1
    && Encode(Split(s)) == out[..start] + Encode(SplitFrom(s, start, i))
    && (Short(Split(s)) <==> Short(SplitFrom(s, start, i)))
    && out[start + 1..i + 1] == s[start..i]
    && Written(positions, start, i)
  }

  ghost predicate Parsed(out: seq<byte>, positions: seq<nat>, s: seq<byte>)
  {
    Short(Split(s)) && out == Encode(Split(s)) && EachOnce(positions, |s| + 1)
  }

  /** A text of 65535 bytes or more is refused, and so is a component over 255. The
      length byte of a component is filled in when its end is reached. */
  method NextProtosParse(s: seq<byte>) returns (r: Option<seq<byte>>, ghost positions: seq<nat>)
    ensures r.None? <==> |s| >= 65535 || !Short(Split(s))
    ensures r.Some? ==> |r.value| == |s| + 1 <= 65535 && r.value == Encode(Split(s))
    ensures r.Some? ==> EachOnce(positions, |s| + 1) && WireOf(r.value, s, 0)
  {
    positions := [];
    if |s| >= 65535 {
      return None, positions;
    }
    var out := new byte[|s| + 1];
    var start, i := 0, 0;
    while i <= |s|
      invariant i <= |s| + 1 && (i <= |s| ==> start <= i)
      invariant if i <= |s| then Parsing(out[..], positions, s, start, i) else Parsed(out[..], positions, s)
    {
      ghost var was := out[..];
      if i == |s| || s[i] == COMMA {
        NameEnds(was, positions, s, start, i);
        if i - start > 255 {
          return None, positions;
        }
        var n: byte := i - start;
        out[start] := n;
        positions := positions + [start];
        assert out[..] == was[start := n];
        start := i + 1;
      } else {
        NameGoesOn(was, positions, s, start, i);
        out[i + 1] := s[i];
        positions := positions + [i + 1];
        assert out[..] == was[i + 1 := s[i]];
      }
      i := i + 1;
    }
    ParsedIsWire(out[..], positions, s);
    r := Some(out[..]);
  }

  lemma NameGoesOn(out: seq<byte>, positions: seq<nat>, s: seq<byte>, start: nat, i: nat)
    requires Parsing(out, positions, s, start, i) && i < |s| && s[i] != COMMA
    ensures Parsing(out[i + 1 := s[i]], positions + [i + 1], s, start, i + 1)
  {
    var out' := out[i + 1 := s[i]];
    assert out'[..start] == out[..start];
    assert out'[start + 1..i + 2] == out[start + 1..i + 1] + [s[i]];
    WroteByte(positions, start, i);
  }

  /** Filling in the length byte completes the name that ends at i. */
  lemma NameEnds(out: seq<byte>, positions: seq<nat>, s: seq<byte>, start: nat, i: nat)
    requires Parsing(out, positions, s, start, i) && (i == |s| || s[i] == COMMA)
    ensures i - start > 255 ==> !Short(Split(s))
    ensures i - start <= 255 ==>
              var n: byte := i - start;
              var out' := out[start := n];
              if i == |s| then Parsed(out', positions + [start], s)
              else Parsing(out', positions + [start], s, i + 1, i + 1)
  {
    EndOfName(s, start, i);
    if i - start <= 255 {
      if i == |s| {
        LastNameEnds(out, positions, s, start);
      } else {
        NameEndsAtComma(out, positions, s, start, i);
      }
    }
  }

  lemma LastNameEnds(out: seq<byte>, positions: seq<nat>, s: seq<byte>, start: nat)
    requires Parsing(out, positions, s, start, |s|) && |s| - start <= 255
    ensures Parsed(out[start := |s| - start], positions + [start], s)
  {
    EndOfName(s, start, |s|);
    WroteLength(positions, start, |s|);
    LengthFilledIn(out, s, start, |s|);
    var name := [|s| - start] + s[start..|s|];
    assert name + Encode([]) == name;
    assert out[start := |s| - start] == out[start := |s| - start][..|s| + 1] == out[..start] + name;
  }

  lemma NameEndsAtComma(out: seq<byte>, positions: seq<nat>, s: seq<byte>, start: nat, i: nat)
    requires Parsing(out, positions, s, start, i) && i < |s| && s[i] == COMMA && i - start <= 255
    ensures Parsing(out[start := i - start], positions + [start], s, i + 1, i + 1)
  {
    EndOfName(s, start, i);
    WroteLength(positions, start, i);
    LengthFilledIn(out, s, start, i);
    var rest := Encode(SplitFrom(s, i + 1, i + 1));
    assert out[..start] + ([i - start] + s[start..i] + rest) == out[..start] + ([i - start] + s[start..i]) + rest;
    assert out[start := i - start][i + 2..i + 2] == s[i + 1..i + 1];
  }

  lemma LengthFilledIn(out: seq<byte>, s: seq<byte>, start: nat, i: nat)
    requires start <= i <= |s| && |out| == |s| + 1 && i - start <= 255 && out[start + 1..i + 1] == s[start..i]
    ensures out[start := i - start][..i + 1] == out[..start] + ([i - start] + s[start..i])
  {
    assert out[start := i - start][..i + 1] == out[..start] + ([i - start] + out[start + 1..i + 1]);
  }

  /** The component that ends at i comes off the front of the list. */
  lemma EndOfName(s: seq<byte>, start: nat, i: nat)
    requires start <= i <= |s| && (i == |s| || s[i] == COMMA)
    ensures var l := SplitFrom(s, start, i);
            var rest := if i == |s| then [] else SplitFrom(s, i + 1, i + 1);
            && Encode(l) == [i - start] + s[start..i] + Encode(rest)
            && (Short(l) <==> i - start <= 255 && Short(rest))
  {
    var l := SplitFrom(s, start, i);
    var rest := if i == |s| then [] else SplitFrom(s, i + 1, i + 1);
    assert l == [s[start..i]] + rest;
    FrontName(s[start..i], rest);
  }

  lemma FrontName(name: seq<byte>, rest: Names)
    ensures Encode([name] + rest) == [|name|] + name + Encode(rest)
    ensures Short([name] + rest) <==> |name| <= 255 && Short(rest)
  {
    var l := [name] + rest;
    assert l[1..] == rest && l[0] == name;
    assert forall k :: 0 <= k < |rest| ==> rest[k] == l[k + 1];
  }

  /** The wire form byte by byte, from `start` on: what is not a comma stands one place
      further on, and where a name starts is how far it is to the next comma or to the end. */
  ghost predicate WireOf(e: seq<int>, s: seq<byte>, start: nat)
  {
    && start <= |s| && |e| == |s| - start + 1
    && (forall p :: start <= p < |s| && s[p] != 44 ==> e[p + 1 - start] == s[p])
    && (forall q: nat :: NameStarts(s, start, q) ==> LengthAt(s, q, e[q - start]))
  }

  ghost predicate NameStarts(s: seq<byte>, start: nat, q: nat)
  {
    start <= q <= |s| && (q == start || s[q - 1] == 44)
  }

  ghost predicate LengthAt(s: seq<byte>, q: nat, n: int)
  {
    0 <= n && q + n <= |s| && 44 !in s[q..q + n] && (q + n == |s| || s[q + n] == 44)
  }

  lemma {:induction false} WireFrom(s: seq<byte>, start: nat, i: nat)
    requires start <= i <= |s| && 44 !in s[start..i]
    ensures WireOf(Encode(SplitFrom(s, start, i)), s, start)
    decreases |s| - i
  {
    if i == |s| {
      EndOfName(s, start, i);
      LastOfWire(s, start);
    } else if s[i] == COMMA {
      EndOfName(s, start, i);
      WireFrom(s, i + 1, i + 1);
      NameAndWire(s, start, i, Encode(SplitFrom(s, i + 1, i + 1)));
    } else {
      assert s[start..i + 1] == s[start..i] + [s[i]];
      WireFrom(s, start, i + 1);
    }
  }

  lemma ParsedIsWire(out: seq<byte>, positions: seq<nat>, s: seq<byte>)
    requires Parsed(out, positions, s)
    ensures WireOf(out, s, 0)
  {
    WireFrom(s, 0, 0);
  }

  lemma LastOfWire(s: seq<byte>, start: nat)
    requires start <= |s| && 44 !in s[start..|s|]
    ensures WireOf([|s| - start] + s[start..|s|] + Encode([]), s, start)
  {
    var e := [|s| - start] + s[start..|s|] + Encode([]);
    forall q: nat | NameStarts(s, start, q)
      ensures q == start
    {
    }
    assert LengthAt(s, start, e[0]);
  }

  lemma NameAndWire(s: seq<byte>, start: nat, i: nat, rest: seq<int>)
    requires start <= i < |s| && s[i] == 44 && 44 !in s[start..i] && WireOf(rest, s, i + 1)
    ensures WireOf([i - start] + s[start..i] + rest, s, start)
  {
    var e := [i - start] + s[start..i] + rest;
    forall q: nat | NameStarts(s, start, q)
      ensures LengthAt(s, q, e[q - start])
    {
      if q == start {
        assert e[0] == i - start;
      } else if q > i {
        assert NameStarts(s, i + 1, q);
        assert e[q - start] == rest[q - (i + 1)];
      }
    }
  }

  /** The walkers read back exactly the components of the text. */
  lemma ParsedListDecodes(s: seq<byte>, wire: seq<byte>)
    requires Short(Split(s)) && wire == Encode(Split(s))
    ensures Decode(wire) == Some(Split(s))
  {
    assert wire[0..] == wire;
    DecodeIsInverse(wire, 0, Split(s));
  }

  // ----- walking a list

  const SEPARATOR: seq<byte> := [44, 32]

  /** The names with ", " between them. */
  function Shown(names: Names, n: nat): seq<byte>
    requires n <= |names|
  {
    if n == 0 then [] else Shown(names, n - 1) + (if n == 1 then [] else SEPARATOR) + names[n - 1]
  }

  /** The loops that print an advertised list, which is taken to be well formed. */
  method Walk(b: seq<byte>) returns (text: seq<byte>, names: Names)
    requires Decode(b).Some?
    ensures names == Decode(b).value && text == Shown(names, |names|)
  {
    text, names := [], [];
    ghost var all := Decode(b).value;
    var i := 0;
    while i < |b|
      invariant i <= |b| && (i == 0 <==> names == [])
      invariant DecodeFrom(b, i).Some? && all == names + DecodeFrom(b, i).value
      invariant text == Shown(names, |names|)
    {
      if i != 0 {
        text := text + SEPARATOR;
      }
      NextName(b, i, names);
      var name := b[i + 1..i + 1 + b[i]];
      text := text + name;
      ShownMore(names, name);
      names := names + [name];
      i := i + b[i] + 1;
    }
  }

  lemma NextName(b: seq<byte>, i: nat, names: Names)
    requires i < |b| && DecodeFrom(b, i).Some?
    ensures i + 1 + b[i] <= |b| && DecodeFrom(b, i + 1 + b[i]).Some?
    ensures names + DecodeFrom(b, i).value == (names + [b[i + 1..i + 1 + b[i]]]) + DecodeFrom(b, i + 1 + b[i]).value
  {
  }

  /** From the front: the names in order, and a comma and a space before each but the first. */
  lemma {:induction false} ShownInOrder(names: Names, n: nat)
    requires 0 < n <= |names|
    ensures Shown(names, n) == names[0] + if n == 1 then [] else [44, 32] + Shown(names[1..], n - 1)
  {
    if n > 1 {
      ShownInOrder(names, n - 1);
      assert names[1..][n - 2] == names[n - 1];
    }
  }

  lemma ShownMore(names: Names, name: seq<byte>)
    ensures Shown(names + [name], |names| + 1) == Shown(names, |names|) + (if names == [] then [] else SEPARATOR) + name
  {
    ShownPrefix(names, names + [name], |names|);
  }

  lemma {:induction false} ShownPrefix(a: Names, b: Names, n: nat)
    requires n <= |a| <= |b| && b[..|a|] == a
    ensures Shown(a, n) == Shown(b, n)
  {
    if n > 0 {
      ShownPrefix(a, b, n - 1);
      assert b[..|a|][n - 1] == b[n - 1];
    }
  }

  // ----- matching two lists

  /** The name at i is in both lists, and no name of `ours` before it is. */
  ghost predicate FirstAt(ours: Names, theirs: Names, i: nat)
  {
    i < |ours| && ours[i] in theirs && forall j :: 0 <= j < i ==> ours[j] !in theirs
  }

  /** The first name of `ours` that `theirs` also has. */
  function FirstCommon(ours: Names, theirs: Names): (r: Option<seq<byte>>)
    ensures r.Some? ==> exists i: nat :: FirstAt(ours, theirs, i) && r.value == ours[i]
    ensures r.None? ==> forall n :: n in ours ==> n !in theirs
  {
    if ours == [] then None
    else if ours[0] in theirs then assert FirstAt(ours, theirs, 0); Some(ours[0])
    else
      var r := FirstCommon(ours[1..], theirs);
      assert forall i: nat :: FirstAt(ours[1..], theirs, i) ==> FirstAt(ours, theirs, i + 1);
      r
  }

  /** The inner loop of SSL_select_next_proto. */
  method Offers(list: seq<byte>, name: seq<byte>) returns (found: bool)
    requires Decode(list).Some?
    ensures found <==> name in Decode(list).value
  {
    var j := 0;
    while j < |list|
      invariant j <= |list| && DecodeFrom(list, j).Some?
      invariant name in Decode(list).value <==> name in DecodeFrom(list, j).value
    {
      if list[j] == |name| && list[j + 1..j + 1 + list[j]] == name {
        return true;
      }
      j := j + list[j] + 1;
    }
    found := false;
  }

  /** SSL_select_next_proto: the server's first name that the client has too, and
      otherwise the client's first name. None stands for the length byte that is read
      from an empty client list. */
  method SelectNextProto(server: seq<byte>, client: seq<byte>) returns (chosen: Option<seq<byte>>, negotiated: bool)
    requires Decode(server).Some? && Decode(client).Some?
    ensures var s, c := Decode(server).value, Decode(client).value;
            && negotiated == FirstCommon(s, c).Some?
            && chosen == if negotiated then FirstCommon(s, c) else if c == [] then None else Some(c[0])
    ensures var s, c := Decode(server).value, Decode(client).value;
            if negotiated then exists i: nat :: FirstAt(s, c, i) && chosen == Some(s[i])
            else forall n :: n in s ==> n !in c
  {
    var i := 0;
    while i < |server|
      invariant i <= |server| && DecodeFrom(server, i).Some?
      invariant FirstCommon(Decode(server).value, Decode(client).value) ==
                FirstCommon(DecodeFrom(server, i).value, Decode(client).value)
    {
      var name := server[i + 1..i + 1 + server[i]];
      var found := Offers(client, name);
      ghost var rest := DecodeFrom(server, i).value;
      assert rest[0] == name && rest[1..] == DecodeFrom(server, i + 1 + server[i]).value;
      if found {
        return Some(name), true;
      }
      i := i + server[i] + 1;
    }
    chosen, negotiated := if client == [] then None else Some(client[1..1 + client[0]]), false;
  }
}
