/** The in-place expansion of LF to CR LF, done from the end of the buffer backwards
    (apps/s_client.c:1252-1266, apps/s_server.c:1454-1468). */
module Crlf {
  import opened Prelude

  const LF: byte := 10
  const CR: byte := 13

  /** The text with CR LF for every LF. */
  function Expand(s: seq<byte>): seq<byte>
  {
    if s == [] then [] else
      var last := |s| - 1;
      Expand(s[..last]) + if s[last] == LF then [CR, LF] else [s[last]]
  }

  /** The number of line feeds. */
  function Lfs(s: seq<byte>): nat
  {
    if s == [] then 0 else Lfs(s[..|s| - 1]) + if s[|s| - 1] == LF then 1 else 0
  }

  lemma {:induction false} ExpandLength(s: seq<byte>)
    ensures |Expand(s)| == |s| + Lfs(s) && Lfs(s) <= |s|
  {
    if s != [] {
      ExpandLength(s[..|s| - 1]);
    }
  }

  /** Every byte is expanded by itself: 13 and 10 for 10, and any other is kept. */
  lemma {:induction false} ExpandByByte(a: seq<byte>, b: seq<byte>, c: byte)
    ensures Expand(a + b) == Expand(a) + Expand(b)
    ensures Expand([c]) == if c == 10 then [13, 10] else [c]
    decreases |b|
  {
    if b == [] {
      assert a + b == a;
    } else {
      var front := b[..|b| - 1];
      ExpandByByte(a, front, c);
      assert (a + b)[..|a + b| - 1] == a + front;
    }
  }

  /** Dropping the CR before every LF. */
  function Collapse(s: seq<byte>): seq<byte>
  {
    if s == [] then []
    else if |s| >= 2 && s[|s| - 2] == CR && s[|s| - 1] == LF then Collapse(s[..|s| - 2]) + [LF]
    else Collapse(s[..|s| - 1]) + [s[|s| - 1]]
  }

  lemma CollapseAppended(s: seq<byte>, c: byte)
    ensures Collapse(s + [CR, LF]) == Collapse(s) + [LF]
    ensures c != LF ==> Collapse(s + [c]) == Collapse(s) + [c]
  {
    assert (s + [CR, LF])[..|s|] == s && (s + [c])[..|s|] == s;
  }

  /** Nothing is lost: collapsing gives back every text. */
  lemma {:induction false} CollapseExpand(s: seq<byte>)
    ensures Collapse(Expand(s)) == s
    decreases |s|
  {
    if s != [] {
      var front, c := s[..|s| - 1], s[|s| - 1];
      CollapseExpand(front);
      CollapseAppended(Expand(front), c);
      LastApart(s, front, c);
    }
  }

  lemma LastApart(s: seq<byte>, front: seq<byte>, c: byte)
    requires s != [] && front == s[..|s| - 1] && c == s[|s| - 1]
    ensures front + [c] == s
  {
  }

  /** The counting loop. */
  method CountLfs(buf: array<byte>, n: nat) returns (lfNum: nat)
    requires n <= buf.Length
    ensures lfNum == Lfs(buf[..n])
  {
    lfNum := 0;
    var j := 0;
    while j < n
      invariant j <= n && lfNum == Lfs(buf[..j])
    {
      assert buf[..j + 1][..j] == buf[..j];
      if buf[j] == LF {
        lfNum := lfNum + 1;
      }
      j := j + 1;
    }
  }

  /** One round of the backward loop: the byte at j moves up by the number of line
      feeds up to it, and a line feed gets a CR in front. */
  method MoveUp(buf: array<byte>, j: nat, lf: nat, ghost total: nat) returns (lf': nat)
    requires j + 1 + lf <= total <= buf.Length && (buf[j] == LF ==> lf > 0)
    modifies buf
    ensures buf[..j] == old(buf[..j])
    ensures lf' == if old(buf[j]) == LF then lf - 1 else lf
    ensures buf[j + lf'..total] == (if old(buf[j]) == LF then [CR, LF] else [old(buf[j])]) + old(buf[j + 1 + lf..total])
  {
    ghost var x, done := buf[j], buf[j + 1 + lf..total];
    lf' := lf;
    buf[j + lf'] := buf[j];
    assert buf[j + 1 + lf..total] == done;
    if buf[j] == LF {
      lf' := lf' - 1;
      buf[j + lf'] := CR;
      assert buf[j + lf'..total] == [CR, LF] + buf[j + 1 + lf..total];
    } else {
      assert buf[j + lf'..total] == [x] + buf[j + 1 + lf..total];
    }
  }

  lemma PrefixStep(s: seq<byte>, j: nat)
    requires j < |s|
    ensures Lfs(s[..j + 1]) == Lfs(s[..j]) + if s[j] == LF then 1 else 0
    ensures Expand(s[..j + 1]) == Expand(s[..j]) + if s[j] == LF then [CR, LF] else [s[j]]
  {
    assert s[..j + 1][..j] == s[..j];
  }

  lemma Associates(a: seq<byte>, b: seq<byte>, c: seq<byte>)
    ensures (a + b) + c == a + (b + c)
  {
  }

  lemma Moved(was: seq<byte>, j: nat, done: seq<byte>, more: seq<byte>)
    requires j < |was| && Expand(was) == Expand(was[..j + 1]) + done
    requires more == (if was[j] == LF then [CR, LF] else [was[j]]) + done
    ensures Expand(was) == Expand(was[..j]) + more
  {
    PrefixStep(was, j);
    Associates(Expand(was[..j]), if was[j] == LF then [CR, LF] else [was[j]], done);
  }

  /** The first j bytes are still to be moved; the rest of the text stands expanded
      below `total`. */
  ghost predicate Moving(b: seq<byte>, was: seq<byte>, j: nat, lf: nat, total: nat)
  {
    && j <= |was| && j + lf <= total <= |b|
    && lf == Lfs(was[..j]) && b[..j] == was[..j]
    && Expand(was) == Expand(was[..j]) + b[j + lf..total]
  }

  /** One round of the loop. */
  method Round(buf: array<byte>, j: nat, lf: nat, ghost was: seq<byte>, ghost total: nat) returns (lf': nat)
    requires Moving(buf[..], was, j + 1, lf, total)
    modifies buf
    ensures lf' <= lf && Moving(buf[..], was, j, lf', total)
  {
    PrefixStep(was, j);
    assert buf[j] == buf[..][..j + 1][j] == was[..j + 1][j] == was[j];
    ghost var b := buf[..];
    lf' := MoveUp(buf, j, lf, total);
    assert b[j + 1 + lf..total] == old(buf[j + 1 + lf..total]);
    Moved(was, j, b[j + 1 + lf..total], buf[..][j + lf'..total]);
    assert buf[..][..j] == b[..j + 1][..j] == was[..j + 1][..j] == was[..j];
  }

  /** Expanding the first n bytes of a buffer of at least twice that size. The part
      below the cursor is not written before it is read, and the count of line feeds
      still to come is zero in the end. */
  method ExpandInPlace(buf: array<byte>, n: nat) returns (i: nat)
    requires 2 * n <= buf.Length
    modifies buf
    ensures i <= buf.Length && buf[..i] == Expand(old(buf[..n]))
  {
    ghost var was := buf[..n];
    var lfNum := CountLfs(buf, n);
    i := n;
    ghost var total := n + lfNum;
    NothingMoved(buf[..], was, lfNum);
    var j := n - 1;
    while j >= 0
      invariant -1 <= j < n && i + lfNum == total
      invariant Moving(buf[..], was, j + 1, lfNum, total)
    {
      var lf := Round(buf, j, lfNum, was, total);
      i := i + (lfNum - lf);
      lfNum := lf;
      j := j - 1;
    }
    AllMoved(buf[..], was, lfNum, total);
    assert buf[..][..total] == buf[..total];
  }

  lemma NothingMoved(b: seq<byte>, was: seq<byte>, lf: nat)
    requires 2 * |was| <= |b| && b[..|was|] == was && lf == Lfs(was)
    ensures Moving(b, was, |was|, lf, |was| + lf)
  {
    ExpandLength(was);
    assert was[..|was|] == was;
    assert Expand(was) + [] == Expand(was);
  }

  lemma AllMoved(b: seq<byte>, was: seq<byte>, lf: nat, total: nat)
    requires Moving(b, was, 0, lf, total)
    ensures lf == 0 && b[..total] == Expand(was)
  {
    assert was[..0] == [];
  }
}
