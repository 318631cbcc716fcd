/** Small shared vocabulary: optional values, bytes and C strings. */
module Prelude {

  datatype Option<+T> = None | Some(value: T)

  type byte = b: int | 0 <= b < 256

  /** The sign of strcmp(a, b): characters are compared in order and the end of
      a string sorts before every character. */
  function StrCmp(a: string, b: string): int
  {
    if a == [] && b == [] then 0
    else if a == [] then -1
    else if b == [] then 1
    else if a[0] < b[0] then -1
    else if a[0] > b[0] then 1
    else StrCmp(a[1..], b[1..])
  }

  /** The sign of strncmp(a, b, n). */
  function StrNCmp(a: string, b: string, n: nat): int
  {
    StrCmp(if |a| <= n then a else a[..n], if |b| <= n then b else b[..n])
  }

  /** toupper in the C locale. */
  function ToUpper(c: char): char
  {
    if 'a' <= c <= 'z' then c - 'a' + 'A' else c
  }

  function Upper(s: string): (r: string)
    ensures |r| == |s|
    ensures forall i :: 0 <= i < |s| ==> r[i] == ToUpper(s[i])
  {
    if s == [] then [] else [ToUpper(s[0])] + Upper(s[1..])
  }

  /** strcasecmp(a, b) == 0. */
  predicate SameIgnoringCase(a: string, b: string)
  {
    Upper(a) == Upper(b)
  }

  /** The position of the first c in s, or |s| (strchr). */
  function FirstOf(s: string, c: char): (i: nat)
    ensures i <= |s|
    ensures c !in s[..i]
    ensures i < |s| ==> s[i] == c
  {
    if s == [] || s[0] == c then 0
    else
      var k := FirstOf(s[1..], c);
      assert s[..k + 1] == [s[0]] + s[1..][..k];
      k + 1
  }

  // ----- over a number of steps

  /** What is true at first and kept by each step stays true. */
  lemma {:induction false} StaysTrue(good: int -> bool, n: nat)
    requires good(0) && forall i :: 0 <= i < n ==> (good(i) ==> good(i + 1))
    ensures good(n)
  {
    if n > 0 {
      StaysTrue(good, n - 1);
      assert good(n - 1) ==> good(n);
    }
  }

  /** What starts out good stays good as long as no step is bad. */
  lemma {:induction false} FirstFailure(good: int -> bool, bad: int -> bool, n: nat)
    requires good(0) && forall i {:trigger bad(i)} :: 0 <= i < n ==> (good(i) ==> (good(i + 1) <==> !bad(i)))
    ensures (forall i :: 0 <= i <= n ==> good(i)) <==> forall i :: 0 <= i < n ==> !bad(i)
  {
    if n > 0 {
      assert good(n - 1) ==> (good(n) <==> !bad(n - 1));
      FirstFailure(good, bad, n - 1);
    }
  }

  // ----- choosing from a sequence

  /** ps are the positions from lo up to hi that are chosen, in order. */
  ghost predicate Chosen(ps: seq<nat>, lo: nat, hi: nat, keep: nat -> bool)
  {
    && (forall i, j :: 0 <= i < j < |ps| ==> ps[i] < ps[j])
    && (forall p :: p in ps <==> lo <= p < hi && keep(p))
  }

  lemma ChosenOneMore(ps: seq<nat>, lo: nat, hi: nat, keep: nat -> bool) returns (qs: seq<nat>)
    requires lo <= hi && Chosen(ps, lo, hi, keep)
    ensures qs == ps + if keep(hi) then [hi] else []
    ensures Chosen(qs, lo, hi + 1, keep)
  {
    qs := ps + if keep(hi) then [hi] else [];
    forall i | 0 <= i < |ps|
      ensures ps[i] < hi
    {
      assert ps[i] in ps;
    }
    forall p: nat
      ensures p in qs <==> lo <= p < hi + 1 && keep(p)
    {
      assert p in qs <==> p in ps || (keep(hi) && p == hi);
    }
  }
}
