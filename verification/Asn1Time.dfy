/** ASN.1 time strings and the calendar order on them. Which strings are times, and
    what they mean, follows ASN1_time_parse and ASN1_time_tm_cmp
    (crypto/asn1/a_time_tm.c); that the checks of apps/ca.c come down to this parser
    is a decision of the model. */
module Asn1Time {
  import opened Prelude

  /** The broken-down time the parser fills in, with the full year. */
  datatype Tm = Tm(year: nat, mon: nat, mday: nat, hour: nat, min: nat, sec: nat)

  function Two(s: string, i: nat): (v: nat)
    requires i + 1 < |s|
  {
    var x, y := s[i] as int - '0' as int, s[i + 1] as int - '0' as int;
    if x < 0 || y < 0 then 0 else 10 * x + y
  }

  predicate Digits(s: string)
  {
    forall i :: 0 <= i < |s| ==> '0' <= s[i] <= '9'
  }

  /** The fields from the month on, read at offset i. */
  predicate InRange(s: string, i: nat)
    requires |s| >= i + 10
  {
    && 1 <= Two(s, i) <= 12
    && 1 <= Two(s, i + 2) <= 31
    && Two(s, i + 4) <= 23
    && Two(s, i + 6) <= 59
    && Two(s, i + 8) <= 59
  }

  /** YYMMDDHHMMSSZ. */
  predicate IsUtcTime(s: string)
  {
    |s| == 13 && s[12] == 'Z' && Digits(s[..12]) && InRange(s, 2)
  }

  /** YYYYMMDDHHMMSSZ. */
  predicate IsGeneralizedTime(s: string)
  {
    |s| == 15 && s[14] == 'Z' && Digits(s[..14]) && InRange(s, 4)
  }

  function FieldsAt(year: nat, s: string, i: nat): Tm
    requires |s| >= i + 10
  {
    Tm(year, Two(s, i), Two(s, i + 2), Two(s, i + 4), Two(s, i + 6), Two(s, i + 8))
  }

  /** Two-digit years below 50 are in this century (section 4.1.2.5.1 of RFC 5280). */
  function UtcTm(s: string): Tm
    requires IsUtcTime(s)
  {
    FieldsAt(if Two(s, 0) < 50 then 2000 + Two(s, 0) else 1900 + Two(s, 0), s, 2)
  }

  function GeneralizedTm(s: string): Tm
    requires IsGeneralizedTime(s)
  {
    FieldsAt(100 * Two(s, 0) + Two(s, 2), s, 4)
  }

  /** ASN1_time_tm_cmp. */
  function TmCmp(a: Tm, b: Tm): int
  {
    if a.year != b.year then (if a.year < b.year then -1 else 1)
    else if a.mon != b.mon then (if a.mon < b.mon then -1 else 1)
    else if a.mday != b.mday then (if a.mday < b.mday then -1 else 1)
    else if a.hour != b.hour then (if a.hour < b.hour then -1 else 1)
    else if a.min != b.min then (if a.min < b.min then -1 else 1)
    else if a.sec != b.sec then (if a.sec < b.sec then -1 else 1)
    else 0
  }

  // ----- text order against calendar order

  /** strcmp is decided at the first difference. */
  lemma {:induction false} CmpAtDifference(a: string, b: string, k: nat)
    requires k < |a| && k < |b| && a[..k] == b[..k] && a[k] != b[k]
    ensures StrCmp(a, b) == if a[k] < b[k] then -1 else 1
  {
    if k > 0 {
      assert a[0] == a[..k][0] == b[..k][0] == b[0];
      assert a[1..][..k - 1] == a[..k][1..];
      assert b[1..][..k - 1] == b[..k][1..];
      CmpAtDifference(a[1..], b[1..], k - 1);
    }
  }

  lemma {:induction false} CmpSelf(a: string)
    ensures StrCmp(a, a) == 0
  {
    if a != [] {
      CmpSelf(a[1..]);
    }
  }

  /** Two strings of one length are equal or have a first difference. */
  lemma {:induction false} FirstDifference(a: string, b: string) returns (k: nat)
    requires |a| == |b|
    ensures k <= |a| && a[..k] == b[..k]
    ensures k < |a| ==> a[k] != b[k]
  {
    k := 0;
    while k < |a| && a[k] == b[k]
      invariant k <= |a| && a[..k] == b[..k]
    {
      assert a[..k + 1] == a[..k] + [a[k]] && b[..k + 1] == b[..k] + [b[k]];
      k := k + 1;
    }
  }

  /** A pair of digits before the first difference is equal, and the pair that
      holds it is ordered as the strings are. */
  lemma PairOrder(a: string, b: string, k: nat, i: nat)
    requires i + 1 < |a| == |b| && k < |a|
    requires '0' <= a[i] <= '9' && '0' <= a[i + 1] <= '9' && '0' <= b[i] <= '9' && '0' <= b[i + 1] <= '9'
    requires a[..k] == b[..k] && a[k] != b[k]
    ensures i + 2 <= k ==> Two(a, i) == Two(b, i)
    ensures k == i || k == i + 1 ==> (Two(a, i) < Two(b, i) <==> a[k] < b[k]) && Two(a, i) != Two(b, i)
  {
    assert forall j :: 0 <= j < k ==> a[j] == a[..k][j] == b[..k][j] == b[j];
  }

  /** For two UTCTime strings whose two-digit years mean the same century,
      strcmp is the calendar order. */
  lemma UtcTextOrder(a: string, b: string)
    requires IsUtcTime(a) && IsUtcTime(b) && (Two(a, 0) < 50 <==> Two(b, 0) < 50)
    ensures StrCmp(a, b) == TmCmp(UtcTm(a), UtcTm(b))
  {
    var k := FirstDifference(a, b);
    if k == |a| {
      assert a[..k] == a && b[..k] == b;
      CmpSelf(a);
    } else {
      CmpAtDifference(a, b, k);
      forall i | 0 <= i < 12
        ensures '0' <= a[i] <= '9' && '0' <= b[i] <= '9'
      {
        assert a[i] == a[..12][i] && b[i] == b[..12][i];
      }
      assert k != 12;
      PairOrder(a, b, k, 0);
      PairOrder(a, b, k, 2);
      PairOrder(a, b, k, 4);
      PairOrder(a, b, k, 6);
      PairOrder(a, b, k, 8);
      PairOrder(a, b, k, 10);
    }
  }
}
