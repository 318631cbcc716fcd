/** The expiry test of do_updatedb (apps/ca.c:2356-2416). */
module Expiry {
  import opened Prelude
  import opened Asn1Time

  /** The y2k flag: the text is at or before "49" on its first two characters. */
  predicate Y2k(s: string)
  {
    StrNCmp(s, "49", 2) <= 0
  }

  /** The decision do_updatedb takes on a valid row's expiry date. */
  predicate MarksExpired(exp: string, now: string)
  {
    if Y2k(exp) == Y2k(now) then StrCmp(exp, now) <= 0 else !Y2k(exp) && Y2k(now)
  }

  lemma Y2kIsCentury(s: string)
    requires |s| >= 2 && '0' <= s[0] <= '9' && '0' <= s[1] <= '9'
    ensures Y2k(s) <==> Two(s, 0) < 50
  {
    var t := s[..2];
    assert t[1..] == [s[1]] && "49"[1..] == ['9'] && t[1..][1..] == [] && "49"[1..][1..] == [];
    assert StrNCmp(s, "49", 2) == StrCmp(t, "49") by { assert |s| == 2 ==> s == t; }
    assert StrCmp(t[1..], "49"[1..]) <= 0;
  }

  lemma LeadingDigits(s: string)
    requires IsUtcTime(s) || IsGeneralizedTime(s)
    ensures '0' <= s[0] <= '9' && '0' <= s[1] <= '9'
  {
    var d := if IsUtcTime(s) then s[..12] else s[..14];
    assert d[0] == s[0] && d[1] == s[1];
  }

  /** For UTCTime dates the decision is exactly "expired at or before now" on the
      calendar, the years being read as section 4.1.2.5.1 of RFC 5280 says. */
  lemma UtcExpiryIsChronological(exp: string, now: string)
    requires IsUtcTime(exp) && IsUtcTime(now)
    ensures MarksExpired(exp, now) <==> TmCmp(UtcTm(exp), UtcTm(now)) <= 0
  {
    LeadingDigits(exp);
    LeadingDigits(now);
    Y2kIsCentury(exp);
    Y2kIsCentury(now);
    if Y2k(exp) == Y2k(now) {
      UtcTextOrder(exp, now);
    }
  }

  lemma TmCmpTransitive(a: Tm, b: Tm, c: Tm)
    requires TmCmp(a, b) <= 0 && TmCmp(b, c) <= 0
    ensures TmCmp(a, c) <= 0
  {
  }

  /** Whatever is expired now is expired at every later time. */
  lemma ExpiryIsMonotone(exp: string, now: string, later: string)
    requires IsUtcTime(exp) && IsUtcTime(now) && IsUtcTime(later)
    requires TmCmp(UtcTm(now), UtcTm(later)) <= 0
    requires MarksExpired(exp, now)
    ensures MarksExpired(exp, later)
  {
    UtcExpiryIsChronological(exp, now);
    UtcExpiryIsChronological(exp, later);
    TmCmpTransitive(UtcTm(exp), UtcTm(now), UtcTm(later));
  }

  // ----- expiry dates from 2050 on, which are written with four-digit years

  lemma CenturyOrder(exp: string, now: string)
    requires IsGeneralizedTime(exp) && IsUtcTime(now)
    requires Two(exp, 0) != Two(now, 0)
    ensures StrCmp(exp, now) <= 0 <==> Two(exp, 0) < Two(now, 0)
  {
    LeadingDigits(exp);
    LeadingDigits(now);
    if exp[0] == now[0] {
      assert exp[..1] == now[..1];
      CmpAtDifference(exp, now, 1);
    } else {
      assert exp[..0] == now[..0];
      CmpAtDifference(exp, now, 0);
    }
  }

  /** A date in or after 2050 is later than any UTCTime, so no such row has
      expired. The code nevertheless compares the century of the expiry date with
      the year of the clock: it answers correctly exactly when the century reads
      as this century and the clock as the last one, or both read alike and the
      century is the larger number, or the numbers agree and the rest of the text
      settles it. */
  lemma FourDigitYears(exp: string, now: string)
    requires IsGeneralizedTime(exp) && GeneralizedTm(exp).year >= 2050 && IsUtcTime(now)
    ensures TmCmp(GeneralizedTm(exp), UtcTm(now)) > 0
    ensures var century, year := Two(exp, 0), Two(now, 0);
            !MarksExpired(exp, now) <==>
            || (century < 50 <= year)
            || ((century < 50 <==> year < 50) && year < century)
            || (century == year && StrCmp(exp[2..], now[2..]) > 0)
  {
    LeadingDigits(exp);
    LeadingDigits(now);
    Y2kIsCentury(exp);
    Y2kIsCentury(now);
    var century, year := Two(exp, 0), Two(now, 0);
    if century != year {
      CenturyOrder(exp, now);
    } else {
      assert exp[0] == now[0] && exp[1] == now[1];
      assert StrCmp(exp, now) == StrCmp(exp[1..], now[1..]);
      assert exp[1..][1..] == exp[2..] && now[1..][1..] == now[2..];
    }
  }

  /** In 2026 a certificate good until 2050 is marked expired. */
  lemma CertificateUntil2050()
    ensures IsGeneralizedTime("20500101000000Z") && IsUtcTime("261116000000Z")
    ensures TmCmp(GeneralizedTm("20500101000000Z"), UtcTm("261116000000Z")) > 0
    ensures MarksExpired("20500101000000Z", "261116000000Z")
  {
    UntilIsATime();
    FourDigitYears("20500101000000Z", "261116000000Z");
  }

  lemma UntilIsATime()
    ensures IsGeneralizedTime("20500101000000Z") && GeneralizedTm("20500101000000Z").year == 2050
  {
  }
}
