/** Serial numbers as database keys: how a number becomes a key, how keys are
    compared and which part of a key is hashed (apps/apps.c, apps/ca.c,
    apps/ocsp.c). */
module SerialKey {
  import opened Prelude

  /** The digit of value v, in the upper case that BN_bn2hex uses. */
  function HexChar(v: nat): char
    requires v < 16
  {
    if v < 10 then '0' + v as char else 'A' + (v - 10) as char
  }

  function HexVal(c: char): (v: nat)
    ensures v < 16
  {
    if '0' <= c <= '9' then (c - '0') as nat
    else if 'A' <= c <= 'F' then (c - 'A') as nat + 10
    else if 'a' <= c <= 'f' then (c - 'a') as nat + 10
    else 0
  }

  predicate IsHex(c: char)
  {
    '0' <= c <= '9' || 'A' <= c <= 'F' || 'a' <= c <= 'f'
  }

  /** The number a string of hexadecimal digits denotes. */
  function Value(s: string): nat
  {
    if s == [] then 0 else 16 * Value(s[..|s| - 1]) + HexVal(s[|s| - 1])
  }

  /** BN_bn2hex on a positive number: two digits a byte, no leading zero byte. */
  function HexBytes(n: nat): (s: string)
    ensures |s| % 2 == 0
  {
    if n == 0 then "" else HexBytes(n / 256) + [HexChar(n % 256 / 16), HexChar(n % 16)]
  }

  /** The key that issuing, revoking and OCSP lookup build for serial n. */
  function Key(n: nat): (s: string)
    ensures |s| >= 2 && |s| % 2 == 0
  {
    if n == 0 then "00" else HexBytes(n)
  }

  predicate IsUpperHex(c: char)
  {
    '0' <= c <= '9' || 'A' <= c <= 'F'
  }

  /** The texts that are keys: upper-case digits, whole bytes, no leading zero byte. */
  predicate Canonical(s: string)
  {
    && |s| >= 2 && |s| % 2 == 0
    && (|s| > 2 ==> s[0] != '0' || s[1] != '0')
    && (forall c :: c in s ==> IsUpperHex(c))
  }

  /** The first loop of index_serial_cmp: what is left after leading zeros. */
  function StripZeros(s: string): string
  {
    if s != [] && s[0] == '0' then StripZeros(s[1..]) else s
  }

  /** index_serial_cmp(a, b) == 0. */
  predicate SameSerial(a: string, b: string)
  {
    StripZeros(a) == StripZeros(b)
  }

  /** The part of a key that index_serial_hash passes to lh_strhash: one
      character is dropped whatever it is, then zeros. */
  function HashedPart(s: string): string
  {
    if s == [] then [] else StripZeros(s[1..])
  }

  // ----- digits and values

  lemma HexDigit(v: nat)
    requires v < 16
    ensures HexVal(HexChar(v)) == v && IsHex(HexChar(v)) && ToUpper(HexChar(v)) == HexChar(v)
    ensures HexChar(v) == '0' <==> v == 0
  {
  }

  lemma ValueOfByte(t: string, x: char, y: char)
    ensures Value(t + [x, y]) == 256 * Value(t) + 16 * HexVal(x) + HexVal(y)
  {
    var s := t + [x, y];
    assert s[..|s| - 1] == t + [x];
    assert (t + [x])[..|t|] == t;
  }

  lemma Nibbles(q: nat, u: nat, v: nat)
    requires u < 16 && v < 16
    ensures var n := 256 * q + 16 * u + v; n / 256 == q && n % 256 / 16 == u && n % 16 == v
  {
  }

  lemma NibblesOf(n: nat)
    ensures n == 256 * (n / 256) + 16 * (n % 256 / 16) + n % 16
  {
    assert n % 256 % 16 == n % 16;
  }

  lemma {:induction false} ValueOfBytes(n: nat)
    ensures Value(HexBytes(n)) == n
  {
    if n != 0 {
      ValueOfBytes(n / 256);
      var u, v := n % 256 / 16, n % 16;
      ValueOfByte(HexBytes(n / 256), HexChar(u), HexChar(v));
      HexDigit(u);
      HexDigit(v);
      NibblesOf(n);
    }
  }

  lemma {:induction false} ValueWithZero(s: string)
    ensures Value("0" + s) == Value(s)
  {
    if s == [] {
      assert "0" + s == "0" && "0"[..0] == "";
    } else {
      ValueWithZero(s[..|s| - 1]);
      assert ("0" + s)[..|s|] == "0" + s[..|s| - 1];
    }
  }

  lemma {:induction false} ValueOfStripped(s: string)
    ensures Value(StripZeros(s)) == Value(s)
  {
    if s != [] && s[0] == '0' {
      ValueOfStripped(s[1..]);
      ValueWithZero(s[1..]);
      assert s == "0" + s[1..];
    }
  }

  /** A text cut short stands for a number that is not larger. */
  lemma {:induction false} PrefixIsSmaller(s: string, k: nat)
    requires k <= |s|
    ensures Value(s[..k]) <= Value(s)
    ensures k < |s| && Value(s) > 0 ==> Value(s[..k]) < Value(s)
    decreases |s|
  {
    if k < |s| {
      var t := s[..|s| - 1];
      assert t[..k] == s[..k];
      PrefixIsSmaller(t, k);
    } else {
      assert s[..k] == s;
    }
  }

  lemma UpperHex(c: char)
    requires IsHex(c)
    ensures HexVal(ToUpper(c)) == HexVal(c) && HexChar(HexVal(c)) == ToUpper(c)
  {
    if 'a' <= c <= 'f' {
      assert ToUpper(c) == c - 'a' + 'A';
    }
  }

  lemma UpperOfByte(s: string, x: char, y: char)
    ensures Upper(s + [x, y]) == Upper(s) + [ToUpper(x), ToUpper(y)]
  {
  }

  /** Even-length hexadecimal text whose first byte is not zero is what
      BN_bn2hex prints for its value, up to letter case. */
  lemma {:induction false} EvenTextIsBytes(s: string)
    requires |s| % 2 == 0
    requires forall c :: c in s ==> IsHex(c)
    requires s != [] ==> s[0] != '0' || s[1] != '0'
    ensures Upper(s) == HexBytes(Value(s))
    ensures s != [] ==> Value(s) > 0
    decreases |s|
  {
    if s == [] {
    } else {
      var n := |s|;
      var t, x, y := s[..n - 2], s[n - 2], s[n - 1];
      assert s == t + [x, y] && x in s && y in s;
      EvenTextIsBytes(t);
      ZeroDigit(x);
      ZeroDigit(y);
      assert t == [] ==> Value(t) == 0;
      ByteAppended(t, x, y);
    }
  }

  lemma ByteAppended(t: string, x: char, y: char)
    requires IsHex(x) && IsHex(y) && Upper(t) == HexBytes(Value(t))
    requires Value(t) > 0 || HexVal(x) > 0 || HexVal(y) > 0
    ensures Upper(t + [x, y]) == HexBytes(Value(t + [x, y])) && Value(t + [x, y]) > 0
  {
    ValueOfByte(t, x, y);
    Nibbles(Value(t), HexVal(x), HexVal(y));
    UpperOfByte(t, x, y);
    UpperHex(x);
    UpperHex(y);
  }

  lemma ZeroDigit(c: char)
    requires IsHex(c)
    ensures HexVal(c) == 0 <==> c == '0'
  {
  }

  lemma ValueOfZeros()
    ensures Value("00") == 0
  {
    assert "00"[..1] == "0" && "0"[..0] == "" && Value("0") == 0;
  }

  lemma {:induction false} BytesAreUpper(n: nat)
    ensures forall c :: c in HexBytes(n) ==> IsUpperHex(c)
    ensures n != 0 ==> HexBytes(n) != [] && (HexBytes(n)[0] != '0' || HexBytes(n)[1] != '0')
  {
    if n != 0 {
      BytesAreUpper(n / 256);
      HexDigit(n % 256 / 16);
      HexDigit(n % 16);
      NibblesOf(n);
    }
  }

  /** A key determines its number, so distinct serials have distinct keys. */
  lemma ValueOfKey(n: nat)
    ensures Value(Key(n)) == n
    ensures Canonical(Key(n))
  {
    ValueOfBytes(n);
    BytesAreUpper(n);
    ValueOfZeros();
  }

  lemma {:induction false} UpperOfUpper(s: string)
    requires forall c :: c in s ==> IsUpperHex(c)
    ensures Upper(s) == s
  {
    if s != [] {
      assert s[0] in s;
      UpperOfUpper(s[1..]);
    }
  }

  /** The canonical texts are exactly the keys. */
  lemma CanonicalIsKey(s: string)
    ensures Canonical(s) <==> s == Key(Value(s))
  {
    ValueOfKey(Value(s));
    if Canonical(s) {
      if s[0] == '0' && s[1] == '0' {
        assert s == "00";
        ValueOfZeros();
      } else {
        EvenTextIsBytes(s);
        UpperOfUpper(s);
      }
    }
  }

  /** On canonical keys the comparison decides equality of the numbers, and of
      the strings. */
  lemma CanonicalSame(a: string, b: string)
    requires Canonical(a) && Canonical(b)
    ensures SameSerial(a, b) <==> Value(a) == Value(b)
    ensures SameSerial(a, b) <==> a == b
  {
    ValueOfStripped(a);
    ValueOfStripped(b);
    CanonicalIsKey(a);
    CanonicalIsKey(b);
  }

  // ----- hash against comparison

  lemma {:induction false} StripShape(s: string)
    ensures |StripZeros(s)| <= |s|
    ensures s != [] && s[0] == '0' ==> |StripZeros(s)| < |s|
  {
    if s != [] && s[0] == '0' {
      StripShape(s[1..]);
    }
  }

  /** The hash follows the comparison on two equal keys exactly when both start
      with a zero or neither does. */
  lemma HashFollowsComparison(a: string, b: string)
    requires a != [] && b != [] && SameSerial(a, b)
    ensures HashedPart(a) == HashedPart(b) <==> (a[0] == '0' <==> b[0] == '0')
  {
    StripShape(a[1..]);
    StripShape(b[1..]);
    StripShape(a);
    StripShape(b);
  }

  /** Two spellings of twenty-six that compare equal and hash differently. */
  lemma HashMissesPaddedKey()
    ensures SameSerial("1A", "001A") && Value("1A") == Value("001A")
    ensures HashedPart("1A") != HashedPart("001A")
  {
    assert "001A"[1..] == "01A" && "01A"[1..] == "1A" && "1A"[1..] == "A";
    ValueOfStripped("001A");
  }

  // ----- the -status option

  /** get_certificate_status: an odd spelling gets a zero in front, then every
      character is put in upper case. */
  function StatusKey(serial: string): string
  {
    Upper(Padded(serial))
  }

  function Padded(serial: string): string
  {
    if |serial| % 2 == 1 then "0" + serial else serial
  }

  /** A spelling of n: hexadecimal digits in either case, denoting n, with no
      leading zero unless it makes a whole byte or is the number zero. */
  predicate Spelling(s: string, n: nat)
  {
    && s != []
    && (forall c :: c in s ==> IsHex(c))
    && Value(s) == n
    && (s[0] == '0' ==> |s| == 1 || (|s| % 2 == 0 && (s[1] != '0' || |s| == 2)))
  }

  lemma PaddedSpelling(s: string, n: nat)
    requires Spelling(s, n)
    ensures var padded := Padded(s);
            && |padded| % 2 == 0 && |padded| >= 2
            && Value(padded) == n
            && (forall c :: c in padded ==> IsHex(c))
            && (padded[0] == '0' && padded[1] == '0' ==> padded == "00")
  {
    ValueWithZero(s);
  }

  /** Every spelling of n reaches the key that was stored for n. */
  lemma StatusReachesKey(s: string, n: nat)
    requires Spelling(s, n)
    ensures StatusKey(s) == Key(n)
  {
    var padded := Padded(s);
    PaddedSpelling(s, n);
    if padded[0] == '0' && padded[1] == '0' {
      ValueOfZeros();
    } else {
      EvenTextIsBytes(padded);
    }
  }

  predicate HexText(s: string)
  {
    s != [] && forall c :: c in s ==> IsHex(c)
  }

  /** What is left of a text of whole bytes without its zeros depends on its number only. */
  lemma {:induction false} StripOfValue(s: string)
    requires |s| % 2 == 0 && forall c :: c in s ==> IsUpperHex(c)
    ensures StripZeros(s) == StripZeros(HexBytes(Value(s)))
    decreases |s|
  {
    if s != [] {
      if s[0] == '0' && s[1] == '0' {
        assert s == "0" + s[1..] && s[1..] == "0" + s[2..];
        ValueWithZero(s[1..]);
        ValueWithZero(s[2..]);
        StripOfValue(s[2..]);
      } else {
        EvenTextIsBytes(s);
        UpperOfUpper(s);
      }
    }
  }

  /** Every text of n, padded or not, compares equal to the key of n. */
  lemma TextComparesToKey(s: string)
    requires HexText(s)
    ensures SameSerial(StatusKey(s), Key(Value(s)))
  {
    var t := StatusKey(s);
    PaddedText(s);
    StripOfValue(t);
    if Value(s) == 0 {
      assert "00"[1..] == "0" && "0"[1..] == "";
    }
  }

  lemma PaddedText(s: string)
    requires HexText(s)
    ensures var t := StatusKey(s);
            |t| % 2 == 0 && t != [] && Value(t) == Value(s) && forall c :: c in t ==> IsUpperHex(c)
  {
    PaddedIsHex(s);
    ValueOfUpper(Padded(s));
    UpperIsUpperHex(Padded(s));
  }

  lemma PaddedIsHex(s: string)
    requires HexText(s)
    ensures var t := Padded(s); |t| % 2 == 0 && Value(t) == Value(s) && forall c :: c in t ==> IsHex(c)
  {
    ValueWithZero(s);
  }

  lemma UpperIsUpperHex(s: string)
    requires forall c :: c in s ==> IsHex(c)
    ensures forall c :: c in Upper(s) ==> IsUpperHex(c)
  {
    forall i | 0 <= i < |s|
      ensures IsUpperHex(Upper(s)[i])
    {
      assert s[i] in s;
    }
  }

  lemma {:induction false} ValueOfUpper(s: string)
    ensures Value(Upper(s)) == Value(s)
    decreases |s|
  {
    if s != [] {
      var k := |s| - 1;
      ValueOfUpper(s[..k]);
      assert Upper(s)[..k] == Upper(s[..k]);
    }
  }

  /** A text that is not hexadecimal compares equal to no key. */
  lemma OtherTextMatchesNothing(s: string, key: string)
    requires s != [] && !HexText(s) && Canonical(key)
    ensures !SameSerial(StatusKey(s), key)
  {
    var j :| 0 <= j < |s| && !IsHex(s[j]);
    var c, i := ToUpper(s[j]), j + (|Padded(s)| - |s|);
    assert Padded(s)[i] == s[j] && StatusKey(s)[i] == c && !IsHex(c);
    StripKeeps(StatusKey(s), c);
    StripSubset(key);
  }

  lemma {:induction false} StripKeeps(s: string, c: char)
    requires c in s && c != '0'
    ensures c in StripZeros(s)
  {
    if s[0] == '0' {
      StripKeeps(s[1..], c);
    }
  }

  lemma {:induction false} StripSubset(s: string)
    ensures forall c :: c in StripZeros(s) ==> c in s
  {
    if s != [] && s[0] == '0' {
      StripSubset(s[1..]);
    }
  }
}
