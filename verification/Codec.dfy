/** The textual encodings of hashes and numbers: hexadecimal, decimal, and how they order. */
module Codec {
  import opened Base

  const HEX_DIGITS: string := "0123456789abcdef"
  const DECIMAL_DIGITS: string := "0123456789"

  /** The order of the language's strings. */
  predicate StringLess(a: string, b: string) {
    b != [] && (a == [] || a[0] < b[0] || (a[0] == b[0] && StringLess(a[1..], b[1..])))
  }

  predicate BytesLess(a: Bytes, b: Bytes) {
    b != [] && (a == [] || a[0] < b[0] || (a[0] == b[0] && BytesLess(a[1..], b[1..])))
  }

  function Hex(b: Bytes): (s: string)
    ensures |s| == 2 * |b|
  {
    if b == [] then [] else [HEX_DIGITS[b[0] / 16], HEX_DIGITS[b[0] % 16]] + Hex(b[1..])
  }

  function HexValue(c: char): (v: Option<nat>)
    ensures v.Some? ==> v.value < 16
  {
    if '0' <= c <= '9' then Some(c as int - '0' as int)
    else if 'a' <= c <= 'f' then Some(c as int - 'a' as int + 10)
    else if 'A' <= c <= 'F' then Some(c as int - 'A' as int + 10)
    else None
  }

  function DecodeHex(s: string): Option<Bytes> {
    if s == [] then Some([])
    else if |s| == 1 then None
    else
      match (HexValue(s[0]), HexValue(s[1]), DecodeHex(s[2..]))
      case (Some(hi), Some(lo), Some(rest)) => Some([16 * hi + lo] + rest)
      case _ => None
  }

  /** An empty string reads as the zero hash; anything else must be exactly 32 bytes of hex. */
  function HashFromString(s: string): Option<Hash32> {
    if s == "" then Some(ZERO_HASH)
    else
      match DecodeHex(s)
      case Some(b) => if |b| == 32 then Some(b) else None
      case None => None
  }

  /** The two ways to write a hexadecimal digit, and no others are read. */
  lemma HexDigits(c: char)
    ensures forall d: nat :: d < 16 ==> (HexValue(c) == Some(d) <==>
      c == "0123456789abcdef"[d] || c == "0123456789ABCDEF"[d])
  {
  }

  lemma {:induction false} DecodeReads(s: string, b: Bytes)
    ensures DecodeHex(s) == Some(b) <==>
      |s| == 2 * |b| && forall i :: 0 <= i < |b| ==> ByteAt(s, i, b[i])
  {
    if |s| < 2 {
    } else if b == [] {
    } else {
      DecodeReads(s[2..], b[1..]);
      assert forall i :: 0 < i < |b| && |s| == 2 * |b| ==>
        s[2..][2 * (i - 1)] == s[2 * i] && s[2..][2 * (i - 1) + 1] == s[2 * i + 1] && b[1..][i - 1] == b[i];
      DecodeHeadReads(s, b);
    }
  }

  /** Two digits spell the byte. */
  predicate ByteAt(s: string, i: nat, v: Byte) {
    2 * i + 1 < |s| && HexValue(s[2 * i]) == Some(v / 16) && HexValue(s[2 * i + 1]) == Some(v % 16)
  }

  lemma DecodeHeadReads(s: string, b: Bytes)
    requires |s| >= 2 && b != []
    ensures DecodeHex(s) == Some(b) <==> ByteAt(s, 0, b[0]) && DecodeHex(s[2..]) == Some(b[1..])
  {
    match (HexValue(s[0]), HexValue(s[1]), DecodeHex(s[2..]))
    case (Some(hi), Some(lo), Some(rest)) =>
      assert b == [b[0]] + b[1..];
      assert ([16 * hi + lo] + rest)[1..] == rest;
    case _ =>
  }

  /** A hash is read from nothing, as zero, or from exactly 64 hexadecimal digits. */
  lemma HashReads(s: string, h: Hash32)
    ensures HashFromString(s) == Some(h) <==>
      if s == "" then forall i :: 0 <= i < 32 ==> h[i] == 0
      else |s| == 64 && forall i :: 0 <= i < 32 ==> ByteAt(s, i, h[i])
  {
    DecodeReads(s, h);
    if s == "" && forall i :: 0 <= i < 32 ==> h[i] == 0 {
      assert h == ZERO_HASH;
    }
  }

  lemma HexDigitValue(d: nat)
    requires d < 16
    ensures HexValue(HEX_DIGITS[d]) == Some(d)
  {
  }

  lemma DecodePair(c: char, d: char, rest: string, hi: nat, lo: nat, tail: Bytes)
    requires hi < 16 && lo < 16
    requires HexValue(c) == Some(hi) && HexValue(d) == Some(lo) && DecodeHex(rest) == Some(tail)
    ensures DecodeHex([c, d] + rest) == Some([16 * hi + lo] + tail)
  {
    assert ([c, d] + rest)[2..] == rest;
  }

  lemma {:induction false} HexRoundTrip(b: Bytes)
    ensures DecodeHex(Hex(b)) == Some(b)
  {
    if b != [] {
      var hi, lo := b[0] / 16, b[0] % 16;
      HexDigitValue(hi);
      HexDigitValue(lo);
      HexRoundTrip(b[1..]);
      DecodePair(HEX_DIGITS[hi], HEX_DIGITS[lo], Hex(b[1..]), hi, lo, b[1..]);
      assert [b[0]] + b[1..] == b;
    }
  }

  lemma HashRoundTrip(h: Hash32)
    ensures HashFromString(Hex(h)) == Some(h)
  {
    HexRoundTrip(h);
  }

  lemma HexInjective(a: Bytes, b: Bytes)
    requires Hex(a) == Hex(b)
    ensures a == b
  {
    HexRoundTrip(a);
    HexRoundTrip(b);
  }

  lemma TwoCharOrder(c: char, d: char, x: string, e: char, f: char, y: string)
    ensures StringLess([c, d] + x, [e, f] + y) <==> c < e || (c == e && (d < f || (d == f && StringLess(x, y))))
  {
    assert ([c, d] + x)[1..] == [d] + x && ([e, f] + y)[1..] == [f] + y;
    assert ([d] + x)[1..] == x && ([f] + y)[1..] == y;
  }

  /** Comparing hex strings compares the bytes they spell. */
  lemma {:induction false} HexOrder(a: Bytes, b: Bytes)
    ensures StringLess(Hex(a), Hex(b)) <==> BytesLess(a, b)
  {
    if a != [] && b != [] {
      HexDigitOrder(a[0] / 16, b[0] / 16);
      HexDigitOrder(a[0] % 16, b[0] % 16);
      HexOrder(a[1..], b[1..]);
      TwoCharOrder(HEX_DIGITS[a[0] / 16], HEX_DIGITS[a[0] % 16], Hex(a[1..]),
                   HEX_DIGITS[b[0] / 16], HEX_DIGITS[b[0] % 16], Hex(b[1..]));
    }
  }

  lemma HexDigitOrder(c: nat, d: nat)
    requires c < 16 && d < 16
    ensures HEX_DIGITS[c] < HEX_DIGITS[d] <==> c < d
    ensures HEX_DIGITS[c] == HEX_DIGITS[d] <==> c == d
  {
  }

  /** For equally long strings, byte order is the order of the big-endian values. */
  lemma {:induction false} BytesOrder(a: Bytes, b: Bytes)
    requires |a| == |b|
    ensures BytesLess(a, b) <==> FromBigEndian(a) < FromBigEndian(b)
    ensures a == b <==> FromBigEndian(a) == FromBigEndian(b)
  {
    if a != [] {
      BytesOrder(a[1..], b[1..]);
      BytesOrderStep(a, b);
    }
  }

  lemma BytesOrderStep(a: Bytes, b: Bytes)
    requires |a| == |b| > 0
    requires BytesLess(a[1..], b[1..]) <==> FromBigEndian(a[1..]) < FromBigEndian(b[1..])
    requires a[1..] == b[1..] <==> FromBigEndian(a[1..]) == FromBigEndian(b[1..])
    ensures BytesLess(a, b) <==> FromBigEndian(a) < FromBigEndian(b)
    ensures a == b <==> FromBigEndian(a) == FromBigEndian(b)
  {
    var x, y, r, s := a[0], b[0], FromBigEndian(a[1..]), FromBigEndian(b[1..]);
    var va, vb, p := FromBigEndian(a), FromBigEndian(b), Pow256(|a| - 1);
    assert va == x * p + r && r < p by { FromBigEndianHead(a); BigEndianBound(a[1..]); }
    assert vb == y * p + s && s < p by { FromBigEndianHead(b); BigEndianBound(b[1..]); }
    HeadDominates(x, y, p, r, s);
    HeadDominates(y, x, p, s, r);
    assert a == [x] + a[1..] && b == [y] + b[1..];
  }

  lemma HeadDominates(x: nat, y: nat, p: nat, r: nat, s: nat)
    requires r < p && s < p
    ensures x < y ==> x * p + r < y * p + s
    ensures x == y ==> (x * p + r < y * p + s <==> r < s)
    ensures x * p + r == y * p + s ==> x == y
  {
    if x < y {
      assert (x + 1) * p <= y * p;
    } else if y < x {
      assert (y + 1) * p <= x * p;
    }
  }

  lemma NextPower(n: nat, k: nat)
    ensures n * Pow256(k + 1) == 256 * (n * Pow256(k))
  {
  }

  lemma {:induction false} FromBigEndianHead(b: Bytes)
    requires b != []
    ensures FromBigEndian(b) == b[0] * Pow256(|b| - 1) + FromBigEndian(b[1..])
  {
    if |b| > 1 {
      FromBigEndianHead(b[..|b| - 1]);
      assert b[1..][..|b| - 2] == b[..|b| - 1][1..];
      NextPower(b[0], |b| - 2);
    }
  }

  lemma {:induction false} BigEndianBound(b: Bytes)
    ensures FromBigEndian(b) < Pow256(|b|)
  {
    if b != [] { BigEndianBound(b[..|b| - 1]); }
  }

  // ----- decimal -----

  function Decimal(n: nat): (s: string)
    ensures |s| > 0
    ensures forall i :: 0 <= i < |s| ==> '0' <= s[i] <= '9'
  {
    if n < 10 then [DECIMAL_DIGITS[n]] else Decimal(n / 10) + [DECIMAL_DIGITS[n % 10]]
  }

  /** Digits only, read left to right; the empty string is not a number. */
  function ParseDecimal(s: string): Option<nat> {
    if s == [] then None
    else
      var d := s[|s| - 1];
      if !('0' <= d <= '9') then None
      else
        var digit := d as int - '0' as int;
        if |s| == 1 then Some(digit)
        else
          match ParseDecimal(s[..|s| - 1])
          case Some(v) => Some(10 * v + digit)
          case None => None
  }

  lemma {:induction false} DecimalRoundTrip(n: nat)
    ensures ParseDecimal(Decimal(n)) == Some(n)
  {
    if n >= 10 {
      DecimalRoundTrip(n / 10);
      assert Decimal(n)[..|Decimal(n)| - 1] == Decimal(n / 10);
    }
  }

  lemma DecimalInjective(m: nat, n: nat)
    requires Decimal(m) == Decimal(n)
    ensures m == n
  {
    DecimalRoundTrip(m);
    DecimalRoundTrip(n);
  }

  /** A number is read from its digits behind any zeros, and from nothing else. */
  lemma {:induction false} DecimalReads(s: string, n: nat)
    ensures ParseDecimal(s) == Some(n) <==> exists k: nat :: s == Zeros(k) + Decimal(n)
  {
    if ParseDecimal(s) == Some(n) {
      var k := LeadingZeros(s, n);
      assert s == Zeros(k) + Decimal(n);
    }
    if k: nat :| s == Zeros(k) + Decimal(n) {
      ZerosRead(k, n);
    }
  }

  function Zeros(k: nat): (s: string)
    ensures |s| == k
  {
    seq(k, _ => '0')
  }

  lemma OneMoreDigit(init: string, n: nat, d: nat)
    requires init != "" && d < 10
    ensures ParseDecimal(init) == Some(n) ==> ParseDecimal(init + [DECIMAL_DIGITS[d]]) == Some(10 * n + d)
  {
    var s := init + [DECIMAL_DIGITS[d]];
    assert s[..|s| - 1] == init && s[|s| - 1] == DECIMAL_DIGITS[d];
  }

  lemma LastDigit(s: string, n: nat)
    requires |s| > 1 && ParseDecimal(s) == Some(n)
    ensures s == s[..|s| - 1] + [DECIMAL_DIGITS[n % 10]] && ParseDecimal(s[..|s| - 1]) == Some(n / 10)
  {
    var init, c := s[..|s| - 1], s[|s| - 1];
    assert s == init + [c];
    DigitOf(c);
    var v :| ParseDecimal(init) == Some(v);
    Parts(v, c as int - '0' as int, n);
  }

  lemma DigitOf(c: char)
    requires '0' <= c <= '9'
    ensures DECIMAL_DIGITS[c as int - '0' as int] == c
  {
  }

  lemma Parts(v: nat, d: nat, n: nat)
    requires d < 10 && n == 10 * v + d
    ensures n / 10 == v && n % 10 == d
  {
  }

  lemma ZerosAndDigit(k: nat, n: nat)
    requires n >= 10
    ensures Zeros(k) + Decimal(n) == Zeros(k) + Decimal(n / 10) + [DECIMAL_DIGITS[n % 10]]
  {
    assert Decimal(n) == Decimal(n / 10) + [DECIMAL_DIGITS[n % 10]];
  }

  lemma MoreZeros(k: nat, n: nat)
    requires n < 10
    ensures Zeros(k + 1) + Decimal(n) == Zeros(k) + Decimal(0) + [DECIMAL_DIGITS[n]]
  {
    assert Zeros(k + 1) == Zeros(k) + "0" && Decimal(0) == "0";
  }

  lemma {:induction false} ZerosRead(k: nat, n: nat)
    ensures ParseDecimal(Zeros(k) + Decimal(n)) == Some(n)
    decreases n, k
  {
    hide Decimal, ParseDecimal, Zeros;
    if n >= 10 {
      ZerosRead(k, n / 10);
      ZerosAndDigit(k, n);
      OneMoreDigit(Zeros(k) + Decimal(n / 10), n / 10, n % 10);
      DigitsAdd(n);
    } else {
      ZeroDigits(k, n);
    }
  }

  lemma DigitsAdd(n: nat)
    ensures 10 * (n / 10) + n % 10 == n
  {
  }

  lemma {:induction false} ZeroDigits(k: nat, n: nat)
    requires n < 10
    ensures ParseDecimal(Zeros(k) + Decimal(n)) == Some(n)
  {
    if k > 0 {
      ZeroDigits(k - 1, 0);
      MoreZeros(k - 1, n);
      OneMoreDigit(Zeros(k - 1) + Decimal(0), 0, n);
    } else {
      assert Zeros(0) + Decimal(n) == Decimal(n);
    }
  }

  lemma OneDigit(s: string, n: nat)
    requires |s| == 1 && ParseDecimal(s) == Some(n)
    ensures s == Zeros(0) + Decimal(n)
  {
    assert s == [s[0]];
    DigitOf(s[0]);
    assert Zeros(0) + Decimal(n) == Decimal(n);
  }

  lemma {:induction false} LeadingZeros(s: string, n: nat) returns (k: nat)
    requires ParseDecimal(s) == Some(n)
    ensures s == Zeros(k) + Decimal(n)
  {
    if |s| == 1 {
      k := 0;
      OneDigit(s, n);
    } else {
      hide ParseDecimal, Decimal, Zeros;
      LastDigit(s, n);
      k := LeadingZeros(s[..|s| - 1], n / 10);
      if n < 10 {
        MoreZeros(k, n);
        k := k + 1;
      } else {
        ZerosAndDigit(k, n);
      }
    }
  }

  /** Decimal text as people write it. */
  lemma DecimalExample()
    ensures Decimal(7200) == "7200" && Decimal(0) == "0"
  {
    assert Decimal(72) == "72" && Decimal(720) == "720";
  }

  function BigIntToString(v: int): string {
    if v < 0 then "-" + Decimal(-v) else Decimal(v)
  }

  /** An empty string reads as zero; a sign may precede the digits. */
  function BigIntFromString(s: string): Option<int> {
    if s == "" then Some(0)
    else if s[0] == '-' then
      match ParseDecimal(s[1..])
      case Some(v) => (var n: int := v; Some(-n))
      case None => None
    else
      match ParseDecimal(if s[0] == '+' then s[1..] else s)
      case Some(v) => (var n: int := v; Some(n))
      case None => None
  }

  lemma UnsignedReads(s: string)
    requires |s| > 0 && '0' <= s[0] <= '9'
    ensures BigIntFromString(s) == ParseDecimal(s)
  {
  }

  lemma SignedReads(s: string, v: int)
    requires v >= 0 && ParseDecimal(s) == Some(v)
    ensures BigIntFromString("-" + s) == Some(-v)
  {
    assert ("-" + s)[1..] == s;
  }

  lemma BigIntRoundTrip(v: int)
    ensures BigIntFromString(BigIntToString(v)) == Some(v)
  {
    if v < 0 {
      DecimalRoundTrip(-v);
      SignedReads(Decimal(-v), -v);
    } else {
      DecimalRoundTrip(v);
      UnsignedReads(Decimal(v));
    }
  }

  /** A height read back from a file name or a snapshot key. */
  function ParseUint64(s: string): Option<Uint64> {
    match ParseDecimal(s)
    case Some(v) => if v < TWO_64 then Some(v) else None
    case None => None
  }

  /** A height is read from the digits of a 64-bit number behind any zeros. */
  lemma HeightReads(s: string, n: Uint64)
    ensures ParseUint64(s) == Some(n) <==> exists k: nat :: s == Zeros(k) + Decimal(n)
  {
    DecimalReads(s, n);
  }

  /** A total work is read from nothing, as zero, or from an optional sign and digits behind any zeros. */
  lemma BigIntReads(s: string, v: int)
    ensures BigIntFromString(s) == Some(v) <==>
      if s == "" then v == 0
      else if s[0] == '-' then v <= 0 && exists k: nat :: s[1..] == Zeros(k) + Decimal(-v)
      else v >= 0 && exists k: nat :: (if s[0] == '+' then s[1..] else s) == Zeros(k) + Decimal(v)
  {
    hide ParseDecimal, Decimal, Zeros;
    if s != "" && s[0] == '-' && v <= 0 {
      DecimalReads(s[1..], -v);
    } else if s != "" && v >= 0 {
      DecimalReads(if s[0] == '+' then s[1..] else s, v);
    }
  }

  lemma HeightRoundTrip(n: Uint64)
    ensures ParseUint64(Decimal(n)) == Some(n)
  {
    DecimalRoundTrip(n);
  }
}
