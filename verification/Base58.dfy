/**
 Base58 text and bytes.  (internal/rpc/base58.go, b58Decode)
 */
module Base58 {
  import opened Arithmetic
  import opened Bytes
  import opened Wrappers

  // ----- Positional notation in any base, most significant digit first -----

  type Digits = seq<nat>

  function Number(base: nat, d: Digits): nat
    requires base >= 2
  {
    if d == [] then 0 else base * Number(base, d[..|d| - 1]) + d[|d| - 1]
  }

  /** The digits of `n` without leading zeros; none for zero. */
  function DigitsOf(base: nat, n: nat): (d: Digits)
    requires base >= 2
    ensures d == [] <==> n == 0
    decreases n
  {
    if n == 0 then []
    else
      Shrinks(n, base);
      DigitsOf(base, n / base) + [n % base]
  }

  lemma Shrinks(n: nat, base: nat)
    requires n > 0 && base >= 2
    ensures n / base < n
  {
    assert n == (n / base) * base + n % base;
    AtLeastTwice(n / base, base);
  }

  lemma AtLeastTwice(q: nat, base: nat)
    requires base >= 2
    ensures q * base >= 2 * q
  {
  }

  predicate InRange(base: nat, d: Digits) {
    forall i :: 0 <= i < |d| ==> d[i] < base
  }

  function ZeroDigits(n: nat): (z: Digits)
    ensures |z| == n && forall i :: 0 <= i < n ==> z[i] == 0
  {
    seq(n, i requires 0 <= i < n => 0)
  }

  function LeadingZeros(d: Digits): (k: nat)
    ensures k <= |d| && forall i :: 0 <= i < k ==> d[i] == 0
    ensures k < |d| ==> d[k] != 0
  {
    if d == [] || d[0] != 0 then 0 else 1 + LeadingZeros(d[1..])
  }

  /** Leading zeros are kept one for one; the rest is the same number in the other base. */
  function Transcode(d: Digits, base: nat, other: nat): Digits
    requires base >= 2 && other >= 2
  {
    ZeroDigits(LeadingZeros(d)) + DigitsOf(other, Number(base, d))
  }

  lemma NumberOfSnoc(base: nat, d: Digits, last: nat)
    requires base >= 2
    ensures Number(base, d + [last]) == base * Number(base, d) + last
    ensures InRange(base, d) && last < base ==> InRange(base, d + [last])
    ensures d != [] ==> (d + [last])[0] == d[0]
  {
    assert (d + [last])[..|d|] == d;
  }

  lemma DivMod(n: nat, base: nat)
    requires base >= 2
    ensures n == base * (n / base) + n % base && n % base < base
  {
  }

  lemma {:induction false} NumberOfDigits(base: nat, n: nat)
    requires base >= 2
    ensures Number(base, DigitsOf(base, n)) == n && InRange(base, DigitsOf(base, n))
    ensures n > 0 ==> DigitsOf(base, n)[0] != 0
    decreases n
  {
    if n > 0 {
      Shrinks(n, base);
      NumberOfDigits(base, n / base);
      NumberOfSnoc(base, DigitsOf(base, n / base), n % base);
      DivMod(n, base);
    }
  }

  lemma {:induction false} DigitsOfNumber(base: nat, d: Digits)
    requires base >= 2 && InRange(base, d) && (d != [] ==> d[0] != 0)
    ensures DigitsOf(base, Number(base, d)) == d
  {
    if d != [] {
      var init, last := d[..|d| - 1], d[|d| - 1];
      DigitsOfNumber(base, init);
      var n := Number(base, init);
      assert base * n == n * base;
      DivModUnique(Number(base, d), base, n, last);
      assert Number(base, d) != 0 by {
        if n > 0 {
          MulBound(n, base);
        }
      }
      assert d == init + [last];
    }
  }

  lemma {:induction false} LeadingZerosDoNotCount(base: nat, d: Digits, k: nat)
    requires base >= 2
    ensures Number(base, ZeroDigits(k) + d) == Number(base, d)
    decreases |d|, k
  {
    var z := ZeroDigits(k) + d;
    if d != [] {
      LeadingZerosDoNotCount(base, d[..|d| - 1], k);
      assert z[..|z| - 1] == ZeroDigits(k) + d[..|d| - 1];
    } else if k > 0 {
      LeadingZerosDoNotCount(base, [], k - 1);
      assert z[..|z| - 1] == ZeroDigits(k - 1) + [];
    }
  }

  lemma {:induction false} LeadingZerosOf(d: Digits, k: nat)
    requires d != [] ==> d[0] != 0
    ensures LeadingZeros(ZeroDigits(k) + d) == k
    decreases k
  {
    if k == 0 {
      assert ZeroDigits(0) + d == d;
    } else {
      LeadingZerosOf(d, k - 1);
      assert (ZeroDigits(k) + d)[1..] == ZeroDigits(k - 1) + d;
    }
  }

  /** Transcoding to another base and back is the identity on every digit sequence. */
  lemma TranscodeRoundTrip(d: Digits, base: nat, other: nat)
    requires base >= 2 && other >= 2 && InRange(base, d)
    ensures InRange(other, Transcode(d, base, other))
    ensures Transcode(Transcode(d, base, other), other, base) == d
  {
    var k, n := LeadingZeros(d), Number(base, d);
    NumberOfDigits(other, n);
    LeadingZerosOf(DigitsOf(other, n), k);
    LeadingZerosDoNotCount(other, DigitsOf(other, n), k);
    var rest := d[k..];
    assert d == ZeroDigits(k) + rest;
    LeadingZerosDoNotCount(base, rest, k);
    DigitsOfNumber(base, rest);
  }

  // ----- Decoding -----

  /** The value of a digit: the alphabet is six runs of ASCII, without 0, I, O and l. -1 if it is none. */
  function CharValue(c: char): (r: int)
    ensures -1 <= r < 58
  {
    if '1' <= c <= '9' then (c - '1') as int
    else if 'A' <= c <= 'H' then (c - 'A') as int + 9
    else if 'J' <= c <= 'N' then (c - 'J') as int + 17
    else if 'P' <= c <= 'Z' then (c - 'P') as int + 22
    else if 'a' <= c <= 'k' then (c - 'a') as int + 33
    else if 'm' <= c <= 'z' then (c - 'm') as int + 44
    else -1
  }

  /** The alphabet of the source, in the order of its values. */
  const ALPHABET := "123456789"
    + "ABCDEFGH"
    + "JKLMN"
    + "PQRSTUVWXYZ"
    + "abcdefghijk"
    + "mnopqrstuvwxyz"

  lemma AlphabetValues(i: nat)
    requires i < 58
    ensures |ALPHABET| == 58 && CharValue(ALPHABET[i]) == i
  {
    if i < 9 {
      OneToNine(i);
    } else if i < 17 {
      AToH(i - 9);
    } else if i < 22 {
      JToN(i - 17);
    } else if i < 33 {
      PToZ(i - 22);
    } else if i < 44 {
      SmallAToK(i - 33);
    } else {
      SmallMToZ(i - 44);
    }
  }

  lemma OneToNine(k: nat)
    requires k < 9
    ensures CharValue("123456789"[k]) == k
  {
  }

  lemma AToH(k: nat)
    requires k < 8
    ensures CharValue("ABCDEFGH"[k]) == 9 + k
  {
  }

  lemma JToN(k: nat)
    requires k < 5
    ensures CharValue("JKLMN"[k]) == 17 + k
  {
  }

  lemma PToZ(k: nat)
    requires k < 11
    ensures CharValue("PQRSTUVWXYZ"[k]) == 22 + k
  {
  }

  lemma SmallAToK(k: nat)
    requires k < 11
    ensures CharValue("abcdefghijk"[k]) == 33 + k
  {
  }

  lemma SmallMToZ(k: nat)
    requires k < 14
    ensures CharValue("mnopqrstuvwxyz"[k]) == 44 + k
  {
  }

  function Letter(v: nat): (c: char)
    requires v < 58
    ensures CharValue(c) == v
  {
    if v < 9 then '1' + v as char
    else if v < 17 then 'A' + (v - 9) as char
    else if v < 22 then 'J' + (v - 17) as char
    else if v < 33 then 'P' + (v - 22) as char
    else if v < 44 then 'a' + (v - 33) as char
    else 'm' + (v - 44) as char
  }

  lemma LetterOfValue(c: char)
    requires CharValue(c) >= 0
    ensures Letter(CharValue(c)) == c
  {
  }

  predicate IsBase58(s: string) {
    forall i :: 0 <= i < |s| ==> CharValue(s[i]) >= 0
  }

  function Values(s: string): (d: Digits)
    requires IsBase58(s)
    ensures |d| == |s| && forall i :: 0 <= i < |s| ==> d[i] == CharValue(s[i])
  {
    seq(|s|, i requires 0 <= i < |s| => CharValue(s[i]))
  }

  function ToBytes(d: Digits): (b: Bytes)
    requires InRange(256, d)
    ensures |b| == |d| && forall i :: 0 <= i < |d| ==> b[i] as nat == d[i]
  {
    seq(|d|, i requires 0 <= i < |d| => d[i] as byte)
  }

  function FromBytes(b: Bytes): (d: Digits)
    ensures |d| == |b| && InRange(256, d)
    ensures forall i :: 0 <= i < |b| ==> d[i] == b[i] as nat
  {
    seq(|b|, i requires 0 <= i < |b| => b[i] as nat)
  }

  function Decode(s: string): Option<Bytes> {
    if IsBase58(s) then
      TranscodeRoundTrip(Values(s), 58, 256);
      Some(ToBytes(Transcode(Values(s), 58, 256)))
    else None
  }

  method B58Decode(s: string) returns (r: Option<Bytes>)
    ensures r == Decode(s)
  {
    var n := 0;
    for i := 0 to |s|
      invariant IsBase58(s[..i]) && n == Number(58, Values(s[..i]))
    {
      var idx := CharValue(s[i]);
      NextDigit(s, i);
      if idx < 0 {
        return None;
      }
      n := n * 58;
      n := n + idx;
    }
    assert s[..|s|] == s;

    var leading := 0;
    while leading < |s| && s[leading] == '1'
      invariant leading <= |s| && forall k :: 0 <= k < leading ==> s[k] == '1'
    {
      leading := leading + 1;
    }
    LeadingOnes(s, leading);

    NumberOfDigits(256, n);
    var b := ToBytes(DigitsOf(256, n));
    TranscodeRoundTrip(Values(s), 58, 256);
    ZerosThenBytes(leading, DigitsOf(256, n));
    return Some(Zeros(leading) + b);
  }

  lemma ZerosThenBytes(k: nat, d: Digits)
    requires InRange(256, d)
    ensures InRange(256, ZeroDigits(k) + d) && ToBytes(ZeroDigits(k) + d) == Zeros(k) + ToBytes(d)
  {
  }

  lemma NextDigit(s: string, i: nat)
    requires i < |s| && IsBase58(s[..i])
    ensures IsBase58(s[..i + 1]) <==> CharValue(s[i]) >= 0
    ensures CharValue(s[i]) < 0 ==> !IsBase58(s)
    ensures CharValue(s[i]) >= 0 ==>
      Number(58, Values(s[..i + 1])) == Number(58, Values(s[..i])) * 58 + CharValue(s[i])
  {
    if CharValue(s[i]) >= 0 {
      assert forall k :: 0 <= k <= i ==> s[..i + 1][k] == if k < i then s[..i][k] else s[i];
      assert Values(s[..i + 1])[..i] == Values(s[..i]);
    } else {
      assert s[..i + 1][i] == s[i];
    }
  }

  lemma LeadingOnes(s: string, k: nat)
    requires IsBase58(s) && k <= |s| && (forall i :: 0 <= i < k ==> s[i] == '1') && (k < |s| ==> s[k] != '1')
    ensures LeadingZeros(Values(s)) == k
  {
  }

  // ----- The inverse -----

  /** The encoder the decoder must invert; the source has none. */
  function Encode(b: Bytes): (s: string)
    ensures IsBase58(s) && Values(s) == Transcode(FromBytes(b), 256, 58)
  {
    TranscodeRoundTrip(FromBytes(b), 256, 58);
    ToText(Transcode(FromBytes(b), 256, 58))
  }

  function ToText(d: Digits): (s: string)
    requires InRange(58, d)
    ensures |s| == |d| && IsBase58(s) && Values(s) == d
    ensures forall i :: 0 <= i < |d| ==> s[i] == Letter(d[i])
  {
    seq(|d|, i requires 0 <= i < |d| => Letter(d[i]))
  }

  /** Decoding is a bijection between valid strings and byte strings. */
  lemma EncodeOfDecode(s: string)
    requires IsBase58(s)
    ensures Encode(Decode(s).value) == s
  {
    TranscodeRoundTrip(Values(s), 58, 256);
    assert FromBytes(Decode(s).value) == Transcode(Values(s), 58, 256);
    var t := Encode(Decode(s).value);
    assert Values(t) == Values(s);
    forall i | 0 <= i < |s| ensures t[i] == s[i] {
      LetterOfValue(s[i]);
      LetterOfValue(t[i]);
    }
  }

  lemma DecodeOfEncode(b: Bytes)
    ensures Decode(Encode(b)) == Some(b)
  {
    TranscodeRoundTrip(FromBytes(b), 256, 58);
    assert ToBytes(FromBytes(b)) == b;
  }

  /** The leading zero bytes count the leading '1's. */
  lemma LeadingZerosCountOnes(s: string, k: nat)
    requires IsBase58(s) && k <= |s|
    requires (forall i :: 0 <= i < k ==> s[i] == '1') && (k < |s| ==> s[k] != '1')
    ensures var b := Decode(s).value;
      k <= |b| && (forall i :: 0 <= i < k ==> b[i] == 0) && (k < |b| ==> b[k] != 0)
  {
    var n := Number(58, Values(s));
    LeadingOnes(s, k);
    NumberOfDigits(256, n);
    ZerosThenBytes(k, DigitsOf(256, n));
    assert Decode(s).value == Zeros(k) + ToBytes(DigitsOf(256, n));
  }

  /** No two valid strings decode alike. */
  lemma DecodeIsInjective(s: string, t: string)
    requires IsBase58(s) && IsBase58(t) && Decode(s) == Decode(t)
    ensures s == t
  {
    EncodeOfDecode(s);
    EncodeOfDecode(t);
  }
}
