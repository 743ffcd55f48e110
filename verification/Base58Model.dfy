/** Base58Check as arithmetic: digits, values, and the number theory that fixes the shape of a TRON address. */
module Base58Model {

  type Byte = b: nat | b < 256

  const BASE58_ALPHABET := "123456789" + "ABCDEFGH" + "JKLMN" + "PQRSTUVWXYZ" + "abcdefghijk" + "mnopqrstuvwxyz"

  function CharOf(d: nat): char
    requires d < 58
  {
    if d < 9 then '1' + d as char
    else if d < 17 then 'A' + (d - 9) as char
    else if d < 22 then 'J' + (d - 17) as char
    else if d < 33 then 'P' + (d - 22) as char
    else if d < 44 then 'a' + (d - 33) as char
    else 'm' + (d - 44) as char
  }

  /** The index of a character in the alphabet, -1 when it has none. */
  function IndexOf(c: char): (d: int)
    ensures -1 <= d < 58 && (d >= 0 ==> CharOf(d) == c)
  {
    if '1' <= c <= '9' then c as int - '1' as int
    else if 'A' <= c <= 'H' then c as int - 'A' as int + 9
    else if 'J' <= c <= 'N' then c as int - 'J' as int + 17
    else if 'P' <= c <= 'Z' then c as int - 'P' as int + 22
    else if 'a' <= c <= 'k' then c as int - 'a' as int + 33
    else if 'm' <= c <= 'z' then c as int - 'm' as int + 44
    else -1
  }

  /** IndexOf is the position in the alphabet string. */
  lemma AlphabetIndexed(d: nat)
    requires d < 58
    ensures |BASE58_ALPHABET| == 58 && BASE58_ALPHABET[d] == CharOf(d) && IndexOf(BASE58_ALPHABET[d]) == d
  {
    if d < 17 {
    } else if d < 33 {
    } else {
    }
  }

  predicate Digits(s: string) {
    forall i :: 0 <= i < |s| ==> IndexOf(s[i]) >= 0
  }

  function Value(s: string): nat
    requires Digits(s)
  {
    if s == "" then 0 else Value(s[..|s| - 1]) * 58 + IndexOf(s[|s| - 1])
  }

  /** big.Int's SetBytes and Python's from_bytes. */
  function BytesValue(b: seq<Byte>): nat {
    if b == [] then 0 else BytesValue(b[..|b| - 1]) * 256 + b[|b| - 1]
  }

  /** big.Int's Bytes: no leading zero. */
  function MinimalBytes(n: nat): (b: seq<Byte>)
    ensures BytesValue(b) == n && (b != [] ==> b[0] != 0) && (b == [] <==> n == 0)
  {
    if n == 0 then [] else MinimalBytes(n / 256) + [n % 256]
  }

  function LeadingOnes(s: string): (k: nat)
    ensures k <= |s| && (forall i :: 0 <= i < k ==> s[i] == '1') && (k < |s| ==> s[k] != '1')
  {
    if s == "" || s[0] != '1' then 0 else 1 + LeadingOnes(s[1..])
  }

  function Zeros(n: nat): (z: seq<Byte>)
    ensures |z| == n && forall i :: 0 <= i < n ==> z[i] == 0
  {
    if n == 0 then [] else [0] + Zeros(n - 1)
  }

  /** The decoder as arithmetic: a zero byte for each leading '1', then the number's own bytes. */
  function Decoded(s: string): seq<Byte>
    requires Digits(s)
  {
    Zeros(LeadingOnes(s)) + MinimalBytes(Value(s))
  }

  /** The encoder as arithmetic. */
  function ToBase58(n: nat): (s: string)
    ensures Digits(s) && Value(s) == n && (s != "" ==> s[0] != '1')
  {
    if n == 0 then "" else ToBase58(n / 58) + [CharOf(n % 58)]
  }

  lemma {:induction false} MinimalOfBytes(b: seq<Byte>)
    requires b != [] ==> b[0] != 0
    ensures MinimalBytes(BytesValue(b)) == b
  {
    if b != [] {
      var n := |b| - 1;
      MinimalOfBytes(b[..n]);
      assert b == b[..n] + [b[n]];
      if n == 0 { assert b[..n] == []; } else { assert BytesValue(b[..n]) > 0; }
    }
  }

  lemma {:induction false} Base58OfValue(s: string)
    requires Digits(s) && (s != "" ==> s[0] != '1')
    ensures ToBase58(Value(s)) == s
  {
    hide IndexOf, CharOf;
    if s != "" {
      var n := |s| - 1;
      Base58OfValue(s[..n]);
      assert s == s[..n] + [s[n]];
      assert Value(s) / 58 == Value(s[..n]) && Value(s) % 58 == IndexOf(s[n]);
      PositiveValue(s);
    }
  }

  lemma {:induction false} PositiveValue(s: string)
    requires Digits(s) && s != "" && s[0] != '1'
    ensures Value(s) > 0
  {
    if |s| > 1 { PositiveValue(s[..|s| - 1]); } else { assert s[..0] == ""; }
  }

  function Pow(b: nat, e: nat): nat {
    if e == 0 then 1 else b * Pow(b, e - 1)
  }

  lemma Rearrange(a: nat, b: nat, c: nat)
    ensures a * (b * c) == (a * c) * b
  {
  }

  lemma Scale(base: nat, d: nat, p: nat, v: nat, x: nat)
    requires d * p <= v < (d + 1) * p && x < base
    ensures d * (base * p) <= v * base + x < (d + 1) * (base * p)
  {
    Rearrange(d, base, p);
    Rearrange(d + 1, base, p);
    ScaleBound(d * p, v, (d + 1) * p, base, x);
  }

  lemma ScaleBound(low: nat, v: nat, high: nat, base: nat, x: nat)
    requires low <= v < high && x < base
    ensures low * base <= v * base + x < high * base
  {
    assert (v + 1) * base <= high * base;
  }

  /** A numeral of n digits starting with digit d lies between d and d + 1 times 58^(n-1). */
  lemma {:induction false} LeadingDigit(s: string)
    requires Digits(s) && s != ""
    ensures IndexOf(s[0]) * Pow(58, |s| - 1) <= Value(s) < (IndexOf(s[0]) + 1) * Pow(58, |s| - 1)
  {
    hide IndexOf;
    var n := |s| - 1;
    if n == 0 {
      assert s[..0] == "";
    } else {
      LeadingDigit(s[..n]);
      Scale(58, IndexOf(s[0]), Pow(58, n - 1), Value(s[..n]), IndexOf(s[n]));
    }
  }

  lemma {:induction false} LeadingByte(b: seq<Byte>)
    requires b != []
    ensures b[0] * Pow(256, |b| - 1) <= BytesValue(b) < (b[0] as nat + 1) * Pow(256, |b| - 1)
  {
    var n := |b| - 1;
    if n == 0 {
      assert b[..0] == [];
    } else {
      LeadingByte(b[..n]);
      Scale(256, b[0], Pow(256, n - 1), BytesValue(b[..n]), b[n]);
    }
  }

  lemma {:induction false} PowMonotone(b: nat, e: nat, f: nat)
    requires b >= 1 && e <= f
    ensures 1 <= Pow(b, e) <= Pow(b, f)
    decreases f
  {
    if e < f {
      PowMonotone(b, e, f - 1);
      assert b * Pow(b, f - 1) >= Pow(b, f - 1);
    } else if f > 0 {
      PowMonotone(b, f - 1, f - 1);
      assert b * Pow(b, f - 1) >= 1;
    }
  }

  lemma {:induction false} PowSum(b: nat, e: nat, f: nat)
    ensures Pow(b, e + f) == Pow(b, e) * Pow(b, f)
  {
    if e > 0 {
      PowSum(b, e - 1, f);
      assert b * (Pow(b, e - 1) * Pow(b, f)) == b * Pow(b, e - 1) * Pow(b, f);
    }
  }

  lemma PowersOf58()
    ensures Pow(58, 33) == 15599970876632771988160814054146447252125923204784443097088
  {
    assert Pow(58, 4) == 11316496;
    PowSum(58, 4, 4);
    PowSum(58, 8, 8);
    PowSum(58, 16, 16);
    assert Pow(58, 33) == 58 * Pow(58, 32);
  }

  lemma PowersOf256()
    ensures Pow(256, 24) == 6277101735386680763835789423207666416102355444464034512896
  {
    assert Pow(256, 3) == 16777216;
    PowSum(256, 3, 3);
    PowSum(256, 6, 6);
    PowSum(256, 12, 12);
  }

  /** 0x41 * 256^24 .. 0x42 * 256^24 lies inside 26 * 58^33 .. 27 * 58^33. */
  lemma AddressRange()
    ensures 26 * Pow(58, 33) <= 0x41 * Pow(256, 24)
    ensures 0x42 * Pow(256, 24) <= 27 * Pow(58, 33)
  {
    PowersOf58();
    PowersOf256();
  }
}
