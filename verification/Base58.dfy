/** The Base58Check decoders, validators and encoders of the Go, Python and TypeScript sides. */
module Base58 {
  import opened Wrappers
  import opened Base58Model

  /** SHA-256, of which only the length of a digest matters here. */
  type Hash = seq<Byte> -> seq<Byte>

  ghost predicate IsHash(sha: Hash) {
    forall b :: |sha(b)| == 32
  }

  function Checksum(sha: Hash, payload: seq<Byte>): seq<Byte>
    requires IsHash(sha)
  {
    sha(sha(payload))[..4]
  }

  /** 25 bytes, the TRON prefix, and a matching checksum. */
  predicate ChecksOut(sha: Hash, decoded: seq<Byte>)
    requires IsHash(sha)
  {
    |decoded| == 25 && decoded[0] == 0x41 && decoded[21..] == Checksum(sha, decoded[..21])
  }

  /** The addresses every validator should accept. */
  predicate IsTronAddress(sha: Hash, s: string)
    requires IsHash(sha)
  {
    Digits(s) && ChecksOut(sha, Decoded(s))
  }

  /** A valid address, byte by byte: the prefix, twenty bytes, and the first four bytes of the digest of the digest of
      those twenty-one. */
  lemma AddressIs(sha: Hash, s: string)
    requires IsHash(sha)
    ensures IsTronAddress(sha, s) <==> (Digits(s) && |Decoded(s)| == 25 &&
      var b := Decoded(s); var once := sha(b[..21]); var twice := sha(once);
      && b[0] == 65 && b[21] == twice[0] && b[22] == twice[1] && b[23] == twice[2] && b[24] == twice[3])
  {
    if Digits(s) && |Decoded(s)| == 25 {
      var b := Decoded(s);
      assert b[21..] == [b[21], b[22], b[23], b[24]];
      var twice := sha(sha(b[..21]));
      assert twice[..4] == [twice[0], twice[1], twice[2], twice[3]];
    }
  }

  // ----- the shape of an address -----

  lemma MulLe(a: nat, b: nat, p: nat)
    ensures a <= b ==> a * p <= b * p
  {
  }

  /** Only a 34-digit numeral starting with digit 26 fits between 26 and 27 times 58^33. */
  lemma NumeralShape(n: nat, first: nat, v: nat)
    requires n >= 1 && 1 <= first < 58
    requires first * Pow(58, n - 1) <= v < (first + 1) * Pow(58, n - 1)
    requires 26 * Pow(58, 33) <= v < 27 * Pow(58, 33)
    ensures n == 34 && first == 26
  {
    var p, q := Pow(58, n - 1), Pow(58, 33);
    MulLe(first + 1, 58, p);
    MulLe(1, first, p);
    assert p <= v < Pow(58, n);
    if n <= 33 { PowMonotone(58, n, 33); }
    if n >= 35 { PowMonotone(58, 34, n - 1); }
    assert Pow(58, 34) == 58 * q;
    MulLe(first + 1, 26, q);
    MulLe(27, first, q);
  }

  /** A decoded text whose first byte is not zero has no leading '1' and is the number's own bytes. */
  lemma NoLeadingOne(s: string)
    requires Digits(s) && Decoded(s) != [] && Decoded(s)[0] != 0
    ensures s != "" && s[0] != '1' && Decoded(s) == MinimalBytes(Value(s)) && Value(s) == BytesValue(Decoded(s))
  {
    assert LeadingOnes(s) == 0;
    assert Zeros(0) + MinimalBytes(Value(s)) == MinimalBytes(Value(s));
  }

  /** Whatever decodes to 25 bytes starting with 0x41 has exactly 34 characters and starts with T. */
  lemma AddressShape(s: string)
    requires Digits(s) && |Decoded(s)| == 25 && Decoded(s)[0] == 0x41
    ensures |s| == 34 && s[0] == 'T'
  {
    NoLeadingOne(s);
    LeadingByte(Decoded(s));
    LeadingDigit(s);
    AddressRange();
    var first := IndexOf(s[0]);
    assert first != 0;
    hide Pow, Value, BytesValue, Decoded;
    NumeralShape(|s|, first, Value(s));
    assert CharOf(26) == 'T';
  }

  // ----- Go -----

  /** The multiply-and-add loop shared by the Go decoders: the number, or nothing for a character outside the alphabet. */
  method ParseNumber(s: string) returns (number: Option<nat>)
    ensures number.Some? <==> Digits(s)
    ensures number.Some? ==> number.value == Value(s)
  {
    var n: nat := 0;
    for i := 0 to |s|
      invariant Digits(s[..i]) && n == Value(s[..i])
    {
      assert s[..i + 1][..i] == s[..i];
      var index := IndexOf(s[i]);
      if index < 0 {
        return None;
      }
      n := n * 58 + index;
    }
    assert s[..|s|] == s;
    number := Some(n);
  }

  /** One zero byte in front for every leading '1'. */
  method PrependZeros(s: string, bytes: seq<Byte>) returns (decoded: seq<Byte>)
    ensures decoded == Zeros(LeadingOnes(s)) + bytes
  {
    decoded := bytes;
    var i := 0;
    while i < |s| && s[i] == '1'
      invariant i <= LeadingOnes(s) && decoded == Zeros(i) + bytes
    {
      decoded := [0] + decoded;
      i := i + 1;
    }
  }

  /** decodeBase58 of the analysis package. */
  method DecodeGo(s: string) returns (decoded: Option<seq<Byte>>)
    ensures decoded == if s == "" || !Digits(s) then None else Some(Decoded(s))
  {
    if s == "" {
      return None;
    }
    var number := ParseNumber(s);
    if number.None? {
      return None;
    }
    var bytes := PrependZeros(s, MinimalBytes(number.value));
    decoded := Some(bytes);
  }

  /** validTRONAddress of the analysis package. */
  method ValidTronAddress(sha: Hash, address: string) returns (valid: bool)
    requires IsHash(sha)
    ensures valid <==> IsTronAddress(sha, address)
  {
    var decoded := DecodeGo(address);
    valid := decoded.Some? && ChecksOut(sha, decoded.value);
  }

  const MAX_BASE58_ADDRESS_LENGTH := 64

  /** IsValidTRONAddress of the controllers. */
  method IsValidTronAddress(sha: Hash, address: string) returns (valid: bool)
    requires IsHash(sha)
    ensures valid <==> IsTronAddress(sha, address)
  {
    if IsTronAddress(sha, address) { AddressShape(address); }
    if |address| > MAX_BASE58_ADDRESS_LENGTH {
      return false;
    }
    var number := ParseNumber(address);
    if number.None? {
      return false;
    }
    var decoded := PrependZeros(address, MinimalBytes(number.value));
    valid := ChecksOut(sha, decoded);
  }

  // ----- Python -----

  /** is_valid_tron_address of the agent: it counts the leading ones first, then prepends that many zeros. */
  method IsValidTronAddressPython(sha: Hash, address: string) returns (valid: bool)
    requires IsHash(sha)
    ensures valid <==> IsTronAddress(sha, address)
  {
    if IsTronAddress(sha, address) { AddressShape(address); }
    if address == "" || |address| > MAX_BASE58_ADDRESS_LENGTH {
      return false;
    }
    var number := ParseNumber(address);
    if number.None? {
      return false;
    }
    var leadingZeroes := 0;
    while leadingZeroes < |address| && address[leadingZeroes] == '1'
      invariant leadingZeroes <= LeadingOnes(address)
    {
      leadingZeroes := leadingZeroes + 1;
    }
    valid := ChecksOut(sha, Zeros(leadingZeroes) + MinimalBytes(number.value));
  }

  // ----- TypeScript -----

  /** Little-endian value of the byte array. */
  function LittleEndian(b: seq<Byte>): nat {
    if b == [] then 0 else b[0] + 256 * LittleEndian(b[1..])
  }

  function Reversed(b: seq<Byte>): seq<Byte> {
    if b == [] then [] else Reversed(b[1..]) + [b[0]]
  }

  /** The bytes of a carry that runs off the end of the array. */
  function CarryBytes(carry: nat): seq<Byte> {
    if carry == 0 then [] else [carry % 256] + CarryBytes(carry / 256)
  }

  /** Multiply by 58 and add a carry, byte by byte. */
  function MulAdd(b: seq<Byte>, carry: nat): seq<Byte> {
    if b == [] then CarryBytes(carry)
    else [(b[0] * 58 + carry) % 256] + MulAdd(b[1..], (b[0] * 58 + carry) / 256)
  }

  lemma {:induction false} CarryValue(carry: nat)
    ensures LittleEndian(CarryBytes(carry)) == carry
    ensures carry > 0 ==> CarryBytes(carry) != [] && CarryBytes(carry)[|CarryBytes(carry)| - 1] != 0
  {
    if carry > 0 {
      CarryValue(carry / 256);
      assert CarryBytes(carry)[1..] == CarryBytes(carry / 256);
    }
  }

  lemma {:induction false} MulAddValue(b: seq<Byte>, carry: nat)
    ensures LittleEndian(MulAdd(b, carry)) == LittleEndian(b) * 58 + carry
  {
    if b == [] {
      CarryValue(carry);
    } else {
      var next := b[0] * 58 + carry;
      MulAddValue(b[1..], next / 256);
      assert MulAdd(b, carry)[1..] == MulAdd(b[1..], next / 256);
    }
  }

  /** The array never grows a useless top byte: it is [0] for zero and minimal otherwise. */
  predicate Trimmed(b: seq<Byte>) {
    b == [0] || (b != [] && b[|b| - 1] != 0)
  }

  lemma {:induction false} MulAddTop(b: seq<Byte>, carry: nat)
    requires b != [] && b[|b| - 1] != 0
    ensures MulAdd(b, carry) != [] && MulAdd(b, carry)[|MulAdd(b, carry)| - 1] != 0
  {
    var next := b[0] * 58 + carry;
    if |b| == 1 {
      CarryValue(next / 256);
      assert b[1..] == [];
    } else {
      MulAddTop(b[1..], next / 256);
    }
  }

  lemma MulAddTrimmed(b: seq<Byte>, digit: nat)
    requires Trimmed(b) && digit < 58
    ensures Trimmed(MulAdd(b, digit))
  {
    if b == [0] {
      assert b[1..] == [] && MulAdd(b, digit) == [digit] + CarryBytes(0);
    } else {
      MulAddTop(b, digit);
    }
  }

  lemma {:induction false} TrimmedIsMinimal(b: seq<Byte>)
    requires b != [] && b[|b| - 1] != 0
    ensures Reversed(b) == MinimalBytes(LittleEndian(b)) && LittleEndian(b) > 0
  {
    var v, rest := LittleEndian(b), LittleEndian(b[1..]);
    assert v / 256 == rest && v % 256 == b[0];
    if |b| == 1 {
      assert b[1..] == [];
    } else {
      TrimmedIsMinimal(b[1..]);
    }
  }

  lemma {:induction false} ReversedWithZeros(b: seq<Byte>, k: nat)
    ensures Reversed(b + Zeros(k)) == Zeros(k) + Reversed(b)
  {
    if b == [] {
      assert b + Zeros(k) == Zeros(k) && Zeros(k) + Reversed(b) == Zeros(k);
      ReversedZeros(k);
    } else {
      ReversedWithZeros(b[1..], k);
      assert (b + Zeros(k))[1..] == b[1..] + Zeros(k);
    }
  }

  lemma {:induction false} ReversedZeros(k: nat)
    ensures Reversed(Zeros(k)) == Zeros(k)
  {
    if k > 0 {
      ReversedZeros(k - 1);
      assert Zeros(k)[1..] == Zeros(k - 1);
      assert Zeros(k - 1) + [0] == Zeros(k);
    }
  }

  lemma {:induction false} AllOnesIsZero(s: string)
    requires Digits(s)
    ensures Value(s) == 0 <==> LeadingOnes(s) == |s|
  {
    if s != "" {
      var n := |s| - 1;
      AllOnesIsZero(s[..n]);
      assert IndexOf(s[n]) == 0 <==> s[n] == '1';
    }
  }

  /** One digit folded into the byte array in place. */
  method FoldDigit(bytes: seq<Byte>, digit: nat) returns (folded: seq<Byte>)
    requires digit < 58
    ensures folded == MulAdd(bytes, digit)
  {
    folded := bytes;
    var carry: nat := digit;
    for index := 0 to |bytes|
      invariant |folded| == |bytes| && folded[index..] == bytes[index..] && carry < 59
      invariant folded[..index] + MulAdd(bytes[index..], carry) == MulAdd(bytes, digit)
    {
      var next: nat := (folded[index] as nat) * 58 + carry;
      assert next < 0x8000_0000; // the source's 32-bit `&` and `>>` are exact
      assert bytes[index..][0] == bytes[index] && bytes[index..][1..] == bytes[index + 1..];
      ghost var done := folded[..index];
      folded := folded[index := next % 256];
      carry := next / 256;
      assert folded[..index + 1] == done + [next % 256];
    }
    assert bytes[|bytes|..] == [] && folded[..|bytes|] == folded;
    while carry > 0
      invariant folded + CarryBytes(carry) == MulAdd(bytes, digit)
    {
      folded := folded + [carry % 256];
      carry := carry / 256;
    }
  }

  /** decodeBase58 of the investigation client. It agrees with the big-integer decoder on every text but the empty
      one, which it decodes to a single zero byte. */
  method DecodeTypeScript(s: string) returns (decoded: Option<seq<Byte>>)
    ensures decoded == if !Digits(s) then None else if s == "" then Some([0]) else Some(Decoded(s))
  {
    var bytes: seq<Byte> := [0];
    for i := 0 to |s|
      invariant Digits(s[..i]) && Trimmed(bytes) && LittleEndian(bytes) == Value(s[..i])
    {
      assert s[..i + 1][..i] == s[..i];
      var digit := IndexOf(s[i]);
      if digit < 0 {
        return None;
      }
      MulAddValue(bytes, digit);
      MulAddTrimmed(bytes, digit);
      bytes := FoldDigit(bytes, digit);
    }
    assert s[..|s|] == s;
    hide *;
    ghost var magnitude := bytes;
    var index: nat := 0;
    ZerosStart(s, bytes);
    while index + 1 < |s| && s[index] == '1'
      invariant index <= LeadingOnes(s) && (s != "" ==> index < |s|) && (s == "" ==> index == 0)
      invariant bytes == magnitude + Zeros(index)
    {
      OneMoreZero(s, magnitude, index);
      bytes := bytes + [0];
      index := index + 1;
    }
    ReversedDecodes(s, magnitude, index);
    decoded := Some(Reversed(bytes));
  }

  lemma ZerosStart(s: string, bytes: seq<Byte>)
    ensures bytes == bytes + Zeros(0) && 0 <= LeadingOnes(s)
  {
  }

  lemma OneMoreZero(s: string, magnitude: seq<Byte>, index: nat)
    requires index < |s| && s[index] == '1' && index <= LeadingOnes(s)
    ensures (magnitude + Zeros(index)) + [0] == magnitude + Zeros(index + 1) && index + 1 <= LeadingOnes(s)
  {
    assert Zeros(index) + [0] == Zeros(index + 1) by { ReversedZeros(index + 1); ReversedZeros(index); }
  }

  lemma ReversedDecodes(s: string, magnitude: seq<Byte>, index: nat)
    requires Digits(s) && Trimmed(magnitude) && LittleEndian(magnitude) == Value(s)
    requires index <= LeadingOnes(s) && (s == "" ==> index == 0) && (s != "" ==> index < |s|)
    requires index + 1 < |s| ==> s[index] != '1'
    ensures Reversed(magnitude + Zeros(index)) == if s == "" then [0] else Decoded(s)
  {
    hide Digits, Trimmed, Decoded;
    ReversedWithZeros(magnitude, index);
    if s == "" { TrimmedZero(magnitude); } else { DecodedFrom(s, magnitude, index); }
  }

  lemma TrimmedZero(b: seq<Byte>)
    requires Trimmed(b) && LittleEndian(b) == 0
    ensures b == [0] && Reversed(b) == [0]
  {
    if b != [0] { TrimmedIsMinimal(b); }
    assert [0][1..] == [];
  }

  lemma DecodedFrom(s: string, magnitude: seq<Byte>, index: nat)
    requires Digits(s) && s != "" && Trimmed(magnitude) && LittleEndian(magnitude) == Value(s)
    requires index <= LeadingOnes(s) && index < |s| && (index + 1 < |s| ==> s[index] != '1')
    ensures Zeros(index) + Reversed(magnitude) == Decoded(s)
  {
    AllOnesIsZero(s);
    if magnitude == [0] {
      assert LittleEndian([0][1..]) == 0 && LittleEndian([0]) == 0;
      assert Reversed([0]) == [0];
      ReversedZeros(index + 1);
      ReversedZeros(index);
      assert Zeros(index + 1) == Zeros(index) + [0];
    } else {
      TrimmedIsMinimal(magnitude);
      assert index == LeadingOnes(s);
    }
  }

  /** What ECMAScript's trim removes. */
  predicate IsSpace(c: char) {
    c in "\t\n\U{0b}\U{0c}\r \U{a0}\U{1680}\U{2028}\U{2029}\U{202f}\U{205f}\U{3000}\U{feff}" || '\U{2000}' <= c <= '\U{200a}'
  }

  function TrimLeft(s: string): string {
    if s != "" && IsSpace(s[0]) then TrimLeft(s[1..]) else s
  }

  function Trim(s: string): string {
    var t := TrimLeft(s);
    TrimRight(t)
  }

  function TrimRight(s: string): string {
    if s != "" && IsSpace(s[|s| - 1]) then TrimRight(s[..|s| - 1]) else s
  }

  lemma {:induction false} TrimsLeft(s: string) returns (i: nat)
    ensures i <= |s| && TrimLeft(s) == s[i..] && (forall k :: 0 <= k < i ==> IsSpace(s[k])) && (i < |s| ==> !IsSpace(s[i]))
  {
    hide IsSpace;
    i := 0;
    if s != "" && IsSpace(s[0]) {
      var rest := TrimsLeft(s[1..]);
      i := rest + 1;
    }
  }

  lemma {:induction false} TrimsRight(s: string) returns (j: nat)
    ensures j <= |s| && TrimRight(s) == s[..j] && (forall k :: j <= k < |s| ==> IsSpace(s[k])) && (j > 0 ==> !IsSpace(s[j - 1]))
  {
    hide IsSpace;
    j := |s|;
    if s != "" && IsSpace(s[|s| - 1]) {
      j := TrimsRight(s[..|s| - 1]);
    }
  }

  /** Trimming removes the white space at both ends and nothing else. */
  lemma TrimsBothEnds(s: string) returns (i: nat, j: nat)
    ensures i <= j <= |s| && Trim(s) == s[i..j] && forall k :: 0 <= k < |s| && !(i <= k < j) ==> IsSpace(s[k])
    ensures i < j ==> !IsSpace(s[i]) && !IsSpace(s[j - 1])
  {
    hide IsSpace;
    i := TrimsLeft(s);
    j := TrimsRight(s[i..]);
    j := i + j;
  }

  /** validateTronAddress of the investigation client: the same addresses, after trimming. */
  method ValidateTronAddress(sha: Hash, address: string) returns (valid: bool)
    requires IsHash(sha)
    ensures valid <==> IsTronAddress(sha, Trim(address))
  {
    var normalized := Trim(address);
    if IsTronAddress(sha, normalized) { AddressShape(normalized); }
    if |normalized| != 34 || normalized[0] != 'T' {
      return false;
    }
    var decoded := DecodeTypeScript(normalized);
    valid := decoded.Some? && ChecksOut(sha, decoded.value);
  }

  /** The four validators' verdicts, side by side. */
  method AllValidators(sha: Hash, address: string) returns (controller: bool, analysis: bool, agent: bool, browser: bool)
    requires IsHash(sha)
    ensures controller == analysis == agent
    ensures Trim(address) == address ==> browser == controller
    ensures controller ==> |address| == 34 && address[0] == 'T'
  {
    controller := IsValidTronAddress(sha, address);
    analysis := ValidTronAddress(sha, address);
    agent := IsValidTronAddressPython(sha, address);
    browser := ValidateTronAddress(sha, address);
    if controller { AddressShape(address); }
  }

  // ----- encoding -----

  function FullAddress(sha: Hash, payload: seq<Byte>): seq<Byte>
    requires IsHash(sha)
  {
    payload + Checksum(sha, payload)
  }

  function Address(sha: Hash, payload: seq<Byte>): string
    requires IsHash(sha)
  {
    ToBase58(BytesValue(FullAddress(sha, payload)))
  }

  function ReversedText(s: string): string {
    if s == "" then "" else ReversedText(s[1..]) + [s[0]]
  }

  lemma {:induction false} ReversedTextAt(s: string, k: nat)
    requires k < |s|
    ensures |ReversedText(s)| == |s| && ReversedText(s)[k] == s[|s| - 1 - k]
  {
    if |s| > 1 { ReversedTextAt(s[1..], if k < |s| - 1 then k else 0); }
  }

  lemma {:induction false} ReversedTextSnoc(s: string, c: char)
    ensures ReversedText(s + [c]) == [c] + ReversedText(s)
  {
    if s == "" {
      assert s + [c] == [c] && [c][1..] == "";
    } else {
      ReversedTextSnoc(s[1..], c);
      assert (s + [c])[1..] == s[1..] + [c];
    }
  }

  /** The in-place reversal at the end of encodeTRONAddress. */
  method ReverseInPlace(a: array<char>)
    modifies a
    ensures a[..] == ReversedText(old(a[..]))
  {
    var left, right := 0, a.Length - 1;
    while left < right
      invariant 0 <= left <= a.Length && right == a.Length - 1 - left && left <= right + 1
      invariant forall k :: 0 <= k < left ==> a[k] == old(a[a.Length - 1 - k]) && a[a.Length - 1 - k] == old(a[k])
      invariant forall k :: left <= k <= right ==> a[k] == old(a[k])
    {
      a[left], a[right] := a[right], a[left];
      left, right := left + 1, right - 1;
    }
    ghost var was := old(a[..]);
    assert a.Length == 0 ==> was == "";
    forall k | 0 <= k < a.Length ensures |ReversedText(was)| == a.Length && a[..][k] == ReversedText(was)[k] {
      ReversedTextAt(was, k);
    }
  }

  lemma EncodeStep(number: nat, encoded: string)
    requires number > 0
    ensures ToBase58(number) + ReversedText(encoded) == ToBase58(number / 58) + ReversedText(encoded + [CharOf(number % 58)])
  {
    var c := CharOf(number % 58);
    ReversedTextSnoc(encoded, c);
    Regroup(ToBase58(number / 58), c, ReversedText(encoded));
    hide ReversedText, CharOf, Digits, Value;
    assert ToBase58(number) == ToBase58(number / 58) + [c];
  }

  lemma Regroup(a: string, c: char, b: string)
    ensures (a + [c]) + b == a + ([c] + b)
  {
  }

  /** encodeTRONAddress: digits come out least significant first, then the text is reversed. */
  method EncodeGo(sha: Hash, payload: seq<Byte>) returns (address: string)
    requires IsHash(sha)
    ensures address == Address(sha, payload)
  {
    var number := BytesValue(FullAddress(sha, payload));
    var encoded := "";
    hide CharOf, BytesValue, FullAddress;
    while number > 0
      invariant ToBase58(number) + ReversedText(encoded) == Address(sha, payload)
    {
      EncodeStep(number, encoded);
      encoded := encoded + [CharOf(number % 58)];
      number := number / 58;
    }
    address := ReverseText(encoded);
  }

  method ReverseText(text: string) returns (reversed: string)
    ensures reversed == ReversedText(text)
  {
    var buffer := new char[|text|](i requires 0 <= i < |text| => text[i]);
    assert buffer[..] == text;
    ReverseInPlace(buffer);
    reversed := buffer[..];
  }

  /** to_base58 of the crawler: each digit goes in front. */
  method EncodePython(sha: Hash, body: seq<Byte>) returns (address: string)
    requires IsHash(sha)
    ensures address == Address(sha, [0x41] + body)
  {
    var number := BytesValue(FullAddress(sha, [0x41] + body));
    address := "";
    assert ToBase58(number) + address == Address(sha, [0x41] + body);
    hide Address, CharOf;
    while number > 0
      invariant ToBase58(number) + address == Address(sha, [0x41] + body)
    {
      Regroup(ToBase58(number / 58), CharOf(number % 58), address);
      address := [CharOf(number % 58)] + address;
      number := number / 58;
    }
  }

  /** Encoding a 0x41-prefixed payload gives a valid address that decodes to the payload and its checksum. */
  lemma DecodeOfEncode(sha: Hash, payload: seq<Byte>)
    requires IsHash(sha) && |payload| == 21 && payload[0] == 0x41
    ensures Digits(Address(sha, payload)) && Decoded(Address(sha, payload)) == FullAddress(sha, payload)
    ensures IsTronAddress(sha, Address(sha, payload))
  {
    var full := FullAddress(sha, payload);
    assert full[0] == 0x41;
    MinimalOfBytes(full);
    assert LeadingOnes(Address(sha, payload)) == 0;
    assert full[..21] == payload && full[21..] == Checksum(sha, payload);
  }

  /** Encoding what a valid address decodes to gives the address back, so each payload has one address. */
  lemma EncodeOfDecode(sha: Hash, s: string)
    requires IsHash(sha) && IsTronAddress(sha, s)
    ensures Address(sha, Decoded(s)[..21]) == s
  {
    NoLeadingOne(s);
    var d := Decoded(s);
    assert d[..21] + d[21..] == d;
    Base58OfValue(s);
  }
}
