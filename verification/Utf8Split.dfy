/** Splitting message content into chunks of at most 4096 bytes without cutting a UTF-8 character. */
module Utf8Split {
  type Byte = b: nat | b < 256

  const CHUNK_MAX_BYTES: nat := 4096

  predicate Tail(b: Byte) {
    0x80 <= b <= 0xBF
  }

  /** utf8.RuneStart */
  predicate RuneStart(b: Byte) {
    !Tail(b)
  }

  /** The length of the UTF-8 character a text starts with, by the syntax in section 4 of RFC 3629; 0 for none. */
  function CharLength(s: seq<Byte>): (n: nat)
    ensures n <= 4 && n <= |s|
  {
    if s == [] then 0
    else if s[0] <= 0x7F then 1
    else if |s| >= 2 && 0xC2 <= s[0] <= 0xDF && Tail(s[1]) then 2
    else if |s| >= 3 && ThreeByteHead(s[0], s[1]) && Tail(s[2]) then 3
    else if |s| >= 4 && FourByteHead(s[0], s[1]) && Tail(s[2]) && Tail(s[3]) then 4
    else 0
  }

  predicate ThreeByteHead(a: Byte, b: Byte) {
    (a == 0xE0 && 0xA0 <= b <= 0xBF) || (0xE1 <= a <= 0xEC && Tail(b)) || (a == 0xED && 0x80 <= b <= 0x9F) || (0xEE <= a <= 0xEF && Tail(b))
  }

  predicate FourByteHead(a: Byte, b: Byte) {
    (a == 0xF0 && 0x90 <= b <= 0xBF) || (0xF1 <= a <= 0xF3 && Tail(b)) || (a == 0xF4 && 0x80 <= b <= 0x8F)
  }

  predicate ValidUtf8(s: seq<Byte>) {
    s == [] || (CharLength(s) > 0 && ValidUtf8(s[CharLength(s)..]))
  }

  // ----- what a valid text is -----

  /** A Unicode scalar value. */
  predicate Scalar(c: nat) {
    c <= 0x10FFFF && !(0xD800 <= c <= 0xDFFF)
  }

  /** The encoder of section 3 of RFC 3629: the bits of c, six to each byte after the first. */
  function Encode(c: nat): (s: seq<Byte>)
    requires Scalar(c)
    ensures 1 <= |s| <= 4
  {
    if c < 0x80 then [c]
    else if c < 0x800 then [0xC0 + c / 64, 0x80 + c % 64]
    else if c < 0x10000 then [0xE0 + c / 64 / 64, 0x80 + c / 64 % 64, 0x80 + c % 64]
    else [0xF0 + c / 64 / 64 / 64, 0x80 + c / 64 / 64 % 64, 0x80 + c / 64 % 64, 0x80 + c % 64]
  }

  lemma EncodedIsChar(c: nat, rest: seq<Byte>)
    requires Scalar(c)
    ensures CharLength(Encode(c) + rest) == |Encode(c)|
  {
  }

  lemma Sextet(a: nat, b: nat)
    requires b < 64
    ensures (a * 64 + b) / 64 == a && (a * 64 + b) % 64 == b
  {
  }

  lemma TwoBytes(a: Byte, b: Byte) returns (c: nat)
    requires 0xC2 <= a <= 0xDF && Tail(b)
    ensures Scalar(c) && Encode(c) == [a, b]
  {
    var x, y := a as nat - 0xC0, b as nat - 0x80;
    c := x * 64 + y;
    Sextet(x, y);
  }

  lemma ThreeBytes(a: Byte, b: Byte, d: Byte) returns (c: nat)
    requires ThreeByteHead(a, b) && Tail(d)
    ensures Scalar(c) && Encode(c) == [a, b, d]
  {
    var x, y, z := a as nat - 0xE0, b as nat - 0x80, d as nat - 0x80;
    c := (x * 64 + y) * 64 + z;
    Sextet(x * 64 + y, z);
    Sextet(x, y);
    assert 0x800 <= c < 0x10000;
  }

  lemma FourBytes(a: Byte, b: Byte, d: Byte, e: Byte) returns (c: nat)
    requires FourByteHead(a, b) && Tail(d) && Tail(e)
    ensures Scalar(c) && Encode(c) == [a, b, d, e]
  {
    var x, y, z, u := a as nat - 0xF0, b as nat - 0x80, d as nat - 0x80, e as nat - 0x80;
    c := ((x * 64 + y) * 64 + z) * 64 + u;
    Sextet((x * 64 + y) * 64 + z, u);
    Sextet(x * 64 + y, z);
    Sextet(x, y);
    assert 0x10000 <= c <= 0x10FFFF;
  }

  lemma CharIsEncoded(s: seq<Byte>) returns (c: nat)
    requires CharLength(s) > 0
    ensures Scalar(c) && Encode(c) == s[..CharLength(s)]
  {
    hide Encode, Scalar, ThreeByteHead, FourByteHead;
    if CharLength(s) == 1 {
      c := OneByte(s[0]);
    } else if CharLength(s) == 2 {
      c := TwoBytes(s[0], s[1]);
    } else if CharLength(s) == 3 {
      c := ThreeBytes(s[0], s[1], s[2]);
    } else {
      c := FourBytes(s[0], s[1], s[2], s[3]);
    }
  }

  lemma OneByte(a: Byte) returns (c: nat)
    requires a < 0x80
    ensures Scalar(c) && Encode(c) == [a]
  {
    c := a;
  }

  function EncodeAll(scalars: seq<nat>): seq<Byte>
    requires forall k :: 0 <= k < |scalars| ==> Scalar(scalars[k])
  {
    if scalars == [] then [] else Encode(scalars[0]) + EncodeAll(scalars[1..])
  }

  lemma {:induction false} EncodedIsValid(scalars: seq<nat>)
    requires forall k :: 0 <= k < |scalars| ==> Scalar(scalars[k])
    ensures ValidUtf8(EncodeAll(scalars))
  {
    if scalars != [] {
      var head, tail := Encode(scalars[0]), EncodeAll(scalars[1..]);
      EncodedIsChar(scalars[0], tail);
      EncodedIsValid(scalars[1..]);
      assert (head + tail)[|head|..] == tail;
    }
  }

  /** The valid texts are the encodings of sequences of scalar values. */
  lemma {:induction false} ValidIsEncoded(s: seq<Byte>) returns (scalars: seq<nat>)
    requires ValidUtf8(s)
    ensures (forall k :: 0 <= k < |scalars| ==> Scalar(scalars[k])) && EncodeAll(scalars) == s
    decreases |s|
  {
    scalars := [];
    if s != [] {
      var n := CharLength(s);
      var rest := ValidIsEncoded(s[n..]);
      var c := CharIsEncoded(s);
      scalars := [c] + rest;
      assert scalars[1..] == rest && s == s[..n] + s[n..];
    }
  }

  /** Inside a character every byte but the first is a tail. */
  lemma CharBytes(s: seq<Byte>)
    requires CharLength(s) > 0
    ensures RuneStart(s[0]) && forall i :: 1 <= i < CharLength(s) ==> Tail(s[i])
  {
  }

  lemma CharOfPrefix(s: seq<Byte>, k: nat)
    requires CharLength(s) <= k <= |s|
    ensures CharLength(s) > 0 ==> CharLength(s[..k]) == CharLength(s)
  {
  }

  /** A valid text cut where a character starts is two valid texts. */
  lemma {:induction false} CutAtRuneStart(s: seq<Byte>, k: nat)
    requires ValidUtf8(s) && k <= |s| && (k < |s| ==> RuneStart(s[k]))
    ensures ValidUtf8(s[..k]) && ValidUtf8(s[k..])
    decreases |s|
  {
    if k == 0 {
      assert s[..0] == [] && s[0..] == s;
    } else {
      var c := CharLength(s);
      CharBytes(s);
      assert c <= k;
      CutAtRuneStart(s[c..], k - c);
      CharOfPrefix(s, k);
      assert s[..k][c..] == s[c..][..k - c] && s[k..] == s[c..][k - c..];
    }
  }

  /** In a valid text a character starts at most three bytes back from any byte. */
  lemma {:induction false} StartIsNear(s: seq<Byte>, k: nat)
    requires ValidUtf8(s) && k < |s|
    ensures exists j :: 0 <= j <= k <= j + 3 && RuneStart(s[j])
    decreases |s|
  {
    var c := CharLength(s);
    CharBytes(s);
    if k < c {
      assert RuneStart(s[0]);
    } else {
      StartIsNear(s[c..], k - c);
      var j :| 0 <= j <= k - c <= j + 3 && RuneStart(s[c..][j]);
      assert RuneStart(s[j + c]);
    }
  }

  /** Where the loop body ends its chunk: the last place at or below the limit where a character starts, or 0. */
  function StepBack(s: seq<Byte>, end: nat): (r: nat)
    requires end < |s|
    ensures r <= end && (r > 0 ==> RuneStart(s[r])) && (forall i :: r < i <= end ==> Tail(s[i]))
  {
    if end > 0 && !RuneStart(s[end]) then StepBack(s, end - 1) else end
  }

  function ChunkEnd(s: seq<Byte>): (r: nat)
    ensures r <= |s| && r <= CHUNK_MAX_BYTES
  {
    if |s| > CHUNK_MAX_BYTES then StepBack(s, CHUNK_MAX_BYTES) else |s|
  }

  /** The body makes no progress exactly on a long text whose bytes 1..4096 are all tails. */
  lemma StallsExactlyOnTails(s: seq<Byte>)
    requires s != []
    ensures ChunkEnd(s) == 0 <==> |s| > CHUNK_MAX_BYTES && forall i :: 1 <= i <= CHUNK_MAX_BYTES ==> Tail(s[i])
  {
  }

  /** The loop ends: every remainder makes progress. */
  predicate Splittable(s: seq<Byte>)
    decreases |s|
  {
    s == [] || (ChunkEnd(s) > 0 && Splittable(s[ChunkEnd(s)..]))
  }

  function Join(chunks: seq<seq<Byte>>): seq<Byte> {
    if chunks == [] then [] else Join(chunks[..|chunks| - 1]) + chunks[|chunks| - 1]
  }

  lemma ValidChunk(s: seq<Byte>)
    requires ValidUtf8(s) && s != []
    ensures ChunkEnd(s) > 0 && ValidUtf8(s[..ChunkEnd(s)]) && ValidUtf8(s[ChunkEnd(s)..])
    ensures ChunkEnd(s) < |s| ==> ChunkEnd(s) >= CHUNK_MAX_BYTES - 3
  {
    if |s| > CHUNK_MAX_BYTES {
      StartIsNear(s, CHUNK_MAX_BYTES);
      var j :| 0 <= j <= CHUNK_MAX_BYTES <= j + 3 && RuneStart(s[j]);
      assert ChunkEnd(s) >= j;
    }
    CutAtRuneStart(s, ChunkEnd(s));
  }

  /** Splitting ends on every valid text. */
  lemma {:induction false} ValidIsSplittable(s: seq<Byte>)
    requires ValidUtf8(s)
    ensures Splittable(s)
    decreases |s|
  {
    if s != [] {
      ValidChunk(s);
      ValidIsSplittable(s[ChunkEnd(s)..]);
    }
  }

  /** 4096 tails in a row, past the first byte. */
  ghost predicate TailRun(s: seq<Byte>, j: nat) {
    1 <= j && j + 4096 <= |s| && forall i :: j <= i < j + 4096 ==> Tail(s[i])
  }

  lemma RunAfterChunk(s: seq<Byte>, j: nat)
    requires s != [] && ChunkEnd(s) > 0 && TailRun(s, j)
    ensures j > ChunkEnd(s) && TailRun(s[ChunkEnd(s)..], j - ChunkEnd(s))
  {
    var e := ChunkEnd(s);
    assert |s| > CHUNK_MAX_BYTES && RuneStart(s[e]);
  }

  lemma RunBeforeChunk(s: seq<Byte>, j: nat)
    requires s != [] && TailRun(s[ChunkEnd(s)..], j)
    ensures TailRun(s, ChunkEnd(s) + j)
  {
    var e, rest := ChunkEnd(s), s[ChunkEnd(s)..];
    forall i | e + j <= i < e + j + CHUNK_MAX_BYTES ensures Tail(s[i]) { assert rest[i - e] == s[i]; }
  }

  /** Splitting ends exactly on the texts without 4096 consecutive tails past their first byte. */
  lemma {:induction false} SplitsUnlessTailRun(s: seq<Byte>)
    ensures Splittable(s) <==> !exists j :: TailRun(s, j)
    decreases |s|
  {
    if s != [] {
      StallsExactlyOnTails(s);
      var e := ChunkEnd(s);
      if e == 0 {
        assert TailRun(s, 1);
      } else {
        SplitsUnlessTailRun(s[e..]);
        if j :| TailRun(s, j) {
          RunAfterChunk(s, j);
        }
        if j :| TailRun(s[e..], j) {
          RunBeforeChunk(s, j);
        }
      }
    }
  }

  /** 4097 continuation bytes are a text on which splitting never ends. */
  lemma TailsNeverEnd()
    ensures !Splittable(seq(CHUNK_MAX_BYTES + 1, _ => 0x80))
  {
    var s: seq<Byte> := seq(CHUNK_MAX_BYTES + 1, _ => 0x80);
    assert TailRun(s, 1);
    SplitsUnlessTailRun(s);
  }

  ghost predicate Partly(content: seq<Byte>, chunks: seq<seq<Byte>>, rest: seq<Byte>) {
    && Splittable(rest) && Join(chunks) + rest == content
    && (forall i :: 0 <= i < |chunks| ==> 1 <= |chunks[i]| <= CHUNK_MAX_BYTES)
    && (ValidUtf8(content) ==> ValidUtf8(rest) && ValidChunks(chunks, rest == []))
  }

  /** Every chunk is a valid text, and all but the last are filled to within three bytes. */
  predicate ValidChunks(chunks: seq<seq<Byte>>, whole: bool) {
    forall i :: 0 <= i < |chunks| ==> ValidUtf8(chunks[i]) && (!whole || i < |chunks| - 1 ==> |chunks[i]| >= 4093)
  }

  lemma JoinSnoc(chunks: seq<seq<Byte>>, c: seq<Byte>, rest: seq<Byte>)
    ensures Join(chunks + [c]) + rest == Join(chunks) + (c + rest)
  {
    assert (chunks + [c])[..|chunks|] == chunks;
  }

  lemma ValidNext(chunks: seq<seq<Byte>>, rest: seq<Byte>)
    requires rest != [] && ValidUtf8(rest) && ValidChunks(chunks, false)
    ensures ValidUtf8(rest[ChunkEnd(rest)..]) && ValidChunks(chunks + [rest[..ChunkEnd(rest)]], rest[ChunkEnd(rest)..] == [])
  {
    ValidChunk(rest);
    hide ValidUtf8;
  }

  lemma NextChunk(content: seq<Byte>, chunks: seq<seq<Byte>>, rest: seq<Byte>)
    requires Partly(content, chunks, rest) && rest != []
    ensures 0 < ChunkEnd(rest) && Partly(content, chunks + [rest[..ChunkEnd(rest)]], rest[ChunkEnd(rest)..])
  {
    var end := ChunkEnd(rest);
    assert end > 0 && Splittable(rest[end..]);
    JoinSnoc(chunks, rest[..end], rest[end..]);
    assert rest[..end] + rest[end..] == rest;
    if ValidUtf8(content) { ValidNext(chunks, rest); }
    hide Join, ValidUtf8, ValidChunks, Splittable;
  }

  method FindChunkEnd(rest: seq<Byte>) returns (end: nat)
    ensures end == ChunkEnd(rest)
  {
    end := if |rest| < CHUNK_MAX_BYTES then |rest| else CHUNK_MAX_BYTES;
    if end < |rest| {
      while end > 0 && !RuneStart(rest[end])
        invariant 0 <= end <= CHUNK_MAX_BYTES && StepBack(rest, end) == StepBack(rest, CHUNK_MAX_BYTES)
      {
        end := end - 1;
      }
    }
  }

  /** splitConversationContent. */
  method SplitContent(content: seq<Byte>) returns (chunks: seq<seq<Byte>>)
    requires Splittable(content)
    ensures Join(chunks) == content
    ensures forall i :: 0 <= i < |chunks| ==> 1 <= |chunks[i]| <= 4096
    ensures content == [] <==> chunks == []
    ensures ValidUtf8(content) ==> ValidChunks(chunks, true)
  {
    chunks := [];
    var rest := content;
    assert Partly(content, chunks, rest);
    while |rest| > 0
      invariant Partly(content, chunks, rest) && (content == [] ==> rest == [] && chunks == [])
      decreases |rest|
    {
      NextChunk(content, chunks, rest);
      var end := FindChunkEnd(rest);
      chunks := chunks + [rest[..end]];
      rest := rest[end..];
      hide Partly;
    }
    assert chunks == [] ==> Join(chunks) == [];
  }
}
