/** Cutting UTF-8 data short without breaking a character. */
module Utf8 {
  import opened Wrappers

  predicate IsTail(b: byte) {
    0x80 <= b <= 0xBF
  }

  /** The second byte that a three- or four-byte character may have, by section 4 of RFC 3629. */
  predicate SecondFits(first: byte, second: byte) {
    match first
    case 0xE0 => 0xA0 <= second <= 0xBF
    case 0xED => 0x80 <= second <= 0x9F
    case 0xF0 => 0x90 <= second <= 0xBF
    case 0xF4 => 0x80 <= second <= 0x8F
    case _ => IsTail(second)
  }

  /** The length of the character the data begins with, or zero when it begins with none. */
  function CharLength(data: seq<byte>): (n: nat)
    ensures n <= |data| && n <= 4
  {
    if data == [] then 0
    else if data[0] <= 0x7F then 1
    else if 0xC2 <= data[0] <= 0xDF then
      if |data| >= 2 && IsTail(data[1]) then 2 else 0
    else if 0xE0 <= data[0] <= 0xEF then
      if |data| >= 3 && SecondFits(data[0], data[1]) && IsTail(data[2]) then 3 else 0
    else if 0xF0 <= data[0] <= 0xF4 then
      if |data| >= 4 && SecondFits(data[0], data[1]) && IsTail(data[2]) && IsTail(data[3]) then 4 else 0
    else 0
  }

  predicate WellFormed(data: seq<byte>) {
    data == [] || (CharLength(data) > 0 && WellFormed(data[CharLength(data)..]))
  }

  // ----- well-formed data is what encoding characters gives

  /** A Unicode scalar value: a code point that is no surrogate. */
  predicate IsScalar(c: int) {
    0 <= c <= 0x10FFFF && !(0xD800 <= c <= 0xDFFF)
  }

  function Tail(bits: int): byte
    requires 0 <= bits
  {
    (0x80 + bits % 64) as byte
  }

  /** The encoding of a character, by section 3 of RFC 3629. */
  function Encoded(c: int): seq<byte>
    requires IsScalar(c)
  {
    if c < 0x80 then [c as byte]
    else if c < 0x800 then [(0xC0 + c / 64) as byte, Tail(c)]
    else if c < 0x10000 then [(0xE0 + c / 64 / 64) as byte, Tail(c / 64), Tail(c)]
    else [(0xF0 + c / 64 / 64 / 64) as byte, Tail(c / 64 / 64), Tail(c / 64), Tail(c)]
  }

  function EncodedAll(cs: seq<int>): seq<byte>
    requires forall c :: c in cs ==> IsScalar(c)
  {
    if cs == [] then [] else Encoded(cs[0]) + EncodedAll(cs[1..])
  }

  /** Six bits more, and back. */
  lemma SixBits(high: int, low: int)
    requires 0 <= high && 0 <= low < 64
    ensures (high * 64 + low) / 64 == high && (high * 64 + low) % 64 == low
  {
  }

  lemma EncodedIsOneCharacter(c: int, rest: seq<byte>)
    requires IsScalar(c)
    ensures CharLength(Encoded(c) + rest) == |Encoded(c)|
  {
    hide CharLength;
    EncodedHasLength(c);
    CharLengthIsLocal(Encoded(c), rest);
  }

  lemma EncodedHasLength(c: int)
    requires IsScalar(c)
    ensures CharLength(Encoded(c)) == |Encoded(c)|
  {
    var b := c / 64;
    var a := b / 64;
    assert c == b * 64 + c % 64 && b == a * 64 + b % 64 && a == a / 64 * 64 + a % 64;
  }

  lemma CharLengthIsLocal(character: seq<byte>, rest: seq<byte>)
    requires CharLength(character) == |character| > 0
    ensures CharLength(character + rest) == |character|
  {
    var data := character + rest;
    assert forall i :: 0 <= i < |character| ==> data[i] == character[i];
  }

  lemma CharacterIsEncoded(data: seq<byte>) returns (c: int)
    requires CharLength(data) > 0
    ensures IsScalar(c) && Encoded(c) == data[..CharLength(data)]
  {
    var n := CharLength(data);
    c := data[0] as int;
    if n == 2 {
      c := TwoBytes(data);
    } else if n == 3 {
      c := ThreeBytes(data);
    } else if n == 4 {
      c := FourBytes(data);
    }
  }

  lemma TwoBytes(data: seq<byte>) returns (c: int)
    requires CharLength(data) == 2
    ensures IsScalar(c) && Encoded(c) == data[..2]
  {
    var a, b := data[0] as int - 0xC0, data[1] as int - 0x80;
    SixBits(a, b);
    c := a * 64 + b;
  }

  lemma ThreeBytes(data: seq<byte>) returns (c: int)
    requires CharLength(data) == 3
    ensures IsScalar(c) && Encoded(c) == data[..3]
  {
    var a, b, d := data[0] as int - 0xE0, data[1] as int - 0x80, data[2] as int - 0x80;
    SixBits(a, b);
    SixBits(a * 64 + b, d);
    c := (a * 64 + b) * 64 + d;
    assert IsScalar(c) && c >= 0x800;
    assert Encoded(c) == [data[0], data[1], data[2]];
  }

  lemma FourBytes(data: seq<byte>) returns (c: int)
    requires CharLength(data) == 4
    ensures IsScalar(c) && Encoded(c) == data[..4]
  {
    var a, b, d, e := data[0] as int - 0xF0, data[1] as int - 0x80, data[2] as int - 0x80, data[3] as int - 0x80;
    SixBits(a, b);
    SixBits(a * 64 + b, d);
    SixBits((a * 64 + b) * 64 + d, e);
    c := ((a * 64 + b) * 64 + d) * 64 + e;
    assert IsScalar(c) && c >= 0x10000;
    assert Encoded(c) == [data[0], data[1], data[2], data[3]];
  }

  /** What encodes characters is well-formed. */
  lemma {:induction false} EncodedIsWellFormed(cs: seq<int>)
    requires forall c :: c in cs ==> IsScalar(c)
    ensures WellFormed(EncodedAll(cs))
  {
    if cs != [] {
      var rest := EncodedAll(cs[1..]);
      EncodedIsWellFormed(cs[1..]);
      EncodedIsOneCharacter(cs[0], rest);
      assert (Encoded(cs[0]) + rest)[|Encoded(cs[0])|..] == rest;
    }
  }

  /** And all that is well-formed encodes some characters. */
  lemma {:induction false} WellFormedIsEncoded(data: seq<byte>) returns (cs: seq<int>)
    requires WellFormed(data)
    ensures (forall c :: c in cs ==> IsScalar(c)) && EncodedAll(cs) == data
    decreases |data|
  {
    if data == [] {
      cs := [];
    } else {
      var n := CharLength(data);
      var c := CharacterIsEncoded(data);
      var rest := WellFormedIsEncoded(data[n..]);
      cs := [c] + rest;
      assert cs[1..] == rest && data == data[..n] + data[n..];
    }
  }

  /** Well-formed data has a character boundary within three bytes before any cut. */
  lemma {:induction false} BoundaryIsNear(data: seq<byte>, cut: nat) returns (k: nat)
    requires WellFormed(data) && cut <= |data|
    ensures k <= cut <= k + 3 && WellFormed(data[..k])
    decreases |data|
  {
    var n := CharLength(data);
    if cut < n || data == [] {
      k := 0;
    } else {
      var rest := BoundaryIsNear(data[n..], cut - n);
      k := n + rest;
      assert data[..k][n..] == data[n..][..rest];
      assert CharLength(data[..k]) == n;
    }
  }

  /** The longest well-formed prefix within the bound. */
  method Truncate(data: seq<byte>, maxBytes: nat) returns (r: seq<byte>)
    ensures r <= data && |r| <= maxBytes && WellFormed(r)
    ensures forall k :: |r| < k <= |data| && k <= maxBytes ==> !WellFormed(data[..k])
    ensures WellFormed(data) && |data| > maxBytes ==> |r| + 3 >= maxBytes
  {
    r := if |data| <= maxBytes then data else data[..maxBytes];
    while r != [] && !WellFormed(r)
      invariant r <= data && |r| <= maxBytes
      invariant forall k :: |r| < k <= |data| && k <= maxBytes ==> !WellFormed(data[..k])
    {
      assert r == data[..|r|];
      r := r[..|r| - 1];
    }
    if WellFormed(data) && |data| > maxBytes {
      ghost var k := BoundaryIsNear(data, maxBytes);
    }
  }
}
