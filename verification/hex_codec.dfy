/** The hex text codec that persists a player's key pair in browser storage
    (IdentityManager.ts), and the load-or-generate decision built on it.
    A character here is a Unicode scalar value, where JavaScript strings
    count UTF-16 code units: the regular-expression chunks agree with the
    source on text without characters outside the Basic Multilingual Plane,
    which is all the encoder produces. */
module HexCodec {
  import opened Wrappers

  /** An element of a `Uint8Array`. */
  newtype byte = x: int | 0 <= x < 256

  predicate IsDecimalDigit(c: char) { '0' <= c <= '9' }
  predicate IsLowerHexDigit(c: char) { IsDecimalDigit(c) || 'a' <= c <= 'f' }
  /** The digits `parseInt(_, 16)` accepts: both letter cases. */
  predicate IsHexDigit(c: char) { IsLowerHexDigit(c) || 'A' <= c <= 'F' }

  function DigitValue(c: char): (v: nat)
    requires IsHexDigit(c)
    ensures v < 16
  {
    if IsDecimalDigit(c) then c as int - '0' as int
    else if 'a' <= c <= 'f' then c as int - 'a' as int + 10
    else c as int - 'A' as int + 10
  }

  /** The lower-case digit of value `v`, as `Number.prototype.toString(16)` writes it. */
  function Digit(v: nat): (c: char)
    requires v < 16
    ensures IsLowerHexDigit(c) && DigitValue(c) == v
  {
    if v < 10 then ('0' as int + v) as char else ('a' as int + v - 10) as char
  }

  /** `n.toString(16)` for a non-negative integer: most significant digit first. */
  function ToString16(n: nat): (s: string)
    ensures 1 <= |s|
    ensures forall i :: 0 <= i < |s| ==> IsLowerHexDigit(s[i])
  {
    if n < 16 then [Digit(n)] else ToString16(n / 16) + [Digit(n % 16)]
  }

  /** `s.padStart(2, '0')`. */
  function PadStart2(s: string): (r: string)
    ensures |s| >= 2 ==> r == s
    ensures |s| < 2 ==> |r| == 2 && r[2 - |s|..] == s && forall i :: 0 <= i < 2 - |s| ==> r[i] == '0'
  {
    if |s| >= 2 then s else seq(2 - |s|, _ => '0') + s
  }

  /** One byte as `b.toString(16).padStart(2, '0')`. */
  function ByteToHex(b: byte): (r: string)
    ensures r == [Digit(b as nat / 16), Digit(b as nat % 16)]
  {
    var s := ToString16(b as nat);
    assert b as nat >= 16 ==> s == ToString16(b as nat / 16) + [Digit(b as nat % 16)];
    PadStart2(s)
  }

  /** `uint8ArrayToHex`: two lower-case digits per byte, joined. */
  function Encode(bytes: seq<byte>): (r: string)
    ensures |r| == 2 * |bytes|
    ensures forall i :: 0 <= i < |r| ==> IsLowerHexDigit(r[i])
    ensures forall i :: 0 <= i < |bytes| ==> r[2 * i..2 * i + 2] == ByteToHex(bytes[i])
  {
    if |bytes| == 0 then []
    else
      var rest := Encode(bytes[1..]);
      var r := ByteToHex(bytes[0]) + rest;
      assert forall i :: 1 <= i < |bytes| ==> r[2 * i..2 * i + 2] == rest[2 * (i - 1)..2 * (i - 1) + 2];
      r
  }

  /** The characters that the regular-expression `.` does not match. */
  predicate IsLineTerminator(c: char)
  {
    c == '\n' || c == '\r' || c == '\U{2028}' || c == '\U{2029}'
  }

  /** `hex.match(/.{1,2}/g)`: maximal runs of at most two characters, skipping
      line terminators. */
  function Chunks(s: string): (r: seq<string>)
    ensures forall i :: 0 <= i < |r| ==> 1 <= |r[i]| <= 2
  {
    if |s| == 0 then []
    else if IsLineTerminator(s[0]) then Chunks(s[1..])
    else if |s| >= 2 && !IsLineTerminator(s[1]) then [s[..2]] + Chunks(s[2..])
    else [s[..1]] + Chunks(s[1..])
  }

  /** White space that `parseInt` skips before the digits. */
  predicate IsJsSpace(c: char)
  {
    c == '\t' || c == '\U{000B}' || c == '\U{000C}' || c == ' ' || c == '\U{00A0}' || c == '\U{FEFF}'
    || c == '\U{1680}' || ('\U{2000}' <= c <= '\U{200A}') || c == '\U{202F}' || c == '\U{205F}'
    || c == '\U{3000}'
  }

  /** `parseInt(chunk, 16)` for a chunk of one or two characters, stored into a
      `Uint8Array` (NaN becomes 0, a negative value wraps modulo 256). */
  function ParseChunk(chunk: string): (b: byte)
    requires 1 <= |chunk| <= 2
    ensures |chunk| == 2 && IsHexDigit(chunk[0]) && IsHexDigit(chunk[1]) ==>
      b as int == 16 * DigitValue(chunk[0]) + DigitValue(chunk[1])
    ensures !IsHexDigit(chunk[0]) && !IsJsSpace(chunk[0]) && chunk[0] != '+' && chunk[0] != '-' ==> b == 0
  {
    var c0 := chunk[0];
    if |chunk| == 1 then
      if IsHexDigit(c0) then DigitValue(c0) as byte else 0
    else
      var c1 := chunk[1];
      if c0 == '0' && (c1 == 'x' || c1 == 'X') then 0
      else if IsHexDigit(c0) && IsHexDigit(c1) then (16 * DigitValue(c0) + DigitValue(c1)) as byte
      else if IsHexDigit(c0) then DigitValue(c0) as byte
      else if IsHexDigit(c1) && (IsJsSpace(c0) || c0 == '+') then DigitValue(c1) as byte
      else if IsHexDigit(c1) && c0 == '-' then ((256 - DigitValue(c1)) % 256) as byte
      else 0
  }

  /** `hexToUint8Array`; no match at all gives the empty array. */
  function Decode(hex: string): (r: seq<byte>)
    ensures |r| == |Chunks(hex)|
    ensures forall i :: 0 <= i < |r| ==> r[i] == ParseChunk(Chunks(hex)[i])
  {
    var cs := Chunks(hex);
    seq(|cs|, i requires 0 <= i < |cs| => ParseChunk(cs[i]))
  }

  predicate IsLowerHex(h: string)
  {
    forall i :: 0 <= i < |h| ==> IsLowerHexDigit(h[i])
  }

  lemma {:induction false} ChunksOfHexPairs(h: string)
    requires |h| % 2 == 0 && IsLowerHex(h)
    ensures |Chunks(h)| == |h| / 2
    ensures forall i :: 0 <= i < |h| / 2 ==> Chunks(h)[i] == h[2 * i..2 * i + 2]
    decreases |h|
  {
    if |h| > 0 {
      assert !IsLineTerminator(h[0]) && !IsLineTerminator(h[1]);
      ChunksOfHexPairs(h[2..]);
      var cs := Chunks(h);
      assert cs == [h[..2]] + Chunks(h[2..]);
      forall i | 1 <= i < |h| / 2
        ensures cs[i] == h[2 * i..2 * i + 2]
      {
        assert cs[i] == Chunks(h[2..])[i - 1];
        assert h[2..][2 * (i - 1)..2 * (i - 1) + 2] == h[2 * i..2 * i + 2];
      }
    }
  }

  /** Decoding what was encoded gives the bytes back. */
  lemma DecodeEncode(bytes: seq<byte>)
    ensures Decode(Encode(bytes)) == bytes
  {
    var h := Encode(bytes);
    ChunksOfHexPairs(h);
    forall i | 0 <= i < |bytes|
      ensures Decode(h)[i] == bytes[i]
    {
      var b := bytes[i] as nat;
      assert Chunks(h)[i] == [Digit(b / 16), Digit(b % 16)];
    }
  }

  /** An even-length lower-case hex text decodes to half as many bytes,
      byte i being the value of the digit pair at 2i and 2i+1. */
  lemma DecodeHexPairs(h: string)
    requires |h| % 2 == 0 && IsLowerHex(h)
    ensures |Decode(h)| == |h| / 2
    ensures forall i :: 0 <= i < |h| / 2 ==>
      Decode(h)[i] as int == 16 * DigitValue(h[2 * i]) + DigitValue(h[2 * i + 1])
  {
    ChunksOfHexPairs(h);
    forall i | 0 <= i < |h| / 2
      ensures Decode(h)[i] as int == 16 * DigitValue(h[2 * i]) + DigitValue(h[2 * i + 1])
    {
      var c := Chunks(h)[i];
      assert c == h[2 * i..2 * i + 2];
      assert c[0] == h[2 * i] && c[1] == h[2 * i + 1];
      assert IsLowerHexDigit(c[0]) && IsLowerHexDigit(c[1]);
    }
  }

  lemma DecodeCons(h: string)
    requires |h| >= 2 && !IsLineTerminator(h[0]) && !IsLineTerminator(h[1])
    ensures Decode(h) == [ParseChunk(h[..2])] + Decode(h[2..])
  {
    assert Chunks(h) == [h[..2]] + Chunks(h[2..]);
  }

  /** Encoding what was decoded gives back any even-length lower-case hex text. */
  lemma {:induction false} EncodeDecode(h: string)
    requires |h| % 2 == 0 && IsLowerHex(h)
    ensures Encode(Decode(h)) == h
    decreases |h|
  {
    if |h| == 0 {
      assert Decode(h) == [];
    } else {
      DecodeCons(h);
      var c0, c1 := h[0], h[1];
      var v := 16 * DigitValue(c0) + DigitValue(c1);
      var bytes := Decode(h);
      assert bytes[0] as int == v;
      assert bytes[1..] == Decode(h[2..]);
      EncodeDecode(h[2..]);
      DigitRoundTrip(c0);
      DigitRoundTrip(c1);
      assert v / 16 == DigitValue(c0) && v % 16 == DigitValue(c1);
      assert Encode(bytes) == ByteToHex(bytes[0]) + Encode(bytes[1..]);
      assert h == [c0, c1] + h[2..];
    }
  }

  lemma DigitRoundTrip(c: char)
    requires IsLowerHexDigit(c)
    ensures Digit(DigitValue(c)) == c
  {
  }

  /** What `saveIdentity` writes under the storage key. */
  datatype StoredIdentity = StoredIdentity(publicKey: string, secretKey: string, peerId: string)

  datatype Identity = Identity(publicKey: seq<byte>, secretKey: seq<byte>, peerId: string)

  /** `getOrCreateIdentity`. `stored` is the storage entry. `parse` stands for
      the whole decode inside the `try`: `JSON.parse` and the reads of its three
      fields. It answers None when any of that throws (text that is not JSON, a
      `null` document, a `publicKey` or `secretKey` that is not a string, so that
      `match` throws) and for a document whose fields are not three strings.
      `keyPair` is the freshly generated key pair, `peerIdOf` the base58 encoding
      and `serialize` `JSON.stringify`. The second component is what is written
      back to storage, if anything. */
  function GetOrCreateIdentity(stored: Option<string>, parse: string -> Option<StoredIdentity>,
                               keyPair: (seq<byte>, seq<byte>), peerIdOf: seq<byte> -> string,
                               serialize: StoredIdentity -> string): (r: (Identity, Option<string>))
    ensures stored.Some? && stored.value != "" && parse(stored.value).Some? ==>
      var d := parse(stored.value).value;
      r == (Identity(Decode(d.publicKey), Decode(d.secretKey), d.peerId), None)
    ensures !(stored.Some? && stored.value != "" && parse(stored.value).Some?) ==>
      r.0 == Identity(keyPair.0, keyPair.1, peerIdOf(keyPair.0)) &&
      r.1 == Some(serialize(StoredIdentity(Encode(keyPair.0), Encode(keyPair.1), r.0.peerId)))
  {
    if stored.Some? && stored.value != "" && parse(stored.value).Some? then
      var d := parse(stored.value).value;
      (Identity(Decode(d.publicKey), Decode(d.secretKey), d.peerId), None)
    else
      var identity := Identity(keyPair.0, keyPair.1, peerIdOf(keyPair.0));
      var data := StoredIdentity(Encode(identity.publicKey), Encode(identity.secretKey), identity.peerId);
      (identity, Some(serialize(data)))
  }

  /** A generated identity is saved so that the next call decodes the same
      identity back and generates nothing, whatever key pair it would have made. */
  lemma StoredIdentityIsReused(stored: Option<string>, parse: string -> Option<StoredIdentity>,
                               keyPair: (seq<byte>, seq<byte>), keyPair': (seq<byte>, seq<byte>),
                               peerIdOf: seq<byte> -> string, serialize: StoredIdentity -> string)
    requires forall d :: parse(serialize(d)) == Some(d)
    requires forall d :: serialize(d) != ""
    ensures var (first, saved) := GetOrCreateIdentity(stored, parse, keyPair, peerIdOf, serialize);
      saved.Some? ==> GetOrCreateIdentity(saved, parse, keyPair', peerIdOf, serialize) == (first, None)
  {
    var (first, saved) := GetOrCreateIdentity(stored, parse, keyPair, peerIdOf, serialize);
    if saved.Some? {
      DecodeEncode(keyPair.0);
      DecodeEncode(keyPair.1);
    }
  }
}
