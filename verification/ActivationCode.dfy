/** Activation codes: signed payloads printed in hyphenated base32. */
module ActivationCode {
  import opened Collections
  import opened Base32

  const V1_LEN: nat := 16
  const V2_LEN: nat := 19
  const VERSION_LITE: Byte := 0x02

  type Bytes = seq<Byte>

  /** The keyed signature: data and secret to at least three bytes. */
  type Mac = (Bytes, Bytes) -> Bytes

  ghost predicate IsMac(mac: Mac)
  {
    forall data, secret :: |mac(data, secret)| >= 3
  }

  datatype Payload =
    | Days(days: int, distributor: Bytes)
    | Lite(trafficGib: int, distributor: Bytes)

  predicate IsI16(n: int) { -32768 <= n < 32768 }

  predicate IsU32(n: int) { 0 <= n < 0x1_0000_0000 }

  /** What the source's types allow: a 16-bit signed day count or a 32-bit
      unsigned traffic volume, and a four-byte distributor. */
  predicate ValidPayload(p: Payload)
  {
    |p.distributor| == 4 && (if p.Days? then IsI16(p.days) else IsU32(p.trafficGib))
  }

  // ---- Numbers as bytes ----

  /** Two's complement, big-endian. */
  function I16Bytes(n: int): Bytes
    requires IsI16(n)
  {
    var u := if n < 0 then n + 65536 else n;
    [u / 256, u % 256]
  }

  function I16From(b: Bytes): (n: int)
    requires |b| == 2
    ensures IsI16(n)
  {
    var u := b[0] as int * 256 + b[1] as int;
    if u >= 32768 then u - 65536 else u
  }

  lemma I16RoundTrip(n: int, b: Bytes)
    requires IsI16(n) && |b| == 2
    ensures I16From(I16Bytes(n)) == n && I16Bytes(I16From(b)) == b
  {
  }

  function U32Bytes(n: int): Bytes
    requires IsU32(n)
  {
    var a, b := n / 256, n / 256 / 256;
    [b / 256, b % 256, a % 256, n % 256]
  }

  function U32From(b: Bytes): (n: int)
    requires |b| == 4
    ensures IsU32(n)
  {
    ((b[0] as int * 256 + b[1] as int) * 256 + b[2] as int) * 256 + b[3] as int
  }

  lemma LastDigit(x: int, d: Byte)
    ensures (x * 256 + d) / 256 == x && (x * 256 + d) % 256 == d
  {
  }

  lemma U32RoundTrip(n: int, b: Bytes)
    requires IsU32(n) && |b| == 4
    ensures U32From(U32Bytes(n)) == n && U32Bytes(U32From(b)) == b
  {
    var x := b[0] as int * 256 + b[1] as int;
    LastDigit(x * 256 + b[2] as int, b[3]);
    LastDigit(x, b[2]);
    LastDigit(b[0], b[1]);
  }

  // ---- Checksum and signature ----

  /** Sum of the bytes, wrapping at 256. */
  function Checksum(data: Bytes): Byte
  {
    if data == [] then 0 else (Checksum(data[..|data| - 1]) + data[|data| - 1]) % 256
  }

  /** The signed data followed by three signature bytes and the checksum. */
  function Sealed(data: Bytes, secret: Bytes, mac: Mac): Bytes
    requires |mac(data, secret)| >= 3
  {
    var signed := data + mac(data, secret)[..3];
    signed + [Checksum(signed)]
  }

  predicate ChecksumOk(bytes: Bytes)
    requires bytes != []
  {
    Checksum(bytes[..|bytes| - 1]) == bytes[|bytes| - 1]
  }

  /** What a code of this payload signs, around six random bytes. */
  function DataOf(p: Payload, random: Bytes): Bytes
    requires ValidPayload(p)
  {
    match p
    case Days(days, distributor) => random + I16Bytes(days) + distributor
    case Lite(traffic, distributor) => [VERSION_LITE] + random + distributor + U32Bytes(traffic)
  }

  // ---- Printing ----

  /** Groups of five characters, joined by hyphens. */
  function Hyphenate(s: string): string
  {
    if |s| <= 5 then s else s[..5] + "-" + Hyphenate(s[5..])
  }

  function CodeFor(p: Payload, random: Bytes, secret: Bytes, mac: Mac): string
    requires ValidPayload(p) && IsMac(mac)
  {
    Hyphenate(Encode(Sealed(DataOf(p, random), secret, mac)))
  }

  /** `Code::new`: push the fields, then the signature, then the checksum. */
  method NewDays(days: int, distributor: Bytes, random: Bytes, secret: Bytes, mac: Mac) returns (code: string)
    requires IsI16(days) && |distributor| == 4 && |random| == 6 && IsMac(mac)
    ensures code == CodeFor(Days(days, distributor), random, secret, mac)
  {
    var payload: Bytes := [];
    payload := payload + random;
    payload := payload + I16Bytes(days);
    payload := payload + distributor;
    assert payload == DataOf(Days(days, distributor), random);
    var sig := mac(payload, secret);
    payload := payload + sig[..3];
    payload := payload + [Checksum(payload)];
    code := Hyphenate(Encode(payload));
  }

  /** `Code::new_lite`. */
  method NewLite(trafficGib: int, distributor: Bytes, random: Bytes, secret: Bytes, mac: Mac) returns (code: string)
    requires IsU32(trafficGib) && |distributor| == 4 && |random| == 6 && IsMac(mac)
    ensures code == CodeFor(Lite(trafficGib, distributor), random, secret, mac)
  {
    var payload: Bytes := [VERSION_LITE];
    payload := payload + random;
    payload := payload + distributor;
    payload := payload + U32Bytes(trafficGib);
    var sig := mac(payload, secret);
    payload := payload + sig[..3];
    payload := payload + [Checksum(payload)];
    code := Hyphenate(Encode(payload));
  }

  // ---- Parsing ----

  function UpperChar(c: char): char
  {
    if 'a' <= c <= 'z' then (c as int - 32) as char else c
  }

  /** Drop the hyphens and upper-case the rest. */
  function Normalize(s: string): string
  {
    if s == "" then ""
    else if s[0] == '-' then Normalize(s[1..])
    else [UpperChar(s[0])] + Normalize(s[1..])
  }

  function ParseV1(bytes: Bytes, secret: Bytes, mac: Mac): Option<Payload>
    requires |bytes| == V1_LEN && IsMac(mac)
  {
    if !ChecksumOk(bytes) then None
    else
      var data, sig := bytes[..12], bytes[12..15];
      if mac(data, secret)[..3] != sig then None
      else Some(Days(I16From(data[6..8]), data[8..12]))
  }

  function ParseV2(bytes: Bytes, secret: Bytes, mac: Mac): Option<Payload>
    requires |bytes| == V2_LEN && IsMac(mac)
  {
    if !ChecksumOk(bytes) then None
    else
      var data, sig := bytes[..15], bytes[15..18];
      if data[0] != VERSION_LITE then None
      else if mac(data, secret)[..3] != sig then None
      else Some(Lite(U32From(data[11..15]), data[7..11]))
  }

  function ParseBytes(bytes: Bytes, secret: Bytes, mac: Mac): Option<Payload>
    requires IsMac(mac)
  {
    if |bytes| == V1_LEN then ParseV1(bytes, secret, mac)
    else if |bytes| == V2_LEN then ParseV2(bytes, secret, mac)
    else None
  }

  function ParsePayload(s: string, secret: Bytes, mac: Mac): Option<Payload>
    requires IsMac(mac)
  {
    var decoded := Decode(Normalize(s));
    if decoded.None? then None else ParseBytes(decoded.value, secret, mac)
  }

  /** The days-only parser. */
  function Parse(s: string, secret: Bytes, mac: Mac): Option<(int, Bytes)>
    requires IsMac(mac)
  {
    var p := ParsePayload(s, secret, mac);
    if p.Some? && p.value.Days? then Some((p.value.days, p.value.distributor)) else None
  }

  /** `Code::from_str`: a decodable text of a known length, kept in upper case. */
  predicate IsWellFormed(s: string)
  {
    var decoded := Decode(Normalize(s));
    decoded.Some? && (|decoded.value| == V1_LEN || |decoded.value| == V2_LEN)
  }

  // ---- The parser accepts exactly what the printer can print ----

  lemma SealedParts(data: Bytes, secret: Bytes, mac: Mac)
    requires IsMac(mac)
    ensures var b, n := Sealed(data, secret, mac), |data|;
            && |b| == n + 4 && b[..n] == data && b[n..n + 3] == mac(data, secret)[..3] && ChecksumOk(b)
  {
    var signed := data + mac(data, secret)[..3];
    var b := Sealed(data, secret, mac);
    assert b[..|b| - 1] == signed;
  }

  lemma {:induction false} SealedUnique(b: Bytes, secret: Bytes, mac: Mac, n: nat)
    requires IsMac(mac) && |b| == n + 4 && b[n..n + 3] == mac(b[..n], secret)[..3] && ChecksumOk(b)
    ensures b == Sealed(b[..n], secret, mac)
  {
    assert b[..|b| - 1] == b[..n] + b[n..n + 3];
    assert b == b[..|b| - 1] + [b[|b| - 1]];
  }

  lemma ParseSealed(p: Payload, random: Bytes, secret: Bytes, mac: Mac)
    requires ValidPayload(p) && |random| == 6 && IsMac(mac)
    ensures ParseBytes(Sealed(DataOf(p, random), secret, mac), secret, mac) == Some(p)
  {
    var data := DataOf(p, random);
    SealedParts(data, secret, mac);
    match p
    case Days(days, distributor) =>
      I16RoundTrip(days, I16Bytes(days));
      assert data[6..8] == I16Bytes(days) && data[8..12] == distributor;
    case Lite(traffic, distributor) =>
      U32RoundTrip(traffic, U32Bytes(traffic));
      assert data[11..15] == U32Bytes(traffic) && data[7..11] == distributor;
  }

  lemma ParsedIsSealed(b: Bytes, secret: Bytes, mac: Mac) returns (random: Bytes)
    requires IsMac(mac) && ParseBytes(b, secret, mac).Some?
    ensures var p := ParseBytes(b, secret, mac).value;
            ValidPayload(p) && |random| == 6 && b == Sealed(DataOf(p, random), secret, mac)
  {
    var p := ParseBytes(b, secret, mac).value;
    if |b| == V1_LEN {
      SealedUnique(b, secret, mac, 12);
      random := b[..6];
      I16RoundTrip(p.days, b[6..8]);
      assert b[..12][6..8] == b[6..8] && b[..12][8..12] == b[8..12];
      assert b[..12] == DataOf(p, random);
    } else {
      SealedUnique(b, secret, mac, 15);
      random := b[1..7];
      U32RoundTrip(p.trafficGib, b[11..15]);
      assert b[..15][11..15] == b[11..15] && b[..15][7..11] == b[7..11];
      assert b[..15] == DataOf(p, random);
    }
  }

  // ---- Spelling ----

  lemma {:induction false} NormalizeAppend(a: string, b: string)
    ensures Normalize(a + b) == Normalize(a) + Normalize(b)
  {
    if a == "" {
      assert a + b == b;
    } else {
      assert (a + b)[1..] == a[1..] + b;
      NormalizeAppend(a[1..], b);
    }
  }

  lemma {:induction false} NormalizeSymbols(s: string)
    requires AllSymbols(s)
    ensures Normalize(s) == s
  {
    if s != "" {
      assert IsSymbol(s[0]);
      NormalizeSymbols(s[1..]);
    }
  }

  /** Hyphens do not matter. */
  lemma {:induction false} NormalizeHyphenate(s: string)
    ensures Normalize(Hyphenate(s)) == Normalize(s)
  {
    if |s| > 5 {
      NormalizeHyphenate(s[5..]);
      assert Normalize("-") == "";
      NormalizeAppend(s[..5] + "-", Hyphenate(s[5..]));
      NormalizeAppend(s[..5], "-");
      NormalizeAppend(s[..5], s[5..]);
      assert s == s[..5] + s[5..];
    }
  }

  function Lower(s: string): string
  {
    seq(|s|, i requires 0 <= i < |s| => if 'A' <= s[i] <= 'Z' then (s[i] as int + 32) as char else s[i])
  }

  /** Case does not matter. */
  lemma {:induction false} NormalizeLower(s: string)
    ensures Normalize(Lower(s)) == Normalize(s)
  {
    if s != "" {
      assert Lower(s)[1..] == Lower(s[1..]);
      NormalizeLower(s[1..]);
    }
  }

  lemma CodeNormalizes(p: Payload, random: Bytes, secret: Bytes, mac: Mac)
    requires ValidPayload(p) && IsMac(mac)
    ensures var b := Sealed(DataOf(p, random), secret, mac);
            Normalize(CodeFor(p, random, secret, mac)) == Encode(b) && Decode(Encode(b)) == Some(b)
  {
    var b := Sealed(DataOf(p, random), secret, mac);
    EncodeDecode(b);
    NormalizeHyphenate(Encode(b));
    NormalizeSymbols(Encode(b));
  }

  // ---- Theorems ----

  /** Parsing undoes printing for every payload, random bytes and secret, in
      every spelling that differs only in hyphens and case. */
  lemma ParseUndoesPrint(p: Payload, random: Bytes, secret: Bytes, mac: Mac, s: string)
    requires ValidPayload(p) && |random| == 6 && IsMac(mac)
    requires Normalize(s) == Normalize(CodeFor(p, random, secret, mac))
    ensures ParsePayload(s, secret, mac) == Some(p) && IsWellFormed(s)
    ensures Parse(s, secret, mac) == if p.Days? then Some((p.days, p.distributor)) else None
  {
    CodeNormalizes(p, random, secret, mac);
    ParseSealed(p, random, secret, mac);
    SealedParts(DataOf(p, random), secret, mac);
  }

  /** In particular the printed, the lower-case and the hyphen-free spelling. */
  lemma CommonSpellings(p: Payload, random: Bytes, secret: Bytes, mac: Mac)
    requires ValidPayload(p) && |random| == 6 && IsMac(mac)
    ensures var code := CodeFor(p, random, secret, mac);
            && ParsePayload(code, secret, mac) == Some(p)
            && ParsePayload(Lower(code), secret, mac) == Some(p)
            && ParsePayload(Normalize(code), secret, mac) == Some(p)
  {
    var code := CodeFor(p, random, secret, mac);
    NormalizeLower(code);
    CodeNormalizes(p, random, secret, mac);
    NormalizeSymbols(Normalize(code)) by {
      EncodeDecode(Sealed(DataOf(p, random), secret, mac));
    }
    ParseUndoesPrint(p, random, secret, mac, code);
    ParseUndoesPrint(p, random, secret, mac, Lower(code));
    ParseUndoesPrint(p, random, secret, mac, Normalize(code));
  }

  /** The parser accepts a text if and only if its bytes are those of some
      printable code, and then returns that code's payload. */
  lemma ParseIffPrintable(s: string, secret: Bytes, mac: Mac, p: Payload)
    requires IsMac(mac)
    ensures ParsePayload(s, secret, mac) == Some(p) <==>
            ValidPayload(p) &&
            exists random :: |random| == 6 && Decode(Normalize(s)) == Some(Sealed(DataOf(p, random), secret, mac))
  {
    if ParsePayload(s, secret, mac) == Some(p) {
      var b := Decode(Normalize(s)).value;
      var random := ParsedIsSealed(b, secret, mac);
      assert Decode(Normalize(s)) == Some(Sealed(DataOf(p, random), secret, mac));
    }
    if ValidPayload(p) {
      forall random | |random| == 6 && Decode(Normalize(s)) == Some(Sealed(DataOf(p, random), secret, mac))
        ensures ParsePayload(s, secret, mac) == Some(p)
      {
        ParseSealed(p, random, secret, mac);
      }
    }
  }

  function ByteSum(data: Bytes): nat
  {
    if data == [] then 0 else ByteSum(data[..|data| - 1]) + data[|data| - 1]
  }

  lemma {:induction false} ChecksumIsSum(data: Bytes)
    ensures Checksum(data) == ByteSum(data) % 256
  {
    if data != [] {
      ChecksumIsSum(data[..|data| - 1]);
    }
  }

  lemma {:induction false} ByteSumUpdate(data: Bytes, i: nat, b: Byte)
    requires i < |data|
    ensures ByteSum(data[i := b]) == ByteSum(data) + b - data[i]
  {
    var n := |data| - 1;
    if i < n {
      assert data[i := b][..n] == data[..n][i := b];
      ByteSumUpdate(data[..n], i, b);
    } else {
      assert data[i := b][..n] == data[..n];
    }
  }

  lemma SmallChangeShows(sum: nat, b: Byte, c: Byte)
    requires b != c && sum + b - c >= 0
    ensures (sum + b - c) % 256 != sum % 256
  {
  }

  /** Any change of one byte breaks the checksum... */
  lemma OneByteBreaksChecksum(bytes: Bytes, i: nat, b: Byte)
    requires i < |bytes| && ChecksumOk(bytes) && b != bytes[i]
    ensures !ChecksumOk(bytes[i := b])
  {
    var n := |bytes| - 1;
    if i < n {
      var data := bytes[..n];
      assert bytes[i := b][..n] == data[i := b];
      ByteSumUpdate(data, i, b);
      ChecksumIsSum(data);
      ChecksumIsSum(data[i := b]);
      SmallChangeShows(ByteSum(data), b, data[i]);
    } else {
      assert bytes[i := b][..n] == bytes[..n];
    }
  }

  /** ...so no single-byte corruption of a printable code parses. */
  lemma CorruptedByteRejected(p: Payload, random: Bytes, secret: Bytes, mac: Mac, i: nat, b: Byte, s: string)
    requires ValidPayload(p) && |random| == 6 && IsMac(mac)
    requires var bytes := Sealed(DataOf(p, random), secret, mac);
             i < |bytes| && b != bytes[i] && Decode(Normalize(s)) == Some(bytes[i := b])
    ensures ParsePayload(s, secret, mac) == None
  {
    var bytes := Sealed(DataOf(p, random), secret, mac);
    SealedParts(DataOf(p, random), secret, mac);
    OneByteBreaksChecksum(bytes, i, b);
  }

  // ---- Layout ----

  /** The signature is over all that stands before it, and the last byte is the
      sum of the others, modulo 256. */
  ghost predicate EndsSealed(b: Bytes, secret: Bytes, mac: Mac)
  {
    && |b| >= 4 && |mac(b[..|b| - 4], secret)| >= 3
    && b[|b| - 4..|b| - 1] == mac(b[..|b| - 4], secret)[..3]
    && b[|b| - 1] == ByteSum(b[..|b| - 1]) % 256
  }

  /** Where each field of a code stands: a days code is six random bytes, the
      days as a signed number of two bytes and the distributor; a lite code is
      the version, six random bytes, the distributor and the volume in four. */
  lemma CodeLayout(p: Payload, random: Bytes, secret: Bytes, mac: Mac)
    requires ValidPayload(p) && |random| == 6 && IsMac(mac)
    ensures var b := Sealed(DataOf(p, random), secret, mac);
            && EndsSealed(b, secret, mac)
            && match p
               case Days(days, distributor) =>
                 && |b| == 16 && b[..6] == random && b[8..12] == distributor
                 && b[6] as int * 256 + b[7] as int == (if days >= 0 then days else days + 65536)
               case Lite(traffic, distributor) =>
                 && |b| == 19 && b[0] == 2 && b[1..7] == random && b[7..11] == distributor
                 && ((b[11] as int * 256 + b[12] as int) * 256 + b[13] as int) * 256 + b[14] as int == traffic
  {
    var data, b := DataOf(p, random), Sealed(DataOf(p, random), secret, mac);
    SealedParts(data, secret, mac);
    ChecksumIsSum(b[..|b| - 1]);
    match p
    case Days(days, distributor) =>
      assert data[6..8] == I16Bytes(days) && data[8..12] == distributor && data[..6] == random;
      assert b[..12][6..8] == b[6..8] && b[..12][8..12] == b[8..12] && b[..12][..6] == b[..6];
      assert b[6] == b[6..8][0] && b[7] == b[6..8][1];
    case Lite(traffic, distributor) =>
      U32RoundTrip(traffic, U32Bytes(traffic));
      assert data[0] == 2 && data[1..7] == random && data[7..11] == distributor && data[11..15] == U32Bytes(traffic);
      assert b[..15][1..7] == b[1..7] && b[..15][7..11] == b[7..11] && b[..15][11..15] == b[11..15];
      assert b[0] == b[..15][0];
      assert b[11] == b[11..15][0] && b[12] == b[11..15][1] && b[13] == b[11..15][2] && b[14] == b[11..15][3];
  }

  /** A printed code has a hyphen after every fifth character but the last. */
  lemma {:induction false} HyphenPositions(s: string, i: nat)
    requires i < |Hyphenate(s)|
    ensures |Hyphenate(s)| == |s| + (if s == "" then 0 else (|s| - 1) / 5)
    ensures if i % 6 == 5 then Hyphenate(s)[i] == '-' else i - i / 6 < |s| && Hyphenate(s)[i] == s[i - i / 6]
  {
    if |s| > 5 {
      var rest := s[5..];
      assert Hyphenate(s) == s[..5] + "-" + Hyphenate(rest);
      HyphenPositions(rest, if i >= 6 then i - 6 else 0);
      assert i >= 6 ==> Hyphenate(s)[i] == Hyphenate(rest)[i - 6];
    }
  }
}
