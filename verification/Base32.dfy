/** Unpadded base32 (section 6 of RFC 4648), bit by bit. */
module Base32 {
  import opened Collections

  type Byte = b: int | 0 <= b < 256

  // ---- Bits ----

  function Pow2(n: nat): (p: nat)
    ensures p >= 1
  {
    if n == 0 then 1 else 2 * Pow2(n - 1)
  }

  /** The lowest `w` bits of `n`, most significant first. */
  function ToBits(n: nat, w: nat): (bits: seq<bool>)
    ensures |bits| == w
  {
    if w == 0 then [] else ToBits(n / 2, w - 1) + [n % 2 == 1]
  }

  function FromBits(bits: seq<bool>): (n: nat)
    ensures n < Pow2(|bits|)
  {
    if bits == [] then 0 else 2 * FromBits(bits[..|bits| - 1]) + if bits[|bits| - 1] then 1 else 0
  }

  lemma {:induction false} FromToBits(n: nat, w: nat)
    requires n < Pow2(w)
    ensures FromBits(ToBits(n, w)) == n
  {
    if w > 0 {
      var bits := ToBits(n, w);
      assert bits[..w - 1] == ToBits(n / 2, w - 1);
      FromToBits(n / 2, w - 1);
    }
  }

  lemma {:induction false} ToFromBits(bits: seq<bool>)
    ensures ToBits(FromBits(bits), |bits|) == bits
  {
    if bits != [] {
      ToFromBits(bits[..|bits| - 1]);
      assert bits == bits[..|bits| - 1] + [bits[|bits| - 1]];
    }
  }

  function Zeros(n: nat): seq<bool> { seq(n, _ => false) }

  function BytesToBits(bytes: seq<Byte>): (bits: seq<bool>)
    ensures |bits| == 8 * |bytes|
  {
    if bytes == [] then [] else ToBits(bytes[0], 8) + BytesToBits(bytes[1..])
  }

  lemma Pow2Values()
    ensures Pow2(5) == 32 && Pow2(8) == 256
  {
    assert Pow2(1) == 2 && Pow2(2) == 4 && Pow2(3) == 8 && Pow2(4) == 16;
    assert Pow2(5) == 32 && Pow2(6) == 64 && Pow2(7) == 128;
  }

  function ByteOf(bits: seq<bool>): Byte
    requires |bits| == 8
  {
    Pow2Values();
    FromBits(bits)
  }

  /** Whole bytes from the front; fewer than eight bits left over are dropped. */
  function BitsToBytes(bits: seq<bool>): seq<Byte>
  {
    if |bits| < 8 then [] else [ByteOf(bits[..8])] + BitsToBytes(bits[8..])
  }

  lemma {:induction false} BytesRoundTrip(bytes: seq<Byte>, pad: seq<bool>)
    requires |pad| < 8
    ensures BitsToBytes(BytesToBits(bytes) + pad) == bytes
  {
    if bytes != [] {
      var bits := BytesToBits(bytes) + pad;
      assert bits[..8] == ToBits(bytes[0], 8);
      assert bits[8..] == BytesToBits(bytes[1..]) + pad;
      Pow2Values();
      FromToBits(bytes[0], 8);
      BytesRoundTrip(bytes[1..], pad);
    }
  }

  // ---- Characters ----

  type Quintet = v: int | 0 <= v < 32

  function Symbol(v: Quintet): char
  {
    if v < 26 then ('A' as int + v) as char else ('2' as int + v - 26) as char
  }

  predicate IsSymbol(c: char) { 'A' <= c <= 'Z' || '2' <= c <= '7' }

  function Value(c: char): Quintet
    requires IsSymbol(c)
  {
    if 'A' <= c <= 'Z' then c as int - 'A' as int else c as int - '2' as int + 26
  }

  lemma SymbolValue(v: Quintet)
    ensures IsSymbol(Symbol(v)) && Value(Symbol(v)) == v
  {
  }

  function QuintetOf(bits: seq<bool>): Quintet
    requires |bits| == 5
  {
    Pow2Values();
    FromBits(bits)
  }

  /** Groups of five bits as symbols, the last group filled up with zeros. */
  function EncodeBits(bits: seq<bool>): string
  {
    if bits == [] then ""
    else if |bits| < 5 then [Symbol(QuintetOf(bits + Zeros(5 - |bits|)))]
    else [Symbol(QuintetOf(bits[..5]))] + EncodeBits(bits[5..])
  }

  function Encode(bytes: seq<Byte>): string { EncodeBits(BytesToBits(bytes)) }

  predicate AllSymbols(s: string)
  {
    forall i :: 0 <= i < |s| ==> IsSymbol(s[i])
  }

  function SymbolBits(s: string): seq<bool>
    requires AllSymbols(s)
  {
    if s == "" then [] else ToBits(Value(s[0]), 5) + SymbolBits(s[1..])
  }

  function Decode(s: string): Option<seq<Byte>>
  {
    if AllSymbols(s) then Some(BitsToBytes(SymbolBits(s))) else None
  }

  /** The symbols of a bit string spell its bits and fewer than five zeros. */
  lemma {:induction false} EncodedBits(bits: seq<bool>) returns (pad: nat)
    ensures pad < 5 && AllSymbols(EncodeBits(bits))
    ensures SymbolBits(EncodeBits(bits)) == bits + Zeros(pad)
  {
    var s := EncodeBits(bits);
    if bits == [] {
      pad := 0;
    } else if |bits| < 5 {
      pad := 5 - |bits|;
      var full := bits + Zeros(pad);
      SymbolValue(QuintetOf(full));
      ToFromBits(full);
      assert s[1..] == "";
    } else {
      SymbolValue(QuintetOf(bits[..5]));
      ToFromBits(bits[..5]);
      pad := EncodedBits(bits[5..]);
      assert s[1..] == EncodeBits(bits[5..]);
      assert bits == bits[..5] + bits[5..];
    }
  }

  /** Decoding undoes encoding, for byte strings of every length. */
  lemma EncodeDecode(bytes: seq<Byte>)
    ensures AllSymbols(Encode(bytes)) && Decode(Encode(bytes)) == Some(bytes)
  {
    var pad := EncodedBits(BytesToBits(bytes));
    BytesRoundTrip(bytes, Zeros(pad));
  }

  // ---- As numbers ----

  const ALPHABET := "ABCDEFGHIJKLMNOPQRSTUVWXYZ234567"

  /** The bytes as a number, most significant first. */
  function ByteNumber(bytes: seq<Byte>): nat
  {
    if bytes == [] then 0 else ByteNumber(bytes[..|bytes| - 1]) * 256 + bytes[|bytes| - 1]
  }

  /** The value of `c` is its place in the alphabet. */
  ghost predicate PlaceOf(c: char, v: nat) { v < |ALPHABET| && ALPHABET[v] == c }

  lemma SymbolsAreAlphabet(v: Quintet)
    ensures PlaceOf(Symbol(v), v)
  {
  }

  /** The symbols as a number in base 32. */
  function SymbolNumber(s: string): nat
    requires AllSymbols(s)
  {
    if s == "" then 0 else SymbolNumber(s[..|s| - 1]) * 32 + Value(s[|s| - 1])
  }

  lemma ShiftOnce(x: int, p: int, low: int, bit: int)
    ensures 2 * (x * p + low) + bit == x * (2 * p) + (2 * low + bit)
  {
    assert x * (2 * p) == 2 * (x * p);
  }

  lemma {:induction false} FromBitsConcat(a: seq<bool>, b: seq<bool>)
    ensures FromBits(a + b) == FromBits(a) * Pow2(|b|) + FromBits(b)
    decreases |b|
  {
    if b == [] {
      assert a + b == a;
    } else {
      var n, bit := |b| - 1, if b[|b| - 1] then 1 else 0;
      assert (a + b)[..|a + b| - 1] == a + b[..n];
      FromBitsConcat(a, b[..n]);
      var high, p, low := FromBits(a), Pow2(n), FromBits(b[..n]);
      ShiftOnce(high, p, low, bit);
      calc {
        FromBits(a + b);
        2 * FromBits(a + b[..n]) + bit;
        2 * (high * p + low) + bit;
        high * (2 * p) + (2 * low + bit);
        high * Pow2(|b|) + FromBits(b);
      }
    }
  }

  lemma {:induction false} ZerosAreZero(n: nat)
    ensures FromBits(Zeros(n)) == 0
  {
    if n > 0 {
      assert Zeros(n)[..n - 1] == Zeros(n - 1);
      ZerosAreZero(n - 1);
    }
  }

  lemma {:induction false} BytesToBitsSnoc(bytes: seq<Byte>, b: Byte)
    ensures BytesToBits(bytes + [b]) == BytesToBits(bytes) + ToBits(b, 8)
  {
    if bytes == [] {
      assert [b][1..] == [];
    } else {
      assert (bytes + [b])[1..] == bytes[1..] + [b];
      BytesToBitsSnoc(bytes[1..], b);
    }
  }

  lemma {:induction false} BitsAreBytes(bytes: seq<Byte>)
    ensures FromBits(BytesToBits(bytes)) == ByteNumber(bytes)
  {
    if bytes != [] {
      var init, b := bytes[..|bytes| - 1], bytes[|bytes| - 1];
      assert bytes == init + [b];
      BitsAreBytes(init);
      BytesToBitsSnoc(init, b);
      Pow2Values();
      FromToBits(b, 8);
      FromBitsConcat(BytesToBits(init), ToBits(b, 8));
    }
  }

  lemma {:induction false} SymbolBitsSnoc(s: string, c: char)
    requires AllSymbols(s) && IsSymbol(c)
    ensures AllSymbols(s + [c]) && SymbolBits(s + [c]) == SymbolBits(s) + ToBits(Value(c), 5)
  {
    if s == "" {
      assert [c][1..] == [];
    } else {
      assert (s + [c])[1..] == s[1..] + [c];
      SymbolBitsSnoc(s[1..], c);
    }
  }

  lemma {:induction false} BitsAreSymbols(s: string)
    requires AllSymbols(s)
    ensures FromBits(SymbolBits(s)) == SymbolNumber(s) && |SymbolBits(s)| == 5 * |s|
  {
    if s != "" {
      var init, c := s[..|s| - 1], s[|s| - 1];
      assert s == init + [c];
      BitsAreSymbols(init);
      SymbolBitsSnoc(init, c);
      Pow2Values();
      FromToBits(Value(c), 5);
      FromBitsConcat(SymbolBits(init), ToBits(Value(c), 5));
    }
  }

  /** The code of a byte string is that number, shifted to a whole number of
      symbols, written in base 32 with the letters and then the digits 2 to 7. */
  lemma EncodeIsNumber(bytes: seq<Byte>) returns (pad: nat)
    ensures pad < 5 && AllSymbols(Encode(bytes)) && 5 * |Encode(bytes)| == 8 * |bytes| + pad
    ensures SymbolNumber(Encode(bytes)) == ByteNumber(bytes) * Pow2(pad)
  {
    pad := EncodedBits(BytesToBits(bytes));
    BitsAreSymbols(Encode(bytes));
    BitsAreBytes(bytes);
    FromBitsConcat(BytesToBits(bytes), Zeros(pad));
    ZerosAreZero(pad);
  }
}
