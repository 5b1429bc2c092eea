/** UTF-8 encoding and decoding of code points, after section 3 of RFC 3629. */
module Utf8 {

  /** The low byte, as a cast to an 8-bit character keeps it. */
  function Low(x: bv32): bv8 {
    (x & 0xFF) as bv8
  }

  function Wide(b: bv8): bv32 {
    b as bv32
  }

  /** The bytes of one code point; every non-negative 32-bit integer is accepted. */
  function Encode(cp: bv32): (bytes: seq<bv8>)
    requires cp < 0x8000_0000
    ensures 1 <= |bytes| <= 4
  {
    if cp < 0x80 then [Low(cp)]
    else if cp < 0x800 then [Low(0xC0 | (cp >> 6)), Low(0x80 | (cp & 0x3F))]
    else if cp < 0x10000 then
      [Low(0xE0 | (cp >> 12)), Low(0x80 | ((cp >> 6) & 0x3F)), Low(0x80 | (cp & 0x3F))]
    else
      [Low(0xF0 | (cp >> 18)), Low(0x80 | ((cp >> 12) & 0x3F)), Low(0x80 | ((cp >> 6) & 0x3F)), Low(0x80 | (cp & 0x3F))]
  }

  /** The euro sign takes three bytes, most significant first. */
  lemma EuroSign()
    ensures Encode(0x20AC) == [0xE2, 0x82, 0xAC]
  {
  }

  predicate IsAscii(b: bv8) { Wide(b) & 0x80 == 0 }

  predicate IsLead2(b: bv8) { Wide(b) & 0xE0 == 0xC0 }

  predicate IsLead3(b: bv8) { Wide(b) & 0xF0 == 0xE0 }

  predicate IsLead4(b: bv8) { Wide(b) & 0xF8 == 0xF0 }

  predicate IsTrail(b: bv8) { Wide(b) & 0xC0 == 0x80 }

  function Join2(a: bv8, b: bv8): bv32 {
    ((Wide(a) & 0x1F) << 6) | (Wide(b) & 0x3F)
  }

  function Join3(a: bv8, b: bv8, c: bv8): bv32 {
    ((Wide(a) & 0x0F) << 12) | ((Wide(b) & 0x3F) << 6) | (Wide(c) & 0x3F)
  }

  function Join4(a: bv8, b: bv8, c: bv8, d: bv8): bv32 {
    ((Wide(a) & 0x07) << 18) | ((Wide(b) & 0x3F) << 12) | ((Wide(c) & 0x3F) << 6) | (Wide(d) & 0x3F)
  }

  /** The first code point of a byte string and the number of bytes it takes, 0 when there is none. */
  function DecodeOne(p: seq<bv8>): (r: (bv32, nat))
    ensures r.1 <= |p|
  {
    if |p| >= 1 && IsAscii(p[0]) then (Wide(p[0]), 1)
    else if |p| >= 2 && IsLead2(p[0]) && IsTrail(p[1]) then (Join2(p[0], p[1]), 2)
    else if |p| >= 3 && IsLead3(p[0]) && IsTrail(p[1]) && IsTrail(p[2]) then (Join3(p[0], p[1], p[2]), 3)
    else if |p| >= 4 && IsLead4(p[0]) && IsTrail(p[1]) && IsTrail(p[2]) && IsTrail(p[3]) then
      (Join4(p[0], p[1], p[2], p[3]), 4)
    else (0, 0)
  }

  /** All code points up to the first place where none can be decoded. */
  function Decode(p: seq<bv8>): seq<bv32> {
    var (cp, n) := DecodeOne(p);
    if n == 0 then [] else [cp] + Decode(p[n..])
  }

  function EncodeAll(cps: seq<bv32>): seq<bv8>
    requires forall k :: 0 <= k < |cps| ==> cps[k] < 0x8000_0000
  {
    if cps == [] then [] else Encode(cps[0]) + EncodeAll(cps[1..])
  }

  lemma OneByte(cp: bv32)
    requires cp < 0x80
    ensures Wide(Low(cp)) == cp && IsAscii(Low(cp))
  {
  }

  lemma TwoBytes(cp: bv32)
    requires 0x80 <= cp < 0x800
    ensures var a, b := Low(0xC0 | (cp >> 6)), Low(0x80 | (cp & 0x3F));
            && !IsAscii(a) && IsLead2(a) && IsTrail(b)
            && Join2(a, b) == cp
  {
  }

  lemma ThreeBytes(cp: bv32)
    requires 0x800 <= cp < 0x10000
    ensures var a, b, c := Low(0xE0 | (cp >> 12)), Low(0x80 | ((cp >> 6) & 0x3F)), Low(0x80 | (cp & 0x3F));
            && !IsAscii(a) && !IsLead2(a) && IsLead3(a) && IsTrail(b) && IsTrail(c)
            && Join3(a, b, c) == cp
  {
  }

  lemma FourBytes(cp: bv32)
    requires 0x10000 <= cp < 0x20_0000
    ensures var a, b := Low(0xF0 | (cp >> 18)), Low(0x80 | ((cp >> 12) & 0x3F));
            var c, d := Low(0x80 | ((cp >> 6) & 0x3F)), Low(0x80 | (cp & 0x3F));
            && !IsAscii(a) && !IsLead2(a) && !IsLead3(a) && IsLead4(a) && IsTrail(b) && IsTrail(c) && IsTrail(d)
            && Join4(a, b, c, d) == cp
  {
  }

  lemma DecodeTwo(a: bv8, b: bv8, rest: seq<bv8>)
    requires !IsAscii(a) && IsLead2(a) && IsTrail(b)
    ensures DecodeOne([a, b] + rest) == (Join2(a, b), 2)
  {
    hide IsAscii, IsLead2, IsTrail, Join2;
  }

  lemma DecodeThree(a: bv8, b: bv8, c: bv8, rest: seq<bv8>)
    requires !IsAscii(a) && !IsLead2(a) && IsLead3(a) && IsTrail(b) && IsTrail(c)
    ensures DecodeOne([a, b, c] + rest) == (Join3(a, b, c), 3)
  {
    hide IsAscii, IsLead2, IsLead3, IsTrail, Join3;
  }

  lemma DecodeFour(a: bv8, b: bv8, c: bv8, d: bv8, rest: seq<bv8>)
    requires !IsAscii(a) && !IsLead2(a) && !IsLead3(a) && IsLead4(a)
    requires IsTrail(b) && IsTrail(c) && IsTrail(d)
    ensures DecodeOne([a, b, c, d] + rest) == (Join4(a, b, c, d), 4)
  {
    hide IsAscii, IsLead2, IsLead3, IsLead4, IsTrail, Join4;
  }

  /** Decoding reads back exactly the code point that was encoded, whatever follows. */
  lemma DecodeEncodeOne(cp: bv32, rest: seq<bv8>)
    requires cp < 0x20_0000
    ensures DecodeOne(Encode(cp) + rest) == (cp, |Encode(cp)|)
  {
    if cp < 0x80 {
      OneByte(cp);
      assert ([Low(cp)] + rest)[0] == Low(cp);
    } else if cp < 0x800 {
      TwoBytes(cp);
      DecodeTwo(Low(0xC0 | (cp >> 6)), Low(0x80 | (cp & 0x3F)), rest);
    } else if cp < 0x10000 {
      ThreeBytes(cp);
      DecodeThree(Low(0xE0 | (cp >> 12)), Low(0x80 | ((cp >> 6) & 0x3F)), Low(0x80 | (cp & 0x3F)), rest);
    } else {
      FourBytes(cp);
      DecodeFour(Low(0xF0 | (cp >> 18)), Low(0x80 | ((cp >> 12) & 0x3F)), Low(0x80 | ((cp >> 6) & 0x3F)),
                 Low(0x80 | (cp & 0x3F)), rest);
    }
    hide Low, Wide, IsAscii, IsLead2, IsLead3, IsLead4, IsTrail, Join2, Join3, Join4;
  }

  /** Decoding inverts encoding for every sequence of code points below 2^21, so for all of Unicode. */
  lemma {:induction false} DecodeEncode(cps: seq<bv32>)
    requires forall k :: 0 <= k < |cps| ==> cps[k] < 0x20_0000
    ensures Decode(EncodeAll(cps)) == cps
  {
    if cps != [] {
      var rest := EncodeAll(cps[1..]);
      DecodeEncodeOne(cps[0], rest);
      DecodeEncode(cps[1..]);
      hide DecodeOne, Encode;
      assert (Encode(cps[0]) + rest)[|Encode(cps[0])|..] == rest;
    }
  }

  /** Nothing that is decoded reaches 2^21. */
  lemma DecodedBelow(p: seq<bv8>)
    ensures DecodeOne(p).0 < 0x20_0000
  {
  }

  /** The round trip of one code point succeeds exactly below 2^21. */
  lemma DecodeEncodeExactly(cp: bv32)
    requires cp < 0x8000_0000
    ensures Decode(Encode(cp)) == [cp] <==> cp < 0x20_0000
  {
    if cp < 0x20_0000 {
      DecodeEncode([cp]);
      assert [cp][1..] == [] && Encode(cp) + [] == Encode(cp);
      assert EncodeAll([cp]) == Encode(cp) + EncodeAll([]);
    } else {
      DecodedBelow(Encode(cp));
      hide Encode, DecodeOne;
      assert Decode(Encode(cp)) != [] ==> Decode(Encode(cp))[0] == DecodeOne(Encode(cp)).0;
    }
  }

  // ---- the other direction: decoding, then encoding ----

  /** No shorter form than n bytes holds the code point. */
  predicate Shortest(cp: bv32, n: nat) {
    n == 1 || (n == 2 && 0x80 <= cp) || (n == 3 && 0x800 <= cp) || (n == 4 && 0x10000 <= cp)
  }

  /** Code points follow one another to the end, each in its shortest form. */
  predicate Canonical(p: seq<bv8>) {
    p == [] || (var (cp, n) := DecodeOne(p); n > 0 && Shortest(cp, n) && Canonical(p[n..]))
  }

  lemma EncodeAscii(a: bv8)
    requires IsAscii(a)
    ensures Wide(a) < 0x80 && Encode(Wide(a)) == [a]
  {
  }

  lemma JoinedTwo(a: bv8, b: bv8)
    requires IsLead2(a) && IsTrail(b)
    ensures var cp := Join2(a, b);
            cp < 0x800 && Low(0xC0 | (cp >> 6)) == a && Low(0x80 | (cp & 0x3F)) == b
  {
  }

  lemma JoinedThree(a: bv8, b: bv8, c: bv8)
    requires IsLead3(a) && IsTrail(b) && IsTrail(c)
    ensures var cp := Join3(a, b, c);
            && cp < 0x10000 && Low(0xE0 | (cp >> 12)) == a
            && Low(0x80 | ((cp >> 6) & 0x3F)) == b && Low(0x80 | (cp & 0x3F)) == c
  {
  }

  lemma JoinedFour(a: bv8, b: bv8, c: bv8, d: bv8)
    requires IsLead4(a) && IsTrail(b) && IsTrail(c) && IsTrail(d)
    ensures var cp := Join4(a, b, c, d);
            && cp < 0x20_0000 && Low(0xF0 | (cp >> 18)) == a
            && Low(0x80 | ((cp >> 12) & 0x3F)) == b && Low(0x80 | ((cp >> 6) & 0x3F)) == c
            && Low(0x80 | (cp & 0x3F)) == d
  {
  }

  lemma EncodeTwo(a: bv8, b: bv8)
    requires IsLead2(a) && IsTrail(b) && 0x80 <= Join2(a, b)
    ensures Join2(a, b) < 0x800 && Encode(Join2(a, b)) == [a, b]
  {
    hide Low, Wide, IsLead2, IsTrail, Join2;
    JoinedTwo(a, b);
  }

  lemma EncodeThree(a: bv8, b: bv8, c: bv8)
    requires IsLead3(a) && IsTrail(b) && IsTrail(c) && 0x800 <= Join3(a, b, c)
    ensures Join3(a, b, c) < 0x10000 && Encode(Join3(a, b, c)) == [a, b, c]
  {
    hide Low, Wide, IsLead3, IsTrail, Join3;
    JoinedThree(a, b, c);
  }

  lemma EncodeFour(a: bv8, b: bv8, c: bv8, d: bv8)
    requires IsLead4(a) && IsTrail(b) && IsTrail(c) && IsTrail(d) && 0x10000 <= Join4(a, b, c, d)
    ensures Join4(a, b, c, d) < 0x20_0000 && Encode(Join4(a, b, c, d)) == [a, b, c, d]
  {
    hide Low, Wide, IsLead4, IsTrail, Join4;
    JoinedFour(a, b, c, d);
  }

  /** Which bytes a decoded code point was joined from. */
  lemma DecodedFrom(p: seq<bv8>)
    ensures var (cp, n) := DecodeOne(p);
            && n <= 4 && n <= |p|
            && (n == 1 ==> IsAscii(p[0]) && cp == Wide(p[0]))
            && (n == 2 ==> IsLead2(p[0]) && IsTrail(p[1]) && cp == Join2(p[0], p[1]))
            && (n == 3 ==> IsLead3(p[0]) && IsTrail(p[1]) && IsTrail(p[2]) && cp == Join3(p[0], p[1], p[2]))
            && (n == 4 ==> IsLead4(p[0]) && IsTrail(p[1]) && IsTrail(p[2]) && IsTrail(p[3])
                           && cp == Join4(p[0], p[1], p[2], p[3]))
  {
    hide Wide, IsAscii, IsLead2, IsLead3, IsLead4, IsTrail, Join2, Join3, Join4;
  }

  /** A code point in its shortest form is encoded by the bytes it was decoded from. */
  lemma EncodeDecodeOne(p: seq<bv8>)
    requires DecodeOne(p).1 > 0 && Shortest(DecodeOne(p).0, DecodeOne(p).1)
    ensures DecodeOne(p).0 < 0x20_0000 && Encode(DecodeOne(p).0) == p[..DecodeOne(p).1]
  {
    DecodedBelow(p);
    DecodedFrom(p);
    hide DecodeOne, Low, Wide, IsAscii, IsLead2, IsLead3, IsLead4, IsTrail, Join2, Join3, Join4, Encode;
    var n := DecodeOne(p).1;
    if n == 1 {
      EncodeAscii(p[0]);
      assert p[..1] == [p[0]];
    } else if n == 2 {
      EncodeTwo(p[0], p[1]);
      assert p[..2] == [p[0], p[1]];
    } else if n == 3 {
      EncodeThree(p[0], p[1], p[2]);
      assert p[..3] == [p[0], p[1], p[2]];
    } else {
      EncodeFour(p[0], p[1], p[2], p[3]);
      assert p[..4] == [p[0], p[1], p[2], p[3]];
    }
  }

  /**
   * Encoding a decoded text gives the text back exactly when it holds nothing but shortest forms
   * from its start to its end.
   */
  lemma {:induction false} EncodeDecodeExactly(p: seq<bv8>)
    ensures forall k :: 0 <= k < |Decode(p)| ==> Decode(p)[k] < 0x20_0000
    ensures EncodeAll(Decode(p)) == p <==> Canonical(p)
  {
    var (cp, n) := DecodeOne(p);
    if n > 0 {
      DecodedBelow(p);
      EncodeDecodeExactly(p[n..]);
      var rest := Decode(p[n..]);
      assert Decode(p) == [cp] + rest;
      EncodeMore(cp, rest);
      EncodedPrefix(p, EncodeAll(rest));
      hide DecodeOne, Encode, Decode, EncodeAll, Shortest;
    }
  }

  lemma {:induction false} EncodeMore(cp: bv32, rest: seq<bv32>)
    requires cp < 0x20_0000 && forall k :: 0 <= k < |rest| ==> rest[k] < 0x20_0000
    ensures EncodeAll([cp] + rest) == Encode(cp) + EncodeAll(rest)
  {
    hide Encode;
    assert ([cp] + rest)[1..] == rest;
  }

  /** The first code point, encoded, and some more text make up p only if it was in its shortest form. */
  lemma EncodedPrefix(p: seq<bv8>, more: seq<bv8>)
    requires DecodeOne(p).1 > 0
    ensures DecodeOne(p).0 < 0x20_0000
    ensures var (cp, n) := DecodeOne(p); Encode(cp) + more == p <==> Shortest(cp, n) && more == p[n..]
  {
    DecodedBelow(p);
    var (cp, n) := DecodeOne(p);
    var all := Encode(cp) + more;
    if Shortest(cp, n) {
      EncodeDecodeOne(p);
      hide DecodeOne, Encode;
      assert p == p[..n] + p[n..];
      assert all[n..] == more;
    }
    if all == p {
      DecodeEncodeOne(cp, more);
      EncodedShortest(cp);
      hide DecodeOne, Encode;
      assert all[n..] == more;
    }
  }

  lemma EncodedShortest(cp: bv32)
    requires cp < 0x20_0000
    ensures Shortest(cp, |Encode(cp)|)
  {
    hide Low;
  }

  /** An overlong form decodes all the same, to what one byte encodes. */
  lemma OverlongDecodes()
    ensures Decode([0xC1, 0x81]) == [0x41] && Encode(0x41) == [0x41] && !Canonical([0xC1, 0x81])
  {
    var p: seq<bv8> := [0xC1, 0x81];
    assert DecodeOne(p) == (0x41, 2);
    assert p[2..] == [];
    NothingLeft();
  }

  /** Pushes the bytes of one code point, branch by branch. */
  method EncodeCodePoint(cp: bv32) returns (utf8: seq<bv8>)
    requires cp < 0x8000_0000
    ensures utf8 == Encode(cp)
    ensures cp < 0x20_0000 ==> Decode(utf8) == [cp]
  {
    utf8 := [];
    if cp < 0x80 {
      utf8 := utf8 + [Low(cp)];
    } else if cp < 0x800 {
      utf8 := utf8 + [Low(0xC0 | (cp >> 6))];
      utf8 := utf8 + [Low(0x80 | (cp & 0x3F))];
    } else if cp < 0x10000 {
      utf8 := utf8 + [Low(0xE0 | (cp >> 12))];
      utf8 := utf8 + [Low(0x80 | ((cp >> 6) & 0x3F))];
      utf8 := utf8 + [Low(0x80 | (cp & 0x3F))];
    } else {
      utf8 := utf8 + [Low(0xF0 | (cp >> 18))];
      utf8 := utf8 + [Low(0x80 | ((cp >> 12) & 0x3F))];
      utf8 := utf8 + [Low(0x80 | ((cp >> 6) & 0x3F))];
      utf8 := utf8 + [Low(0x80 | (cp & 0x3F))];
    }
    DecodeEncodeExactly(cp);
    hide Low, Decode;
  }

  /** Decodes until the end or the first byte that starts no code point. */
  method Utf8ToU32(utf8: seq<bv8>) returns (out: seq<bv32>)
    ensures out == Decode(utf8)
  {
    out := [];
    var p := 0;
    assert utf8[0..] == utf8;
    hide DecodeOne;
    while p < |utf8|
      invariant p <= |utf8|
      invariant Decode(utf8) == out + Decode(utf8[p..])
    {
      var (cp, n) := DecodeOne(utf8[p..]);
      if n == 0 {
        assert out + [] == out;
        return;
      }
      assert utf8[p..][n..] == utf8[p + n..];
      out := out + [cp];
      p := p + n;
    }
    NothingLeft();
    assert utf8[p..] == [] && out + [] == out;
  }

  lemma NothingLeft()
    ensures Decode([]) == []
  {
  }
}
