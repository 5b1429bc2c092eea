/** The base64 decoder of data URIs, after section 4 of RFC 4648. */
module Base64 {
  import opened Sequences

  /** n consecutive characters from first on. */
  function Run(first: char, n: nat): string
    requires first as int + n <= 128
  {
    seq(n, i requires 0 <= i < n => (first as int + i) as char)
  }

  /** The alphabet: A to Z, a to z, 0 to 9, plus and slash. */
  const TABLE: string := Run('A', 26) + Run('a', 26) + Run('0', 10) + "+/"

  predicate IsKept(c: char) {
    !IsSpace(c)
  }

  /** A signed 32-bit integer keeps its value modulo 2^32. */
  function Wrap32(x: int): (w: int)
    ensures -0x8000_0000 <= w < 0x8000_0000
    ensures (x - w) % 0x1_0000_0000 == 0
  {
    (x + 0x8000_0000) % 0x1_0000_0000 - 0x8000_0000
  }

  /** Position of c in t from i on, as strchr finds it: the terminating NUL is found too. */
  function StrChr(t: string, c: char, i: nat := 0): (r: Option<nat>)
    requires i <= |t|
    ensures r.Some? ==> i <= r.value <= |t|
    decreases |t| - i
  {
    if i == |t| then if c == '\0' then Some(|t|) else None
    else if t[i] == c then Some(i)
    else StrChr(t, c, i + 1)
  }

  /** The text with all white space removed. */
  function Stripped(text: string): string {
    Filter(text, IsKept)
  }

  /** Whether only characters of the table come before the first equals sign, if there is one. */
  predicate WellFormed(s: string) {
    s == [] || s[0] == '=' || (StrChr(TABLE, s[0]).Some? && WellFormed(s[1..]))
  }

  /** The values of the characters before the first one that ends the decoding. */
  function Digits(s: string): (ds: seq<nat>) {
    if s == [] || s[0] == '=' then []
    else match StrChr(TABLE, s[0])
      case None => []
      case Some(d) => [d] + Digits(s[1..])
  }

  /** How many of the accumulator's lowest bits can be waiting for the rest of their byte. */
  type Pending = k: nat | k == 0 || k == 2 || k == 4 || k == 6

  /** Two to the power of k. */
  function Unit(k: Pending): (u: nat)
    ensures u > 0
  {
    if k == 0 then 1 else if k == 2 then 4 else if k == 4 then 16 else 64
  }

  /** How many bits wait for a byte after n more digits. */
  function Left(k: Pending, n: nat): Pending
    decreases n
  {
    if n == 0 then k else Left(if k == 0 then 6 else k - 2, n - 1)
  }

  /** What is left of v without its lowest k bits. */
  function Above(v: int, k: Pending): int {
    v / Unit(k)
  }

  /** The byte above the lowest k bits of w. */
  function ByteAbove(w: int, k: Pending): Byte {
    Above(w, k) % 256
  }

  /**
   * The bytes the digits add when v has been read so far and its lowest k bits
   * belong to no byte yet. Here v grows without bound.
   */
  function Bytes(ds: seq<nat>, v: int, k: Pending): (out: seq<Byte>) {
    if ds == [] then []
    else
      var w := v * 64 + ds[0];
      if k == 0 then Bytes(ds[1..], w, 6)
      else [ByteAbove(w, k - 2)] + Bytes(ds[1..], w, k - 2)
  }

  /** Base-64 and base-256 digits read on from x, most significant first. */
  function ReadDigits(x: int, ds: seq<nat>): int
    decreases |ds|
  {
    if ds == [] then x else ReadDigits(x * 64 + ds[0], ds[1..])
  }

  function ReadBytes(x: int, bs: seq<Byte>): int
    decreases |bs|
  {
    if bs == [] then x else ReadBytes(x * 256 + bs[0], bs[1..])
  }

  lemma DivideWrapped(w: int, q: int)
    ensures (w + q * 0x1_0000_0000) / 4 == w / 4 + q * 0x4000_0000
    ensures (w + q * 0x1_0000_0000) / 16 == w / 16 + q * 0x1000_0000
  {
  }

  lemma SameByte(x: int, q: int)
    ensures (x + q * 256) % 256 == x % 256
  {
  }

  /** Only the low bits matter for a byte, so wrapping the accumulator changes none. */
  lemma WrapKeepsByte(v: int, shift: Pending)
    requires shift != 6
    ensures ByteAbove(Wrap32(v), shift) == ByteAbove(v, shift)
  {
    var w := Wrap32(v);
    var q := (v - w) / 0x1_0000_0000;
    assert v == w + q * 0x1_0000_0000;
    DivideWrapped(w, q);
    if shift == 0 {
      SameByte(w, q * 0x100_0000);
    } else if shift == 2 {
      SameByte(w / 4, q * 0x40_0000);
    } else {
      SameByte(w / 16, q * 0x10_0000);
    }
  }

  lemma WrapPlus(v: int, q: int)
    ensures Wrap32(v + q * 0x1_0000_0000) == Wrap32(v)
  {
    ModuloPlus(v + 0x8000_0000, q);
  }

  lemma ModuloPlus(x: int, q: int)
    ensures (x + q * 0x1_0000_0000) % 0x1_0000_0000 == x % 0x1_0000_0000
  {
  }

  /** Wrapping after every operation or once at the end makes no difference. */
  lemma WrapStep(v: int, d: nat)
    ensures Wrap32(Wrap32(Wrap32(v) * 64) + d) == Wrap32(v * 64 + d)
  {
    var p := (v - Wrap32(v)) / 0x1_0000_0000;
    var w := Wrap32(v) * 64;
    var q := (w - Wrap32(w)) / 0x1_0000_0000;
    assert v == Wrap32(v) + p * 0x1_0000_0000;
    assert w == Wrap32(w) + q * 0x1_0000_0000;
    hide Wrap32;
    assert v * 64 + d == Wrap32(w) + d + (64 * p + q) * 0x1_0000_0000;
    WrapPlus(Wrap32(w) + d, 64 * p + q);
  }

  /** How one more character changes what is left to decode. */
  lemma ScanStep(s: string, i: nat)
    requires i <= |s|
    ensures i == |s| || s[i] == '=' ==> WellFormed(s[i..]) && Digits(s[i..]) == []
    ensures i < |s| && s[i] != '=' ==>
              match StrChr(TABLE, s[i])
              case None => !WellFormed(s[i..]) && Digits(s[i..]) == []
              case Some(d) => WellFormed(s[i..]) == WellFormed(s[i + 1..])
                              && Digits(s[i..]) == [d] + Digits(s[i + 1..])
  {
    hide StrChr;
    if i < |s| {
      assert s[i..][0] == s[i] && s[i..][1..] == s[i + 1..];
    }
  }

  lemma BytesStep(d: nat, ds: seq<nat>, v: int, k: Pending)
    ensures Bytes([d] + ds, v, k) ==
            if k == 0 then Bytes(ds, v * 64 + d, 6)
            else [ByteAbove(v * 64 + d, k - 2)] + Bytes(ds, v * 64 + d, k - 2)
    ensures Bytes([], v, k) == []
  {
    hide ByteAbove;
    assert ([d] + ds)[1..] == ds;
  }

  /** out are the first of all bytes, and the digits ds give the others. */
  ghost predicate Emitted(all: seq<Byte>, out: seq<Byte>, ds: seq<nat>, v: int, k: Pending) {
    all == out + Bytes(ds, v, k)
  }

  lemma {:induction false} EmittedStep(all: seq<Byte>, out: seq<Byte>, d: nat, ds: seq<nat>, v: int, k: Pending)
    requires Emitted(all, out, [d] + ds, v, k)
    ensures k == 0 ==> Emitted(all, out, ds, v * 64 + d, 6)
    ensures k != 0 ==> Emitted(all, out + [ByteAbove(v * 64 + d, k - 2)], ds, v * 64 + d, k - 2)
  {
    BytesStep(d, ds, v, k);
    hide Bytes, ByteAbove;
    if k != 0 {
      var b, others := ByteAbove(v * 64 + d, k - 2), Bytes(ds, v * 64 + d, k - 2);
      assert out + ([b] + others) == out + [b] + others;
    }
  }

  lemma {:induction false} EmittedEnds(all: seq<Byte>, v: int, k: Pending)
    ensures forall out :: Emitted(all, out, [], v, k) ==> out == all
  {
    assert forall out :: Emitted(all, out, [], v, k) ==> out + [] == out;
  }

  lemma {:induction false} NothingEmitted(ds: seq<nat>)
    ensures Emitted(Bytes(ds, 0, 0), [], ds, 0, 0) && Wrap32(0) == 0
  {
  }

  /**
   * The decoder's loop with its 32-bit accumulator gives the bytes of the
   * unbounded one, for input of any length.
   */
  method Base64Decode(text: string) returns (ok: bool, out: seq<Byte>)
    ensures ok == WellFormed(Stripped(text))
    ensures out == Bytes(Digits(Stripped(text)), 0, 0)
  {
    hide *;
    out := [];
    var s := Stripped(text);
    var val, valb := 0, -8;
    ghost var all, v: int, k: Pending := Bytes(Digits(s), 0, 0), 0, 0;
    NothingEmitted(Digits(s));
    var i := 0;
    assert s[0..] == s;
    while i < |s|
      invariant i <= |s|
      invariant val == Wrap32(v) && valb == k - 8
      invariant WellFormed(s) == WellFormed(s[i..])
      invariant Emitted(all, out, Digits(s[i..]), v, k)
    {
      var c := s[i];
      ScanStep(s, i);
      if c == '=' {
        break;
      }
      var p := StrChr(TABLE, c);
      if p.None? {
        EmittedEnds(all, v, k);
        return false, out;
      }
      EmittedStep(all, out, p.value, Digits(s[i + 1..]), v, k);
      WrapStep(v, p.value);
      val := Wrap32(Wrap32(val * 64) + p.value);
      v := v * 64 + p.value;
      valb := valb + 6;
      if valb >= 0 {
        WrapKeepsByte(v, valb);
        out := out + [ByteAbove(val, valb)];
        valb := valb - 8;
        k := k - 2;
      } else {
        k := k + 6;
      }
      i := i + 1;
    }
    ScanStep(s, i);
    EmittedEnds(all, v, k);
    ok := true;
  }

  /** One more digit moves at most eight of the pending bits into a byte. */
  lemma SpellStep(v: int, d: nat, k: Pending)
    requires d < 64
    ensures k == 0 ==> Above(v * 64 + d, 6) == Above(v, 0)
    ensures k != 0 ==> Above(v, k) * 256 + ByteAbove(v * 64 + d, k - 2) == Above(v * 64 + d, k - 2)
  {
    var w := v * 64 + d;
    assert w / 64 == v;
    assert w / 256 == v / 4;
    assert w / 4 / 256 == w / 1024 == v / 16;
    assert w / 16 / 256 == w / 4096 == v / 64;
  }

  /**
   * The bytes are the number that the digits spell, without the last bits that
   * fill no byte.
   */
  lemma {:induction false} BytesSpellDigits(ds: seq<nat>, v: int, k: Pending)
    requires forall j :: 0 <= j < |ds| ==> ds[j] < 64
    ensures 8 * |Bytes(ds, v, k)| + Left(k, |ds|) == k + 6 * |ds|
    ensures ReadBytes(Above(v, k), Bytes(ds, v, k)) == Above(ReadDigits(v, ds), Left(k, |ds|))
  {
    if ds == [] {
      BytesStep(0, [], v, k);
    } else {
      BytesSpellDigits(ds[1..], v * 64 + ds[0], if k == 0 then 6 else k - 2);
      SpellDigit(ds[0], ds[1..], v, k);
      assert [ds[0]] + ds[1..] == ds;
    }
  }

  lemma SpellDigit(d: nat, ds: seq<nat>, v: int, k: Pending)
    requires d < 64
    requires var w, next: Pending := v * 64 + d, if k == 0 then 6 else k - 2;
             && 8 * |Bytes(ds, w, next)| + Left(next, |ds|) == next + 6 * |ds|
             && ReadBytes(Above(w, next), Bytes(ds, w, next)) == Above(ReadDigits(w, ds), Left(next, |ds|))
    ensures 8 * |Bytes([d] + ds, v, k)| + Left(k, 1 + |ds|) == k + 6 * (1 + |ds|)
    ensures ReadBytes(Above(v, k), Bytes([d] + ds, v, k)) == Above(ReadDigits(v, [d] + ds), Left(k, 1 + |ds|))
  {
    var w, next: Pending := v * 64 + d, if k == 0 then 6 else k - 2;
    SpellStep(v, d, k);
    BytesStep(d, ds, v, k);
    ReadByte(Above(v, k), ByteAbove(w, next), Bytes(ds, w, next));
    assert ([d] + ds)[1..] == ds;
    assert ReadDigits(v, [d] + ds) == ReadDigits(w, ds);
    hide Above, ByteAbove, Bytes, ReadBytes, ReadDigits;
  }

  lemma {:induction false} ReadByte(x: int, b: Byte, rest: seq<Byte>)
    ensures ReadBytes(x, [b] + rest) == ReadBytes(x * 256 + b, rest)
  {
    assert ([b] + rest)[1..] == rest;
  }

  /** A byte string of known length is determined by the number it spells. */
  lemma {:induction false} BytesUnique(x: int, a: seq<Byte>, y: int, b: seq<Byte>)
    requires |a| == |b| && ReadBytes(x, a) == ReadBytes(y, b)
    ensures x == y && a == b
    decreases |a|
  {
    if a != [] {
      BytesUnique(x * 256 + a[0], a[1..], y * 256 + b[0], b[1..]);
      assert a == [a[0]] + a[1..] && b == [b[0]] + b[1..];
    }
  }

  type Sextet = d: nat | d < 64

  /** The table's entry for a 6-bit value. */
  function Symbol(d: Sextet): char {
    TABLE[d]
  }

  /** The bits of three bytes, six at a time. */
  function Sextet0(x: Byte): Sextet { x / 4 }

  function Sextet1(x: Byte, y: Byte): Sextet { x % 4 * 16 + y / 16 }

  function Sextet2(y: Byte, z: Byte): Sextet { y % 16 * 4 + z / 64 }

  function Sextet3(z: Byte): Sextet { z % 64 }

  /** The standard encoding: three bytes to four symbols, the last group padded. */
  function Encode(bs: seq<Byte>): string {
    if bs == [] then ""
    else if |bs| == 1 then [Symbol(Sextet0(bs[0])), Symbol(Sextet1(bs[0], 0))] + "=="
    else if |bs| == 2 then
      [Symbol(Sextet0(bs[0])), Symbol(Sextet1(bs[0], bs[1])), Symbol(Sextet2(bs[1], 0))] + "="
    else
      [Symbol(Sextet0(bs[0])), Symbol(Sextet1(bs[0], bs[1]))] +
      [Symbol(Sextet2(bs[1], bs[2])), Symbol(Sextet3(bs[2]))] + Encode(bs[3..])
  }

  /** The table in closed form. */
  lemma TableIs(d: nat)
    requires d < 64
    ensures |TABLE| == 64
    ensures TABLE[d] as int ==
            if d < 26 then 65 + d else if d < 52 then 71 + d else if d < 62 then d - 4 else if d == 62 then 43 else 47
  {
  }

  lemma SymbolsDiffer(i: nat, j: nat)
    requires i < j < 64
    ensures Symbol(i) != Symbol(j) && Symbol(j) != '='
    ensures Symbol(i) != '=' && !IsSpace(Symbol(i)) && !IsSpace(Symbol(j))
  {
    TableIs(i);
    TableIs(j);
  }

  lemma {:induction false} FirstFound(t: string, d: nat, i: nat)
    requires i <= d < |t|
    requires forall j :: i <= j < d ==> t[j] != t[d]
    ensures StrChr(t, t[d], i) == Some(d)
    decreases d - i
  {
    if i < d {
      FirstFound(t, d, i + 1);
    }
  }

  /** strchr recovers a value from its symbol. */
  lemma SymbolFound(d: nat)
    requires d < 64
    ensures Symbol(d) != '=' && !IsSpace(Symbol(d))
    ensures StrChr(TABLE, Symbol(d)) == Some(d)
  {
    if d < 63 {
      SymbolsDiffer(d, 63);
    } else {
      SymbolsDiffer(0, d);
    }
    forall j: nat | j < d
      ensures Symbol(j) != Symbol(d)
    {
      SymbolsDiffer(j, d);
    }
    FirstFound(TABLE, d, 0);
  }

  /** The value of each character: letters, digits, plus and slash in the standard order, 64 for NUL. */
  lemma {:induction false} DigitOf(c: char, rest: string)
    requires c != '='
    ensures Digits([c] + rest)
         == if 'A' <= c <= 'Z' then [c as int - 'A' as int] + Digits(rest)
            else if 'a' <= c <= 'z' then [c as int - 'a' as int + 26] + Digits(rest)
            else if '0' <= c <= '9' then [c as int - '0' as int + 52] + Digits(rest)
            else if c == '+' then [62] + Digits(rest)
            else if c == '/' then [63] + Digits(rest)
            else if c == '\0' then [64] + Digits(rest)
            else []
  {
    hide StrChr;
    var s := [c] + rest;
    assert s[0] == c && s[1..] == rest;
    if 'A' <= c <= 'Z' {
      SymbolAt(c, c as int - 'A' as int);
    } else if 'a' <= c <= 'z' {
      SymbolAt(c, c as int - 'a' as int + 26);
    } else if '0' <= c <= '9' {
      SymbolAt(c, c as int - '0' as int + 52);
    } else if c == '+' {
      SymbolAt(c, 62);
    } else if c == '/' {
      SymbolAt(c, 63);
    } else {
      NoSymbol(c, 0);
    }
  }

  lemma {:induction false} SymbolAt(c: char, d: nat)
    requires d < 64
    requires c as int == if d < 26 then 'A' as int + d
                         else if d < 52 then 'a' as int + d - 26
                         else if d < 62 then '0' as int + d - 52
                         else if d == 62 then '+' as int else '/' as int
    ensures StrChr(TABLE, c) == Some(d)
  {
    TableIs(d);
    SymbolFound(d);
  }

  /** No other character is in the table; only the NUL behind it is found. */
  lemma {:induction false} NoSymbol(c: char, i: nat)
    requires i <= 64 && !('A' <= c <= 'Z' || 'a' <= c <= 'z' || '0' <= c <= '9' || c in {'+', '/'})
    ensures StrChr(TABLE, c, i) == if c == '\0' then Some(64) else None
    decreases 64 - i
  {
    assert |TABLE| == 64;
    if i < 64 {
      TableIs(i);
      NoSymbol(c, i + 1);
    }
  }

  lemma {:induction false} FirstDigit(d: nat, rest: string)
    requires d < 64
    ensures Digits([Symbol(d)] + rest) == [d] + Digits(rest)
    ensures WellFormed([Symbol(d)] + rest) == WellFormed(rest)
  {
    SymbolFound(d);
    hide StrChr, Symbol;
    var s := [Symbol(d)] + rest;
    assert s[0] == Symbol(d) && s[1..] == rest;
  }

  lemma {:induction false} TwoDigits(a: nat, b: nat, rest: string)
    requires a < 64 && b < 64
    ensures Digits([Symbol(a), Symbol(b)] + rest) == [a, b] + Digits(rest)
    ensures WellFormed([Symbol(a), Symbol(b)] + rest) == WellFormed(rest)
  {
    FirstDigit(a, [Symbol(b)] + rest);
    FirstDigit(b, rest);
    hide *;
    assert [Symbol(a)] + ([Symbol(b)] + rest) == [Symbol(a), Symbol(b)] + rest;
    assert [a] + ([b] + Digits(rest)) == [a, b] + Digits(rest);
  }

  lemma {:induction false} ReadTwo(x: int, a: nat, b: nat, rest: seq<nat>)
    ensures ReadDigits(x, [a, b] + rest) == ReadDigits((x * 64 + a) * 64 + b, rest)
  {
    var s := [a, b] + rest;
    assert s[1..] == [b] + rest && s[1..][1..] == rest;
    assert ReadDigits(x, s) == ReadDigits(x * 64 + a, s[1..]);
  }

  /** The digits of the encoding of bs, and what they add to the number read so far. */
  ghost predicate Spells(bs: seq<Byte>, v: int, ds: seq<nat>) {
    && WellFormed(Encode(bs))
    && Digits(Encode(bs)) == ds
    && 8 * |bs| + Left(0, |ds|) == 6 * |ds|
    && (forall j :: 0 <= j < |ds| ==> ds[j] < 64)
    && ReadDigits(v, ds) == ReadBytes(v, bs) * Unit(Left(0, |ds|))
  }

  lemma LeftCycle(n: nat)
    ensures Left(0, 4 + n) == Left(0, n) && Left(0, 2) == 4 && Left(0, 3) == 2
  {
    assert Left(0, 4 + n) == Left(6, 3 + n) == Left(4, 2 + n) == Left(2, 1 + n);
    assert Left(0, 2) == Left(6, 1) == Left(4, 0);
    assert Left(0, 3) == Left(6, 2) == Left(4, 1);
  }

  lemma SpellsOne(x: Byte, v: int)
    ensures Spells([x], v, [Sextet0(x), Sextet1(x, 0)])
  {
    var a, b := Sextet0(x), Sextet1(x, 0);
    assert (v * 64 + a) * 64 + b == (v * 256 + x) * 16;
    hide Symbol, Sextet0, Sextet1, Digits, WellFormed;
    TwoDigits(a, b, "==");
    NoDigits("==");
    LeftCycle(0);
    ReadTwo(v, a, b, []);
    assert [a, b] + [] == [a, b];
    assert ReadBytes(v, [x]) == v * 256 + x;
  }

  lemma SamePair(v: int, x: Byte, y: Byte)
    ensures ((v * 64 + Sextet0(x)) * 64 + Sextet1(x, y)) * 64 + Sextet2(y, 0) == ((v * 256 + x) * 256 + y) * 4
  {
    SameGroup(v, x, y, 0);
    assert Sextet3(0) == 0;
    hide Sextet0, Sextet1, Sextet2;
  }

  lemma PairDigits(x: Byte, y: Byte, a: Sextet, b: Sextet, c: Sextet)
    requires a == Sextet0(x) && b == Sextet1(x, y) && c == Sextet2(y, 0)
    ensures WellFormed(Encode([x, y])) && Digits(Encode([x, y])) == [a, b, c]
  {
    hide Symbol, Sextet0, Sextet1, Sextet2, Digits, WellFormed;
    TwoDigits(a, b, [Symbol(c)] + "=");
    FirstDigit(c, "=");
    NoDigits("=");
    assert [a, b] + ([c] + []) == [a, b, c];
    assert Encode([x, y]) == [Symbol(a), Symbol(b)] + ([Symbol(c)] + "=");
  }

  lemma {:induction false} ReadPair(v: int, x: Byte, y: Byte, a: Sextet, b: Sextet, c: Sextet)
    requires ((v * 64 + a) * 64 + b) * 64 + c == ((v * 256 + x) * 256 + y) * 4
    ensures ReadDigits(v, [a, b, c]) == ReadBytes(v, [x, y]) * 4
  {
    ReadTwo(v, a, b, [c]);
    assert [a, b] + [c] == [a, b, c];
    assert [x, y][1..] == [y];
    assert ReadBytes(v, [x, y]) == ReadBytes(v * 256 + x, [y]);
  }

  lemma SpellsTwo(x: Byte, y: Byte, v: int)
    ensures Spells([x, y], v, [Sextet0(x), Sextet1(x, y), Sextet2(y, 0)])
  {
    var a, b, c := Sextet0(x), Sextet1(x, y), Sextet2(y, 0);
    PairDigits(x, y, a, b, c);
    SamePair(v, x, y);
    ReadPair(v, x, y, a, b, c);
    LeftCycle(0);
    hide Encode, Digits, WellFormed, ReadDigits, ReadBytes, Left, Sextet0, Sextet1, Sextet2;
  }

  lemma {:induction false} NoDigits(padding: string)
    requires padding != [] && padding[0] == '='
    ensures Digits(padding) == [] && WellFormed(padding)
  {
  }

  lemma {:induction false} EncodeGroup(bs: seq<Byte>, a: Sextet, b: Sextet, c: Sextet, d: Sextet)
    requires |bs| >= 3
    requires a == Sextet0(bs[0]) && b == Sextet1(bs[0], bs[1]) && c == Sextet2(bs[1], bs[2]) && d == Sextet3(bs[2])
    ensures Digits(Encode(bs)) == [a, b] + ([c, d] + Digits(Encode(bs[3..])))
    ensures WellFormed(Encode(bs)) == WellFormed(Encode(bs[3..]))
  {
    hide Symbol, Digits, WellFormed, Sextet0, Sextet1, Sextet2, Sextet3;
    var rest := Encode(bs[3..]);
    TwoDigits(c, d, rest);
    TwoDigits(a, b, [Symbol(c), Symbol(d)] + rest);
    assert Encode(bs) == [Symbol(a), Symbol(b)] + [Symbol(c), Symbol(d)] + rest;
    assert Encode(bs) == [Symbol(a), Symbol(b)] + ([Symbol(c), Symbol(d)] + rest);
  }

  lemma ReadGroup(bs: seq<Byte>, v: int)
    requires |bs| >= 3
    ensures ReadBytes(v, bs) == ReadBytes(((v * 256 + bs[0]) * 256 + bs[1]) * 256 + bs[2], bs[3..])
  {
    assert bs[1..][1..] == bs[2..] && bs[2..][1..] == bs[3..];
    assert ReadBytes(v * 256 + bs[0], bs[1..]) == ReadBytes((v * 256 + bs[0]) * 256 + bs[1], bs[2..]);
  }

  /** Four 6-bit values carry the same bits as three bytes. */
  lemma SameGroup(v: int, x: Byte, y: Byte, z: Byte)
    ensures (((v * 64 + Sextet0(x)) * 64 + Sextet1(x, y)) * 64 + Sextet2(y, z)) * 64 + Sextet3(z)
         == ((v * 256 + x) * 256 + y) * 256 + z
  {
    assert x == x / 4 * 4 + x % 4 && y == y / 16 * 16 + y % 16 && z == z / 64 * 64 + z % 64;
  }

  /** The symbols of a byte string carry its bits and as few zero bits as fill the last symbol. */
  lemma {:induction false} EncodeSpells(bs: seq<Byte>, v: int)
    ensures Spells(bs, v, Digits(Encode(bs)))
  {
    hide Encode, Digits, ReadDigits, ReadBytes, Unit, Sextet0, Sextet1, Sextet2, Sextet3;
    if bs == [] {
      SpellsNone(v);
    } else if |bs| == 1 {
      assert bs == [bs[0]];
      SpellsOne(bs[0], v);
    } else if |bs| == 2 {
      assert bs == [bs[0], bs[1]];
      SpellsTwo(bs[0], bs[1], v);
    } else {
      EncodeSpells(bs[3..], ((v * 256 + bs[0]) * 256 + bs[1]) * 256 + bs[2]);
      var a, b, c, d := Sextet0(bs[0]), Sextet1(bs[0], bs[1]), Sextet2(bs[1], bs[2]), Sextet3(bs[2]);
      EncodeGroup(bs, a, b, c, d);
      ReadGroup(bs, v);
      SameGroup(v, bs[0], bs[1], bs[2]);
      SpellsGroup(bs, v, a, b, c, d, Digits(Encode(bs[3..])));
    }
  }

  lemma SpellsNone(v: int)
    ensures Spells([], v, Digits(Encode([])))
  {
  }

  /** The digits of one group in front of those of the rest. */
  ghost predicate GroupSpells(bs: seq<Byte>, v: int, a: Sextet, b: Sextet, c: Sextet, d: Sextet, rest: seq<nat>)
    requires |bs| >= 3
  {
    var w := (((v * 64 + a) * 64 + b) * 64 + c) * 64 + d;
    && Spells(bs[3..], w, rest)
    && ReadBytes(v, bs) == ReadBytes(w, bs[3..])
    && Digits(Encode(bs)) == [a, b] + ([c, d] + rest)
    && WellFormed(Encode(bs))
  }

  lemma {:induction false} SpellsGroup(
      bs: seq<Byte>, v: int, a: Sextet, b: Sextet, c: Sextet, d: Sextet, rest: seq<nat>)
    requires |bs| >= 3
    ensures GroupSpells(bs, v, a, b, c, d, rest) ==> Spells(bs, v, Digits(Encode(bs)))
  {
    hide Encode, Digits, ReadDigits, ReadBytes, WellFormed, Unit, Left;
    if GroupSpells(bs, v, a, b, c, d, rest) {
      ReadTwo(v, a, b, [c, d] + rest);
      ReadTwo((v * 64 + a) * 64 + b, c, d, rest);
      var ds := Digits(Encode(bs));
      assert |ds| == 4 + |rest|;
      assert ds[4..] == rest;
      LeftCycle(|rest|);
      forall j | 0 <= j < |ds|
        ensures ds[j] < 64
      {
        assert j >= 4 ==> ds[j] == rest[j - 4];
      }
    }
  }

  /** Decoding inverts the standard encoding, wherever white space is put between its symbols. */
  lemma {:induction false} DecodeEncode(text: string, bs: seq<Byte>)
    requires Stripped(text) == Encode(bs)
    ensures WellFormed(Stripped(text))
    ensures Bytes(Digits(Stripped(text)), 0, 0) == bs
  {
    hide Encode, Digits, Bytes, ReadDigits, ReadBytes, WellFormed, Stripped, Left;
    var ds := Digits(Encode(bs));
    EncodeSpells(bs, 0);
    BytesSpellDigits(ds, 0, 0);
    assert ReadBytes(0, bs) * Unit(Left(0, |ds|)) / Unit(Left(0, |ds|)) == ReadBytes(0, bs);
    hide Unit;
    BytesUnique(0, Bytes(ds, 0, 0), 0, bs);
  }

  /** White space is ignored at every place. */
  lemma SpacesIgnored(a: string, spaces: string, b: string)
    requires forall k :: 0 <= k < |spaces| ==> IsSpace(spaces[k])
    ensures Stripped(a + spaces + b) == Stripped(a + b)
  {
    FilterAppend(a + spaces, b, IsKept);
    FilterAppend(a, spaces, IsKept);
    FilterAppend(a, b, IsKept);
    FilterNone(spaces, IsKept);
  }

  /** So is a line break. */
  lemma LineBreakIgnored(a: string, b: string)
    ensures Stripped(a + "\r\n" + b) == Stripped(a + b) && Stripped(a + "\n" + b) == Stripped(a + b)
  {
    SpacesIgnored(a, "\r\n", b);
    SpacesIgnored(a, "\n", b);
  }
}
