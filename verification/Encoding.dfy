/**
  The byte encodings that fix what gets signed: big-endian integers, lower-case hex, base64 (section 5 of
  RFC 4648 for the URL-safe alphabet) and the variable-length integers and strings of postcard.
 */
module Encoding {
  import opened Prelude

  type byte = b: int | 0 <= b < 256

  type bytes = seq<byte>

  /** A public key, or the private seed of a key pair. */
  type Key = k: bytes | |k| == 32 witness seq(32, _ => 0)

  lemma SplitEqual<T>(a: seq<T>, x: seq<T>, b: seq<T>, y: seq<T>)
    requires a + x == b + y && |a| == |b|
    ensures a == b && x == y
  {
    assert a == (a + x)[..|a|] && b == (b + y)[..|b|];
    assert x == (a + x)[|a|..] && y == (b + y)[|b|..];
  }

  // ---------------------------------------------------------------- big-endian integers

  function Pow256(k: nat): (r: nat)
    ensures r >= 1
  {
    if k == 0 then 1 else 256 * Pow256(k - 1)
  }

  /** The low `width` bytes of n, most significant first. */
  function BigEndian(n: nat, width: nat): (r: bytes)
    ensures |r| == width
    decreases width
  {
    if width == 0 then [] else BigEndian(n / 256, width - 1) + [n % 256]
  }

  lemma {:induction false} BigEndianInjective(m: nat, n: nat, width: nat)
    requires BigEndian(m, width) == BigEndian(n, width) && m < Pow256(width) && n < Pow256(width)
    ensures m == n
    decreases width
  {
    if width > 0 {
      SplitEqual(BigEndian(m / 256, width - 1), [m % 256], BigEndian(n / 256, width - 1), [n % 256]);
      assert [m % 256][0] == [n % 256][0];
      BigEndianInjective(m / 256, n / 256, width - 1);
    }
  }

  type u64 = n: nat | n < 0x1_0000_0000_0000_0000

  function U64(n: u64): (r: bytes)
    ensures |r| == 8
  {
    BigEndian(n, 8)
  }

  lemma U64Injective(m: u64, n: u64)
    requires U64(m) == U64(n)
    ensures m == n
  {
    assert Pow256(2) == 0x1_0000;
    assert Pow256(4) == 0x1_0000 * Pow256(2);
    assert Pow256(6) == 0x1_0000 * Pow256(4);
    assert Pow256(8) == 0x1_0000 * Pow256(6);
    BigEndianInjective(m, n, 8);
  }

  /** What a string of bytes says as a number, the most significant byte first. */
  function NumberOf(b: bytes): nat {
    if b == [] then 0 else 256 * NumberOf(b[..|b| - 1]) + b[|b| - 1]
  }

  lemma {:induction false} BigEndianNumber(n: nat, width: nat)
    requires n < Pow256(width)
    ensures NumberOf(BigEndian(n, width)) == n
    decreases width
  {
    if width > 0 {
      BigEndianNumber(n / 256, width - 1);
      assert BigEndian(n, width)[..width - 1] == BigEndian(n / 256, width - 1);
    }
  }

  /** Eight bytes, most significant first, hold the number. */
  lemma U64Number(n: u64)
    ensures NumberOf(U64(n)) == n
  {
    assert Pow256(2) == 0x1_0000;
    assert Pow256(4) == 0x1_0000 * Pow256(2);
    assert Pow256(6) == 0x1_0000 * Pow256(4);
    assert Pow256(8) == 0x1_0000 * Pow256(6);
    BigEndianNumber(n, 8);
  }

  // ---------------------------------------------------------------- hex

  function HexDigit(v: nat): byte
    requires v < 16
  {
    if v < 10 then 48 + v else 87 + v
  }

  function HexValue(c: byte): Option<nat> {
    if 48 <= c < 58 then Some(c - 48)
    else if 97 <= c < 103 then Some(c - 87)
    else if 65 <= c < 71 then Some(c - 55)
    else None
  }

  predicate IsHexDigit(c: byte) {
    48 <= c < 58 || 97 <= c < 103
  }

  function Hex(b: bytes): (r: bytes)
    ensures |r| == 2 * |b|
    ensures forall i :: 0 <= i < |r| ==> IsHexDigit(r[i])
  {
    if b == [] then [] else [HexDigit(b[0] / 16), HexDigit(b[0] % 16)] + Hex(b[1..])
  }

  function HexDecode(s: bytes): Option<bytes> {
    if s == [] then Some([])
    else if |s| == 1 then None
    else
      var high, low, rest := HexValue(s[0]), HexValue(s[1]), HexDecode(s[2..]);
      if high.None? || low.None? || rest.None? || high.value >= 16 || low.value >= 16 then None
      else Some([16 * high.value + low.value] + rest.value)
  }

  lemma {:induction false} HexRoundTrip(b: bytes)
    ensures HexDecode(Hex(b)) == Some(b)
  {
    if b != [] {
      HexRoundTrip(b[1..]);
      assert Hex(b)[2..] == Hex(b[1..]);
      assert [b[0]] + b[1..] == b;
    }
  }

  lemma HexInjective(a: bytes, b: bytes)
    requires Hex(a) == Hex(b)
    ensures a == b
  {
    HexRoundTrip(a);
    HexRoundTrip(b);
  }

  function Lower(s: bytes): (r: bytes)
    ensures |r| == |s|
  {
    if s == [] then [] else [if 65 <= s[0] < 71 then s[0] + 32 else s[0]] + Lower(s[1..])
  }

  lemma ByteOfDigits(high: byte, low: byte, x: byte)
    ensures HexValue(high).Some? && HexValue(low).Some?
            && HexValue(high).value < 16 && HexValue(low).value < 16
            && 16 * HexValue(high).value + HexValue(low).value == x
            <==> Lower([high, low]) == [HexDigit(x / 16), HexDigit(x % 16)]
  {
    assert [high, low][1..] == [low];
    var a, b := Lower([high])[0], Lower([low])[0];
    assert Lower([high, low]) == [a, b];
    DigitOf(high, x / 16);
    DigitOf(low, x % 16);
    if HexValue(high).Some? && HexValue(low).Some? && HexValue(high).value < 16 && HexValue(low).value < 16
       && 16 * HexValue(high).value + HexValue(low).value == x {
      assert x / 16 == HexValue(high).value && x % 16 == HexValue(low).value;
    }
  }

  lemma DigitOf(c: byte, v: nat)
    requires v < 16
    ensures HexValue(c) == Some(v) <==> Lower([c]) == [HexDigit(v)]
  {
    var lower: byte := if 65 <= c < 71 then c + 32 else c;
    assert [c][1..] == [] && Lower([c]) == [lower] + Lower([]);
    assert Lower([c])[0] == lower;
  }

  /** What is accepted as hex is the text that the encoder produces, in either case. */
  lemma {:induction false} HexDecodeExactly(s: bytes, b: bytes)
    ensures HexDecode(s) == Some(b) <==> Lower(s) == Hex(b)
    decreases |s|
  {
    if |s| < 2 || b == [] {
      assert b != [] ==> |Hex(b)| >= 2;
    } else {
      hide HexDigit, HexValue;
      HexDecodeExactly(s[2..], b[1..]);
      ByteOfDigits(s[0], s[1], b[0]);
      assert Lower(s) == Lower([s[0], s[1]]) + Lower(s[2..]) by {
        assert s[1..][1..] == s[2..] && [s[0], s[1]][1..] == [s[1]];
      }
      var pair := [HexDigit(b[0] / 16), HexDigit(b[0] % 16)];
      assert Hex(b) == pair + Hex(b[1..]);
      if Lower(s) == Hex(b) {
        SplitEqual(Lower([s[0], s[1]]), Lower(s[2..]), pair, Hex(b[1..]));
      }
      assert b == [b[0]] + b[1..];
      if HexDecode(s) == Some(b) {
        assert HexDecode(s[2..]).Some?;
        assert ([b[0]] + HexDecode(s[2..]).value)[1..] == HexDecode(s[2..]).value;
      }
    }
  }

  // ---------------------------------------------------------------- base64

  /** An alphabet is fixed by its last two symbols; padded output is filled up with '='. */
  datatype Engine = Engine(plus: byte, slash: byte, padded: bool)

  const STANDARD := Engine(43, 47, true)
  const URL_SAFE_NO_PAD := Engine(45, 95, false)

  const PAD: byte := 61

  predicate Usable(e: Engine) {
    e == STANDARD || e == URL_SAFE_NO_PAD
  }

  function Symbol(e: Engine, v: nat): byte
    requires v < 64
  {
    if v < 26 then 65 + v
    else if v < 52 then 71 + v
    else if v < 62 then v - 4
    else if v == 62 then e.plus else e.slash
  }

  function SymbolValue(e: Engine, c: byte): (r: Option<nat>)
    ensures r.Some? ==> r.value < 64
  {
    if 65 <= c < 91 then Some(c - 65)
    else if 97 <= c < 123 then Some(c - 71)
    else if 48 <= c < 58 then Some(c + 4)
    else if c == e.plus then Some(62)
    else if c == e.slash then Some(63)
    else None
  }

  lemma SymbolRoundTrip(e: Engine, v: nat)
    requires Usable(e) && v < 64
    ensures SymbolValue(e, Symbol(e, v)) == Some(v)
  {
  }

  lemma SymbolCanonical(e: Engine, c: byte)
    requires Usable(e) && SymbolValue(e, c).Some?
    ensures Symbol(e, SymbolValue(e, c).value) == c
  {
  }

  /** The six-bit values of one group of at most three bytes. */
  function Values(b: bytes): (v: seq<nat>)
    requires 0 < |b| <= 3
    ensures |v| == |b| + 1 && forall i :: 0 <= i < |v| ==> v[i] < 64
  {
    if |b| == 1 then [b[0] / 4, b[0] % 4 * 16]
    else if |b| == 2 then [b[0] / 4, b[0] % 4 * 16 + b[1] / 16, b[1] % 16 * 4]
    else [b[0] / 4, b[0] % 4 * 16 + b[1] / 16, b[1] % 16 * 4 + b[2] / 64, b[2] % 64]
  }

  /** The bytes of one group of values; left-over bits must be zero. */
  function Ungroup(v: seq<nat>): (r: Option<bytes>)
    requires 1 < |v| <= 4 && forall i :: 0 <= i < |v| ==> v[i] < 64
    ensures r.Some? ==> |r.value| == |v| - 1
  {
    var b0 := v[0] * 4 + v[1] / 16;
    if |v| == 2 then if v[1] % 16 == 0 then Some([b0]) else None
    else
      var b1 := v[1] % 16 * 16 + v[2] / 4;
      if |v| == 3 then if v[2] % 4 == 0 then Some([b0, b1]) else None
      else Some([b0, b1, v[2] % 4 * 64 + v[3]])
  }

  lemma UngroupRoundTrip(b: bytes)
    requires 0 < |b| <= 3
    ensures Ungroup(Values(b)) == Some(b)
  {
    var c := Ungroup(Values(b)).value;
    assert c[0] == b[0];
    assert |b| > 1 ==> c[1] == b[1];
    assert |b| > 2 ==> c[2] == b[2];
    assert c == b;
  }

  lemma UngroupCanonical(v: seq<nat>)
    requires 1 < |v| <= 4 && forall i :: 0 <= i < |v| ==> v[i] < 64
    requires Ungroup(v).Some?
    ensures Values(Ungroup(v).value) == v
  {
    var w := Values(Ungroup(v).value);
    assert w[0] == v[0] && w[1] == v[1];
  }

  function Group(e: Engine, b: bytes): (r: bytes)
    requires 0 < |b| <= 3
    ensures |r| == |b| + 1
  {
    var v := Values(b);
    seq(|v|, i requires 0 <= i < |v| => Symbol(e, v[i]))
  }

  function SymbolValues(e: Engine, s: bytes): (v: seq<nat>)
    requires forall i :: 0 <= i < |s| ==> SymbolValue(e, s[i]).Some?
    ensures |v| == |s| && forall i :: 0 <= i < |v| ==> v[i] < 64
  {
    seq(|s|, i requires 0 <= i < |s| => SymbolValue(e, s[i]).value)
  }

  function FromGroup(e: Engine, s: bytes): (r: Option<bytes>)
    requires 1 < |s| <= 4
    ensures r.Some? ==> |r.value| == |s| - 1
  {
    if exists i :: 0 <= i < |s| && SymbolValue(e, s[i]).None? then None else Ungroup(SymbolValues(e, s))
  }

  /** Base64 without padding. */
  function Symbols(e: Engine, b: bytes): (r: bytes)
    ensures |r| == (4 * |b| + 2) / 3
  {
    if |b| == 0 then []
    else if |b| <= 3 then Group(e, b)
    else Group(e, b[..3]) + Symbols(e, b[3..])
  }

  /** Strict decoding: unknown symbols, impossible lengths and non-zero left-over bits are errors. */
  function FromSymbols(e: Engine, s: bytes): Option<bytes> {
    if |s| == 0 then Some([])
    else if |s| == 1 then None
    else if |s| <= 4 then FromGroup(e, s)
    else
      var first, rest := FromGroup(e, s[..4]), FromSymbols(e, s[4..]);
      if first.None? || rest.None? then None else Some(first.value + rest.value)
  }

  lemma GroupRoundTrip(e: Engine, b: bytes)
    requires Usable(e) && 0 < |b| <= 3
    ensures FromGroup(e, Group(e, b)) == Some(b)
  {
    hide Values, Ungroup, Symbol, SymbolValue;
    var s, v := Group(e, b), Values(b);
    forall i | 0 <= i < |s| ensures SymbolValue(e, s[i]) == Some(v[i]) {
      SymbolRoundTrip(e, v[i]);
    }
    assert SymbolValues(e, s) == v;
    UngroupRoundTrip(b);
  }

  lemma GroupCanonical(e: Engine, s: bytes)
    requires Usable(e) && 1 < |s| <= 4 && FromGroup(e, s).Some?
    ensures Group(e, FromGroup(e, s).value) == s
  {
    hide Values, Ungroup, Symbol, SymbolValue;
    var v := SymbolValues(e, s);
    UngroupCanonical(v);
    forall i | 0 <= i < |s| ensures Symbol(e, v[i]) == s[i] {
      SymbolCanonical(e, s[i]);
    }
  }

  lemma {:induction false} SymbolsRoundTrip(e: Engine, b: bytes)
    requires Usable(e)
    ensures FromSymbols(e, Symbols(e, b)) == Some(b)
    decreases |b|
  {
    hide Group, FromGroup, Usable;
    if 0 < |b| <= 3 {
      GroupRoundTrip(e, b);
    } else if |b| > 3 {
      GroupRoundTrip(e, b[..3]);
      SymbolsRoundTrip(e, b[3..]);
      assert Symbols(e, b)[..4] == Group(e, b[..3]) && Symbols(e, b)[4..] == Symbols(e, b[3..]);
      assert b[..3] + b[3..] == b;
    }
  }

  lemma {:induction false} SymbolsCanonical(e: Engine, s: bytes)
    requires Usable(e) && FromSymbols(e, s).Some?
    ensures Symbols(e, FromSymbols(e, s).value) == s
    decreases |s|
  {
    hide Group, FromGroup, Usable;
    if 1 < |s| <= 4 {
      GroupCanonical(e, s);
    } else if |s| > 4 {
      GroupCanonical(e, s[..4]);
      SymbolsCanonical(e, s[4..]);
      var b := FromSymbols(e, s).value;
      assert b[..3] == FromGroup(e, s[..4]).value && b[3..] == FromSymbols(e, s[4..]).value;
      assert s == s[..4] + s[4..];
    }
  }

  function Padding(length: nat): bytes {
    if length % 3 == 1 then [PAD, PAD] else if length % 3 == 2 then [PAD] else []
  }

  function Base64(e: Engine, b: bytes): bytes {
    Symbols(e, b) + if e.padded then Padding(|b|) else []
  }

  /** Decoding takes off exactly the padding the length calls for; a stray '=' is not a symbol. */
  function Base64Decode(e: Engine, s: bytes): Option<bytes> {
    if !e.padded then FromSymbols(e, s)
    else if |s| % 4 != 0 then None
    else if |s| > 0 && s[|s| - 1] == PAD && s[|s| - 2] == PAD then FromSymbols(e, s[..|s| - 2])
    else if |s| > 0 && s[|s| - 1] == PAD then FromSymbols(e, s[..|s| - 1])
    else FromSymbols(e, s)
  }

  lemma GroupHasNoPad(e: Engine, b: bytes, i: nat)
    requires Usable(e) && 0 < |b| <= 3 && i <= |b|
    ensures Group(e, b)[i] != PAD
  {
  }

  lemma {:induction false} SymbolsHaveNoPad(e: Engine, b: bytes, i: nat)
    requires Usable(e) && i < |Symbols(e, b)|
    ensures Symbols(e, b)[i] != PAD
    decreases |b|
  {
    hide Group, Usable;
    if |b| <= 3 {
      GroupHasNoPad(e, b, i);
    } else if i < 4 {
      GroupHasNoPad(e, b[..3], i);
    } else {
      SymbolsHaveNoPad(e, b[3..], i - 4);
    }
  }

  /** The padding fills the last group of four. */
  lemma PaddingFills(n: nat)
    ensures ((4 * n + 2) / 3 + |Padding(n)|) % 4 == 0
  {
    var q, r := n / 3, n % 3;
    assert (4 * n + 2) / 3 == 4 * q + (4 * r + 2) / 3;
  }

  lemma PaddingComesOff(e: Engine, s: bytes, pads: bytes)
    requires e.padded && (|s| + |pads|) % 4 == 0 && (s != [] ==> s[|s| - 1] != PAD)
    requires pads == [] || pads == [PAD] || pads == [PAD, PAD]
    ensures Base64Decode(e, s + pads) == FromSymbols(e, s)
  {
    hide FromSymbols;
    var out := s + pads;
    assert out[..|s|] == s;
    assert s != [] ==> out[|s| - 1] == s[|s| - 1];
    if pads == [] {
      assert out == s;
    } else {
      assert out[|out| - 1] == PAD && s != [];
    }
  }

  /** Decoding undoes encoding. */
  lemma Base64RoundTrip(e: Engine, b: bytes)
    requires Usable(e)
    ensures Base64Decode(e, Base64(e, b)) == Some(b)
  {
    hide Symbols, FromSymbols;
    var s := Symbols(e, b);
    SymbolsRoundTrip(e, b);
    if e.padded {
      if s != [] {
        SymbolsHaveNoPad(e, b, |s| - 1);
      }
      PaddingFills(|b|);
      PaddingComesOff(e, s, Padding(|b|));
    } else {
      assert s + [] == s;
    }
  }

  lemma Base64Injective(e: Engine, a: bytes, b: bytes)
    requires Usable(e) && Base64(e, a) == Base64(e, b)
    ensures a == b
  {
    Base64RoundTrip(e, a);
    Base64RoundTrip(e, b);
  }

  /** A text decodes to some bytes exactly when it is the one text they encode to: other padding, stray bits and foreign
      symbols are refused. */
  lemma DecodeExactly(e: Engine, s: bytes, b: bytes)
    requires Usable(e)
    ensures Base64Decode(e, s) == Some(b) <==> s == Base64(e, b)
  {
    hide Symbols, FromSymbols, Padding;
    if s == Base64(e, b) {
      Base64RoundTrip(e, b);
    }
    if Base64Decode(e, s) == Some(b) {
      if !e.padded {
        SymbolsCanonical(e, s);
        assert s + [] == s;
      } else {
        var k := if |s| > 0 && s[|s| - 1] == PAD && s[|s| - 2] == PAD then 2
                 else if |s| > 0 && s[|s| - 1] == PAD then 1 else 0;
        var t := s[..|s| - k];
        assert k == 0 ==> t == s;
        SymbolsCanonical(e, t);
        PaddingFills(|b|);
        OnePadding(|b|, k);
        assert s == t + s[|s| - k..];
        assert s[|s| - k..] == Padding(|b|);
      }
    }
  }

  lemma OnePadding(n: nat, k: nat)
    requires k <= 2 && ((4 * n + 2) / 3 + k) % 4 == 0
    ensures Padding(n) == if k == 0 then [] else if k == 1 then [PAD] else [PAD, PAD]
  {
    PaddingFills(n);
  }

  /** What FTByteArray accepts: the text of exactly n bytes, in the one spelling the encoder produces. */
  function DecodeArray(s: bytes, n: nat): Option<bytes> {
    var b := Base64Decode(URL_SAFE_NO_PAD, s);
    if b.Some? && |b.value| == n then b else None
  }

  lemma DecodeArrayExactly(s: bytes, n: nat, b: bytes)
    ensures DecodeArray(s, n) == Some(b) <==> |b| == n && s == Base64(URL_SAFE_NO_PAD, b)
  {
    hide Symbols, FromSymbols;
    var e := URL_SAFE_NO_PAD;
    if DecodeArray(s, n) == Some(b) {
      SymbolsCanonical(e, s);
      assert Symbols(e, b) + [] == Symbols(e, b);
    }
    if |b| == n && s == Base64(e, b) {
      Base64RoundTrip(e, b);
    }
  }

  /** Texts given in section 10 of RFC 4648, and one that shows the two symbols of each alphabet. */
  lemma KnownTexts()
    ensures Base64(STANDARD, [102]) == [90, 103, 61, 61]
    ensures Base64(STANDARD, [102, 111]) == [90, 109, 56, 61]
    ensures Base64(STANDARD, [102, 111, 111]) == [90, 109, 57, 118]
    ensures Base64(STANDARD, [102, 111, 111, 98]) == [90, 109, 57, 118, 89, 103, 61, 61]
    ensures Base64(URL_SAFE_NO_PAD, [102, 111, 111, 98]) == [90, 109, 57, 118, 89, 103]
    ensures Base64(STANDARD, [251, 255]) == [43, 47, 56, 61] && Base64(URL_SAFE_NO_PAD, [251, 255]) == [45, 95, 56]
  {
    hide Symbols;
    ShortText(STANDARD, [102]);
    ShortText(STANDARD, [102, 111]);
    ShortText(STANDARD, [102, 111, 111]);
    ShortText(STANDARD, [251, 255]);
    ShortText(URL_SAFE_NO_PAD, [251, 255]);
    FourBytes(STANDARD);
    FourBytes(URL_SAFE_NO_PAD);
  }

  lemma ShortText(e: Engine, b: bytes)
    requires 0 < |b| <= 3
    ensures var v := Values(b);
            Symbols(e, b) == if |b| == 1 then [Symbol(e, v[0]), Symbol(e, v[1])]
                             else if |b| == 2 then [Symbol(e, v[0]), Symbol(e, v[1]), Symbol(e, v[2])]
                             else [Symbol(e, v[0]), Symbol(e, v[1]), Symbol(e, v[2]), Symbol(e, v[3])]
  {
    hide Symbol;
    GroupText(e, b);
  }

  lemma FourBytes(e: Engine)
    ensures Symbols(e, [102, 111, 111, 98]) == [90, 109, 57, 118, 89, 103]
  {
    assert [102, 111, 111, 98] == [102, 111, 111] + [98];
    TwoGroups(e, [102, 111, 111], [98]);
    ShortText(e, [102, 111, 111]);
    ShortText(e, [98]);
    hide Symbols;
  }

  lemma TwoGroups(e: Engine, a: bytes, b: bytes)
    requires |a| == 3 && b != []
    ensures Symbols(e, a + b) == Symbols(e, a) + Symbols(e, b)
  {
    hide Group;
    assert (a + b)[..3] == a && (a + b)[3..] == b;
  }

  lemma GroupText(e: Engine, b: bytes)
    requires 0 < |b| <= 3
    ensures var v := Values(b);
            Group(e, b) == if |b| == 1 then [Symbol(e, v[0]), Symbol(e, v[1])]
                           else if |b| == 2 then [Symbol(e, v[0]), Symbol(e, v[1]), Symbol(e, v[2])]
                           else [Symbol(e, v[0]), Symbol(e, v[1]), Symbol(e, v[2]), Symbol(e, v[3])]
  {
  }

  // ---------------------------------------------------------------- postcard

  /** Little-endian groups of seven bits, the high bit set on all but the last. */
  function Varint(n: nat): (r: bytes)
    ensures |r| > 0
  {
    if n < 128 then [n] else [128 + n % 128] + Varint(n / 128)
  }

  /** A varint ends where it says: what follows cannot change how it is read. */
  lemma {:induction false} VarintPrefixFree(m: nat, n: nat, x: bytes, y: bytes)
    requires Varint(m) + x == Varint(n) + y
    ensures m == n && x == y
  {
    assert Varint(m)[0] == (Varint(m) + x)[0] == (Varint(n) + y)[0] == Varint(n)[0];
    if m < 128 {
      SplitEqual(Varint(m), x, Varint(n), y);
    } else {
      var a, b := Varint(m / 128), Varint(n / 128);
      assert Varint(m) + x == [128 + m % 128] + (a + x) && Varint(n) + y == [128 + n % 128] + (b + y);
      SplitEqual([128 + m % 128], a + x, [128 + n % 128], b + y);
      VarintPrefixFree(m / 128, n / 128, x, y);
    }
  }

  function Text(s: bytes): (r: bytes)
    ensures |r| > |s|
  {
    Varint(|s|) + s
  }

  lemma TextPrefixFree(s: bytes, t: bytes, x: bytes, y: bytes)
    requires Text(s) + x == Text(t) + y
    ensures s == t && x == y
  {
    assert Text(s) + x == Varint(|s|) + (s + x) && Text(t) + y == Varint(|t|) + (t + y);
    VarintPrefixFree(|s|, |t|, s + x, t + y);
    SplitEqual(s, x, t, y);
  }

  /** Reads a varint, the least significant group first, and leaves what follows. */
  function ReadVarint(s: bytes): Option<(nat, bytes)> {
    if s == [] then None
    else if s[0] < 128 then Some((s[0], s[1..]))
    else
      var more := ReadVarint(s[1..]);
      if more.None? then None else Some((s[0] - 128 + 128 * more.value.0, more.value.1))
  }

  lemma {:induction false} VarintRoundTrip(n: nat, rest: bytes)
    ensures ReadVarint(Varint(n) + rest) == Some((n, rest))
  {
    var all := Varint(n) + rest;
    if n < 128 {
      assert all[1..] == rest;
    } else {
      VarintRoundTrip(n / 128, rest);
      assert all[1..] == Varint(n / 128) + rest;
      assert n == n % 128 + 128 * (n / 128);
    }
  }

  /** Reads a length and as many bytes. */
  function ReadText(s: bytes): Option<(bytes, bytes)> {
    var length := ReadVarint(s);
    if length.None? || length.value.0 > |length.value.1| then None
    else Some((length.value.1[..length.value.0], length.value.1[length.value.0..]))
  }

  lemma TextRoundTrip(t: bytes, rest: bytes)
    ensures ReadText(Text(t) + rest) == Some((t, rest))
  {
    hide Varint, ReadVarint;
    VarintRoundTrip(|t|, t + rest);
    assert Text(t) + rest == Varint(|t|) + (t + rest);
  }
}
