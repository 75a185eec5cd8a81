/** CDVI's payload cipher: RC4 over text, in hex, with a 16-bit checksum. */
module Rc4 {
  import opened Base

  type Byte = b: int | 0 <= b < 256

  // ---- exclusive or, bit by bit ----

  function XorBits(a: nat, b: nat, bits: nat): nat {
    if bits == 0 then 0 else 2 * XorBits(a / 2, b / 2, bits - 1) + if a % 2 != b % 2 then 1 else 0
  }

  lemma {:induction false} XorBound(a: nat, b: nat, bits: nat)
    ensures XorBits(a, b, bits) < TwoTo(bits)
  {
    if bits > 0 {
      XorBound(a / 2, b / 2, bits - 1);
    }
  }

  function TwoTo(bits: nat): nat {
    if bits == 0 then 1 else 2 * TwoTo(bits - 1)
  }

  lemma {:induction false} XorTwice(a: nat, b: nat, bits: nat)
    requires a < TwoTo(bits)
    ensures XorBits(XorBits(a, b, bits), b, bits) == a
  {
    if bits > 0 {
      XorTwice(a / 2, b / 2, bits - 1);
      var x := XorBits(a, b, bits);
      assert x / 2 == XorBits(a / 2, b / 2, bits - 1);
    }
  }

  lemma ByteBound()
    ensures TwoTo(8) == 256
  {
    assert TwoTo(4) == 16;
  }

  function Xor(a: Byte, b: Byte): Byte {
    ByteBound();
    XorBound(a, b, 8);
    XorBits(a, b, 8)
  }

  lemma XorUndone(a: Byte, b: Byte)
    ensures Xor(Xor(a, b), b) == a
  {
    ByteBound();
    XorTwice(a, b, 8);
  }

  /** The kth binary digit, the lowest first. */
  function Bit(a: nat, k: nat): nat {
    if k == 0 then a % 2 else Bit(a / 2, k - 1)
  }

  lemma {:induction false} XorBit(a: nat, b: nat, bits: nat, k: nat)
    requires k < bits
    ensures Bit(XorBits(a, b, bits), k) == if Bit(a, k) == Bit(b, k) then 0 else 1
  {
    if k > 0 {
      XorBit(a / 2, b / 2, bits - 1, k - 1);
      assert XorBits(a, b, bits) / 2 == XorBits(a / 2, b / 2, bits - 1);
    }
  }

  /** Each bit of the result says whether the two differ there. */
  lemma XorIsBitwise(a: Byte, b: Byte, k: nat)
    requires k < 8
    ensures Bit(Xor(a, b), k) == 1 <==> Bit(a, k) != Bit(b, k)
  {
    hide Bit;
    XorBit(a, b, 8, k);
  }

  // ---- the cipher as it is defined ----

  function Swapped(s: seq<Byte>, i: nat, j: nat): (r: seq<Byte>)
    requires i < |s| && j < |s|
    ensures |r| == |s|
  {
    s[i := s[j]][j := s[i]]
  }

  /** Every byte value once: a permutation of 0..255. */
  predicate Permutation(s: seq<Byte>) {
    |s| == 256 && forall i, j | 0 <= i < j < 256 :: s[i] != s[j]
  }

  lemma SwapKeepsPermutation(s: seq<Byte>, i: nat, j: nat)
    requires Permutation(s) && i < 256 && j < 256
    ensures Permutation(Swapped(s, i, j))
  {
  }

  datatype Box = Box(s: seq<Byte>, i: Byte, j: Byte)

  predicate Ready(b: Box) {
    Permutation(b.s)
  }

  function Identity(): (s: seq<Byte>)
    ensures Permutation(s)
  {
    seq(256, i requires 0 <= i < 256 => i)
  }

  /** Key scheduling after its first n steps. */
  function Scheduled(key: seq<Byte>, n: nat): (b: Box)
    requires key != [] && n <= 256
    ensures Ready(b)
  {
    if n == 0 then Box(Identity(), 0, 0)
    else
      var before := Scheduled(key, n - 1);
      var j := (before.j as int + before.s[n - 1] as int + key[(n - 1) % |key|] as int) % 256;
      SwapKeepsPermutation(before.s, n - 1, j);
      Box(Swapped(before.s, n - 1, j), 0, j)
  }

  function Advanced(b: Box): (r: Box)
    requires Ready(b)
    ensures Ready(r)
  {
    var i := (b.i as int + 1) % 256;
    var j := (b.j as int + b.s[i] as int) % 256;
    SwapKeepsPermutation(b.s, i, j);
    Box(Swapped(b.s, i, j), i, j)
  }

  function Output(b: Box): Byte
    requires Ready(b)
  {
    b.s[(b.s[b.i] as int + b.s[b.j] as int) % 256]
  }

  /** The box after n output bytes. */
  function BoxAfter(key: seq<Byte>, n: nat): (b: Box)
    requires key != []
    ensures Ready(b)
  {
    if n == 0 then Box(Scheduled(key, 256).s, 0, 0) else Advanced(BoxAfter(key, n - 1))
  }

  function Keystream(key: seq<Byte>, n: nat): Byte
    requires key != []
  {
    Output(BoxAfter(key, n + 1))
  }

  /** The stream is RC4's own: after a byte, the first index has gone on by one, the second by what the box
      holds there, the two places are exchanged, and the byte is what the box holds at the sum of the two. */
  lemma KeystreamIs(key: seq<Byte>, n: nat)
    requires key != []
    ensures var before, after := BoxAfter(key, n), BoxAfter(key, n + 1);
            && before.i == n % 256 && after.i == (n + 1) % 256
            && after.j == (before.j as int + before.s[after.i] as int) % 256
            && after.s[after.i] == before.s[after.j] && after.s[after.j] == before.s[after.i]
            && (forall x | 0 <= x < 256 && x != after.i && x != after.j :: after.s[x] == before.s[x])
            && Keystream(key, n) == after.s[(after.s[after.i] as int + after.s[after.j] as int) % 256]
  {
    hide Scheduled, BoxAfter, Permutation, Advanced;
    IndexAfter(key, n);
    BoxStep(key, n);
    AdvancedSays(BoxAfter(key, n));
  }

  lemma BoxStep(key: seq<Byte>, n: nat)
    requires key != []
    ensures BoxAfter(key, n + 1) == Advanced(BoxAfter(key, n))
  {
    hide Scheduled, Permutation, Advanced;
  }

  lemma AdvancedSays(b: Box)
    requires Ready(b)
    ensures var after := Advanced(b);
            && after.i == (b.i as int + 1) % 256 && after.j == (b.j as int + b.s[after.i] as int) % 256
            && after.s[after.i] == b.s[after.j] && after.s[after.j] == b.s[after.i]
            && forall x | 0 <= x < 256 && x != after.i && x != after.j :: after.s[x] == b.s[x]
  {
  }

  lemma {:induction false} IndexAfter(key: seq<Byte>, n: nat)
    requires key != []
    ensures BoxAfter(key, n).i == n % 256
  {
    hide Scheduled, Permutation, Advanced;
    if n > 0 {
      hide BoxAfter;
      IndexAfter(key, n - 1);
      BoxStep(key, n - 1);
      AdvancedSays(BoxAfter(key, n - 1));
    }
  }

  /** And its box is RC4's own to begin with: from every value in its own place, 256 exchanges, each of the
      next place with one further on by what the box holds there and the next byte of the key. */
  lemma BoxIsScheduled(key: seq<Byte>, n: nat)
    requires key != [] && n < 256
    ensures BoxAfter(key, 0) == Box(Scheduled(key, 256).s, 0, 0)
    ensures Scheduled(key, 0).j == 0 && forall x | 0 <= x < 256 :: Scheduled(key, 0).s[x] == x
    ensures var before, after := Scheduled(key, n), Scheduled(key, n + 1);
            && after.j == (before.j as int + before.s[n] as int + key[n % |key|] as int) % 256
            && after.s[n] == before.s[after.j] && after.s[after.j] == before.s[n]
            && forall x | 0 <= x < 256 && x != n && x != after.j :: after.s[x] == before.s[x]
  {
    ScheduledStart(key);
    ScheduledStep(key, n);
    hide Scheduled;
  }

  function Crypt(key: seq<Byte>, data: seq<Byte>): (r: seq<Byte>)
    requires key != []
    ensures |r| == |data| && forall n | 0 <= n < |data| :: r[n] == Xor(data[n], Keystream(key, n))
  {
    seq(|data|, n requires 0 <= n < |data| => Xor(data[n], Keystream(key, n)))
  }

  lemma CryptUndone(key: seq<Byte>, data: seq<Byte>)
    requires key != []
    ensures Crypt(key, Crypt(key, data)) == data
  {
    forall n | 0 <= n < |data| ensures Crypt(key, Crypt(key, data))[n] == data[n] {
      XorUndone(data[n], Keystream(key, n));
    }
  }

  // ---- text and hex ----

  /** Latin-1; None where Python raises for a character it has no byte for. */
  function Encoded(text: string): Option<seq<Byte>> {
    if forall i | 0 <= i < |text| :: text[i] as int < 256 then Some(seq(|text|, i requires 0 <= i < |text| => text[i] as int % 256)) else None
  }

  /** Latin-1 has a byte for the first 256 code points, and their own. */
  lemma EncodedSays(text: string)
    ensures Encoded(text).Some? <==> forall c <- text :: c as int <= 255
    ensures Encoded(text).Some? ==> |Encoded(text).value| == |text| && forall i | 0 <= i < |text| :: Encoded(text).value[i] == text[i] as int
  {
    if forall c <- text :: c as int <= 255 {
      forall i | 0 <= i < |text| ensures text[i] as int < 256 {
        assert text[i] in text;
      }
    }
  }

  predicate Ascii(text: string) {
    forall c <- text :: c as int < 128
  }

  /** UTF-8, as far as it is ASCII; replacement of other bytes is not modelled. */
  function Decoded(data: seq<Byte>): Option<string> {
    if forall i | 0 <= i < |data| :: data[i] < 128 then Some(seq(|data|, i requires 0 <= i < |data| => (data[i] % 128) as char)) else None
  }

  lemma AsciiDecodes(text: string)
    requires Ascii(text)
    ensures Encoded(text).Some? && Decoded(Encoded(text).value) == Some(text)
  {
    forall i | 0 <= i < |text| ensures text[i] as int < 128 && (text[i] as int) as char == text[i] {
      assert text[i] in text;
    }
    var data := Encoded(text).value;
    assert forall i | 0 <= i < |data| :: data[i] == text[i] as int && (data[i] % 128) as char == text[i];
    assert Decoded(data).value == text;
  }

  function HexDigit(d: nat): char
    requires d < 16
  {
    "0123456789ABCDEF"[d]
  }

  function HexValue(c: char): Option<nat> {
    if '0' <= c <= '9' then Some(c as int - '0' as int)
    else if 'A' <= c <= 'F' then Some(c as int - 'A' as int + 10)
    else if 'a' <= c <= 'f' then Some(c as int - 'a' as int + 10)
    else None
  }

  lemma HexDigitReadsBack(d: nat)
    requires d < 16
    ensures HexValue(HexDigit(d)) == Some(d) && HexDigit(d) != '&'
  {
  }

  function HexPair(b: Byte): (r: string)
    ensures |r| == 2
  {
    [HexDigit(b / 16), HexDigit(b % 16)]
  }

  function Hex(data: seq<Byte>): (r: string)
    ensures |r| == 2 * |data|
  {
    if data == [] then "" else Hex(data[..|data| - 1]) + HexPair(data[|data| - 1])
  }

  /** Hex digits, a single underscore allowed between two of them. */
  function HexDigits(s: string): Option<nat> {
    if s == "" then None
    else
      var front, last := s[..|s| - 1], HexValue(s[|s| - 1]);
      if last.None? || front == "" then last
      else
        var before := HexDigits(if front[|front| - 1] == '_' then front[..|front| - 1] else front);
        if before.None? then None else Some(16 * before.value + last.value)
  }

  lemma OneMoreDigit(s: string, c: char)
    requires HexValue(c).Some? && (s == "" || HexDigits(s).Some?)
    ensures HexDigits(s + [c]) == Some((if s == "" then 0 else 16 * HexDigits(s).value) + HexValue(c).value)
  {
    assert (s + [c])[..|s|] == s && (s + [c])[|s|] == c;
    LastIsADigit(s);
  }

  lemma LastIsADigit(s: string)
    ensures HexDigits(s).Some? ==> s[|s| - 1] != '_'
  {
  }

  /** The zeros of the decimal digits outside ASCII, as of Unicode 15.0; nine more follow each. */
  const DECIMAL_ZEROS: seq<int> := [
    0x660, 0x6F0, 0x7C0, 0x966, 0x9E6, 0xA66, 0xAE6, 0xB66, 0xBE6, 0xC66, 0xCE6, 0xD66,
    0xDE6, 0xE50, 0xED0, 0xF20, 0x1040, 0x1090, 0x17E0, 0x1810, 0x1946, 0x19D0, 0x1A80, 0x1A90,
    0x1B50, 0x1BB0, 0x1C40, 0x1C50, 0xA620, 0xA8D0, 0xA900, 0xA9D0, 0xA9F0, 0xAA50, 0xABF0, 0xFF10,
    0x104A0, 0x10D30, 0x11066, 0x110F0, 0x11136, 0x111D0, 0x112F0, 0x11450, 0x114D0, 0x11650, 0x116C0, 0x11730,
    0x118E0, 0x11950, 0x11C50, 0x11D50, 0x11DA0, 0x11F50, 0x16A60, 0x16AC0, 0x16B50, 0x1D7CE, 0x1D7D8, 0x1D7E2,
    0x1D7EC, 0x1D7F6, 0x1E140, 0x1E2F0, 0x1E4F0, 0x1E950, 0x1FBF0]

  /** The decimal digit of that code point, by the first of these zeros it belongs to. */
  function DecimalFrom(n: int, zeros: seq<int>): (d: Option<nat>)
    ensures d.Some? ==> d.value < 10 && n - d.value in zeros
    ensures d.None? ==> forall z <- zeros :: !(z <= n < z + 10)
  {
    if zeros == [] then None
    else
      assert zeros == [zeros[0]] + zeros[1..];
      if zeros[0] <= n < zeros[0] + 10 then Some(n - zeros[0]) else DecimalFrom(n, zeros[1..])
  }

  /** What `int` makes of a character before it reads the number: any blank a space, any decimal digit
      its ASCII one, and what else is outside ASCII an error. */
  function AsAscii(c: char): char {
    if c as int < 127 then c
    else if IsSpace(c) then ' '
    else match DecimalFrom(c as int, DECIMAL_ZEROS)
      case Some(d) => ('0' as int + d) as char
      case None => '?'
  }

  function AllAscii(s: string): (r: string)
    ensures |r| == |s|
  {
    seq(|s|, i requires 0 <= i < |s| => AsAscii(s[i]))
  }

  /** Then the blanks of C around it go: not the separators 28 to 31, which `str.strip` takes too. */
  predicate Blank(c: char) {
    c == ' ' || 9 <= c as int <= 13
  }

  function Trimmed(s: string): string {
    if s == [] then []
    else if Blank(s[0]) then Trimmed(s[1..])
    else if Blank(s[|s| - 1]) then Trimmed(s[..|s| - 1])
    else s
  }

  lemma {:induction false} BlankInFront(s: string, c: char)
    requires Blank(c)
    ensures Trimmed([c] + s) == Trimmed(s)
  {
    hide Blank;
    assert ([c] + s)[1..] == s;
  }

  lemma {:induction false} BlankBehind(s: string, c: char)
    requires Blank(c)
    ensures Trimmed(s + [c]) == Trimmed(s)
  {
    hide Blank;
    if s == [] {
      assert s + [c] == [c] && [c][1..] == [];
    } else {
      assert (s + [c])[1..] == s[1..] + [c] && (s + [c])[..|s|] == s;
      BlankBehind(s[1..], c);
    }
  }

  lemma {:induction false} NoBlanksLeft(s: string)
    ensures Trimmed(s) != [] ==> !Blank(Trimmed(s)[0]) && !Blank(Trimmed(s)[|Trimmed(s)| - 1])
  {
    hide Blank;
    if s != [] {
      NoBlanksLeft(s[1..]);
      NoBlanksLeft(s[..|s| - 1]);
    }
  }

  /** Blanks around it, of these six characters and no other, make no difference, and none are left. */
  lemma TrimmedIs(s: string, c: char)
    requires c as int in {32, 9, 10, 11, 12, 13}
    ensures Trimmed([c] + s) == Trimmed(s) == Trimmed(s + [c])
    ensures Trimmed(s) != [] ==>
              Trimmed(s)[0] as int !in {32, 9, 10, 11, 12, 13} && Trimmed(s)[|Trimmed(s)| - 1] as int !in {32, 9, 10, 11, 12, 13}
  {
    BlankInFront(s, c);
    BlankBehind(s, c);
    NoBlanksLeft(s);
    hide Trimmed;
  }

  /** `int(s, 16)`: blanks around it, a sign and a "0x" are allowed; None where it raises. */
  function HexInt(s: string): Option<int> {
    var t := Trimmed(AllAscii(s));
    var unsigned := if t != "" && (t[0] == '+' || t[0] == '-') then t[1..] else t;
    var bare := if |unsigned| < 2 || unsigned[0] != '0' || (unsigned[1] != 'x' && unsigned[1] != 'X') then unsigned
                else if |unsigned| > 2 && unsigned[2] == '_' then unsigned[3..] else unsigned[2..];
    match HexDigits(bare)
    case None => None
    case Some(n) => Some(if t != "" && t[0] == '-' then 0 - (n as int) else n)
  }

  lemma HexIsPlain(c: char)
    requires HexValue(c).Some?
    ensures AsAscii(c) == c && !Blank(c) && c != '+' && c != '-' && c != 'x' && c != 'X'
  {
  }

  lemma PlainHexInt(s: string)
    requires s != "" && forall c <- s :: HexValue(c).Some?
    ensures HexInt(s) == (match HexDigits(s) case None => None case Some(n) => Some(n as int))
  {
    hide AsAscii, Blank, HexValue, HexDigits;
    forall i | 0 <= i < |s| ensures AllAscii(s)[i] == s[i] && !Blank(s[i]) && s[i] !in {'+', '-', 'x', 'X'} {
      assert s[i] in s;
      HexIsPlain(s[i]);
    }
    assert AllAscii(s) == s;
    assert Trimmed(s) == s;
  }

  /** A sign before plain digits. */
  lemma SignSays(s: string)
    requires s != "" && forall c <- s :: HexValue(c).Some?
    ensures HexInt("+" + s) == HexInt(s)
    ensures HexInt("-" + s) == (if HexInt(s).None? then None else Some(0 - HexInt(s).value))
  {
    hide HexDigits, HexValue, Trimmed, AllAscii;
    PlainHexInt(s);
    PlainStays("+", s);
    PlainStays("-", s);
    NoX(s);
    assert ("+" + s)[1..] == s && ("-" + s)[1..] == s;
  }

  /** And "0x". */
  lemma PrefixSays(s: string)
    requires s != "" && forall c <- s :: HexValue(c).Some?
    ensures HexInt("0x" + s) == HexInt(s) && HexInt("0X" + s) == HexInt(s)
  {
    hide HexDigits, HexValue, Trimmed, AllAscii;
    PlainHexInt(s);
    PlainStays("0x", s);
    PlainStays("0X", s);
    NoX(s);
    assert ("0x" + s)[2..] == s && ("0X" + s)[2..] == s;
  }

  lemma NoX(s: string)
    requires s != "" && forall c <- s :: HexValue(c).Some?
    ensures s[0] != '_' && s[0] != '+' && s[0] != '-' && (|s| > 1 ==> s[1] != 'x' && s[1] != 'X')
  {
    assert s[0] in s && (|s| > 1 ==> s[1] in s);
  }

  lemma PlainStays(sign: string, s: string)
    requires sign in {"+", "-", "0x", "0X"} && s != "" && forall c <- s :: HexValue(c).Some?
    ensures Trimmed(AllAscii(sign + s)) == sign + s
  {
    hide HexValue;
    forall i | 0 <= i < |s| ensures AsAscii(s[i]) == s[i] && !Blank(s[i]) {
      assert s[i] in s;
      HexIsPlain(s[i]);
    }
    assert AllAscii(sign + s) == sign + s;
  }

  /** What a pair stands for; None where reading it raises, or the byte it gives is negative. */
  function PairValue(hi: char, lo: char): Option<Byte> {
    match HexInt([hi, lo])
    case None => None
    case Some(n) => if 0 <= n < 256 then Some(n) else None
  }

  lemma DigitsMakeAPair(hi: char, lo: char)
    requires HexValue(hi).Some? && HexValue(lo).Some?
    ensures PairValue(hi, lo) == Some(16 * HexValue(hi).value + HexValue(lo).value)
  {
    PlainHexInt([hi, lo]);
    hide HexInt, HexValue, HexDigits;
    assert [hi, lo] == [hi] + [lo] && [hi] == "" + [hi];
    OneMoreDigit("", hi);
    OneMoreDigit([hi], lo);
    HexValueBound(hi);
    HexValueBound(lo);
  }

  lemma HexValueBound(c: char)
    ensures HexValue(c).Some? ==> HexValue(c).value < 16
  {
  }

  /** The first n pairs; None where one of them raises. */
  function UnHexPairs(hex: string, n: nat): (r: Option<seq<Byte>>)
    requires 2 * n <= |hex|
    ensures r.Some? ==> |r.value| == n
  {
    if n == 0 then Some([])
    else
      var before, last := UnHexPairs(hex, n - 1), PairValue(hex[2 * n - 2], hex[2 * n - 1]);
      if before.Some? && last.Some? then Some(before.value + [last.value]) else None
  }

  /** A digit left over is ignored. */
  function UnHex(hex: string): Option<seq<Byte>> {
    UnHexPairs(hex, |hex| / 2)
  }

  lemma PairReadsBack(b: Byte)
    ensures PairValue(HexPair(b)[0], HexPair(b)[1]) == Some(b)
    ensures '&' !in HexPair(b)
  {
    hide HexDigit, HexValue, PairValue;
    assert 16 * (b / 16) + b % 16 == b;
    HexDigitReadsBack(b / 16);
    HexDigitReadsBack(b % 16);
    DigitsMakeAPair(HexDigit(b / 16), HexDigit(b % 16));
  }

  lemma {:induction false} HexAt(data: seq<Byte>, n: nat)
    requires n < |data|
    ensures Hex(data)[2 * n] == HexPair(data[n])[0] && Hex(data)[2 * n + 1] == HexPair(data[n])[1]
  {
    hide HexPair;
    if n < |data| - 1 {
      HexAt(data[..|data| - 1], n);
    }
  }

  lemma {:induction false} PairsReadBack(data: seq<Byte>, n: nat)
    requires n <= |data|
    ensures UnHexPairs(Hex(data), n) == Some(data[..n])
  {
    hide HexPair, PairValue, Hex;
    if n > 0 {
      PairsReadBack(data, n - 1);
      HexAt(data, n - 1);
      PairReadsBack(data[n - 1]);
      assert data[..n] == data[..n - 1] + [data[n - 1]];
    }
  }

  lemma {:induction false} NoAmpersand(data: seq<Byte>)
    ensures '&' !in Hex(data)
  {
    hide HexPair;
    if data != [] {
      NoAmpersand(data[..|data| - 1]);
      PairReadsBack(data[|data| - 1]);
    }
  }

  lemma HexReadsBack(data: seq<Byte>)
    ensures UnHex(Hex(data)) == Some(data)
    ensures '&' !in Hex(data)
  {
    hide Hex, UnHexPairs;
    PairsReadBack(data, |data|);
    assert data[..|data|] == data;
    NoAmpersand(data);
  }

  // ---- in place, as the code runs it ----

  /** The key-scheduling loop. */
  method KeystreamSetup(key: seq<Byte>) returns (s: array<Byte>)
    requires key != []
    ensures fresh(s) && s.Length == 256 && Box(s[..], 0, 0) == BoxAfter(key, 0) && Permutation(s[..])
  {
    hide Permutation, Scheduled;
    s := new Byte[256](i => if 0 <= i < 256 then i else 0);
    var j: Byte := 0;
    assert s[..] == Identity();
    ScheduledStart(key);
    for i := 0 to 256
      invariant s[..] == Scheduled(key, i).s && j == Scheduled(key, i).j
    {
      j := MixKey(s, i, j, key);
    }
  }

  method MixKey(s: array<Byte>, i: Byte, j0: Byte, key: seq<Byte>) returns (j: Byte)
    requires s.Length == 256 && key != [] && s[..] == Scheduled(key, i).s && j0 == Scheduled(key, i).j
    modifies s
    ensures s[..] == Scheduled(key, i + 1).s && j == Scheduled(key, i + 1).j
  {
    hide Scheduled;
    ghost var before := s[..];
    ScheduledStep(key, i);
    j := (j0 as int + s[i] as int + key[i % |key|] as int) % 256;
    s[i], s[j] := s[j], s[i];
    assert s[..] == Swapped(before, i, j);
  }

  lemma ScheduledStart(key: seq<Byte>)
    requires key != []
    ensures Scheduled(key, 0) == Box(Identity(), 0, 0)
  {
  }

  lemma ScheduledStep(key: seq<Byte>, n: nat)
    requires key != [] && n < 256
    ensures var before := Scheduled(key, n);
            var j := (before.j as int + before.s[n] as int + key[n % |key|] as int) % 256;
            Scheduled(key, n + 1) == Box(Swapped(before.s, n, j), 0, j)
  {
  }

  /** One keystream byte, the box changed in place. */
  method NextByte(s: array<Byte>, i0: Byte, j0: Byte) returns (i: Byte, j: Byte, k: Byte)
    requires s.Length == 256 && Permutation(s[..])
    modifies s
    ensures Box(s[..], i, j) == Advanced(Box(old(s[..]), i0, j0)) && Permutation(s[..])
    ensures k == Output(Box(s[..], i, j))
  {
    ghost var before := s[..];
    i := (i0 as int + 1) % 256;
    j := (j0 as int + s[i] as int) % 256;
    s[i], s[j] := s[j], s[i];
    assert s[..] == Swapped(before, i, j);
    k := s[(s[i] as int + s[j] as int) % 256];
  }

  method Encrypt(key: seq<Byte>, data: seq<Byte>) returns (hex: string)
    requires key != []
    ensures hex == Hex(Crypt(key, data))
  {
    hide Permutation, Advanced, Output, Xor, Scheduled, HexPair;
    var s := KeystreamSetup(key);
    var i: Byte, j: Byte, k: Byte := 0, 0, 0;
    hex := "";
    ghost var out: seq<Byte> := [];
    for n := 0 to |data|
      invariant s.Length == 256 && Box(s[..], i, j) == BoxAfter(key, n)
      invariant out == Crypt(key, data)[..n] && hex == Hex(out)
    {
      i, j, k := NextByte(s, i, j);
      hex := hex + HexPair(Xor(data[n], k));
      ghost var before := out;
      out := out + [Xor(data[n], k)];
      assert out[..|out| - 1] == before;
    }
    assert Crypt(key, data)[..|data|] == Crypt(key, data);
  }

  method Decrypt(key: seq<Byte>, hex: string) returns (data: Option<seq<Byte>>)
    requires key != []
    ensures data == if UnHex(hex).Some? then Some(Crypt(key, UnHex(hex).value)) else None
  {
    hide Permutation, Advanced, Output, Xor, Scheduled, UnHex;
    var bytes := UnHex(hex);
    if bytes.None? {
      return None;
    }
    var s := KeystreamSetup(key);
    var i: Byte, j: Byte, k: Byte := 0, 0, 0;
    var out: seq<Byte> := [];
    for n := 0 to |bytes.value|
      invariant s.Length == 256 && Box(s[..], i, j) == BoxAfter(key, n)
      invariant out == Crypt(key, bytes.value)[..n]
    {
      i, j, k := NextByte(s, i, j);
      out := out + [Xor(bytes.value[n], k)];
    }
    assert out == Crypt(key, bytes.value);
    data := Some(out);
  }

  // ---- the payload ----

  function Total(data: seq<Byte>): nat {
    if data == [] then 0 else Total(data[..|data| - 1]) + data[|data| - 1]
  }

  /** The low sixteen bits of the sum, as four hex digits. */
  function Checksum(data: seq<Byte>): string {
    var c := Total(data) % 65536;
    [HexDigit(c / 4096), HexDigit(c / 256 % 16), HexDigit(c / 16 % 16), HexDigit(c % 16)]
  }

  lemma ChecksumReadsBack(data: seq<Byte>)
    ensures HexInt(Checksum(data)) == Some(Total(data) % 65536)
  {
    hide HexDigit, HexValue, Total;
    var c := Total(data) % 65536;
    HexDigitReadsBack(c / 4096);
    HexDigitReadsBack(c / 256 % 16);
    HexDigitReadsBack(c / 16 % 16);
    HexDigitReadsBack(c % 16);
    FourDigits(Checksum(data), [c / 4096, c / 256 % 16, c / 16 % 16, c % 16]);
    assert c / 16 / 16 == c / 256 && c / 256 / 16 == c / 4096;
    assert c / 256 == 16 * (c / 4096) + c / 256 % 16 && c / 16 == 16 * (c / 256) + c / 16 % 16 && c == 16 * (c / 16) + c % 16;
  }

  lemma FourDigits(s: string, d: seq<nat>)
    requires |s| == |d| == 4 && forall i | 0 <= i < 4 :: HexValue(s[i]) == Some(d[i])
    ensures HexInt(s) == Some(16 * (16 * (16 * d[0] + d[1]) + d[2]) + d[3])
  {
    PlainHexInt(s);
    hide HexValue, HexInt, HexDigits;
    assert s == [s[0]] + [s[1]] + [s[2]] + [s[3]] && [s[0]] == "" + [s[0]];
    OneMoreDigit("", s[0]);
    OneMoreDigit([s[0]], s[1]);
    OneMoreDigit([s[0]] + [s[1]], s[2]);
    OneMoreDigit([s[0]] + [s[1]] + [s[2]], s[3]);
  }

  const ENC := "post_enc="
  const CHK := "&post_chk="

  /** `_encrypt_payload`; None when there is no session to key the cipher with, or no byte
      for a character. */
  function Payload(session: seq<Byte>, text: string): Option<string> {
    if session == [] || Encoded(text).None? then None
    else
      var data := Encoded(text).value;
      Some(ENC + Hex(Crypt(session, data)) + CHK + Checksum(data))
  }

  /** Raised: the hex could not be read. NotAscii: what decoding other bytes would give is not
      modelled. */
  datatype Opened = PassedThrough(body: string) | Rejected | Raised | Plain(text: string) | NotAscii

  /** `decrypt_payload`: a body that is not encrypted passes through. */
  function OpenPayload(session: seq<Byte>, body: string): Opened {
    var start := Find(body, ENC, 0);
    if start.None? then PassedThrough(body)
    else
      var enc := body[start.value + |ENC|..];
      var cut := Find(enc, CHK, 0);
      if session == [] || cut.None? then Rejected
      else OpenEncrypted(session, enc[..cut.value], enc[cut.value + |CHK|..])
  }

  function OpenEncrypted(session: seq<Byte>, hex: string, chk: string): Opened
    requires session != []
  {
    if chk == "" then Rejected
    else if UnHex(hex).None? then Raised
    else
      var data := Crypt(session, UnHex(hex).value);
      if Decoded(data).None? then NotAscii
      else if HexInt(chk) == Some(Total(data) % 65536) then Plain(Decoded(data).value)
      else Rejected
  }

  /** Decrypting what was encrypted gives the text back, for every ASCII text and key. */
  lemma TextRoundTrip(key: seq<Byte>, text: string)
    requires key != [] && Ascii(text)
    ensures Encoded(text).Some?
    ensures var hex := Hex(Crypt(key, Encoded(text).value));
            UnHex(hex).Some? && Decoded(Crypt(key, UnHex(hex).value)) == Some(text)
  {
    AsciiDecodes(text);
    HexReadsBack(Crypt(key, Encoded(text).value));
    CryptUndone(key, Encoded(text).value);
  }

  /** A payload opens to what was put in, its checksum accepted. */
  lemma PayloadRoundTrip(session: seq<Byte>, text: string)
    requires session != [] && Ascii(text)
    ensures Payload(session, text).Some? && Encoded(text).Some?
    ensures var data := Encoded(text).value; Payload(session, text).value == "post_enc=" + Hex(Crypt(session, data)) + "&post_chk=" + Checksum(data)
    ensures OpenPayload(session, Payload(session, text).value) == Plain(text)
  {
    hide Crypt, Encoded, Decoded, UnHex, Hex, HexInt, HexDigit, Total, Find, OpenEncrypted;
    AsciiDecodes(text);
    var data := Encoded(text).value;
    HexReadsBack(Crypt(session, data));
    Cuts(Hex(Crypt(session, data)), Checksum(data));
    OpensEncrypted(session, data, text);
  }

  lemma OpensEncrypted(session: seq<Byte>, data: seq<Byte>, text: string)
    requires session != [] && Decoded(data) == Some(text)
    ensures OpenEncrypted(session, Hex(Crypt(session, data)), Checksum(data)) == Plain(text)
  {
    hide Crypt, Decoded, UnHex, Hex, HexInt, HexDigit, Total;
    HexReadsBack(Crypt(session, data));
    CryptUndone(session, data);
    ChecksumReadsBack(data);
    assert |Checksum(data)| == 4;
  }

  lemma Cuts(hex: string, chk: string)
    requires '&' !in hex
    ensures var body := ENC + hex + CHK + chk;
            Find(body, ENC, 0) == Some(0) && body[|ENC|..] == hex + CHK + chk
    ensures var enc := hex + CHK + chk;
            Find(enc, CHK, 0) == Some(|hex|) && enc[..|hex|] == hex && enc[|hex| + |CHK|..] == chk
  {
    var body, enc := ENC + hex + CHK + chk, hex + CHK + chk;
    assert OccursAt(body, ENC, 0);
    assert OccursAt(enc, CHK, |hex|);
    forall i | 0 <= i < |hex| ensures !OccursAt(enc, CHK, i) {
      assert enc[i] == hex[i] && hex[i] in hex;
      assert CHK[0] == '&';
      NoMatch(enc, CHK, i);
    }
  }

  lemma NoMatch(s: string, pattern: string, i: nat)
    requires pattern != "" && i < |s| && s[i] != pattern[0]
    ensures !OccursAt(s, pattern, i)
  {
    if i + |pattern| <= |s| {
      assert s[i..i + |pattern|][0] == s[i];
    }
  }
}
