/** Byte codecs: base64 (sections 4 and 5 of RFC 4648) and hex (section 8). */
module Codecs {
  import opened Wrappers

  type Byte = x: nat | x < 256

  // ----- base64 -------------------------------------------------------------------------------------

  type Sextet = x: nat | x < 64

  /** The digits of a base, and how they are read. */
  datatype Alphabet = Alphabet(digit: Sextet -> char, value: char -> Option<Sextet>)

  /** Every digit reads as its own value; '=' is none. */
  ghost predicate Lawful(a: Alphabet) {
    (forall n: Sextet :: a.value(a.digit(n)) == Some(n)) && a.value('=') == None
  }

  function Digit(n: Sextet): char {
    if n < 26 then ('A' as int + n) as char
    else if n < 52 then ('a' as int + n - 26) as char
    else if n < 62 then ('0' as int + n - 52) as char
    else if n == 62 then '+' else '/'
  }

  function DigitValue(c: char): Option<Sextet> {
    if 'A' <= c <= 'Z' then Some(c as int - 'A' as int)
    else if 'a' <= c <= 'z' then Some(c as int - 'a' as int + 26)
    else if '0' <= c <= '9' then Some(c as int - '0' as int + 52)
    else if c == '+' then Some(62) else if c == '/' then Some(63) else None
  }

  const STANDARD := Alphabet(Digit, DigitValue)

  lemma StandardIsLawful()
    ensures Lawful(STANDARD)
  {
    forall n: Sextet ensures DigitValue(Digit(n)) == Some(n) {
    }
  }

  /** The digits of an encoding: four for three bytes, one more than the bytes left over. */
  function Data(a: Alphabet, bytes: seq<Byte>): string {
    if bytes == [] then ""
    else if |bytes| == 1 then [a.digit(bytes[0] / 4), a.digit(bytes[0] % 4 * 16)]
    else if |bytes| == 2 then
      [a.digit(bytes[0] / 4), a.digit(bytes[0] % 4 * 16 + bytes[1] / 16), a.digit(bytes[1] % 16 * 4)]
    else Quad(a, bytes[0], bytes[1], bytes[2]) + Data(a, bytes[3..])
  }

  function Quad(a: Alphabet, x: Byte, y: Byte, z: Byte): (q: string)
    ensures |q| == 4
  {
    [a.digit(x / 4), a.digit(x % 4 * 16 + y / 16), a.digit(y % 16 * 4 + z / 64), a.digit(z % 64)]
  }

  function Padding(n: nat): string {
    if n % 3 == 0 then "" else if n % 3 == 1 then "==" else "="
  }

  function EncodeWith(a: Alphabet, bytes: seq<Byte>): string {
    Data(a, bytes) + Padding(|bytes|)
  }

  /** One group of four characters; padding is allowed in the last group only. */
  function Group(a: Alphabet, c0: char, c1: char, c2: char, c3: char, last: bool): Option<seq<Byte>> {
    match (a.value(c0), a.value(c1), a.value(c2), a.value(c3))
    case (Some(p), Some(q), Some(r), Some(s)) => Some([First(p, q), Second(q, r), Third(r, s)])
    case (Some(p), Some(q), Some(r), None) => if c3 == '=' && last then Some([First(p, q), Second(q, r)]) else None
    case (Some(p), Some(q), None, None) => if c2 == '=' && c3 == '=' && last then Some([First(p, q)]) else None
    case _ => None
  }

  function First(p: Sextet, q: Sextet): Byte { p * 4 + q / 16 }

  function Second(q: Sextet, r: Sextet): Byte { q % 16 * 16 + r / 4 }

  function Third(r: Sextet, s: Sextet): Byte { r % 4 * 64 + s }

  function DecodeWith(a: Alphabet, s: string): Option<seq<Byte>> {
    if s == "" then Some([])
    else if |s| < 4 then None
    else
      match (Group(a, s[0], s[1], s[2], s[3], |s| == 4), DecodeWith(a, s[4..]))
      case (Some(group), Some(rest)) => Some(group + rest)
      case _ => None
  }

  /** Cutting three bytes into sextets and joining them again. */
  lemma Regroup(x: Byte, y: Byte, z: Byte)
    ensures First(x / 4, x % 4 * 16 + y / 16) == x
    ensures Second(x % 4 * 16 + y / 16, y % 16 * 4 + z / 64) == y
    ensures Third(y % 16 * 4 + z / 64, z % 64) == z
  {
    assert (x % 4 * 16 + y / 16) / 16 == x % 4 && (x % 4 * 16 + y / 16) % 16 == y / 16;
    assert (y % 16 * 4 + z / 64) / 4 == y % 16 && (y % 16 * 4 + z / 64) % 4 == z / 64;
  }

  lemma GroupRoundTrip(a: Alphabet, x: Byte, y: Byte, z: Byte, last: bool)
    requires Lawful(a)
    ensures var q := Quad(a, x, y, z);
      Group(a, q[0], q[1], q[2], q[3], last) == Some([x, y, z])
  {
    Regroup(x, y, z);
  }

  lemma ShortGroups(a: Alphabet, x: Byte, y: Byte)
    requires Lawful(a)
    ensures Group(a, a.digit(x / 4), a.digit(x % 4 * 16 + y / 16), a.digit(y % 16 * 4), '=', true) == Some([x, y])
    ensures Group(a, a.digit(x / 4), a.digit(x % 4 * 16), '=', '=', true) == Some([x])
  {
    Regroup(x, y, 0);
    assert x % 4 * 16 / 16 == x % 4;
  }

  lemma DecodeGroup(a: Alphabet, s: string, bytes: seq<Byte>, rest: seq<Byte>)
    requires |s| >= 4 && Group(a, s[0], s[1], s[2], s[3], |s| == 4) == Some(bytes) && DecodeWith(a, s[4..]) == Some(rest)
    ensures DecodeWith(a, s) == Some(bytes + rest)
  {
  }

  lemma RoundTripOfOne(a: Alphabet, x: Byte)
    requires Lawful(a)
    ensures DecodeWith(a, EncodeWith(a, [x])) == Some([x])
  {
    var s := EncodeWith(a, [x]);
    assert s == [a.digit(x / 4), a.digit(x % 4 * 16), '=', '='];
    assert s[4..] == "";
    ShortGroups(a, x, 0);
    DecodeGroup(a, s, [x], []);
    assert [x] + [] == [x];
  }

  lemma RoundTripOfTwo(a: Alphabet, x: Byte, y: Byte)
    requires Lawful(a)
    ensures DecodeWith(a, EncodeWith(a, [x, y])) == Some([x, y])
  {
    var s := EncodeWith(a, [x, y]);
    assert s == [a.digit(x / 4), a.digit(x % 4 * 16 + y / 16), a.digit(y % 16 * 4), '='];
    assert s[4..] == "";
    ShortGroups(a, x, y);
    DecodeGroup(a, s, [x, y], []);
    assert [x, y] + [] == [x, y];
  }

  lemma EncodeOfThree(a: Alphabet, bytes: seq<Byte>)
    requires |bytes| > 2
    ensures var s := EncodeWith(a, bytes);
      |s| >= 4 && s[4..] == EncodeWith(a, bytes[3..]) && s[..4] == Quad(a, bytes[0], bytes[1], bytes[2])
    ensures bytes[..3] == [bytes[0], bytes[1], bytes[2]]
  {
    assert Padding(|bytes|) == Padding(|bytes[3..]|);
    assert EncodeWith(a, bytes) == Quad(a, bytes[0], bytes[1], bytes[2]) + EncodeWith(a, bytes[3..]);
  }

  /** Decoding undoes encoding, for every byte string. */
  lemma {:induction false} RoundTripWith(a: Alphabet, bytes: seq<Byte>)
    requires Lawful(a)
    ensures DecodeWith(a, EncodeWith(a, bytes)) == Some(bytes)
  {
    if |bytes| > 2 {
      RoundTripWith(a, bytes[3..]);
      var s := EncodeWith(a, bytes);
      EncodeOfThree(a, bytes);
      GroupRoundTrip(a, bytes[0], bytes[1], bytes[2], |s| == 4);
      DecodeGroup(a, s, bytes[..3], bytes[3..]);
      assert bytes == bytes[..3] + bytes[3..];
    } else if |bytes| == 1 {
      RoundTripOfOne(a, bytes[0]);
      assert bytes == [bytes[0]];
    } else if |bytes| == 2 {
      RoundTripOfTwo(a, bytes[0], bytes[1]);
      assert bytes == [bytes[0], bytes[1]];
    }
  }

  function Encode(bytes: seq<Byte>): string { EncodeWith(STANDARD, bytes) }

  function Decode(s: string): Option<seq<Byte>> { DecodeWith(STANDARD, s) }

  lemma Base64RoundTrip(bytes: seq<Byte>)
    ensures Decode(Encode(bytes)) == Some(bytes)
  {
    StandardIsLawful();
    RoundTripWith(STANDARD, bytes);
  }

  /** So different byte strings never share an encoding. */
  lemma Base64IsInjective(a: seq<Byte>, b: seq<Byte>)
    ensures Encode(a) == Encode(b) ==> a == b
  {
    Base64RoundTrip(a);
    Base64RoundTrip(b);
  }

  /** The unpadded part holds digits only. */
  lemma {:induction false} DataIsDigits(a: Alphabet, bytes: seq<Byte>)
    requires Lawful(a)
    ensures forall i :: 0 <= i < |Data(a, bytes)| ==> a.value(Data(a, bytes)[i]).Some?
  {
    if |bytes| > 2 {
      DataIsDigits(a, bytes[3..]);
    }
  }

  /** Its length tells how much padding is missing. */
  lemma {:induction false} DataLength(a: Alphabet, bytes: seq<Byte>)
    ensures |Data(a, bytes)| % 4 == if |bytes| % 3 == 0 then 0 else |bytes| % 3 + 1
  {
    if |bytes| > 2 {
      DataLength(a, bytes[3..]);
      OneMoreGroup(|bytes[3..]|, |Data(a, bytes[3..])|);
    }
  }

  lemma OneMoreGroup(bytes: nat, digits: nat)
    ensures (3 + bytes) % 3 == bytes % 3 && (4 + digits) % 4 == digits % 4
  {
  }

  lemma {:induction false} ExactDataLength(a: Alphabet, bytes: seq<Byte>)
    ensures |Data(a, bytes)| == |bytes| + (|bytes| + 2) / 3
  {
    if |bytes| > 2 {
      ExactDataLength(a, bytes[3..]);
    }
  }

  // ----- what the standard says ---------------------------------------------------------------------

  /** The digits of table 1 of RFC 4648, by their code points. */
  lemma DigitsAreStandard(c: char, n: nat)
    ensures DigitValue(c) == Some(n) <==>
      || (n < 26 && c as int == 65 + n) || (26 <= n < 52 && c as int == 97 + (n - 26))
      || (52 <= n < 62 && c as int == 48 + (n - 52)) || (n == 62 && c as int == 43) || (n == 63 && c as int == 47)
    ensures DigitValue('=') == None
  {
  }

  function ByteAt(bytes: seq<Byte>, i: nat): Byte {
    if i < |bytes| then bytes[i] else 0
  }

  function Value(c: char): nat {
    if DigitValue(c).Some? then DigitValue(c).value else 0
  }

  /** Group `k` of an encoding: the 24 bits of three bytes, zeros for those that are missing, as four
      digits of six bits, with '=' for the digits that hold no bit of a byte. */
  ghost predicate GroupAt(bytes: seq<Byte>, s: string, k: int) {
    && 0 <= k && 4 * k + 3 < |s|
    && DigitValue(s[4 * k]).Some? && DigitValue(s[4 * k + 1]).Some?
    && (if 3 * k + 1 < |bytes| then DigitValue(s[4 * k + 2]).Some? else s[4 * k + 2] == '=')
    && (if 3 * k + 2 < |bytes| then DigitValue(s[4 * k + 3]).Some? else s[4 * k + 3] == '=')
    && Value(s[4 * k]) * 262144 + Value(s[4 * k + 1]) * 4096 + Value(s[4 * k + 2]) * 64 + Value(s[4 * k + 3])
       == ByteAt(bytes, 3 * k) * 65536 + ByteAt(bytes, 3 * k + 1) * 256 + ByteAt(bytes, 3 * k + 2)
  }

  lemma DigitReads(n: Sextet)
    ensures DigitValue(Digit(n)) == Some(n) && Value(Digit(n)) == n && Value('=') == 0
  {
  }

  lemma FirstGroup(bytes: seq<Byte>)
    requires bytes != []
    ensures GroupAt(bytes, Encode(bytes), 0)
  {
    var x, y, z := ByteAt(bytes, 0), ByteAt(bytes, 1), ByteAt(bytes, 2);
    DigitReads(x / 4);
    DigitReads(x % 4 * 16 + y / 16);
    DigitReads(y % 16 * 4 + z / 64);
    DigitReads(z % 64);
    BitsAdd(x, y, z);
    FirstDigits(bytes);
  }

  lemma BitsAdd(x: Byte, y: Byte, z: Byte)
    ensures x / 4 * 262144 + (x % 4 * 16 + y / 16) * 4096 + (y % 16 * 4 + z / 64) * 64 + z % 64 == x * 65536 + y * 256 + z
  {
  }

  lemma FirstDigits(bytes: seq<Byte>)
    requires bytes != []
    ensures var s, x, y, z := Encode(bytes), ByteAt(bytes, 0), ByteAt(bytes, 1), ByteAt(bytes, 2);
      && |s| >= 4 && s[0] == Digit(x / 4) && s[1] == Digit(x % 4 * 16 + y / 16)
      && s[2] == (if |bytes| > 1 then Digit(y % 16 * 4 + z / 64) else '=')
      && s[3] == if |bytes| > 2 then Digit(z % 64) else '='
  {
  }

  /** The encoding is the one of section 4 of RFC 4648, for every byte string. */
  lemma {:induction false} EncodesExactly(bytes: seq<Byte>)
    ensures |Encode(bytes)| == (|bytes| + 2) / 3 * 4
    ensures forall k :: 0 <= k < (|bytes| + 2) / 3 ==> GroupAt(bytes, Encode(bytes), k)
  {
    if bytes != [] {
      FirstGroup(bytes);
      if |bytes| >= 3 {
        EncodesExactly(bytes[3..]);
        EncodeOfThree(STANDARD, bytes);
        OneGroupMore(|bytes|);
        forall k | 1 <= k < (|bytes| + 2) / 3 ensures GroupAt(bytes, Encode(bytes), k) {
          assert GroupAt(bytes[3..], Encode(bytes[3..]), k - 1);
          ShiftGroup(bytes, Encode(bytes), k);
        }
      }
    }
  }

  lemma OneGroupMore(n: nat)
    requires n >= 3
    ensures (n + 2) / 3 == (n - 3 + 2) / 3 + 1
  {
  }

  lemma ShiftGroup(bytes: seq<Byte>, s: string, k: int)
    requires |bytes| >= 3 && |s| >= 4 && k >= 1 && GroupAt(bytes[3..], s[4..], k - 1)
    ensures GroupAt(bytes, s, k)
  {
    var t := s[4..];
    var m := 4 * (k - 1);
    assert s[4 * k] == t[m] && s[4 * k + 1] == t[m + 1] && s[4 * k + 2] == t[m + 2] && s[4 * k + 3] == t[m + 3];
    ByteOfTail(bytes, 3 * k);
    ByteOfTail(bytes, 3 * k + 1);
    ByteOfTail(bytes, 3 * k + 2);
  }

  lemma ByteOfTail(bytes: seq<Byte>, i: nat)
    requires |bytes| >= 3 && i >= 3
    ensures ByteAt(bytes, i) == ByteAt(bytes[3..], i - 3)
  {
  }

  /** Digits, and behind them one or two '=', or none. */
  predicate Padded(s: string, p: int) {
    && 0 <= p <= 2 && p <= |s|
    && (forall i :: 0 <= i < |s| - p ==> DigitValue(s[i]).Some?)
    && (forall i :: |s| - p <= i < |s| ==> s[i] == '=')
  }

  lemma OnlyGroup(s: string)
    requires |s| == 4
    ensures Group(STANDARD, s[0], s[1], s[2], s[3], true).Some? <==> Padded(s, 0) || Padded(s, 1) || Padded(s, 2)
    ensures Group(STANDARD, s[0], s[1], s[2], s[3], false).Some? <==> Padded(s, 0)
  {
  }

  lemma PaddedTail(s: string, p: int)
    requires |s| >= 8
    ensures Padded(s, p) <==> Padded(s[..4], 0) && Padded(s[4..], p)
  {
    var t := s[4..];
    assert forall i :: 4 <= i < |s| ==> s[i] == t[i - 4];
    assert forall i :: 0 <= i < |t| ==> t[i] == s[i + 4];
  }

  /** What decodes is exactly whole groups of digits with their padding. */
  lemma {:induction false} DecodesExactly(s: string)
    ensures Decode(s).Some? <==> |s| % 4 == 0 && (Padded(s, 0) || Padded(s, 1) || Padded(s, 2))
  {
    if |s| == 4 {
      OnlyGroup(s);
      assert s[4..] == "" && DecodeWith(STANDARD, "") == Some([]);
      assert DecodeWith(STANDARD, s).Some? <==> Group(STANDARD, s[0], s[1], s[2], s[3], true).Some?;
    } else if |s| > 4 {
      DecodesExactly(s[4..]);
      OnlyGroup(s[..4]);
      if |s| >= 8 {
        PaddedTail(s, 0);
        PaddedTail(s, 1);
        PaddedTail(s, 2);
      }
    }
  }

  // ----- base64url ----------------------------------------------------------------------------------

  function ToUrlChar(c: char): char {
    if c == '+' then '-' else if c == '/' then '_' else c
  }

  function FromUrlChar(c: char): char {
    if c == '-' then '+' else if c == '_' then '/' else c
  }

  function MapChars(s: string, f: char -> char): string {
    seq(|s|, i requires 0 <= i < |s| => f(s[i]))
  }

  /** `replace(/=+$/, '')`. */
  function StripPadding(s: string): string {
    if s != "" && s[|s| - 1] == '=' then StripPadding(s[..|s| - 1]) else s
  }

  function ToUrl(bytes: seq<Byte>): string {
    StripPadding(MapChars(Encode(bytes), ToUrlChar))
  }

  function FromUrl(s: string): Option<seq<Byte>> {
    var standard := MapChars(s, FromUrlChar);
    Decode(standard + match |standard| % 4 case 0 => "" case 1 => "===" case 2 => "==" case _ => "=")
  }

  /** The url form: the data digits with two of them replaced; it holds no '.', no '/', no
      ':' and no '='. */
  lemma UrlIsMappedData(bytes: seq<Byte>)
    ensures ToUrl(bytes) == MapChars(Data(STANDARD, bytes), ToUrlChar)
    ensures forall c :: c in ToUrl(bytes) ==> c != '.' && c != '/' && c != ':' && c != '='
    ensures ToUrl(bytes) == "" <==> bytes == []
  {
    StandardIsLawful();
    DataIsDigits(STANDARD, bytes);
    var data, pad := Data(STANDARD, bytes), Padding(|bytes|);
    var mapped := MapChars(data, ToUrlChar);
    MapOfConcatenation(data, pad, ToUrlChar);
    PaddingIsUnmapped(|bytes|);
    forall i | 0 <= i < |mapped| ensures mapped[i] != '=' && mapped[i] != '.' && mapped[i] != '/' && mapped[i] != ':' {
      UrlDigit(data[i]);
    }
    StripsExactly(mapped, pad);
    if bytes != [] {
      assert |data| > 0;
    }
  }

  /** Four characters for three bytes, without padding. */
  lemma UrlLength(bytes: seq<Byte>)
    ensures |ToUrl(bytes)| == |bytes| + (|bytes| + 2) / 3
  {
    UrlIsMappedData(bytes);
    ExactDataLength(STANDARD, bytes);
  }

  lemma MapOfConcatenation(s: string, t: string, f: char -> char)
    ensures MapChars(s + t, f) == MapChars(s, f) + MapChars(t, f)
  {
  }

  lemma PaddingIsUnmapped(n: nat)
    ensures MapChars(Padding(n), ToUrlChar) == Padding(n)
    ensures forall i :: 0 <= i < |Padding(n)| ==> Padding(n)[i] == '='
  {
    assert ToUrlChar('=') == '=';
    var mapped := MapChars(Padding(n), ToUrlChar);
    assert |mapped| == |Padding(n)|;
    forall i | 0 <= i < |mapped| ensures mapped[i] == Padding(n)[i] {
      assert mapped[i] == ToUrlChar(Padding(n)[i]);
    }
  }

  lemma UrlDigit(c: char)
    requires DigitValue(c).Some?
    ensures ToUrlChar(c) != '=' && ToUrlChar(c) != '.' && ToUrlChar(c) != '/' && ToUrlChar(c) != ':'
  {
  }

  lemma {:induction false} StripsExactly(s: string, pad: string)
    requires forall i :: 0 <= i < |pad| ==> pad[i] == '='
    requires s == "" || s[|s| - 1] != '='
    ensures StripPadding(s + pad) == s
    decreases |pad|
  {
    if pad == "" {
      assert s + pad == s;
    } else {
      assert (s + pad)[..|s + pad| - 1] == s + pad[..|pad| - 1];
      StripsExactly(s, pad[..|pad| - 1]);
    }
  }

  /** Section 5: the same digits but for '-' and '_', and no padding. */
  lemma UrlExactly(bytes: seq<Byte>)
    ensures var s, url := Encode(bytes), ToUrl(bytes);
      && |url| <= |s| && (forall i :: |url| <= i < |s| ==> s[i] == '=')
      && forall i :: 0 <= i < |url| ==> url[i] == (if s[i] == '+' then '-' else if s[i] == '/' then '_' else s[i])
  {
    UrlIsMappedData(bytes);
    PaddingIsUnmapped(|bytes|);
    var data, url := Data(STANDARD, bytes), ToUrl(bytes);
    assert |url| == |data| && forall i :: 0 <= i < |data| ==> url[i] == ToUrlChar(data[i]);
    assert forall i :: 0 <= i < |data| ==> Encode(bytes)[i] == data[i];
    assert forall i :: |data| <= i < |Encode(bytes)| ==> Encode(bytes)[i] == Padding(|bytes|)[i - |data|];
  }

  /** Decoding undoes encoding in the unpadded url form as well. */
  lemma UrlRoundTrip(bytes: seq<Byte>)
    ensures FromUrl(ToUrl(bytes)) == Some(bytes)
  {
    StandardIsLawful();
    DataIsDigits(STANDARD, bytes);
    DataLength(STANDARD, bytes);
    UrlIsMappedData(bytes);
    var data := Data(STANDARD, bytes);
    var back := MapChars(MapChars(data, ToUrlChar), FromUrlChar);
    forall i | 0 <= i < |data| ensures back[i] == data[i] {
      UrlCharRoundTrip(data[i]);
    }
    assert back == data;
    Base64RoundTrip(bytes);
  }

  lemma UrlCharRoundTrip(c: char)
    requires DigitValue(c).Some?
    ensures FromUrlChar(ToUrlChar(c)) == c
  {
  }

  // ----- hex ----------------------------------------------------------------------------------------

  function HexDigit(n: nat): char
    requires n < 16
  {
    if n < 10 then ('0' as int + n) as char else ('a' as int + n - 10) as char
  }

  /** `parseInt` of one digit, and the test `[0-9a-fA-F]`. */
  function Nibble(c: char): (n: Option<nat>)
    ensures n.Some? ==> n.value < 16
  {
    if '0' <= c <= '9' then Some(c as int - '0' as int)
    else if 'a' <= c <= 'f' then Some(c as int - 'a' as int + 10)
    else if 'A' <= c <= 'F' then Some(c as int - 'A' as int + 10)
    else None
  }

  function ToHex(bytes: seq<Byte>): string {
    if bytes == [] then "" else [HexDigit(bytes[0] / 16), HexDigit(bytes[0] % 16)] + ToHex(bytes[1..])
  }

  predicate ValidHex(s: string) {
    |s| % 2 == 0 && forall i :: 0 <= i < |s| ==> Nibble(s[i]).Some?
  }

  function HexValue(s: string): seq<Byte>
    requires ValidHex(s)
  {
    if s == "" then [] else [(Nibble(s[0]).value * 16 + Nibble(s[1]).value) as Byte] + HexValue(s[2..])
  }

  function LowerHex(s: string): string
    requires ValidHex(s)
  {
    seq(|s|, i requires 0 <= i < |s| => HexDigit(Nibble(s[i]).value))
  }

  /** Section 8, in lower case: two digits for each byte, the high one first. */
  predicate HexPairAt(bytes: seq<Byte>, s: string, k: int) {
    0 <= k < |bytes| && 2 * k + 1 < |s| && IsHexDigit(s[2 * k], bytes[k] / 16) && IsHexDigit(s[2 * k + 1], bytes[k] % 16)
  }

  /** The digits '0' to '9' and 'a' to 'f', by their code points. */
  predicate IsHexDigit(c: char, n: nat) {
    if n < 10 then c as int == 48 + n else n < 16 && c as int == 97 + (n - 10)
  }

  lemma {:induction false} HexExactly(bytes: seq<Byte>)
    ensures |ToHex(bytes)| == 2 * |bytes| && forall k :: 0 <= k < |bytes| ==> HexPairAt(bytes, ToHex(bytes), k)
  {
    if bytes != [] {
      HexExactly(bytes[1..]);
      var s, rest := ToHex(bytes), ToHex(bytes[1..]);
      forall k | 0 <= k < |bytes| ensures HexPairAt(bytes, s, k) {
        if k > 0 {
          assert HexPairAt(bytes[1..], rest, k - 1);
          assert s[2 * k] == rest[2 * (k - 1)] && s[2 * k + 1] == rest[2 * (k - 1) + 1];
        }
      }
    }
  }

  /** What is hex: an even number of digits of either case. */
  lemma HexIsExact(s: string)
    ensures ValidHex(s) <==>
      |s| % 2 == 0 && forall i :: 0 <= i < |s| ==> 48 <= s[i] as int <= 57 || 65 <= s[i] as int <= 70 || 97 <= s[i] as int <= 102
  {
  }

  lemma {:induction false} HexRoundTrip(bytes: seq<Byte>)
    ensures ValidHex(ToHex(bytes)) && HexValue(ToHex(bytes)) == bytes
  {
    if bytes != [] {
      HexRoundTrip(bytes[1..]);
      var s := ToHex(bytes);
      assert s[2..] == ToHex(bytes[1..]);
      forall i | 0 <= i < |s| ensures Nibble(s[i]).Some? {
        assert i >= 2 ==> s[i] == s[2..][i - 2];
      }
    }
  }

  /** Encoding what was decoded gives the text back, in lower case. */
  lemma {:induction false} HexDecodeEncode(s: string)
    requires ValidHex(s)
    ensures ToHex(HexValue(s)) == LowerHex(s)
  {
    if s != "" {
      HexDecodeEncode(s[2..]);
      var x, y := Nibble(s[0]).value, Nibble(s[1]).value;
      assert (x * 16 + y) / 16 == x && (x * 16 + y) % 16 == y;
      assert LowerHex(s) == [HexDigit(x), HexDigit(y)] + LowerHex(s[2..]);
    }
  }

  lemma {:induction false} HexValueLength(hex: string)
    requires ValidHex(hex)
    ensures 2 * |HexValue(hex)| == |hex|
  {
    if hex != "" {
      HexValueLength(hex[2..]);
    }
  }

  lemma {:induction false} HexValueAt(hex: string, k: nat)
    requires ValidHex(hex) && 2 * k + 1 < |hex|
    ensures k < |HexValue(hex)|
    ensures HexValue(hex)[k] == Nibble(hex[2 * k]).value * 16 + Nibble(hex[2 * k + 1]).value
  {
    HexValueLength(hex);
    if k > 0 {
      var rest := hex[2..];
      HexValueAt(rest, k - 1);
      assert rest[2 * (k - 1)] == hex[2 * k] && rest[2 * (k - 1) + 1] == hex[2 * k + 1];
    }
  }

  /** `fromHex`: throws exactly for text that is no hex, and fills the bytes two digits at a
      time. */
  method FromHex(hex: string) returns (bytes: array?<Byte>)
    ensures bytes == null <==> !ValidHex(hex)
    ensures bytes != null ==> fresh(bytes) && bytes[..] == HexValue(hex)
  {
    if |hex| % 2 != 0 || exists i :: 0 <= i < |hex| && Nibble(hex[i]).None? {
      return null;
    }
    ghost var value := HexValue(hex);
    HexValueLength(hex);
    bytes := new Byte[|hex| / 2];
    var i := 0;
    while i < bytes.Length
      invariant 0 <= i <= bytes.Length
      invariant forall k :: 0 <= k < i ==> bytes[k] == value[k]
    {
      HexValueAt(hex, i);
      bytes[i] := Nibble(hex[2 * i]).value * 16 + Nibble(hex[2 * i + 1]).value;
      i := i + 1;
    }
    assert bytes[..] == value;
  }

  /** `toBase64` without a Buffer: the bytes become a string of code units for `btoa`. */
  method ToBase64(bytes: seq<Byte>) returns (s: string)
    ensures s == Encode(bytes)
  {
    var binary := "";
    var i := 0;
    while i < |bytes|
      invariant 0 <= i <= |bytes| == |bytes|
      invariant |binary| == i && forall k :: 0 <= k < i ==> binary[k] as int == bytes[k]
    {
      binary := binary + [bytes[i] as char];
      i := i + 1;
    }
    var codes := seq(|binary|, k requires 0 <= k < |binary| => CodeOf(binary[k]));
    assert codes == bytes;
    s := Encode(codes);
  }

  function CodeOf(c: char): Byte {
    if (c as int) < 256 then c as int else 0
  }
}
