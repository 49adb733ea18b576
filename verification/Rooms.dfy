/** Chat rooms in the address bar: `<base64url owner>.<group name>`, percent-encoded under
    `/room/`. */
module Rooms {
  import opened Wrappers
  import opened Paths
  import opened Codecs

  // ----- UTF-8 (section 3 of RFC 3629) ------------------------------------------------------------------

  /** How many bytes follow the first one. */
  function Following(c: char): nat {
    var v := c as int;
    if v < 0x80 then 0 else if v < 0x800 then 1 else if v < 0x1_0000 then 2 else 3
  }

  /** What is left of `v` without its lowest `n` groups of six bits. */
  function Top(v: nat, n: nat): nat {
    if n == 0 then v else Top(v / 64, n - 1)
  }

  /** Those groups, highest first, as continuation bytes. */
  function Tail(v: nat, n: nat): (bytes: seq<Byte>)
    ensures |bytes| == n && forall b :: b in bytes ==> 0x80 <= b < 0xC0
  {
    if n == 0 then [] else Tail(v / 64, n - 1) + [0x80 + v % 64]
  }

  function Mark(n: nat): nat {
    if n == 0 then 0 else if n == 1 then 0xC0 else if n == 2 then 0xE0 else 0xF0
  }

  lemma FirstFits(c: char)
    ensures Top(c as int, Following(c)) < match Following(c) case 0 => 0x80 case 1 => 0x20 case 2 => 0x10 case _ => 0x08
  {
    var v := c as int;
    assert Top(v / 64, 1) == v / 64 / 64;
    assert Top(v / 64, 2) == Top(v / 64 / 64, 1) == v / 64 / 64 / 64;
  }

  function Utf8(c: char): (bytes: seq<Byte>)
    ensures bytes != []
  {
    FirstFits(c);
    [Mark(Following(c)) + Top(c as int, Following(c))] + Tail(c as int, Following(c))
  }

  /** How many bytes a first byte announces; 0 when it cannot be a first one. */
  function Announced(first: Byte): nat {
    if first < 0x80 then 1
    else if first < 0xC0 then 0
    else if first < 0xE0 then 2
    else if first < 0xF0 then 3
    else if first < 0xF8 then 4
    else 0
  }

  function FirstBits(first: Byte): nat {
    if first < 0x80 then first
    else if first < 0xC0 then 0
    else if first < 0xE0 then first - 0xC0
    else if first < 0xF0 then first - 0xE0
    else if first < 0xF8 then first - 0xF0
    else 0
  }

  /** A character that needs as many bytes as it was written with: no overlong form, no
      surrogate, nothing beyond the last plane. */
  predicate IsCharacter(v: nat, bytes: nat) {
    && (v < 0xD800 || 0xE000 <= v < 0x11_0000)
    && (bytes == 2 ==> v >= 0x80) && (bytes == 3 ==> v >= 0x800) && (bytes == 4 ==> v >= 0x1_0000)
  }

  predicate InOneByte(v: int, x: int) { v < 0x80 && x == v }

  predicate InTwoBytes(v: int, x: int, y: int) {
    0x80 <= v < 0x800 && 0xC2 <= x <= 0xDF && 0x80 <= y <= 0xBF && (x - 0xC0) * 64 + (y - 0x80) == v
  }

  predicate InThreeBytes(v: int, x: int, y: int, z: int) {
    0x800 <= v < 0x1_0000 && 0xE0 <= x <= 0xEF && 0x80 <= y <= 0xBF && 0x80 <= z <= 0xBF
    && (x - 0xE0) * 4096 + (y - 0x80) * 64 + (z - 0x80) == v
  }

  predicate InFourBytes(v: int, x: int, y: int, z: int, w: int) {
    0x1_0000 <= v && 0xF0 <= x <= 0xF4 && 0x80 <= y <= 0xBF && 0x80 <= z <= 0xBF && 0x80 <= w <= 0xBF
    && (x - 0xF0) * 262144 + (y - 0x80) * 4096 + (z - 0x80) * 64 + (w - 0x80) == v
  }

  /** The bytes of a character are those of the table in section 3 of RFC 3629. */
  lemma Utf8Exactly(c: char)
    ensures var v, b := c as int, Utf8(c);
      || (|b| == 1 && InOneByte(v, b[0]))
      || (|b| == 2 && InTwoBytes(v, b[0], b[1]))
      || (|b| == 3 && InThreeBytes(v, b[0], b[1], b[2]))
      || (|b| == 4 && InFourBytes(v, b[0], b[1], b[2], b[3]))
  {
    var v, b := c as int, Utf8(c);
    if Following(c) == 1 {
      assert Top(v, 1) == v / 64 && Tail(v, 1) == [0x80 + v % 64];
      assert b[0] == 0xC0 + v / 64;
      assert b == [0xC0 + v / 64, 0x80 + v % 64];
    } else if Following(c) == 2 {
      assert Top(v, 2) == Top(v / 64, 1) == v / 64 / 64 && Tail(v / 64, 1) == [0x80 + v / 64 % 64];
      assert b[0] == 0xE0 + v / 64 / 64;
      assert b == [0xE0 + v / 64 / 64, 0x80 + v / 64 % 64, 0x80 + v % 64];
    } else if Following(c) == 3 {
      assert Tail(v / 64 / 64, 1) == [0x80 + v / 64 / 64 % 64];
      assert Tail(v / 64, 2) == [0x80 + v / 64 / 64 % 64, 0x80 + v / 64 % 64];
      assert Top(v, 3) == Top(v / 64 / 64, 1) == v / 64 / 64 / 64;
      assert b == [0xF0 + v / 64 / 64 / 64, 0x80 + v / 64 / 64 % 64, 0x80 + v / 64 % 64, 0x80 + v % 64];
    }
  }

  // ----- percent encoding (section 2.1 of RFC 3986) ----------------------------------------------------

  /** What `encodeURIComponent` leaves as it is. */
  predicate Unreserved(c: char) {
    || 'A' <= c <= 'Z' || 'a' <= c <= 'z' || '0' <= c <= '9'
    || c in "-_.!~*'()"
  }

  function UpperHexDigit(n: nat): char
    requires n < 16
  {
    if n < 10 then ('0' as int + n) as char else ('A' as int + n - 10) as char
  }

  function EscapeBytes(bytes: seq<Byte>): string {
    if bytes == [] then ""
    else ['%', UpperHexDigit(bytes[0] / 16), UpperHexDigit(bytes[0] % 16)] + EscapeBytes(bytes[1..])
  }

  function Escape(c: char): string {
    if Unreserved(c) then [c] else EscapeBytes(Utf8(c))
  }

  function PercentEncode(s: string): string {
    if s == "" then "" else Escape(s[0]) + PercentEncode(s[1..])
  }

  function EscapedByte(s: string): Option<Byte> {
    if |s| < 3 || s[0] != '%' || Nibble(s[1]).None? || Nibble(s[2]).None? then None
    else Some(Nibble(s[1]).value * 16 + Nibble(s[2]).value)
  }

  /** Reads `n` escaped continuation bytes, six bits each, behind the bits read so far. */
  function Continued(s: string, n: nat, bits: nat): Option<nat>
    decreases n
  {
    if n == 0 then Some(bits)
    else
      match EscapedByte(s)
      case Some(b) => if 0x80 <= b < 0xC0 then Continued(s[3..], n - 1, bits * 64 + b % 64) else None
      case None => None
  }

  /** The escaped character at the start of `s`, and how much of `s` it takes. */
  function EscapedChar(s: string): (r: Option<(char, nat)>)
    ensures r.Some? ==> 0 < r.value.1 <= |s|
  {
    match EscapedByte(s)
    case None => None
    case Some(first) =>
      var n := Announced(first);
      if n == 0 || |s| < 3 * n then None
      else
        match Continued(s[3..], n - 1, FirstBits(first))
        case Some(v) => if IsCharacter(v, n) then Some((v as char, 3 * n)) else None
        case None => None
  }

  /** `decodeURIComponent`; it throws on a `%` that does not begin a well-formed character. */
  function PercentDecode(s: string): Option<string> {
    if s == "" then Some("")
    else if s[0] != '%' then Prepended(s[0], PercentDecode(s[1..]))
    else
      match EscapedChar(s)
      case None => None
      case Some((c, used)) => Prepended(c, PercentDecode(s[used..]))
  }

  function Prepended(c: char, rest: Option<string>): Option<string> {
    match rest
    case None => None
    case Some(text) => Some([c] + text)
  }

  /** An upper-case hex digit, by its code point. */
  predicate IsUpperHexDigit(c: char, n: nat) {
    if n < 10 then c as int == 48 + n else n < 16 && c as int == 65 + (n - 10)
  }

  predicate EscapeAt(bytes: seq<Byte>, s: string, k: int) {
    0 <= k < |bytes| && 3 * k + 2 < |s| && s[3 * k] as int == 37
    && IsUpperHexDigit(s[3 * k + 1], bytes[k] / 16) && IsUpperHexDigit(s[3 * k + 2], bytes[k] % 16)
  }

  lemma {:induction false} EscapeBytesExactly(bytes: seq<Byte>)
    ensures |EscapeBytes(bytes)| == 3 * |bytes| && forall k :: 0 <= k < |bytes| ==> EscapeAt(bytes, EscapeBytes(bytes), k)
  {
    if bytes != [] {
      EscapeBytesExactly(bytes[1..]);
      var s, rest := EscapeBytes(bytes), EscapeBytes(bytes[1..]);
      forall k | 0 <= k < |bytes| ensures EscapeAt(bytes, s, k) {
        if k > 0 {
          assert EscapeAt(bytes[1..], rest, k - 1);
          var m := 3 * (k - 1);
          assert s[3 * k] == rest[m] && s[3 * k + 1] == rest[m + 1] && s[3 * k + 2] == rest[m + 2];
        }
      }
    }
  }

  /** What is escaped: all but letters, digits and nine marks, each as the bytes of its UTF-8 form,
      every byte as '%' and two upper-case hex digits. */
  lemma EscapesExactly(c: char)
    ensures var v := c as int;
      var plain := 65 <= v <= 90 || 97 <= v <= 122 || 48 <= v <= 57
        || v == 45 || v == 95 || v == 46 || v == 33 || v == 126 || v == 42 || v == 39 || v == 40 || v == 41;
      if plain then Escape(c) == [c]
      else |Escape(c)| == 3 * |Utf8(c)| && forall k :: 0 <= k < |Utf8(c)| ==> EscapeAt(Utf8(c), Escape(c), k)
  {
    EscapeBytesExactly(Utf8(c));
  }

  lemma EscapedByteIsRead(b: Byte, rest: string)
    ensures var s := ['%', UpperHexDigit(b / 16), UpperHexDigit(b % 16)] + rest;
      EscapedByte(s) == Some(b) && s[3..] == rest
  {
  }

  lemma {:induction false} EscapedLength(bytes: seq<Byte>)
    ensures |EscapeBytes(bytes)| == 3 * |bytes|
    ensures '/' !in EscapeBytes(bytes)
  {
    if bytes != [] {
      EscapedLength(bytes[1..]);
    }
  }

  function Joined(bits: nat, bytes: seq<Byte>): nat
    decreases |bytes|
  {
    if bytes == [] then bits else Joined(bits * 64 + bytes[0] % 64, bytes[1..])
  }

  lemma {:induction false} ContinuedIsJoined(bytes: seq<Byte>, rest: string, bits: nat)
    requires forall b :: b in bytes ==> 0x80 <= b < 0xC0
    ensures Continued(EscapeBytes(bytes) + rest, |bytes|, bits) == Some(Joined(bits, bytes))
  {
    if bytes != [] {
      assert bytes[0] in bytes && forall b :: b in bytes[1..] ==> b in bytes;
      var tail := EscapeBytes(bytes[1..]) + rest;
      EscapedByteIsRead(bytes[0], tail);
      assert EscapeBytes(bytes) + rest == ['%', UpperHexDigit(bytes[0] / 16), UpperHexDigit(bytes[0] % 16)] + tail;
      ContinuedIsJoined(bytes[1..], rest, bits * 64 + bytes[0] % 64);
    }
  }

  lemma {:induction false} JoinedAppend(bits: nat, bytes: seq<Byte>, b: Byte)
    ensures Joined(bits, bytes + [b]) == Joined(bits, bytes) * 64 + b % 64
    decreases |bytes|
  {
    if bytes == [] {
      assert (bytes + [b])[1..] == [];
    } else {
      assert (bytes + [b])[1..] == bytes[1..] + [b];
      JoinedAppend(bits * 64 + bytes[0] % 64, bytes[1..], b);
    }
  }

  lemma {:induction false} TailCarries(v: nat, n: nat)
    ensures Joined(Top(v, n), Tail(v, n)) == v
  {
    if n > 0 {
      TailCarries(v / 64, n - 1);
      JoinedAppend(Top(v, n), Tail(v / 64, n - 1), 0x80 + v % 64);
    }
  }

  /** The bytes of a character announce their number and carry all its bits. */
  lemma Utf8Carries(c: char)
    ensures var bytes := Utf8(c);
      && Announced(bytes[0]) == |bytes| && IsCharacter(c as int, |bytes|)
      && (forall b :: b in bytes[1..] ==> 0x80 <= b < 0xC0)
      && Joined(FirstBits(bytes[0]), bytes[1..]) == c as int
  {
    FirstFits(c);
    TailCarries(c as int, Following(c));
    assert Utf8(c)[1..] == Tail(c as int, Following(c));
    assert FirstBits(Utf8(c)[0]) == Top(c as int, Following(c));
  }

  lemma EscapedCharIsRead(c: char, rest: string)
    ensures EscapedChar(EscapeBytes(Utf8(c)) + rest) == Some((c, |EscapeBytes(Utf8(c))|))
  {
    var bytes := Utf8(c);
    var tail := EscapeBytes(bytes[1..]) + rest;
    Utf8Carries(c);
    EscapedLength(bytes);
    EscapedByteIsRead(bytes[0], tail);
    assert EscapeBytes(bytes) + rest == ['%', UpperHexDigit(bytes[0] / 16), UpperHexDigit(bytes[0] % 16)] + tail;
    ContinuedIsJoined(bytes[1..], rest, FirstBits(bytes[0]));
  }

  // ----- what decodes ----------------------------------------------------------------------------------

  /** `s` begins with these bytes, escaped, with hex digits of either case. */
  ghost predicate EscapesAs(s: string, bytes: seq<Byte>) {
    3 * |bytes| <= |s| && forall j :: 0 <= j < |bytes| ==> ByteIsAt(s, bytes, j)
  }

  predicate ByteIsAt(s: string, bytes: seq<Byte>, j: int) {
    0 <= j < |bytes| && 3 * j <= |s| && EscapedByte(s[3 * j..]) == Some(bytes[j])
  }

  lemma EscapesTail(s: string, bytes: seq<Byte>)
    requires bytes != [] && |s| >= 3
    ensures EscapesAs(s, bytes) <==> EscapedByte(s) == Some(bytes[0]) && EscapesAs(s[3..], bytes[1..])
  {
    assert s[0..] == s;
    forall j | 1 <= j < |bytes| && 3 * j <= |s| ensures ByteIsAt(s, bytes, j) <==> ByteIsAt(s[3..], bytes[1..], j - 1) {
      assert s[3 * j..] == s[3..][3 * (j - 1)..];
    }
    forall j | 0 <= j < |bytes[1..]| && 3 * |bytes| <= |s| ensures ByteIsAt(s, bytes, j + 1) <==> ByteIsAt(s[3..], bytes[1..], j) {
      assert s[3 * (j + 1)..] == s[3..][3 * j..];
    }
    assert ByteIsAt(s, bytes, 0) <==> EscapedByte(s) == Some(bytes[0]);
  }

  /** The bytes that a successful continuation has read. */
  lemma {:induction false} ContinuedBytes(s: string, n: nat, bits: nat) returns (bytes: seq<Byte>)
    requires Continued(s, n, bits).Some?
    ensures |bytes| == n && EscapesAs(s, bytes) && Continued(s, n, bits) == Some(Joined(bits, bytes))
    ensures forall b :: b in bytes ==> 0x80 <= b < 0xC0
    decreases n
  {
    if n == 0 {
      bytes := [];
    } else {
      var b := EscapedByte(s).value;
      var rest := ContinuedBytes(s[3..], n - 1, bits * 64 + b % 64);
      bytes := [b] + rest;
      assert bytes[1..] == rest;
      EscapesTail(s, bytes);
    }
  }

  lemma {:induction false} ContinuedReads(s: string, bytes: seq<Byte>, bits: nat)
    requires EscapesAs(s, bytes) && forall b :: b in bytes ==> 0x80 <= b < 0xC0
    ensures Continued(s, |bytes|, bits) == Some(Joined(bits, bytes))
    decreases |bytes|
  {
    if bytes != [] {
      assert bytes[0] in bytes && forall b :: b in bytes[1..] ==> b in bytes;
      EscapesTail(s, bytes);
      ContinuedReads(s[3..], bytes[1..], bits * 64 + bytes[0] % 64);
    }
  }

  /** Joined bits come apart again in one way only. */
  lemma {:induction false} JoinedIsTail(bits: nat, bytes: seq<Byte>)
    requires forall b :: b in bytes ==> 0x80 <= b < 0xC0
    ensures Tail(Joined(bits, bytes), |bytes|) == bytes && Top(Joined(bits, bytes), |bytes|) == bits
    decreases |bytes|
  {
    if bytes != [] {
      var n := |bytes| - 1;
      var init, b := bytes[..n], bytes[n];
      assert bytes == init + [b] && b in bytes && forall x :: x in init ==> x in bytes;
      JoinedIsTail(bits, init);
      JoinedAppend(bits, init, b);
      var v := Joined(bits, bytes);
      assert v == Joined(bits, init) * 64 + b % 64;
      assert v / 64 == Joined(bits, init) && v % 64 == b % 64 && b == 0x80 + b % 64;
    }
  }

  lemma OnlyForm(first: Byte, tail: seq<Byte>)
    requires Announced(first) == |tail| + 1 && forall b :: b in tail ==> 0x80 <= b < 0xC0
    requires IsCharacter(Joined(FirstBits(first), tail), |tail| + 1)
    ensures Utf8(Joined(FirstBits(first), tail) as char) == [first] + tail
  {
    var v := Joined(FirstBits(first), tail);
    JoinedIsTail(FirstBits(first), tail);
    RangeOfTop(v, |tail|);
    assert Following(v as char) == |tail|;
    assert first == Mark(|tail|) + FirstBits(first);
  }

  lemma RangeOfTop(v: nat, n: nat)
    requires n <= 3
    ensures n == 0 ==> Top(v, n) == v
    ensures n == 1 ==> Top(v, n) == v / 64
    ensures n == 2 ==> Top(v, n) == v / 64 / 64
    ensures n == 3 ==> Top(v, n) == v / 64 / 64 / 64
  {
    if n == 2 {
      assert Top(v, 2) == Top(v / 64, 1);
    } else if n == 3 {
      assert Top(v, 3) == Top(v / 64, 2) == Top(v / 64 / 64, 1);
    }
  }

  /** A character is read exactly from its one UTF-8 form: truncated and overlong forms, surrogates,
      stray continuation bytes and what is beyond the last plane are refused. */
  lemma EscapedCharExactly(s: string, c: char)
    ensures EscapedChar(s) == Some((c, 3 * |Utf8(c)|)) <==> EscapesAs(s, Utf8(c))
    ensures EscapedChar(s).Some? && EscapedChar(s).value.0 == c ==> EscapedChar(s).value.1 == 3 * |Utf8(c)|
  {
    if EscapedChar(s).Some? && EscapedChar(s).value.0 == c {
      var first := EscapedByte(s).value;
      var n := Announced(first);
      var tail := ContinuedBytes(s[3..], n - 1, FirstBits(first));
      OnlyForm(first, tail);
      assert ([first] + tail)[1..] == tail;
      EscapesTail(s, [first] + tail);
    }
    if EscapesAs(s, Utf8(c)) {
      Utf8Carries(c);
      EscapesTail(s, Utf8(c));
      ContinuedReads(s[3..], Utf8(c)[1..], FirstBits(Utf8(c)[0]));
    }
  }

  /** How a text is read: a character other than '%' stands for itself, a '%' begins the escaped form
      of a character, and where it begins none decoding throws. */
  lemma DecodesStepwise(s: string)
    requires s != ""
    ensures s[0] != '%' ==> PercentDecode(s) == Prepended(s[0], PercentDecode(s[1..]))
    ensures s[0] == '%' ==> forall c :: EscapesAs(s, Utf8(c)) ==>
      PercentDecode(s) == Prepended(c, PercentDecode(s[3 * |Utf8(c)|..]))
    ensures s[0] == '%' && (forall c :: !EscapesAs(s, Utf8(c))) ==> PercentDecode(s) == None
  {
    forall c | EscapesAs(s, Utf8(c)) ensures EscapedChar(s) == Some((c, 3 * |Utf8(c)|)) {
      EscapedCharExactly(s, c);
    }
    if EscapedChar(s).Some? {
      EscapedCharExactly(s, EscapedChar(s).value.0);
    }
  }

  lemma EscapeIsUndone(c: char, rest: string)
    ensures PercentDecode(Escape(c) + rest) == Prepended(c, PercentDecode(rest))
    ensures '/' !in Escape(c) && Escape(c) != ""
  {
    var s := Escape(c) + rest;
    EscapedLength(Utf8(c));
    if Unreserved(c) {
      assert s[1..] == rest;
    } else {
      EscapedCharIsRead(c, rest);
      assert s[|Escape(c)|..] == rest;
    }
  }

  /** Decoding undoes encoding for every text, and the encoded form holds no slash. */
  lemma {:induction false} PercentRoundTrip(s: string)
    ensures PercentDecode(PercentEncode(s)) == Some(s)
    ensures '/' !in PercentEncode(s)
    ensures s != "" ==> PercentEncode(s) != ""
  {
    if s != "" {
      PercentRoundTrip(s[1..]);
      EscapeIsUndone(s[0], PercentEncode(s[1..]));
      assert s == [s[0]] + s[1..];
    }
  }

  // ----- room ids -------------------------------------------------------------------------------------

  datatype Room = Room(owner: seq<Byte>, name: string)

  function EncodeRoomId(room: Room): string {
    ToUrl(room.owner) + "." + room.name
  }

  function DecodeRoomId(id: string): Option<Room> {
    var i := IndexOf(id, '.');
    if i == |id| || i < 1 then None
    else
      match FromUrl(id[..i])
      case None => None
      case Some(owner) => Some(Room(owner, id[i + 1..]))
  }

  lemma {:induction false} FirstDot(s: string, t: string)
    requires '.' !in s
    ensures IndexOf(s + "." + t, '.') == |s|
  {
    var all := s + "." + t;
    if s != "" {
      assert all[1..] == s[1..] + "." + t && all[0] == s[0];
      FirstDot(s[1..], t);
    }
  }

  /** A room id decodes to the room it was made from exactly when the owner key is not empty;
      the name may be anything, dots and slashes included. */
  lemma RoomIdRoundTrip(room: Room)
    ensures DecodeRoomId(EncodeRoomId(room)) == if room.owner != [] then Some(room) else None
  {
    UrlIsMappedData(room.owner);
    UrlRoundTrip(room.owner);
    var owner := ToUrl(room.owner);
    FirstDot(owner, room.name);
    assert EncodeRoomId(room)[..|owner|] == owner;
    assert EncodeRoomId(room)[|owner| + 1..] == room.name;
  }

  /** What is a room id: an owner key that decodes, up to the first dot, and behind that the name. */
  lemma RoomIdExactly(id: string, i: nat)
    requires i < |id| && id[i] == '.' && '.' !in id[..i]
    ensures DecodeRoomId(id).Some? <==> i > 0 && FromUrl(id[..i]).Some?
    ensures DecodeRoomId(id).Some? ==>
      FromUrl(id[..i]) == Some(DecodeRoomId(id).value.owner) && DecodeRoomId(id).value.name == id[i + 1..]
  {
    IndexIsFirst(id, '.', i);
  }

  lemma NoDotNoRoom(id: string)
    requires '.' !in id
    ensures DecodeRoomId(id) == None
  {
  }

  /** `parseRoomSubPath`: one slash-free segment after `/room/`, with or without a final
      slash. `None` when decoding the percent escapes throws; otherwise the room or null. */
  function ParseRoomSubPath(subPath: string): Option<Option<Room>> {
    if !("/room/" <= subPath) then Some(None)
    else
      var rest := subPath[6..];
      var i := IndexOf(rest, '/');
      if i == 0 || i < |rest| - 1 then Some(None)
      else
        match PercentDecode(rest[..i])
        case None => None
        case Some(id) => Some(DecodeRoomId(id))
  }

  /** The path that the chat navigates to leads back to the room, for every non-empty owner
      key and every group name. */
  lemma RoomPathRoundTrip(room: Room, slash: bool)
    ensures ParseRoomSubPath("/room/" + PercentEncode(EncodeRoomId(room)) + if slash then "/" else "")
      == Some(if room.owner != [] then Some(room) else None)
  {
    var id := EncodeRoomId(room);
    PercentRoundTrip(id);
    RoomIdRoundTrip(room);
    ParseOfSegment(PercentEncode(id), if slash then "/" else "");
  }

  /** Every other path is no room's: what is read is one slash-free segment behind `/room/`, with or
      without a final slash. */
  lemma OnlyRoomPaths(subPath: string)
    ensures ParseRoomSubPath(subPath) != Some(None) ==>
      exists segment :: segment != "" && '/' !in segment
        && (subPath == "/room/" + segment || subPath == "/room/" + segment + "/")
  {
    if "/room/" <= subPath {
      var rest := subPath[6..];
      var i := IndexOf(rest, '/');
      assert subPath == "/room/" + rest;
      if i > 0 && i >= |rest| - 1 {
        assert rest == rest[..i] || rest == rest[..i] + "/";
        assert subPath == "/room/" + rest[..i] || subPath == "/room/" + rest[..i] + "/";
      }
    }
  }

  lemma ParseOfSegment(segment: string, end: string)
    requires segment != "" && '/' !in segment && (end == "" || end == "/")
    ensures ParseRoomSubPath("/room/" + segment + end)
      == match PercentDecode(segment) case None => None case Some(id) => Some(DecodeRoomId(id))
  {
    var rest := segment + end;
    assert "/room/" + segment + end == "/room/" + rest;
    assert ("/room/" + rest)[6..] == rest;
    FirstSlash(segment, end);
    assert rest[..|segment|] == segment;
  }

  lemma {:induction false} FirstSlash(s: string, end: string)
    requires '/' !in s && (end == "" || end == "/")
    ensures IndexOf(s + end, '/') == |s|
  {
    if s == "" {
      assert s + end == end;
    } else {
      assert (s + end)[1..] == s[1..] + end && (s + end)[0] == s[0];
      FirstSlash(s[1..], end);
    }
  }
}
