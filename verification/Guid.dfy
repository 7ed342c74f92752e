/** The GUID codec of backend/app/providers/active_directory.py: a directory stores 16 bytes in little-endian field
    order, the program uses the usual text form, and a search filter spells the bytes as escaped octets. */
module Guid {
  import opened Wrappers

  type Byte = b: int | 0 <= b < 256

  type Raw = s: seq<Byte> | |s| == 16 witness [0, 0, 0, 0, 0, 0, 0, 0, 0, 0, 0, 0, 0, 0, 0, 0]

  function HexChar(n: nat): char
    requires n < 16
  {
    "0123456789abcdef"[n]
  }

  function LowerLetter(c: char): char {
    if 'A' <= c <= 'Z' then ((c as int) + 32) as char else c
  }

  function HexValue(c: char): Option<nat> {
    if '0' <= c <= '9' then Some((c as int) - ('0' as int))
    else if 'a' <= c <= 'f' then Some((c as int) - ('a' as int) + 10)
    else if 'A' <= c <= 'F' then Some((c as int) - ('A' as int) + 10)
    else None
  }

  lemma HexCharReadsBack(n: nat)
    requires n < 16
    ensures HexValue(HexChar(n)) == Some(n) && HexChar(n) != '-' && HexChar(n) != '\\'
    ensures HexChar(n) != '{' && HexChar(n) != '}' && LowerLetter(HexChar(n)) == HexChar(n)
  {
  }

  function HexByte(b: Byte): string { [HexChar(b / 16), HexChar(b % 16)] }

  function HexBytes(bytes: seq<Byte>): string {
    if bytes == [] then "" else HexByte(bytes[0]) + HexBytes(bytes[1..])
  }

  function ReadHexBytes(text: string): Option<seq<Byte>> {
    if text == "" then Some([])
    else if |text| == 1 then None
    else
      match (HexValue(text[0]), HexValue(text[1]), ReadHexBytes(text[2..]))
      case (Some(high), Some(low), Some(rest)) =>
        if high < 16 && low < 16 then Some([16 * high + low] + rest) else None
      case _ => None
  }

  lemma HexByteReadsBack(b: Byte, rest: string)
    ensures ReadHexBytes(HexByte(b) + rest)
            == match ReadHexBytes(rest) case Some(bytes) => Some([b] + bytes) case None => None
  {
    HexCharReadsBack(b / 16);
    HexCharReadsBack(b % 16);
    var text := HexByte(b) + rest;
    assert text[2..] == rest && text[0] == HexChar(b / 16) && text[1] == HexChar(b % 16);
    assert 16 * (b / 16) + b % 16 == b;
  }

  lemma {:induction false} HexBytesReadBack(bytes: seq<Byte>)
    ensures |HexBytes(bytes)| == 2 * |bytes| && ReadHexBytes(HexBytes(bytes)) == Some(bytes)
  {
    if bytes != [] {
      HexBytesReadBack(bytes[1..]);
      HexByteReadsBack(bytes[0], HexBytes(bytes[1..]));
      hide HexByte;
      assert bytes == [bytes[0]] + bytes[1..];
    }
  }

  // ----- the two byte orders

  /** `uuid.bytes_le`: the first three fields are stored with their bytes reversed. It is its own inverse. */
  function SwapFields(b: Raw): Raw {
    [b[3], b[2], b[1], b[0], b[5], b[4], b[7], b[6]] + b[8..]
  }

  lemma SwapTwice(b: Raw)
    ensures SwapFields(SwapFields(b)) == b
  {
    var c := SwapFields(b);
    assert c[8..] == b[8..];
  }

  /** The number some bytes stand for, most significant byte first. */
  function BigEndian(bytes: seq<Byte>): nat {
    if bytes == [] then 0 else 256 * BigEndian(bytes[..|bytes| - 1]) + bytes[|bytes| - 1]
  }

  /** The number some bytes stand for, least significant byte first. */
  function LittleEndian(bytes: seq<Byte>): nat {
    if bytes == [] then 0 else bytes[0] + 256 * LittleEndian(bytes[1..])
  }

  /** The number some hexadecimal digits write. */
  function HexNumber(digits: string): nat {
    if digits == "" then 0
    else 16 * HexNumber(digits[..|digits| - 1]) + HexValue(digits[|digits| - 1]).GetOr(0)
  }

  /** Byte n is written by digits 2n and 2n + 1. */
  lemma {:induction false} DigitsOfByte(text: string, bytes: seq<Byte>, n: nat)
    requires ReadHexBytes(text) == Some(bytes)
    ensures |text| == 2 * |bytes|
    ensures n < |bytes| ==> HexValue(text[2 * n]).Some? && HexValue(text[2 * n + 1]).Some?
                            && bytes[n] == 16 * HexValue(text[2 * n]).value + HexValue(text[2 * n + 1]).value
  {
    if text != "" {
      assert bytes[1..] == ReadHexBytes(text[2..]).value;
      DigitsOfByte(text[2..], bytes[1..], if n > 0 then n - 1 else 0);
    }
  }

  lemma TwoMoreDigits(digits: string, c: char, d: char)
    ensures HexNumber(digits + [c, d]) == 256 * HexNumber(digits) + 16 * HexValue(c).GetOr(0) + HexValue(d).GetOr(0)
  {
    hide HexValue;
    var all := digits + [c, d];
    assert all[..|all| - 1] == digits + [c] && (digits + [c])[..|digits|] == digits;
  }

  lemma OneMoreByte(bytes: seq<Byte>, b: Byte)
    ensures BigEndian(bytes + [b]) == 256 * BigEndian(bytes) + b
  {
    assert (bytes + [b])[..|bytes|] == bytes;
  }

  /** Digits read as bytes write the same numbers. */
  lemma {:induction false} DigitsOfPart(digits: string, bytes: seq<Byte>, i: nat, j: nat)
    requires ReadHexBytes(digits) == Some(bytes) && i <= j <= |bytes|
    ensures |digits| == 2 * |bytes| && HexNumber(digits[2 * i..2 * j]) == BigEndian(bytes[i..j])
  {
    DigitsOfByte(digits, bytes, if i < j then j - 1 else 0);
    if i < j {
      hide ReadHexBytes, HexValue, HexNumber, BigEndian;
      DigitsOfPart(digits, bytes, i, j - 1);
      var k := 2 * j - 2;
      TwoMoreDigits(digits[2 * i..k], digits[k], digits[k + 1]);
      OneMoreByte(bytes[i..j - 1], bytes[j - 1]);
      assert digits[2 * i..2 * j] == digits[2 * i..k] + [digits[k], digits[k + 1]];
      assert bytes[i..j] == bytes[i..j - 1] + [bytes[j - 1]];
    }
  }

  lemma HexBytesWriteNumber(bytes: seq<Byte>)
    ensures HexNumber(HexBytes(bytes)) == BigEndian(bytes)
  {
    HexBytesReadBack(bytes);
    DigitsOfPart(HexBytes(bytes), bytes, 0, |bytes|);
    assert HexBytes(bytes)[0..2 * |bytes|] == HexBytes(bytes) && bytes[0..|bytes|] == bytes;
  }

  /** The two byte orders of the first three fields, and one order of the last eight bytes: the octets of a stored GUID
      and the numbers its text form writes. */
  predicate SameGuid(octets: seq<Byte>, text: string) {
    && |octets| == 16 && |text| == 32
    && LittleEndian(octets[..4]) == HexNumber(text[..8]) && LittleEndian(octets[4..6]) == HexNumber(text[8..12])
    && LittleEndian(octets[6..8]) == HexNumber(text[12..16]) && BigEndian(octets[8..]) == HexNumber(text[16..])
  }

  // ----- the text form

  /** Groups of bytes in hexadecimal, joined by hyphens. */
  function Hyphenated(groups: seq<seq<Byte>>): string {
    if groups == [] then ""
    else if |groups| == 1 then HexBytes(groups[0])
    else HexBytes(groups[0]) + "-" + Hyphenated(groups[1..])
  }

  function Fields(b: Raw): seq<seq<Byte>> { [b[..4], b[4..6], b[6..8], b[8..10], b[10..]] }

  /** The text form of the bytes in network order: 8-4-4-4-12 lower-case hexadecimal digits. */
  function Text(b: Raw): string { Hyphenated(Fields(b)) }

  function Flatten(groups: seq<seq<Byte>>): seq<Byte> {
    if groups == [] then [] else groups[0] + Flatten(groups[1..])
  }

  lemma FieldsFlatten(b: Raw)
    ensures Flatten(Fields(b)) == b
  {
    var g := Fields(b);
    assert Flatten(g[4..]) == b[10..];
    assert Flatten(g[3..]) == b[8..10] + Flatten(g[3..][1..]) && g[3..][1..] == g[4..];
    assert Flatten(g[2..]) == b[6..8] + Flatten(g[2..][1..]) && g[2..][1..] == g[3..];
    assert Flatten(g[1..]) == b[4..6] + Flatten(g[1..][1..]) && g[1..][1..] == g[2..];
  }

  lemma Associates(a: string, b: string, c: string)
    ensures a + (b + c) == (a + b) + c
  {
  }

  // ----- reading it back

  function StripBracesLeft(text: string): string {
    if text != "" && (text[0] == '{' || text[0] == '}') then StripBracesLeft(text[1..]) else text
  }

  function StripBracesRight(text: string): string {
    if text != "" && (text[|text| - 1] == '{' || text[|text| - 1] == '}') then StripBracesRight(text[..|text| - 1])
    else text
  }

  /** Braces taken off both ends. */
  function StripBraces(text: string): string { StripBracesRight(StripBracesLeft(text)) }

  /** The text without its hyphens. */
  function Bare(text: string): string {
    if text == "" then "" else (if text[0] == '-' then "" else [text[0]]) + Bare(text[1..])
  }

  lemma {:induction false} BareConcat(a: string, b: string)
    ensures Bare(a + b) == Bare(a) + Bare(b)
  {
    if a == "" {
      assert a + b == b;
    } else {
      BareConcat(a[1..], b);
      var head := if a[0] == '-' then "" else [a[0]];
      assert (a + b)[0] == a[0] && (a + b)[1..] == a[1..] + b;
      assert Bare(a + b) == head + Bare(a[1..] + b) && Bare(a) == head + Bare(a[1..]);
      hide Bare;
      Associates(head, Bare(a[1..]), Bare(b));
    }
  }

  lemma {:induction false} BareHex(bytes: seq<Byte>)
    ensures Bare(HexBytes(bytes)) == HexBytes(bytes)
  {
    if bytes != [] {
      BareHex(bytes[1..]);
      HexCharReadsBack(bytes[0] / 16);
      HexCharReadsBack(bytes[0] % 16);
      var text := HexBytes(bytes);
      assert text[1..][0] == HexChar(bytes[0] % 16) && text[1..][1..] == HexBytes(bytes[1..]);
      assert Bare(text) == [text[0]] + Bare(text[1..]);
    }
  }

  lemma {:induction false} HexBytesConcat(a: seq<Byte>, b: seq<Byte>)
    ensures HexBytes(a + b) == HexBytes(a) + HexBytes(b)
  {
    if a == [] {
      assert a + b == b;
    } else {
      HexBytesConcat(a[1..], b);
      assert (a + b)[0] == a[0] && (a + b)[1..] == a[1..] + b;
      var head, x, y := HexByte(a[0]), HexBytes(a[1..]), HexBytes(b);
      assert HexBytes(a) == head + x && HexBytes(a + b) == head + (x + y);
      hide HexBytes, HexByte;
      Associates(head, x, y);
    }
  }

  /** `uuid.UUID(text)`: 32 hexadecimal digits once outer braces and hyphens are gone. */
  function Parse(text: string): Option<Raw> {
    match ReadHexBytes(Bare(StripBraces(text)))
    case Some(bytes) => if |bytes| == 16 then Some(bytes) else None
    case None => None
  }

  lemma BareGroup(group: seq<Byte>, rest: string)
    ensures Bare(HexBytes(group) + "-" + rest) == HexBytes(group) + Bare(rest)
  {
    BareHex(group);
    assert Bare("-") == "" + Bare("-"[1..]);
    BareConcat(HexBytes(group), "-");
    BareConcat(HexBytes(group) + "-", rest);
    hide Bare, HexBytes;
    assert HexBytes(group) + "" == HexBytes(group);
  }

  lemma {:induction false} BareHyphenated(groups: seq<seq<Byte>>)
    ensures Bare(Hyphenated(groups)) == HexBytes(Flatten(groups))
  {
    hide Bare, HexBytes;
    if groups == [] {
      BareHex([]);
      NoBytes();
    } else if |groups| == 1 {
      BareHex(groups[0]);
      assert Flatten(groups) == groups[0];
    } else {
      BareHyphenated(groups[1..]);
      BareGroup(groups[0], Hyphenated(groups[1..]));
      HexBytesConcat(groups[0], Flatten(groups[1..]));
    }
  }

  lemma NoBytes()
    ensures HexBytes([]) == ""
  {
  }

  // ----- cleaning

  function LowerAll(text: string): string {
    if text == "" then "" else [LowerLetter(text[0])] + LowerAll(text[1..])
  }

  /** What the LDAP library hands over: raw bytes, or text in braces. */
  datatype Attribute = Bytes(raw: Raw) | Braced(text: string)

  /** `_clean_guid`. */
  function CleanGuid(a: Attribute): string {
    match a
    case Bytes(raw) => Text(SwapFields(raw))
    case Braced(text) => LowerAll(StripBraces(text))
  }

  /** Only the characters of a canonical GUID. */
  predicate Canonical(text: string) {
    forall i :: 0 <= i < |text| ==> text[i] != '{' && text[i] != '}' && LowerLetter(text[i]) == text[i]
  }

  lemma {:induction false} CanonicalHex(bytes: seq<Byte>)
    ensures Canonical(HexBytes(bytes))
  {
    if bytes != [] {
      CanonicalHex(bytes[1..]);
      HexCharReadsBack(bytes[0] / 16);
      HexCharReadsBack(bytes[0] % 16);
    }
  }

  lemma {:induction false} CanonicalHyphenated(groups: seq<seq<Byte>>)
    ensures Canonical(Hyphenated(groups))
  {
    if groups != [] {
      CanonicalHex(groups[0]);
      CanonicalHyphenated(groups[1..]);
    }
  }

  lemma CanonicalText(b: Raw)
    ensures Canonical(Text(b)) && Text(b) != ""
  {
    CanonicalHyphenated(Fields(b));
    HexBytesReadBack(b[..4]);
  }

  /** The text form is 32 lower-case digits in groups of 8, 4, 4, 4 and 12, and is read back to the same bytes. */
  lemma TextReadsBack(b: Raw)
    ensures Parse(Text(b)) == Some(b)
    ensures var t := Text(b);
            && |t| == 36 && t[8] == t[13] == t[18] == t[23] == '-' && Canonical(t)
            && t[..8] == HexBytes(b[..4]) && t[9..13] == HexBytes(b[4..6]) && t[14..18] == HexBytes(b[6..8])
            && t[19..23] == HexBytes(b[8..10]) && t[24..] == HexBytes(b[10..])
  {
    CanonicalText(b);
    BareHyphenated(Fields(b));
    FieldsFlatten(b);
    HexBytesReadBack(b);
    TextLayout(b);
  }

  lemma TextLayout(b: Raw)
    ensures var t := Text(b);
            && |t| == 36 && t[8] == t[13] == t[18] == t[23] == '-'
            && t[..8] == HexBytes(b[..4]) && t[9..13] == HexBytes(b[4..6]) && t[14..18] == HexBytes(b[6..8])
            && t[19..23] == HexBytes(b[8..10]) && t[24..] == HexBytes(b[10..])
  {
    var g := Fields(b);
    forall i | 0 <= i < 5
      ensures |HexBytes(g[i])| == 2 * |g[i]|
    {
      HexBytesReadBack(g[i]);
    }
    hide HexBytes, Fields;
    var t3 := HexBytes(g[3]) + "-" + HexBytes(g[4]);
    assert Hyphenated(g[3..]) == t3 by {
      assert g[3..][1..] == [g[4]] && g[3..][0] == g[3];
    }
    var t2 := HexBytes(g[2]) + "-" + t3;
    assert Hyphenated(g[2..]) == t2 by {
      assert g[2..][1..] == g[3..];
    }
    var t1 := HexBytes(g[1]) + "-" + t2;
    assert Hyphenated(g[1..]) == t1 by {
      assert g[1..][1..] == g[2..];
    }
    assert Text(b) == HexBytes(g[0]) + "-" + t1;
  }

  lemma {:induction false} LowerAllAt(text: string)
    ensures |LowerAll(text)| == |text| && forall i :: 0 <= i < |text| ==> LowerAll(text)[i] == LowerLetter(text[i])
  {
    if text != "" {
      LowerAllAt(text[1..]);
    }
  }

  /** Both forms an attribute arrives in clean up to the same canonical text, however the letters of the braced form are
      written. */
  lemma BothFormsCleanAlike(raw: Raw, text: string)
    requires LowerAll(text) == CleanGuid(Bytes(raw))
    ensures CleanGuid(Braced("{" + text + "}")) == CleanGuid(Bytes(raw))
  {
    CanonicalText(SwapFields(raw));
    LowerAllAt(text);
    var braced := "{" + text + "}";
    assert braced[1..] == text + "}";
    var last := |text| - 1;
    assert LowerLetter(text[0]) == LowerAll(text)[0] && LowerLetter(text[last]) == LowerAll(text)[last];
    assert StripBracesLeft(braced) == StripBracesLeft(text + "}") == text + "}";
    assert (text + "}")[..|text|] == text;
    assert StripBracesRight(text + "}") == StripBracesRight(text) == text;
  }

  lemma {:induction false} ReversedReadsAlike(bytes: seq<Byte>, reversed: seq<Byte>)
    requires |reversed| == |bytes| && forall i :: 0 <= i < |bytes| ==> reversed[i] == bytes[|bytes| - 1 - i]
    ensures LittleEndian(reversed) == BigEndian(bytes)
  {
    if bytes != [] {
      ReversedReadsAlike(bytes[..|bytes| - 1], reversed[1..]);
    }
  }

  /** Swapping reverses the byte order of the first three fields and leaves the last eight bytes. */
  lemma SwappedFields(b: Raw)
    ensures var o := SwapFields(b);
            && LittleEndian(o[..4]) == BigEndian(b[..4]) && LittleEndian(o[4..6]) == BigEndian(b[4..6])
            && LittleEndian(o[6..8]) == BigEndian(b[6..8]) && o[8..] == b[8..]
  {
    var o := SwapFields(b);
    ReversedReadsAlike(b[..4], o[..4]);
    ReversedReadsAlike(b[4..6], o[4..6]);
    ReversedReadsAlike(b[6..8], o[6..8]);
  }

  /** The cleaned text of stored bytes writes, in its first three groups, the numbers that the first three fields hold
      with their least significant byte first, and in the other two the last eight bytes as they are. */
  lemma CleanedTextWritesFields(raw: Raw)
    ensures var t := CleanGuid(Bytes(raw));
            && |t| == 36
            && HexNumber(t[..8]) == LittleEndian(raw[..4]) && HexNumber(t[9..13]) == LittleEndian(raw[4..6])
            && HexNumber(t[14..18]) == LittleEndian(raw[6..8])
            && t[19..23] == HexBytes(raw[8..10]) && t[24..] == HexBytes(raw[10..])
  {
    var b := SwapFields(raw);
    TextLayout(b);
    SwapTwice(raw);
    SwappedFields(b);
    assert b[8..][..2] == b[8..10] && raw[8..][..2] == raw[8..10];
    assert b[8..][2..] == b[10..] && raw[8..][2..] == raw[10..];
    hide HexBytes, SwapFields, Text, BigEndian, LittleEndian, HexNumber;
    HexBytesWriteNumber(b[..4]);
    HexBytesWriteNumber(b[4..6]);
    HexBytesWriteNumber(b[6..8]);
  }

  // ----- the search filter

  function EscapedByte(b: Byte): string { "\\" + HexByte(b) }

  function Escaped(bytes: seq<Byte>): string {
    if bytes == [] then "" else EscapedByte(bytes[0]) + Escaped(bytes[1..])
  }

  /** `_guid_filter_value`: the little-endian bytes of a GUID as escaped octets; None when the text is no GUID. */
  function FilterValue(id: string): Option<string> {
    match Parse(id)
    case Some(b) => Some(Escaped(SwapFields(b)))
    case None => None
  }

  /** Reading an assertion value as a directory does: a backslash and two hexadecimal digits stand for an octet, any
      other character for itself. */
  function Unescape(text: string): Option<seq<Byte>> {
    if text == "" then Some([])
    else if text[0] != '\\' then
      (match Unescape(text[1..])
       case Some(rest) => if (text[0] as int) < 256 then Some([text[0] as int] + rest) else None
       case None => None)
    else if |text| < 3 then None
    else
      match (HexValue(text[1]), HexValue(text[2]), Unescape(text[3..]))
      case (Some(high), Some(low), Some(rest)) =>
        if high < 16 && low < 16 then Some([16 * high + low] + rest) else None
      case _ => None
  }

  lemma EscapedByteReadsBack(b: Byte, rest: string)
    ensures Unescape(EscapedByte(b) + rest)
            == match Unescape(rest) case Some(bytes) => Some([b] + bytes) case None => None
  {
    HexCharReadsBack(b / 16);
    HexCharReadsBack(b % 16);
    var text := EscapedByte(b) + rest;
    assert text[3..] == rest && text[0] == '\\' && text[1] == HexChar(b / 16) && text[2] == HexChar(b % 16);
    assert 16 * (b / 16) + b % 16 == b;
  }

  lemma {:induction false} EscapedReadsBack(bytes: seq<Byte>)
    ensures Unescape(Escaped(bytes)) == Some(bytes)
  {
    if bytes != [] {
      EscapedReadsBack(bytes[1..]);
      EscapedByteReadsBack(bytes[0], Escaped(bytes[1..]));
      hide EscapedByte;
      assert bytes == [bytes[0]] + bytes[1..];
    }
  }

  predicate AllHex(text: string) { forall i :: 0 <= i < |text| ==> HexValue(text[i]).Some? }

  lemma {:induction false} ReadsExactly(text: string)
    ensures ReadHexBytes(text).Some? <==> |text| % 2 == 0 && AllHex(text)
    ensures ReadHexBytes(text).Some? ==> 2 * |ReadHexBytes(text).value| == |text|
  {
    if |text| >= 2 {
      ReadsExactly(text[2..]);
      assert forall i :: 0 <= i < |text| - 2 ==> text[2..][i] == text[i + 2];
      assert AllHex(text) <==> HexValue(text[0]).Some? && HexValue(text[1]).Some? && AllHex(text[2..]);
    }
  }

  /** An id makes a filter exactly when 32 hexadecimal digits are left of it without braces and hyphens. The octets of
      the filter are then the stored form of that GUID: the first three fields in the other byte order, the rest as it
      is. */
  lemma FilterDenotesId(id: string)
    ensures var digits := Bare(StripBraces(id));
            && (FilterValue(id).Some? <==> |digits| == 32 && AllHex(digits))
            && (FilterValue(id).Some? ==>
                  var octets := Unescape(FilterValue(id).value);
                  octets.Some? && SameGuid(octets.value, digits))
  {
    var digits := Bare(StripBraces(id));
    ReadsExactly(digits);
    if FilterValue(id).Some? {
      var b := Parse(id).value;
      EscapedReadsBack(SwapFields(b));
      SwappedFields(b);
      DigitsOfFields(digits, b);
    }
  }

  /** The fields of a GUID as its digits write them. */
  lemma DigitsOfFields(digits: string, b: Raw)
    requires ReadHexBytes(digits) == Some(b) && |digits| == 32
    ensures BigEndian(b[..4]) == HexNumber(digits[..8]) && BigEndian(b[4..6]) == HexNumber(digits[8..12])
    ensures BigEndian(b[6..8]) == HexNumber(digits[12..16]) && BigEndian(b[8..]) == HexNumber(digits[16..])
  {
    hide ReadHexBytes, HexNumber, BigEndian;
    DigitsOfPart(digits, b, 0, 4);
    DigitsOfPart(digits, b, 4, 6);
    DigitsOfPart(digits, b, 6, 8);
    DigitsOfPart(digits, b, 8, 16);
    assert digits[0..8] == digits[..8] && b[0..4] == b[..4];
    assert digits[16..32] == digits[16..] && b[8..16] == b[8..];
  }

  /** A stored GUID is found again by its own id: the filter built from the cleaned text denotes exactly the stored
      bytes, and cleaning the denoted bytes gives the same text. */
  lemma FilterFindsWhatWasRead(raw: Raw)
    ensures var id := CleanGuid(Bytes(raw));
            FilterValue(id).Some? && Unescape(FilterValue(id).value) == Some(raw)
  {
    TextReadsBack(SwapFields(raw));
    SwapTwice(raw);
    EscapedReadsBack(raw);
  }

  /** Different stored GUIDs have different ids. */
  lemma IdsTellGuidsApart(a: Raw, b: Raw)
    ensures CleanGuid(Bytes(a)) == CleanGuid(Bytes(b)) ==> a == b
  {
    FilterFindsWhatWasRead(a);
    FilterFindsWhatWasRead(b);
  }
}
