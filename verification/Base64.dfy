// base64_encode and base64_decode.  Masks and shifts on bytes are written as / and %.
module Base64 {
  type Byte = x: int | 0 <= x < 256

  const PAD := '='
  const NOT_FOUND := 255 // std::string::npos cut down to an unsigned char

  function Char(d: int): (c: char)
    requires 0 <= d < 64
    ensures IsBase64(c)
  {
    if d < 26 then 'A' + d as char
    else if d < 52 then 'a' + (d - 26) as char
    else if d < 62 then '0' + (d - 52) as char
    else if d == 62 then '+' else '/'
  }

  predicate IsBase64(c: char) { 'A' <= c <= 'Z' || 'a' <= c <= 'z' || '0' <= c <= '9' || c == '+' || c == '/' }

  function Find(c: char): (d: Byte)
    ensures IsBase64(c) ==> d < 64
  {
    if 'A' <= c <= 'Z' then (c - 'A') as int
    else if 'a' <= c <= 'z' then (c - 'a') as int + 26
    else if '0' <= c <= '9' then (c - '0') as int + 52
    else if c == '+' then 62 else if c == '/' then 63 else NOT_FOUND
  }

  lemma {:induction false} AlphabetIsOneToOne(d: int, c: char)
    ensures 0 <= d < 64 ==> Find(Char(d)) == d
    ensures IsBase64(c) ==> Char(Find(c)) == c
  {
  }

  // Table 1 of RFC 4648: where its four runs begin and end, and that they are runs.
  lemma {:induction false} CharsAreTheTable(d: int)
    ensures Char(0) == 'A' && Char(25) == 'Z' && Char(26) == 'a' && Char(51) == 'z'
    ensures Char(52) == '0' && Char(61) == '9' && Char(62) == '+' && Char(63) == '/'
    ensures 0 <= d < 61 && d != 25 && d != 51 ==> Char(d + 1) as int == Char(d) as int + 1
  {
  }

  // ---------------------------------------------------------------------------
  // Section 4 of RFC 4648: 24-bit groups read as four digits to the base 64

  function Group(a: Byte, b: Byte, c: Byte): (v: nat)
    ensures v < 0x100_0000
  {
    a * 0x1_0000 + b * 0x100 + c
  }

  function Digits(v: nat): (s: string)
    requires v < 0x100_0000
    ensures |s| == 4 && forall i :: 0 <= i < 4 ==> IsBase64(s[i])
  {
    [Char(v / 0x4_0000), Char(v / 0x1000 % 64), Char(v / 64 % 64), Char(v % 64)]
  }

  // The last group is filled up with zero bits and its unused digits are padding.
  function Encoded(bytes: seq<Byte>): (s: string) {
    if |bytes| == 0 then ""
    else if |bytes| == 1 then Digits(Group(bytes[0], 0, 0))[..2] + [PAD, PAD]
    else if |bytes| == 2 then Digits(Group(bytes[0], bytes[1], 0))[..3] + [PAD]
    else Digits(Group(bytes[0], bytes[1], bytes[2])) + Encoded(bytes[3..])
  }

  function Bytes(v: nat): (s: seq<Byte>)
    requires v < 0x100_0000
    ensures |s| == 3
  {
    [v / 0x1_0000, v / 0x100 % 0x100, v % 0x100]
  }

  function Value(s: string): (v: nat)
    requires |s| == 4 && forall i :: 0 <= i < 4 ==> IsBase64(s[i])
    ensures v < 0x100_0000
  {
    Find(s[0]) * 0x4_0000 + Find(s[1]) * 0x1000 + Find(s[2]) * 64 + Find(s[3])
  }

  // How many characters come before the first that is not of the alphabet.
  function Span(s: string): (n: nat)
    ensures n <= |s| && (forall i :: 0 <= i < n ==> IsBase64(s[i])) && (n < |s| ==> !IsBase64(s[n]))
  {
    if s == "" || !IsBase64(s[0]) then 0 else 1 + Span(s[1..])
  }

  // The bytes of a run of digits; i digits over give i - 1 bytes.
  function DigitBytes(s: string): seq<Byte>
    requires forall i :: 0 <= i < |s| ==> IsBase64(s[i])
  {
    if |s| >= 4 then Bytes(Value(s[..4])) + DigitBytes(s[4..])
    else if |s| == 3 then Bytes(Value(s + "A"))[..2]
    else if |s| == 2 then Bytes(Value(s + "AA"))[..1]
    else []
  }

  function Decoded(s: string): seq<Byte> { DigitBytes(s[..Span(s)]) }

  // ---------------------------------------------------------------------------
  // The same 24 bits in fours and in threes

  lemma {:induction false} Radix64(p: int, q: int, r: int, t: int)
    requires 0 <= p < 64 && 0 <= q < 64 && 0 <= r < 64 && 0 <= t < 64
    ensures var v := p * 0x4_0000 + q * 0x1000 + r * 64 + t;
            0 <= v < 0x100_0000 && v / 0x4_0000 == p && v / 0x1000 % 64 == q && v / 64 % 64 == r && v % 64 == t
  {
    var v := p * 0x4_0000 + q * 0x1000 + r * 64 + t;
    assert v / 0x1000 == p * 64 + q;
    assert v / 64 == (p * 64 + q) * 64 + r;
  }

  lemma {:induction false} Radix256(a: int, b: int, c: int)
    requires 0 <= a < 256 && 0 <= b < 256 && 0 <= c < 256
    ensures var v := a * 0x1_0000 + b * 0x100 + c;
            0 <= v < 0x100_0000 && v / 0x1_0000 == a && v / 0x100 % 0x100 == b && v % 0x100 == c
  {
    var v := a * 0x1_0000 + b * 0x100 + c;
    assert v / 0x100 == a * 0x100 + b;
  }

  lemma {:induction false} GroupDigits(a: Byte, b: Byte, c: Byte)
    ensures var v := Group(a, b, c);
            && v / 0x4_0000 == a / 4 && v / 0x1000 % 64 == a % 4 * 16 + b / 16
            && v / 64 % 64 == b % 16 * 4 + c / 64 && v % 64 == c % 64
  {
    Radix64(a / 4, a % 4 * 16 + b / 16, b % 16 * 4 + c / 64, c % 64);
  }

  lemma {:induction false} ValueBytes(p: int, q: int, r: int, t: int)
    requires 0 <= p < 64 && 0 <= q < 64 && 0 <= r < 64 && 0 <= t < 64
    ensures var v := p * 0x4_0000 + q * 0x1000 + r * 64 + t;
            && v / 0x1_0000 == p * 4 + q / 16 && v / 0x100 % 0x100 == q % 16 * 16 + r / 4 && v % 0x100 == r % 4 * 64 + t
  {
    Radix256(p * 4 + q / 16, q % 16 * 16 + r / 4, r % 4 * 64 + t);
  }

  lemma {:induction false} GroupOfDigits(s: string)
    requires forall i :: 0 <= i < |s| ==> IsBase64(s[i])
    ensures |s| >= 4 ==> DigitBytes(s) == Bytes(Value(s[..4])) + DigitBytes(s[4..])
    ensures s == "" ==> DigitBytes(s) == []
  {
  }

  lemma {:induction false} PadIsNoDigit()
    ensures !IsBase64(PAD)
  {
  }

  // ---------------------------------------------------------------------------
  // The loops

  // Four six-bit numbers out of three bytes.
  method Split(three: array<Byte>, four: array<Byte>)
    requires three.Length == 3 && four.Length == 4
    modifies four
    ensures forall j :: 0 <= j < 4 ==> four[j] < 64 && Char(four[j]) == Digits(Group(three[0], three[1], three[2]))[j]
  {
    hide Char, Group;
    GroupDigits(three[0], three[1], three[2]);
    four[0] := three[0] / 4;
    four[1] := three[0] % 4 * 16 + three[1] / 16;
    four[2] := three[1] % 16 * 4 + three[2] / 64;
    four[3] := three[2] % 64;
  }

  lemma {:induction false} MasksFit(p: int, q: int, r: int, t: int)
    ensures 0 <= p < 64 && 0 <= q < 64 ==> (p * 4 + q / 16 % 4) % 256 == p * 4 + q / 16
    ensures 0 <= q < 64 && 0 <= r < 64 ==> q % 16 * 16 + r / 4 % 16 == q % 16 * 16 + r / 4
    ensures 0 <= r < 64 && 0 <= t < 64 ==> (r % 4 * 64 + t) % 256 == r % 4 * 64 + t
  {
  }

  lemma {:induction false} ValueAsBytes(s: string)
    requires |s| == 4 && forall i :: 0 <= i < 4 ==> IsBase64(s[i])
    ensures var p, q, r, t := Find(s[0]) as int, Find(s[1]) as int, Find(s[2]) as int, Find(s[3]) as int;
            p < 64 && q < 64 && r < 64 && t < 64
                && Bytes(Value(s)) == [p * 4 + q / 16, q % 16 * 16 + r / 4, r % 4 * 64 + t]
  {
    ValueBytes(Find(s[0]), Find(s[1]), Find(s[2]), Find(s[3]));
  }

  // Three bytes out of four six-bit numbers; what is known of the first of them is enough for the
  // first bytes.
  method Join(four: array<Byte>, three: array<Byte>, ghost s: string)
    requires three.Length == 3 && four.Length == 4 && |s| == 4 && forall i :: 0 <= i < 4 ==> IsBase64(s[i])
    modifies three
    ensures four[0] == Find(s[0]) && four[1] == Find(s[1]) ==> three[0] == Bytes(Value(s))[0]
    ensures four[1] == Find(s[1]) && four[2] == Find(s[2]) ==> three[1] == Bytes(Value(s))[1]
    ensures four[2] == Find(s[2]) && four[3] == Find(s[3]) ==> three[2] == Bytes(Value(s))[2]
  {
    hide Find, Bytes, Value;
    var p, q, r, t: int := four[0], four[1], four[2], four[3];
    ValueAsBytes(s);
    MasksFit(p, q, r, t);
    three[0] := (p * 4 + q / 16 % 4) % 256;
    three[1] := q % 16 * 16 + r / 4 % 16;
    three[2] := (r % 4 * 64 + t) % 256;
  }

  method Encode(bytes: seq<Byte>) returns (ret: string)
    ensures ret == Encoded(bytes)
  {
    hide Digits, Group, Char;
    var three, four := new Byte[3], new Byte[4];
    var i, pos := 0, 0;
    ret := "";
    while pos < |bytes|
      invariant 0 <= i < 3 && i <= pos <= |bytes|
      invariant forall k :: 0 <= k < i ==> three[k] == bytes[pos - i + k]
      invariant ret + Encoded(bytes[pos - i..]) == Encoded(bytes)
    {
      three[i] := bytes[pos];
      i, pos := i + 1, pos + 1;
      if i != 3 {
        continue;
      }
      Split(three, four);
      ghost var rest := bytes[pos - 3..];
      assert rest[3..] == bytes[pos..];
      ghost var before := ret;
      for j := 0 to 4
        invariant ret == before + Digits(Group(three[0], three[1], three[2]))[..j]
      {
        ret := ret + [Char(four[j])];
      }
      i := 0;
    }
    if i == 0 {
      return;
    }
    var last := EncodeEnd(three, four, i);
    assert bytes[pos - i..] == three[..i];
    ret := ret + last;
  }

  // What is left over after the last whole group.
  method EncodeEnd(three: array<Byte>, four: array<Byte>, left: nat) returns (ret: string)
    requires three.Length == 3 && four.Length == 4 && 0 < left < 3
    modifies three, four
    ensures ret == Encoded(old(three[..left])) && three[..left] == old(three[..left])
  {
    hide Digits, Group, Char;
    ghost var rest := three[..left];
    for j := left to 3
      invariant three[..left] == rest
      invariant forall k :: left <= k < j ==> three[k] == 0
    {
      three[j] := 0;
    }
    Split(three, four);
    ret := "";
    assert three[0] == rest[0] && (left == 2 ==> three[1] == rest[1]);
    for j := 0 to left + 1
      invariant ret == Digits(Group(three[0], three[1], three[2]))[..j]
    {
      ret := ret + [Char(four[j])];
    }
    var i := left;
    while i < 3
      invariant left <= i <= 3
      invariant ret == Digits(Group(three[0], three[1], three[2]))[..left + 1] + [PAD, PAD][..i - left]
    {
      ret := ret + [PAD];
      i := i + 1;
    }
  }

  method Decode(s: string) returns (ret: seq<Byte>)
    ensures ret == Decoded(s)
  {
    hide Value, Bytes, Find, Span, IsBase64, DigitBytes;
    var three, four, chars := new Byte[3], new Byte[4], new char[4];
    var i, pos := 0, 0;
    ret := [];
    ghost var digits := s[..Span(s)];
    while pos < |s| && s[pos] != PAD && IsBase64(s[pos])
      invariant 0 <= i < 4 && i <= pos <= |digits|
      invariant forall k :: 0 <= k < i ==> chars[k] == digits[pos - i + k]
      invariant ret + DigitBytes(digits[pos - i..]) == DigitBytes(digits)
    {
      chars[i] := s[pos];
      i, pos := i + 1, pos + 1;
      if i != 4 {
        continue;
      }
      ghost var rest := digits[pos - 4..];
      assert rest[4..] == digits[pos..] && rest[..4] == chars[..];
      forall k | 0 <= k < 4
        ensures IsBase64(chars[k])
      {
        assert chars[k] == digits[pos - 4 + k];
      }
      GroupOfDigits(rest);
      var group := DecodeGroup(chars, four, three);
      ret := ret + group;
      i := 0;
    }
    PadIsNoDigit();
    assert pos == |digits|;
    if i == 0 {
      GroupOfDigits(digits[pos..]);
      return;
    }
    assert digits[pos - i..] == chars[..i];
    forall k | 0 <= k < i
      ensures IsBase64(chars[k])
    {
      assert chars[k] == digits[pos - i + k];
    }
    var last := DecodeEnds(chars, four, three, i);
    ret := ret + last;
  }

  // A whole group.
  method DecodeGroup(chars: array<char>, four: array<Byte>, three: array<Byte>) returns (ret: seq<Byte>)
    requires chars.Length == 4 && four.Length == 4 && three.Length == 3 && four != three
    requires forall k :: 0 <= k < 4 ==> IsBase64(chars[k])
    modifies four, three
    ensures ret == Bytes(Value(chars[..]))
  {
    hide Value, Bytes, Find, IsBase64;
    ghost var s := chars[..];
    Lookup(chars, four);
    Join(four, three, s);
    ret := [];
    for j := 0 to 3
      invariant ret == Bytes(Value(s))[..j]
    {
      ret := ret + [three[j]];
    }
  }

  method Lookup(chars: array<char>, four: array<Byte>)
    requires chars.Length == 4 && four.Length == 4
    modifies four
    ensures forall k :: 0 <= k < 4 ==> four[k] == Find(chars[k])
  {
    for j := 0 to 4
      modifies four
      invariant forall k :: 0 <= k < j ==> four[k] == Find(chars[k])
    {
      four[j] := Find(chars[j]);
    }
  }

  // The characters after the last whole group.
  method DecodeEnds(chars: array<char>, four: array<Byte>, three: array<Byte>, left: nat) returns (ret: seq<Byte>)
    requires chars.Length == 4 && four.Length == 4 && three.Length == 3 && four != three && 0 < left < 4
    requires forall k :: 0 <= k < left ==> IsBase64(chars[k])
    modifies chars, four, three
    ensures ret == DigitBytes(old(chars[..left]))
  {
    hide Value, Bytes, Find, IsBase64;
    ghost var rest := chars[..left];
    ghost var filled := rest + "AAA"[..4 - left];
    assert forall k :: left <= k < 4 ==> filled[k] == 'A';
    assert (left == 3 ==> filled == rest + "A") && (left == 2 ==> filled == rest + "AA");
    LetterIsDigit();
    for j := left to 4
      invariant chars[..left] == rest
    {
      chars[j] := '\0';
    }
    assert forall k :: 0 <= k < left ==> chars[k] == filled[k];
    Lookup(chars, four);
    Join(four, three, filled);
    ret := [];
    for j := 0 to left - 1
      invariant ret == Bytes(Value(filled))[..j]
    {
      ret := ret + [three[j]];
    }
  }

  lemma {:induction false} LetterIsDigit()
    ensures IsBase64('A')
  {
  }

  // ---------------------------------------------------------------------------
  // What they are for

  lemma {:induction false} DigitSum(v: nat)
    ensures v == v / 0x4_0000 * 0x4_0000 + v / 0x1000 % 64 * 0x1000 + v / 64 % 64 * 64 + v % 64
  {
    var x := v / 64;
    var y := x / 64;
    assert y == v / 0x1000 && y / 64 == v / 0x4_0000;
  }

  lemma {:induction false} DigitsValue(v: nat)
    requires v < 0x100_0000
    ensures Value(Digits(v)) == v
  {
    hide Char, Find;
    DigitSum(v);
    AlphabetIsOneToOne(v / 0x4_0000, 'A');
    AlphabetIsOneToOne(v / 0x1000 % 64, 'A');
    AlphabetIsOneToOne(v / 64 % 64, 'A');
    AlphabetIsOneToOne(v % 64, 'A');
  }

  lemma {:induction false} GroupRoundTrip(a: Byte, b: Byte, c: Byte)
    ensures Bytes(Value(Digits(Group(a, b, c)))) == [a, b, c]
  {
    hide Value, Digits;
    DigitsValue(Group(a, b, c));
    Radix256(a, b, c);
  }

  // Digits of the zero bits a group is filled up with.
  lemma {:induction false} FilledDigits(a: Byte, b: Byte)
    ensures var d := Digits(Group(a, b, 0)); d == d[..3] + "A" && (b == 0 ==> d == d[..2] + "AA")
  {
    hide Group;
    GroupDigits(a, b, 0);
  }

  // The digits come first, the padding last, and nothing else.
  lemma {:induction false} EncodedShape(bytes: seq<Byte>)
    ensures |Encoded(bytes)| == (|bytes| + 2) / 3 * 4
    ensures Span(Encoded(bytes)) == (|bytes| * 4 + 2) / 3
    ensures forall i :: Span(Encoded(bytes)) <= i < |Encoded(bytes)| ==> Encoded(bytes)[i] == PAD
  {
    hide Digits, Group, IsBase64, Span;
    if |bytes| < 3 {
      EndShape(bytes);
    } else {
      EncodedShape(bytes[3..]);
      SpanAppend(Digits(Group(bytes[0], bytes[1], bytes[2])), Encoded(bytes[3..]));
    }
  }

  lemma {:induction false} EndShape(bytes: seq<Byte>)
    requires |bytes| < 3
    ensures |Encoded(bytes)| == (|bytes| + 2) / 3 * 4
    ensures Span(Encoded(bytes)) == (|bytes| * 4 + 2) / 3
    ensures forall i :: Span(Encoded(bytes)) <= i < |Encoded(bytes)| ==> Encoded(bytes)[i] == PAD
  {
    hide Digits, Group, IsBase64;
    PadIsNoDigit();
    if |bytes| == 1 {
      SpanAppend(Digits(Group(bytes[0], 0, 0))[..2], [PAD, PAD]);
    } else if |bytes| == 2 {
      SpanAppend(Digits(Group(bytes[0], bytes[1], 0))[..3], [PAD]);
    }
  }

  lemma {:induction false} SpanAppend(d: string, s: string)
    requires forall i :: 0 <= i < |d| ==> IsBase64(d[i])
    ensures Span(d + s) == |d| + Span(s)
  {
    if d == "" {
      assert d + s == s;
    } else {
      SpanAppend(d[1..], s);
      assert (d + s)[1..] == d[1..] + s;
    }
  }

  // Decoding takes off one group, or ends inside one.
  lemma {:induction false} DecodedGroup(d: string, s: string)
    requires |d| == 4 && forall i :: 0 <= i < 4 ==> IsBase64(d[i])
    ensures Decoded(d + s) == Bytes(Value(d)) + Decoded(s)
  {
    hide IsBase64, Value, Bytes;
    SpanAppend(d, s);
    var t := (d + s)[..Span(d + s)];
    assert t[..4] == d && t[4..] == s[..Span(s)];
  }

  lemma {:induction false} DecodeEnd(d: string, s: string)
    requires 2 <= |d| <= 3 && forall i :: 0 <= i < |d| ==> IsBase64(d[i])
    requires s == "" || !IsBase64(s[0])
    ensures Decoded(d + s) == if |d| == 2 then Bytes(Value(d + "AA"))[..1] else Bytes(Value(d + "A"))[..2]
  {
    hide Value, Bytes;
    SpanAppend(d, s);
    assert (d + s)[..Span(d + s)] == d;
  }

  // Decoding gives back every byte string that was encoded, and what follows padding is ignored.
  lemma {:induction false} RoundTrip(bytes: seq<Byte>, more: string)
    requires |bytes| % 3 == 0 ==> more == "" || !IsBase64(more[0])
    ensures Decoded(Encoded(bytes) + more) == bytes
  {
    hide Digits, Group, Value, Bytes, IsBase64, Decoded;
    if |bytes| >= 3 {
      var d, rest := Digits(Group(bytes[0], bytes[1], bytes[2])), bytes[3..];
      RoundTrip(rest, more);
      GroupRoundTrip(bytes[0], bytes[1], bytes[2]);
      DecodedGroup(d, Encoded(rest) + more);
      assert d + Encoded(rest) + more == d + (Encoded(rest) + more);
    } else {
      RoundTripEnd(bytes, more);
    }
  }

  lemma {:induction false} RoundTripEnd(bytes: seq<Byte>, more: string)
    requires |bytes| < 3 && (bytes == [] ==> more == "" || !IsBase64(more[0]))
    ensures Decoded(Encoded(bytes) + more) == bytes
  {
    hide Digits, Group, Value, Bytes;
    if |bytes| == 2 {
      var d := Digits(Group(bytes[0], bytes[1], 0));
      GroupRoundTrip(bytes[0], bytes[1], 0);
      FilledDigits(bytes[0], bytes[1]);
      DecodeEnd(d[..3], [PAD] + more);
      assert d[..3] + [PAD] + more == d[..3] + ([PAD] + more);
    } else if |bytes| == 1 {
      var d := Digits(Group(bytes[0], 0, 0));
      GroupRoundTrip(bytes[0], 0, 0);
      FilledDigits(bytes[0], 0);
      DecodeEnd(d[..2], [PAD, PAD] + more);
      assert d[..2] + [PAD, PAD] + more == d[..2] + ([PAD, PAD] + more);
    } else {
      assert Encoded(bytes) + more == more;
    }
  }

  lemma {:induction false} EncodingIsInjective(a: seq<Byte>, b: seq<Byte>)
    requires Encoded(a) == Encoded(b)
    ensures a == b
  {
    RoundTrip(a, "");
    RoundTrip(b, "");
    assert Encoded(a) + "" == Encoded(a) && Encoded(b) + "" == Encoded(b);
  }

  // ---------------------------------------------------------------------------
  // Where each digit and each byte comes from

  // The byte at a place, or zero bits where there is none.
  function ByteAt(bytes: seq<Byte>, i: nat): Byte { if i < |bytes| then bytes[i] else 0 }

  // The four digits of group i: six bits each, from the top; without a byte to take them from, padding.
  lemma {:induction false} EncodedDigits(bytes: seq<Byte>, i: nat)
    requires 3 * i < |bytes|
    ensures var s, a, b, c := Encoded(bytes), ByteAt(bytes, 3 * i), ByteAt(bytes, 3 * i + 1), ByteAt(bytes, 3 * i + 2);
            && |s| >= 4 * i + 4
            && s[4 * i] == Char((a as int) / 4) && s[4 * i + 1] == Char((a as int) % 4 * 16 + (b as int) / 16)
            && s[4 * i + 2] == (if 3 * i + 1 < |bytes| then Char((b as int) % 16 * 4 + (c as int) / 64) else PAD)
            && s[4 * i + 3] == (if 3 * i + 2 < |bytes| then Char((c as int) % 64) else PAD)
  {
    hide Char, Group, Encoded, ByteAt, Digits;
    if i == 0 {
      FirstDigits(bytes);
    } else {
      EncodedDigits(bytes[3..], i - 1);
      LaterDigits(bytes, 3 * i);
    }
  }

  lemma {:induction false} FirstDigits(bytes: seq<Byte>)
    requires bytes != []
    ensures var s, a, b, c := Encoded(bytes), ByteAt(bytes, 0), ByteAt(bytes, 1), ByteAt(bytes, 2);
            && |s| >= 4
            && s[0] == Char((a as int) / 4) && s[1] == Char((a as int) % 4 * 16 + (b as int) / 16)
            && s[2] == (if 1 < |bytes| then Char((b as int) % 16 * 4 + (c as int) / 64) else PAD)
            && s[3] == (if 2 < |bytes| then Char((c as int) % 64) else PAD)
  {
    hide Char, Group;
    GroupDigits(bytes[0], ByteAt(bytes, 1), ByteAt(bytes, 2));
  }

  lemma {:induction false} LaterDigits(bytes: seq<Byte>, i: nat)
    requires 3 <= i < |bytes|
    ensures forall k :: k >= i ==> ByteAt(bytes, k) == ByteAt(bytes[3..], k - 3)
    ensures |Encoded(bytes)| == |Encoded(bytes[3..])| + 4
    ensures forall k :: 0 <= k < |Encoded(bytes[3..])| ==> Encoded(bytes)[k + 4] == Encoded(bytes[3..])[k]
  {
    hide Char, Group, Digits;
  }

  // The value of the digit at a place, or zero bits where there is none.
  function DigitAt(s: string, i: nat): int { if i < |s| then Find(s[i]) else 0 }

  // Byte i out of the two digits it lies in.
  function PickedByte(s: string, i: nat): int {
    var q := i / 3 * 4;
    if i % 3 == 0 then DigitAt(s, q) * 4 + DigitAt(s, q + 1) / 16
    else if i % 3 == 1 then DigitAt(s, q + 1) % 16 * 16 + DigitAt(s, q + 2) / 4
    else DigitAt(s, q + 2) % 4 * 64 + DigitAt(s, q + 3)
  }

  // Decoding reads the digits before the first other character: as many whole bytes as they have
  // bits for.
  lemma {:induction false} DecodedBytes(s: string, i: nat)
    ensures |Decoded(s)| == Span(s) * 3 / 4
    ensures i < Span(s) * 3 / 4 ==> Decoded(s)[i] == PickedByte(s[..Span(s)], i)
  {
    hide Find, IsBase64, PickedByte, DigitBytes;
    RunBytes(s[..Span(s)], i);
  }

  lemma {:induction false} RunBytes(t: string, i: nat)
    requires forall k :: 0 <= k < |t| ==> IsBase64(t[k])
    ensures |DigitBytes(t)| == |t| * 3 / 4
    ensures i < |t| * 3 / 4 ==> DigitBytes(t)[i] == PickedByte(t, i)
    decreases |t|
  {
    hide Find, IsBase64, PickedByte, Value, Bytes;
    if |t| >= 4 {
      RunBytes(t[4..], if i >= 3 then i - 3 else 0);
      GroupBytes(t[..4]);
      if i >= 3 {
        LaterByte(t, i);
      } else {
        FirstByte(t[..4], t[4..], i);
        assert t[..4] + t[4..] == t;
      }
    } else if |t| >= 2 {
      LetterIsZero();
      var more := if |t| == 3 then "A" else "AA";
      GroupBytes(t + more);
      if i < 3 {
        ZeroesDoNotCount(t, more, i);
      }
    }
  }

  lemma {:induction false} LaterByte(t: string, i: nat)
    requires |t| >= 4 && i >= 3
    ensures PickedByte(t, i) == PickedByte(t[4..], i - 3)
  {
    hide Find;
    var q := i / 3 * 4;
    assert (i - 3) / 3 * 4 == q - 4 && (i - 3) % 3 == i % 3;
    forall k | q <= k
      ensures DigitAt(t, k) == DigitAt(t[4..], k - 4)
    {
    }
  }

  lemma {:induction false} FirstByte(d: string, more: string, i: nat)
    requires |d| == 4 && i < 3
    ensures PickedByte(d + more, i) == PickedByte(d, i)
  {
    hide Find;
  }

  lemma {:induction false} ZeroesDoNotCount(t: string, more: string, i: nat)
    requires |t| + |more| == 4 && i < 3 && forall k :: 0 <= k < |more| ==> more[k] == 'A'
    ensures PickedByte(t + more, i) == PickedByte(t, i)
  {
    hide Find;
    LetterIsZero();
    forall k: nat | k < 4
      ensures DigitAt(t + more, k) == DigitAt(t, k)
    {
    }
  }

  lemma {:induction false} LetterIsZero()
    ensures IsBase64('A') && Find('A') == 0
  {
  }

  lemma {:induction false} GroupBytes(s: string)
    requires |s| == 4 && forall i :: 0 <= i < 4 ==> IsBase64(s[i])
    ensures var b := Bytes(Value(s));
            b[0] == PickedByte(s, 0) && b[1] == PickedByte(s, 1) && b[2] == PickedByte(s, 2)
  {
    hide Find, IsBase64;
    FoundDigits(s);
    ValueBytes(Find(s[0]), Find(s[1]), Find(s[2]), Find(s[3]));
  }

  lemma {:induction false} FoundDigits(s: string)
    requires forall i :: 0 <= i < |s| ==> IsBase64(s[i])
    ensures forall i :: 0 <= i < |s| ==> 0 <= Find(s[i]) < 64
  {
  }
}
