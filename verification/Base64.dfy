/** The base64 codec of the byte channel: chunked loops against section 4 of RFC 4648. */
module Base64 {
  import opened Bytes

  /** Strings are sequences of UTF-16 code units. */
  type CodeUnit = x: int | 0 <= x < 0x1_0000
  type Text = seq<CodeUnit>

  const PAD: CodeUnit := 61
  const ENCODE_CHUNK_BYTES: nat := 0x3000
  const BINARY_SLICE_BYTES: nat := 0x1000
  const DECODE_CHUNK_CHARS: nat := 0x8000

  type Sextet = x: int | 0 <= x < 64

  function Digit(n: Sextet): CodeUnit {
    if n < 26 then 65 + n else if n < 52 then 71 + n else if n < 62 then n - 4 else if n == 62 then 43 else 47
  }

  predicate IsDigit(c: CodeUnit) {
    65 <= c <= 90 || 97 <= c <= 122 || 48 <= c <= 57 || c == 43 || c == 47
  }

  function Value(c: CodeUnit): Sextet {
    if 65 <= c <= 90 then c - 65 else if 97 <= c <= 122 then c - 71 else if 48 <= c <= 57 then c + 4
    else if c == 43 then 62 else if c == 47 then 63 else 0
  }

  lemma DigitValue(n: Sextet)
    ensures IsDigit(Digit(n)) && Value(Digit(n)) == n && Digit(n) != PAD
  {
  }

  lemma ValueDigit(c: CodeUnit)
    requires IsDigit(c)
    ensures Digit(Value(c)) == c && c != PAD
  {
  }

  /** Table 1 of RFC 4648: the capitals, the small letters, the digits, plus and slash, each in order. */
  lemma DigitIsLetter(n: Sextet)
    ensures Digit(0) == 'A' as int && Digit(25) == 'Z' as int && Digit(26) == 'a' as int && Digit(51) == 'z' as int
    ensures Digit(52) == '0' as int && Digit(61) == '9' as int && Digit(62) == '+' as int && Digit(63) == '/' as int
    ensures n !in {25, 51, 61, 62, 63} ==> Digit(n + 1) == Digit(n) + 1
    ensures Value(Digit(n)) == n
  {
  }

  // ----- the standard, group by group

  function EncodeGroup(bytes: seq<byte>): (text: Text)
    requires 1 <= |bytes| <= 3
    ensures |text| == 4
  {
    var b0: int := bytes[0];
    if |bytes| == 1 then [Digit(b0 / 4), Digit(b0 % 4 * 16), PAD, PAD]
    else
      var b1: int := bytes[1];
      if |bytes| == 2 then [Digit(b0 / 4), Digit(b0 % 4 * 16 + b1 / 16), Digit(b1 % 16 * 4), PAD]
      else
        var b2: int := bytes[2];
        [Digit(b0 / 4), Digit(b0 % 4 * 16 + b1 / 16), Digit(b1 % 16 * 4 + b2 / 64), Digit(b2 % 64)]
  }

  function Encode(bytes: seq<byte>): Text {
    if |bytes| == 0 then []
    else if |bytes| <= 3 then EncodeGroup(bytes)
    else EncodeGroup(bytes[..3]) + Encode(bytes[3..])
  }

  /** The bits of a group, from the first byte's highest to the last byte's lowest, are those of its digits in order. */
  lemma GroupBits(b0: byte, b1: byte, b2: byte)
    ensures var g := EncodeGroup([b0, b1, b2]);
            (((Value(g[0]) as int) * 64 + Value(g[1])) * 64 + Value(g[2])) * 64 + Value(g[3]) == ((b0 as int) * 256 + b1) * 256 + b2
    ensures var g := EncodeGroup([b0, b1]);
            g[3] == PAD && ((Value(g[0]) as int) * 64 + Value(g[1])) * 64 + Value(g[2]) == ((b0 as int) * 256 + b1) * 4
    ensures var g := EncodeGroup([b0]);
            g[2] == g[3] == PAD && (Value(g[0]) as int) * 64 + Value(g[1]) == (b0 as int) * 16
  {
    hide EncodeGroup, Value;
    BitsOfThree(b0, b1, b2);
    BitsOfTwo(b0, b1);
    BitsOfOne(b0);
  }

  lemma BitsOfThree(b0: byte, b1: byte, b2: byte)
    ensures var g := EncodeGroup([b0, b1, b2]);
            (((Value(g[0]) as int) * 64 + Value(g[1])) * 64 + Value(g[2])) * 64 + Value(g[3]) == ((b0 as int) * 256 + b1) * 256 + b2
  {
    hide Digit, Value;
    DigitValue(b0 / 4);
    DigitValue((b0 as int) % 4 * 16 + b1 / 16);
    DigitValue((b1 as int) % 16 * 4 + b2 / 64);
    DigitValue(b2 % 64);
  }

  lemma BitsOfTwo(b0: byte, b1: byte)
    ensures var g := EncodeGroup([b0, b1]);
            g[3] == PAD && ((Value(g[0]) as int) * 64 + Value(g[1])) * 64 + Value(g[2]) == ((b0 as int) * 256 + b1) * 4
  {
    hide Digit, Value;
    DigitValue(b0 / 4);
    DigitValue((b0 as int) % 4 * 16 + b1 / 16);
    DigitValue((b1 as int) % 16 * 4);
  }

  lemma BitsOfOne(b0: byte)
    ensures var g := EncodeGroup([b0]);
            g[2] == g[3] == PAD && (Value(g[0]) as int) * 64 + Value(g[1]) == (b0 as int) * 16
  {
    hide Digit, Value;
    DigitValue(b0 / 4);
    DigitValue((b0 as int) % 4 * 16);
  }

  predicate AllDigits(text: Text) {
    forall i | 0 <= i < |text| :: IsDigit(text[i])
  }

  /** The last group may end in one or two pads. */
  predicate LastGroup(group: Text)
    requires |group| == 4
  {
    IsDigit(group[0]) && IsDigit(group[1])
    && ((IsDigit(group[2]) && (IsDigit(group[3]) || group[3] == PAD)) || (group[2] == PAD && group[3] == PAD))
  }

  predicate Canonical(text: Text) {
    if |text| == 0 then true
    else if |text| < 4 then false
    else if |text| == 4 then LastGroup(text)
    else AllDigits(text[..4]) && Canonical(text[4..])
  }

  function DecodeGroup(group: Text): seq<byte>
    requires |group| == 4
  {
    var d0: int, d1: int, d2: int, d3: int := Value(group[0]), Value(group[1]), Value(group[2]), Value(group[3]);
    if group[2] == PAD then [d0 * 4 + d1 / 16]
    else if group[3] == PAD then [d0 * 4 + d1 / 16, d1 % 16 * 16 + d2 / 4]
    else [d0 * 4 + d1 / 16, d1 % 16 * 16 + d2 / 4, d2 % 4 * 64 + d3]
  }

  function Decode(text: Text): seq<byte>
    requires Canonical(text)
  {
    if |text| == 0 then [] else DecodeGroup(text[..4]) + Decode(text[4..])
  }

  /** Number of pads at the end. */
  function Padding(text: Text): nat {
    if |text| >= 2 && text[|text| - 1] == PAD then (if text[|text| - 2] == PAD then 2 else 1) else 0
  }

  // ----- laws

  lemma {:induction false} EncodeConcat(a: seq<byte>, b: seq<byte>)
    requires |a| % 3 == 0
    ensures Encode(a + b) == Encode(a) + Encode(b)
  {
    hide EncodeGroup;
    if a == [] {
      assert a + b == b;
    } else if b == [] {
      assert a + b == a;
    } else {
      assert (a + b)[3..] == a[3..] + b && (a + b)[..3] == a[..3];
      EncodeConcat(a[3..], b);
      if |a| == 3 { assert a[..3] == a; }
    }
  }

  lemma {:induction false} DecodeConcat(a: Text, b: Text)
    requires |a| % 4 == 0 && AllDigits(a)
    ensures Canonical(a) && Canonical(a + b) == Canonical(b)
    ensures Canonical(b) ==> Decode(a + b) == Decode(a) + Decode(b)
    decreases |a|
  {
    hide DecodeGroup, IsDigit, LastGroup;
    if a == [] {
      assert a + b == b;
    } else {
      var head, tail, all := a[..4], a[4..], a + b;
      assert all[4..] == tail + b && all[..4] == head;
      DecodeConcat(tail, b);
      DigitsAreGroup(head);
      if |a| == 4 { assert head == a; }
      if |all| == 4 { assert head == all && b == []; }
      if Canonical(b) {
        assert Decode(all) == DecodeGroup(head) + Decode(tail + b);
        assert Decode(a) == DecodeGroup(head) + Decode(tail);
      }
    }
  }

  lemma DigitsAreGroup(group: Text)
    requires |group| == 4 && AllDigits(group)
    ensures LastGroup(group)
  {
  }

  /** The first four characters, and the rest: still whole groups. */
  lemma CanonicalStep(text: Text)
    requires Canonical(text) && |text| > 4
    ensures AllDigits(text[..4]) && Canonical(text[4..]) && |text| >= 8
  {
    hide AllDigits, LastGroup;
  }

  lemma CanonicalShort(text: Text)
    requires Canonical(text) && |text| <= 4
    ensures |text| == 0 || |text| == 4
  {
    hide AllDigits, LastGroup;
  }

  lemma DigitsJoin(a: Text, b: Text)
    ensures AllDigits(a + b) <==> AllDigits(a) && AllDigits(b)
  {
    hide IsDigit;
    assert forall i | 0 <= i < |a| :: a[i] == (a + b)[i];
    assert forall i | 0 <= i < |b| :: b[i] == (a + b)[|a| + i];
  }

  lemma {:induction false} CanonicalShape(text: Text)
    requires Canonical(text)
    ensures |text| % 4 == 0
    ensures |text| > 4 ==> AllDigits(text[..|text| - 4]) && Canonical(text[|text| - 4..])
  {
    hide Canonical, AllDigits, LastGroup;
    if |text| > 4 {
      CanonicalStep(text);
      CanonicalShape(text[4..]);
      if |text| > 8 {
        assert text[..|text| - 4] == text[..4] + text[4..][..|text| - 8];
        assert text[4..][|text| - 8..] == text[|text| - 4..];
        DigitsJoin(text[..4], text[4..][..|text| - 8]);
      } else {
        assert text[..|text| - 4] == text[..4];
      }
    } else {
      CanonicalShort(text);
    }
  }

  lemma GroupLength(group: Text)
    requires |group| == 4
    ensures LastGroup(group) ==> |DecodeGroup(group)| == 3 - Padding(group)
    ensures AllDigits(group) ==> |DecodeGroup(group)| == 3
  {
    if AllDigits(group) {
      ValueDigit(group[2]);
      ValueDigit(group[3]);
    }
  }

  lemma {:induction false} DecodeLength(text: Text)
    requires Canonical(text)
    ensures |text| % 4 == 0 && |Decode(text)| == |text| / 4 * 3 - Padding(text)
  {
    hide Canonical, DecodeGroup, LastGroup, AllDigits, Padding;
    DecodeStep(text);
    if |text| > 4 {
      CanonicalStep(text);
      DecodeLength(text[4..]);
      SamePadding(text);
    } else {
      CanonicalShort(text);
    }
  }

  lemma DecodeStep(text: Text)
    requires Canonical(text)
    ensures text == [] ==> Decode(text) == [] && Padding(text) == 0
    ensures |text| == 4 ==> |Decode(text)| == 3 - Padding(text)
    ensures |text| > 4 ==> Canonical(text[4..]) && |Decode(text)| == 3 + |Decode(text[4..])|
  {
    hide DecodeGroup, LastGroup, AllDigits;
    if |text| >= 4 { GroupLength(text[..4]); }
    if |text| == 4 {
      assert text[..4] == text && text[4..] == [];
    }
  }

  lemma SamePadding(text: Text)
    requires |text| >= 8
    ensures Padding(text[4..]) == Padding(text)
  {
  }

  /** Eight-bit values cut into six-bit values and put together again. */
  lemma Regroup(b0: byte, b1: byte, b2: byte)
    ensures var d1, d2 := (b0 as int) % 4 * 16 + b1 / 16, (b1 as int) % 16 * 4 + b2 / 64;
            && 0 <= d1 < 64 && 0 <= d2 < 64
            && b0 / 4 * 4 + d1 / 16 == b0 && d1 % 16 * 16 + d2 / 4 == b1 && d2 % 4 * 64 + b2 % 64 == b2
  {
  }

  lemma GroupRoundTrip(bytes: seq<byte>)
    requires 1 <= |bytes| <= 3
    ensures LastGroup(EncodeGroup(bytes)) && DecodeGroup(EncodeGroup(bytes)) == bytes
    ensures |bytes| == 3 ==> AllDigits(EncodeGroup(bytes))
  {
    hide EncodeGroup, DecodeGroup, LastGroup, AllDigits;
    var b0, b1, b2 := bytes[0], if |bytes| > 1 then bytes[1] else 0, if |bytes| > 2 then bytes[2] else 0;
    if |bytes| == 1 {
      assert bytes == [b0];
      GroupOfOne(b0);
    } else if |bytes| == 2 {
      assert bytes == [b0, b1];
      GroupOfTwo(b0, b1);
    } else {
      assert bytes == [b0, b1, b2];
      GroupOfThree(b0, b1, b2);
    }
  }

  lemma GroupOfOne(b0: byte)
    ensures LastGroup(EncodeGroup([b0])) && DecodeGroup(EncodeGroup([b0])) == [b0]
  {
    hide Digit, DecodeGroup, LastGroup;
    Regroup(b0, 0, 0);
    DigitsDecode(b0 / 4, (b0 as int) % 4 * 16, 0, 0);
  }

  lemma GroupOfTwo(b0: byte, b1: byte)
    ensures LastGroup(EncodeGroup([b0, b1])) && DecodeGroup(EncodeGroup([b0, b1])) == [b0, b1]
  {
    hide Digit, DecodeGroup, LastGroup;
    Regroup(b0, b1, 0);
    DigitsDecode(b0 / 4, (b0 as int) % 4 * 16 + b1 / 16, (b1 as int) % 16 * 4, 0);
  }

  lemma GroupOfThree(b0: byte, b1: byte, b2: byte)
    ensures var bytes := [b0, b1, b2];
            LastGroup(EncodeGroup(bytes)) && AllDigits(EncodeGroup(bytes)) && DecodeGroup(EncodeGroup(bytes)) == bytes
  {
    hide Digit, DecodeGroup, LastGroup, AllDigits;
    Regroup(b0, b1, b2);
    DigitsDecode(b0 / 4, (b0 as int) % 4 * 16 + b1 / 16, (b1 as int) % 16 * 4 + b2 / 64, b2 % 64);
  }

  /** What the digits of four six-bit values decode to, with pads in place of the last ones or without. */
  lemma DigitsDecode(d0: Sextet, d1: Sextet, d2: Sextet, d3: Sextet)
    ensures var four, three, two := [Digit(d0), Digit(d1), Digit(d2), Digit(d3)], [Digit(d0), Digit(d1), Digit(d2), PAD],
                                    [Digit(d0), Digit(d1), PAD, PAD];
            && LastGroup(four) && AllDigits(four) && LastGroup(three) && LastGroup(two)
            && DecodeGroup(four) == [(d0 as int) * 4 + d1 / 16, (d1 as int) % 16 * 16 + d2 / 4, (d2 as int) % 4 * 64 + d3]
            && DecodeGroup(three) == [(d0 as int) * 4 + d1 / 16, (d1 as int) % 16 * 16 + d2 / 4]
            && DecodeGroup(two) == [(d0 as int) * 4 + d1 / 16]
  {
    hide Digit, Value, IsDigit;
    DigitValue(d0);
    DigitValue(d1);
    DigitValue(d2);
    DigitValue(d3);
  }

  /** Encoding is undone by decoding. */
  lemma {:induction false} RoundTrip(bytes: seq<byte>)
    ensures Canonical(Encode(bytes)) && Decode(Encode(bytes)) == bytes
  {
    hide EncodeGroup, DecodeGroup, AllDigits, LastGroup;
    if 0 < |bytes| <= 3 {
      GroupRoundTrip(bytes);
      assert Encode(bytes)[..4] == Encode(bytes);
    } else if |bytes| > 3 {
      var first, more := bytes[..3], bytes[3..];
      var text, group := Encode(bytes), EncodeGroup(first);
      GroupRoundTrip(first);
      RoundTrip(more);
      assert text[..4] == group && text[4..] == Encode(more);
      assert |Encode(more)| > 0;
    }
  }

  /** The unused low bits before the padding are zero. */
  predicate ZeroTail(text: Text) {
    |text| >= 4 ==>
      && (Padding(text) == 1 ==> Value(text[|text| - 2]) % 4 == 0)
      && (Padding(text) == 2 ==> Value(text[|text| - 3]) % 16 == 0)
  }

  lemma GroupAgain(group: Text)
    requires |group| == 4
    ensures LastGroup(group) ==> (EncodeGroup(DecodeGroup(group)) == group <==> ZeroTail(group))
    ensures AllDigits(group) ==> |DecodeGroup(group)| == 3 && EncodeGroup(DecodeGroup(group)) == group
  {
    hide Digit, Value, IsDigit;
    forall i | 0 <= i < 4 && IsDigit(group[i]) ensures Digit(Value(group[i])) == group[i] && group[i] != PAD {
      ValueDigit(group[i]);
    }
    var d0, d1, d2, d3 := Value(group[0]), Value(group[1]), Value(group[2]), Value(group[3]);
    Resplit(d0, d1, d2, d3);
    DigitValue(d1 / 16 * 16);
    DigitValue(d2 / 4 * 4);
  }

  /** Six-bit values put together into eight-bit values and cut again. */
  lemma Resplit(d0: Sextet, d1: Sextet, d2: Sextet, d3: Sextet)
    ensures var b0, b1, b2 := (d0 as int) * 4 + d1 / 16, (d1 as int) % 16 * 16 + d2 / 4, (d2 as int) % 4 * 64 + d3;
            && b0 / 4 == d0 && b0 % 4 * 16 + b1 / 16 == d1 && b1 % 16 * 4 + b2 / 64 == d2 && b2 % 64 == d3
            && b0 % 4 * 16 == d1 / 16 * 16 && b1 % 16 * 4 == d2 / 4 * 4
    ensures d1 / 16 * 16 == d1 <==> d1 % 16 == 0
    ensures d2 / 4 * 4 == d2 <==> d2 % 4 == 0
  {
  }

  /**
   * The accepted form is wider than RFC 4648's canonical form: decoding is undone by encoding exactly when the bits
   * in front of the padding are zero (section 3.5), which the source's pattern does not check.
   */
  lemma {:induction false} EncodeAgain(text: Text)
    requires Canonical(text)
    ensures Encode(Decode(text)) == text <==> ZeroTail(text)
    decreases |text|
  {
    hide EncodeGroup, DecodeGroup, AllDigits, LastGroup, Value;
    if |text| == 4 {
      GroupAgain(text);
      GroupLength(text);
      assert text[..4] == text && text[4..] == [];
      assert Decode(text) == DecodeGroup(text);
    } else if |text| > 4 {
      var head, tail := text[..4], text[4..];
      EncodeAgain(tail);
      GroupAgain(head);
      DecodeLength(tail);
      EncodeConcat(DecodeGroup(head), Decode(tail));
      assert text == head + tail;
      assert text[|text| - 1] == tail[|tail| - 1] && text[|text| - 2] == tail[|tail| - 2] && text[|text| - 3] == tail[|tail| - 3];
      var again := Encode(Decode(tail));
      assert (head + again)[4..] == again && (head + tail)[4..] == tail;
    }
  }

  /** Such a text is "QR==": it is accepted as the byte 65, which is encoded as "QQ==". */
  lemma WidePattern()
    ensures var wide, narrow := [81, 82, PAD, PAD], [81, 81, PAD, PAD];
            Canonical(wide) && Decode(wide) == [65] && Encode([65]) == narrow && !ZeroTail(wide)
  {
    var wide: Text := [81, 82, PAD, PAD];
    assert wide[..4] == wide && wide[4..] == [];
    assert DecodeGroup(wide) == [65];
  }

  // ----- the source's loops

  /** Encodes in chunks that are multiples of three bytes, so no padding appears inside. */
  method BytesToBase64(bytes: seq<byte>) returns (output: Text)
    ensures output == Encode(bytes)
  {
    hide Encode;
    output := [];
    var offset := 0;
    assert Encode([]) == [] by { EncodeEmpty(); }
    while offset < |bytes|
      invariant 0 <= offset
      invariant offset <= |bytes| ==> offset % 3 == 0 && output == Encode(bytes[..offset])
      invariant offset > |bytes| ==> output == Encode(bytes)
    {
      var end := Min(offset + ENCODE_CHUNK_BYTES, |bytes|);
      var binary := [];
      var index := offset;
      while index < end
        invariant offset <= index && binary == bytes[offset..Min(index, end)]
      {
        var stop := Min(index + BINARY_SLICE_BYTES, end);
        assert bytes[offset..index] + bytes[index..stop] == bytes[offset..stop];
        binary := binary + bytes[index..stop];
        index := index + BINARY_SLICE_BYTES;
      }
      assert binary == bytes[offset..end];
      EncodeConcat(bytes[..offset], binary);
      assert bytes[..offset] + bytes[offset..end] == bytes[..end];
      if end == |bytes| { assert bytes[..end] == bytes; }
      output := output + Encode(binary);
      offset := offset + ENCODE_CHUNK_BYTES;
    }
    if offset == |bytes| { assert bytes[..offset] == bytes; }
  }

  lemma EncodeEmpty()
    ensures Encode([]) == []
  {
  }

  datatype Result = Ok(bytes: seq<byte>) | TypeError

  /** Decodes in chunks that are multiples of four characters, writing into one array of the final length. */
  method Base64ToBytes(value: Text) returns (r: Result)
    ensures r == if Canonical(value) then Ok(Decode(value)) else TypeError
  {
    hide Canonical, Decode, AllDigits, DecodeFrom, Padding;
    if !Canonical(value) { return TypeError; }
    DecodeLength(value);
    NothingLeft(value);
    var padding := Padding(value);
    var bytes := new byte[|value| / 4 * 3 - padding];
    var write := 0;
    var offset := 0;
    assert bytes[..0] + Decode(value) == Decode(value);
    while offset < |value|
      invariant 0 <= offset && 0 <= write <= bytes.Length && offset % 4 == 0
      invariant offset < |value| ==> bytes[..write] + DecodeFrom(value, offset) == Decode(value)
      invariant offset >= |value| ==> bytes[..] == Decode(value)
    {
      var end := Min(offset + DECODE_CHUNK_CHARS, |value|);
      write := DecodeChunk(value, offset, end, bytes, write);
      offset := offset + DECODE_CHUNK_CHARS;
    }
    return Ok(bytes[..]);
  }

  method DecodeChunk(value: Text, offset: nat, end: nat, bytes: array<byte>, start: nat) returns (write: nat)
    requires Canonical(value) && offset < end <= |value| && offset % 4 == 0 && end % 4 == 0
    requires start <= bytes.Length == |Decode(value)| && bytes[..start] + DecodeFrom(value, offset) == Decode(value)
    modifies bytes
    ensures write <= bytes.Length && bytes[..write] + DecodeFrom(value, end) == Decode(value)
    ensures end == |value| ==> bytes[..] == Decode(value)
  {
    hide Canonical, Decode, AllDigits, DecodeFrom;
    SplitChunk(value, offset, end);
    var binary := Atob(value[offset..end]);
    ghost var before := bytes[..start];
    assert before + binary + DecodeFrom(value, end) == Decode(value);
    WriteChars(bytes, start, binary);
    write := start + |binary|;
    NothingLeft(value);
    if end == |value| { assert bytes[..write] == bytes[..]; }
  }

  lemma NothingLeft(text: Text)
    ensures DecodeFrom(text, |text|) == []
    ensures Canonical(text) ==> DecodeFrom(text, 0) == Decode(text) && |text| % 4 == 0
  {
    hide DecodeGroup;
    assert text[0..] == text;
    if Canonical(text) { CanonicalShape(text); }
  }

  method WriteChars(bytes: array<byte>, start: nat, binary: seq<byte>)
    requires start + |binary| <= bytes.Length
    modifies bytes
    ensures bytes[..start + |binary|] == old(bytes[..start]) + binary
  {
    var write, index := start, 0;
    while index < |binary|
      invariant 0 <= index <= |binary| && write == start + index
      invariant bytes[..write] == old(bytes[..start]) + binary[..index]
    {
      bytes[write] := binary[index];
      assert bytes[..write + 1] == bytes[..write] + [binary[index]];
      assert binary[..index + 1] == binary[..index] + [binary[index]];
      write := write + 1;
      index := index + 1;
    }
    assert binary[..|binary|] == binary;
  }

  /** The platform's decoder, on text it accepts. */
  function Atob(text: Text): seq<byte>
    requires Canonical(text)
  {
    Decode(text)
  }

  /** What is still to be written once `offset` characters are done. */
  ghost function DecodeFrom(text: Text, offset: nat): seq<byte> {
    if offset <= |text| && Canonical(text[offset..]) then Decode(text[offset..]) else []
  }

  lemma SplitDecode(text: Text, offset: nat)
    requires Canonical(text) && offset <= |text| && offset % 4 == 0
    ensures Canonical(text[offset..])
    ensures offset < |text| ==> AllDigits(text[..offset])
    ensures offset == 0 ==> text[offset..] == text
    ensures offset == |text| ==> Decode(text[offset..]) == []
  {
    hide Canonical, Decode, AllDigits;
    CanonicalShape(text);
    NothingDecoded();
    if 0 < offset < |text| {
      DigitsFront(text[..|text| - 4], offset);
      CutsIn(text, offset, |text| - 4);
      DecodeConcat(text[..offset], text[offset..]);
    } else if offset == 0 {
      assert text[..0] == [] && text[0..] == text;
      DigitsFront([], 0);
    } else {
      assert text[offset..] == [];
    }
  }

  lemma CutsIn(text: Text, offset: nat, to: nat)
    requires offset <= to <= |text|
    ensures text == text[..offset] + text[offset..] && text[..to][..offset] == text[..offset]
  {
  }

  lemma NothingDecoded()
    ensures Canonical([]) && Decode([]) == []
  {
  }

  lemma DigitsFront(text: Text, to: nat)
    requires AllDigits(text) && to <= |text|
    ensures AllDigits(text[..to])
  {
    assert text == text[..to] + text[to..];
    DigitsJoin(text[..to], text[to..]);
  }

  lemma FromHere(text: Text, offset: nat)
    requires offset <= |text| && Canonical(text[offset..])
    ensures DecodeFrom(text, offset) == Decode(text[offset..])
  {
  }

  lemma DigitsPart(text: Text, from: nat)
    requires AllDigits(text) && from <= |text|
    ensures AllDigits(text[from..])
  {
    assert text == text[..from] + text[from..];
    DigitsJoin(text[..from], text[from..]);
  }

  lemma SplitChunk(text: Text, offset: nat, end: nat)
    requires Canonical(text) && offset < end <= |text| && offset % 4 == 0 && end % 4 == 0
    ensures Canonical(text[offset..end])
    ensures DecodeFrom(text, offset) == Decode(text[offset..end]) + DecodeFrom(text, end)
  {
    hide Canonical, Decode, AllDigits, DecodeFrom;
    SplitDecode(text, offset);
    SplitDecode(text, end);
    FromHere(text, offset);
    FromHere(text, end);
    var chunk := text[offset..end];
    if end == |text| {
      assert text[offset..] == chunk;
      assert Decode(chunk) + Decode(text[end..]) == Decode(chunk);
    } else {
      DigitsPart(text[..end], offset);
      assert text[..end][offset..] == chunk;
      assert text[offset..] == chunk + text[end..];
      assert |chunk| % 4 == 0;
      DecodeConcat(chunk, text[end..]);
    }
  }
}
