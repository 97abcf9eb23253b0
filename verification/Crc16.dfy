/** CRC16-XMODEM as the console transport uses it, and the errors it is guaranteed to detect. */
module Crc16 {
  import opened Bytes
  import opened BitXor

  type word = x: int | 0 <= x < 0x1_0000

  /** The byte in the upper half of a register. */
  function High(b: byte): (r: word)
    ensures r == (b as int) * 256
  {
    var n: int := b;
    n * 256
  }

  /** One register step: shift left, and subtract the polynomial when a one falls off. */
  function ShiftBit(c: word): (r: word) {
    if (c / 0x8000) % 2 == 1 then Xor(2 * c, 0x1021) % 0x1_0000 else (2 * c) % 0x1_0000
  }

  function Shift(c: word, n: nat): word {
    if n == 0 then c else ShiftBit(Shift(c, n - 1))
  }

  lemma Narrow(a: nat, b: nat)
    requires a < 0x1_0000 && b < 0x1_0000
    ensures Xor(a, b) < 0x1_0000
  {
    Powers();
    Split(16, 0, 0, a, b);
    Cancel(0, 0);
  }

  function StepByte(c: word, b: byte): word {
    Narrow(c, High(b));
    Shift(Xor(c, High(b)), 8)
  }

  function CrcFrom(c: word, bytes: seq<byte>): word {
    if bytes == [] then c else StepByte(CrcFrom(c, bytes[..|bytes| - 1]), bytes[|bytes| - 1])
  }

  function Crc(bytes: seq<byte>): word {
    CrcFrom(0, bytes)
  }

  method Crc16Xmodem(bytes: seq<byte>) returns (crc: word)
    ensures crc == Crc(bytes)
  {
    hide Xor;
    crc := 0;
    for i := 0 to |bytes|
      invariant crc == CrcFrom(0, bytes[..i])
    {
      assert bytes[..i + 1][..i] == bytes[..i];
      ghost var start := crc;
      Narrow(crc, High(bytes[i]));
      crc := Xor(crc, High(bytes[i]));
      ghost var mixed := crc;
      for bit := 0 to 8
        invariant crc == Shift(mixed, bit)
      {
        crc := if (crc / 0x8000) % 2 == 1 then Xor(2 * crc, 0x1021) % 0x1_0000 else (2 * crc) % 0x1_0000;
      }
    }
    assert bytes[..|bytes|] == bytes;
  }

  // ----- the register is linear and loses nothing

  lemma ShiftBitForm(c: word)
    ensures ShiftBit(c) == if c >= 0x8000 then Xor(2 * c - 0x1_0000, 0x1021) else 2 * c
  {
    hide Xor;
    if c >= 0x8000 {
      var l: nat := 2 * c - 0x1_0000;
      Powers();
      Split(16, 1, 0, l, 0x1021);
      TopBits(1, 0);
      assert Xor(2 * c, 0x1021) == 0x1_0000 + Xor(l, 0x1021);
    }
  }

  lemma ShiftBitLinear(a: word, b: word)
    ensures Xor(a, b) < 0x1_0000
    ensures ShiftBit(Xor(a, b)) == Xor(ShiftBit(a), ShiftBit(b))
  {
    hide Xor;
    Powers();
    Narrow(a, b);
    var ha, hb, la, lb := a / 0x8000, b / 0x8000, a % 0x8000, b % 0x8000;
    Split(15, ha, hb, la, lb);
    var x := Xor(la, lb);
    assert Xor(2 * la, 2 * lb) == 2 * x by { TwiceXor(la, lb); }
    ShiftBitForm(a);
    ShiftBitForm(b);
    ShiftBitForm(Xor(a, b));
    TopBits(ha, hb);
    Zero(2 * lb);
    Zero(2 * la);
    var p := 0x1021;
    if ha == 1 && hb == 1 {
      Exchange(2 * la, p, 2 * lb, p);
      Cancel(p, p);
      Zero(2 * x);
    } else if ha == 1 {
      Associates(2 * la, p, 2 * lb);
      Commutes(p, 2 * lb);
      Associates(2 * la, 2 * lb, p);
    } else if hb == 1 {
      Associates(2 * la, 2 * lb, p);
    }
  }

  lemma TopBits(ha: nat, hb: nat)
    requires ha < 2 && hb < 2
    ensures Xor(ha, hb) == if ha == hb then 0 else 1
  {
  }

  lemma TwiceXor(a: nat, b: nat)
    ensures Xor(2 * a, 2 * b) == 2 * Xor(a, b)
  {
    hide Xor;
    Halves(2 * a, 2 * b);
  }

  lemma {:induction false} ShiftLinear(a: word, b: word, n: nat)
    ensures Xor(a, b) < 0x1_0000
    ensures Shift(Xor(a, b), n) == Xor(Shift(a, n), Shift(b, n))
  {
    hide Xor, ShiftBit;
    Narrow(a, b);
    if n > 0 {
      ShiftLinear(a, b, n - 1);
      ShiftBitLinear(Shift(a, n - 1), Shift(b, n - 1));
    }
  }

  lemma ShiftBitKeepsNonzero(c: word)
    ensures ShiftBit(c) == 0 <==> c == 0
  {
    hide Xor;
    ShiftBitForm(c);
    if c >= 0x8000 {
      Halves(2 * c - 0x1_0000, 0x1021);
    }
  }

  lemma {:induction false} ShiftKeepsNonzero(c: word, n: nat)
    ensures Shift(c, n) == 0 <==> c == 0
  {
    hide ShiftBit;
    if n > 0 {
      ShiftKeepsNonzero(c, n - 1);
      ShiftBitKeepsNonzero(Shift(c, n - 1));
    }
  }

  lemma {:induction false} ShiftAdds(c: word, m: nat, n: nat)
    ensures Shift(Shift(c, m), n) == Shift(c, m + n)
  {
    if n > 0 {
      ShiftAdds(c, m, n - 1);
    }
  }

  /** While nothing falls off, shifting multiplies. */
  lemma {:induction false} ShiftSmall(c: word, n: nat)
    requires c * Pow2(n) < 0x1_0000
    ensures Shift(c, n) == c * Pow2(n)
  {
    hide Xor, ShiftBit;
    if n > 0 {
      var q := Pow2(n - 1);
      TwiceProduct(c, q);
      ShiftSmall(c, n - 1);
      ShiftBitSmall(c * q);
    }
  }

  lemma ShiftBitSmall(c: word)
    requires 2 * c < 0x1_0000
    ensures ShiftBit(c) == 2 * c
  {
    hide Xor;
    ShiftBitForm(c);
  }

  /** The generator is that of XMODEM, and the register starts at zero: what a single one comes to. */
  lemma Generator()
    ensures Crc([]) == 0 && Crc([0]) == 0 && Crc([1]) == 0x1021
  {
    hide Xor, Shift, ShiftBit;
    Powers();
    assert Pow2(7) == 0x80;
    var none: seq<byte>, zero: seq<byte>, one: seq<byte> := [], [0], [1];
    assert zero[..0] == none && one[..0] == none;
    Zero(0x100);
    Zero(0);
    ShiftSmall(0, 8);
    ShiftSmall(0x100, 7);
    assert Shift(0x100, 8) == ShiftBit(0x8000) by { ShiftNext(0x100, 7); }
    ShiftBitForm(0x8000);
    Zero(0x1021);
  }

  lemma ShiftNext(c: word, n: nat)
    ensures Shift(c, n + 1) == ShiftBit(Shift(c, n))
  {
  }

  lemma ShiftByte(b: byte)
    ensures Shift(b, 8) == High(b)
  {
    Powers();
    ShiftSmall(b, 8);
  }

  lemma JoinBytes(high: byte, low: byte)
    ensures Xor(High(high), low) == High(high) + low
  {
    Powers();
    Split(8, high, 0, 0, low);
    Zero(high);
    Zero(low);
  }

  // ----- errors

  /** The error pattern that turns one packet into another. */
  function Difference(a: seq<byte>, b: seq<byte>): (e: seq<byte>)
    requires |a| == |b|
    ensures |e| == |a|
  {
    seq(|a|, i requires 0 <= i < |a| => ByteXor(a[i], b[i]))
  }

  function ByteXor(a: byte, b: byte): byte {
    Powers();
    Split(8, 0, 0, a, b);
    Xor(a, b)
  }

  /** The checksum is linear: packets share a checksum exactly when the error pattern's own checksum is zero. */
  lemma {:induction false} CrcLinear(a: seq<byte>, b: seq<byte>)
    requires |a| == |b|
    ensures Xor(Crc(a), Crc(b)) == Crc(Difference(a, b))
  {
    hide Xor, Shift;
    if a == [] {
      Cancel(0, 0);
    } else {
      var n := |a| - 1;
      CrcLinear(a[..n], b[..n]);
      assert Difference(a, b)[..n] == Difference(a[..n], b[..n]);
      var x, y := Crc(a[..n]), Crc(b[..n]);
      Narrow(x, High(a[n]));
      Narrow(y, High(b[n]));
      ShiftLinear(Xor(x, High(a[n])), Xor(y, High(b[n])), 8);
      Exchange(x, High(a[n]), y, High(b[n]));
      Powers();
      Split(8, a[n], b[n], 0, 0);
      Cancel(0, 0);
    }
  }

  lemma {:induction false} CrcFromConcat(c: word, a: seq<byte>, b: seq<byte>)
    ensures CrcFrom(c, a + b) == CrcFrom(CrcFrom(c, a), b)
  {
    hide StepByte;
    if b == [] {
      assert a + b == a;
    } else {
      assert (a + b)[..|a + b| - 1] == a + b[..|b| - 1];
      CrcFromConcat(c, a, b[..|b| - 1]);
    }
  }

  predicate AllZero(bytes: seq<byte>) {
    forall i | 0 <= i < |bytes| :: bytes[i] == 0
  }

  /** Zero bytes keep the register zero, or keep it nonzero. */
  lemma {:induction false} ZerosKeep(c: word, zeros: seq<byte>)
    requires AllZero(zeros)
    ensures CrcFrom(c, zeros) == 0 <==> c == 0
  {
    hide Shift;
    if zeros != [] {
      ZerosKeep(c, zeros[..|zeros| - 1]);
      var d := CrcFrom(c, zeros[..|zeros| - 1]);
      Zero(d);
      ShiftKeepsNonzero(d, 8);
    }
  }

  /** Two bytes into the register amount to sixteen shifts of the register with both bytes mixed in. */
  lemma TwoBytes(c: word, high: byte, low: byte)
    ensures Xor(c, High(high) + low) < 0x1_0000
    ensures CrcFrom(c, [high, low]) == Shift(Xor(c, High(high) + low), 16)
  {
    hide Xor, Shift;
    Narrow(c, High(high) + low);
    Narrow(c, High(high));
    var mixed := Xor(c, High(high));
    assert [high, low][..1] == [high] && [high][..0] == [];
    assert CrcFrom(c, [high]) == Shift(mixed, 8);
    ShiftByte(low);
    ShiftLinear(mixed, low, 8);
    JoinBytes(high, low);
    Associates(c, High(high), low);
    ShiftAdds(Xor(mixed, low), 8, 8);
  }

  /** The console transport's acceptance test on packet and checksum together. */
  predicate CrcValid(framed: seq<byte>)
    requires |framed| >= 2
  {
    Crc(framed[..|framed| - 2]) == ReadU16(framed, |framed| - 2)
  }

  /** A packet followed by a big-endian checksum is accepted exactly when the checksum of the whole is zero. */
  lemma Residue(framed: seq<byte>)
    requires |framed| >= 2
    ensures CrcValid(framed) <==> Crc(framed) == 0
  {
    hide Xor, Shift, StepByte, CrcFrom;
    var n := |framed| - 2;
    var packet := framed[..n];
    assert framed == packet + [framed[n], framed[n + 1]];
    CrcFromConcat(0, packet, [framed[n], framed[n + 1]]);
    TwoBytes(Crc(packet), framed[n], framed[n + 1]);
    var field := ReadU16(framed, n);
    ShiftKeepsNonzero(Xor(Crc(packet), field), 16);
    Cancel(Crc(packet), field);
  }

  /** Within three bytes, an error of at most sixteen consecutive bits never looks like no error. */
  lemma BurstPattern(e0: byte, e1: byte, e2: byte, burst: word, k: nat)
    requires k <= 8 && burst != 0 && High(e0) * 256 + High(e1) + e2 == burst * Pow2(k)
    ensures CrcFrom(0, [e0, e1, e2]) != 0
  {
    hide Xor, Shift, StepByte, CrcFrom;
    var e01: word := High(e0) + e1;
    CrcFromConcat(0, [e0, e1], [e2]);
    assert [e0, e1] + [e2] == [e0, e1, e2];
    TwoBytes(0, e0, e1);
    Zero(e01);
    OneByte(Shift(e01, 16), e2);
    // The register now holds sixteen shifts of `burst`, shifted k places.
    ShiftByte(e2);
    ShiftAdds(e01, 8, 8);
    ShiftAdds(e2, 8, 0);
    Narrow(Shift(e01, 8), e2);
    ShiftLinear(Shift(e01, 8), e2, 8);
    BurstShift(e01, e2, burst, k);
    ShiftAdds(burst, k, 8);
    ShiftKeepsNonzero(burst, k + 8);
    ShiftKeepsNonzero(Shift(burst, k + 8), 8);
  }

  lemma OneByte(c: word, b: byte)
    ensures Xor(c, High(b)) < 0x1_0000
    ensures CrcFrom(c, [b]) == Shift(Xor(c, High(b)), 8)
  {
    hide Xor, Shift;
    Narrow(c, High(b));
    assert [b][..0] == [];
  }

  /** The same register content, reached by shifting the burst itself. */
  lemma BurstShift(e01: word, e2: byte, burst: word, k: nat)
    requires k <= 8 && e01 * 256 + e2 == burst * Pow2(k)
    ensures Xor(Shift(e01, 8), e2) == Shift(burst, k)
  {
    hide Xor, Shift, Pow2;
    var p, r := Pow2(k), Pow2(8 - k);
    PowersOfByte(k);
    var v := BurstParts(e01, e2, burst, p, r);
    Split(8 - k, e01, 0, 0, v);
    Zero(e01);
    Zero(v);
    ShiftLinear(e01 * r, v, k);
    ShiftSmall(v, k);
    ShiftSmall(e01, 8 - k);
    ShiftAdds(e01, 8 - k, k);
  }

  /** The burst, cut where the third byte begins. */
  lemma BurstParts(e01: word, e2: byte, burst: word, p: nat, r: nat) returns (v: word)
    requires p > 0 && r > 0 && p * r == 256 && e01 * 256 + e2 == burst * p
    ensures burst == e01 * r + v && v * p == e2 && v < r && 0 <= e01 * r < 0x1_0000
  {
    var w := burst - e01 * r;
    assert w * p == burst * p - e01 * (p * r) by {
      assert (e01 * r) * p == e01 * (p * r);
    }
    ProductBounds(w, p, r);
    v := w;
  }

  lemma ProductBounds(w: int, p: int, r: int)
    requires p > 0
    ensures w < 0 ==> w * p < 0
    ensures w >= r ==> w * p >= r * p
  {
  }

  lemma PowersOfByte(k: nat)
    requires k <= 8
    ensures Pow2(k) * Pow2(8 - k) == 256
  {
    assert Pow2(0) == 1 && Pow2(1) == 2 && Pow2(2) == 4 && Pow2(3) == 8 && Pow2(4) == 16;
    assert Pow2(5) == 32 && Pow2(6) == 64 && Pow2(7) == 128 && Pow2(8) == 256;
  }

  /** `sent` and `received` differ by `burst`, placed k bits above the end of the three bytes at index i. */
  predicate DiffersByBurst(sent: seq<byte>, received: seq<byte>, i: nat, burst: word, k: nat) {
    && |sent| == |received| && i + 3 <= |sent| && k <= 8 && burst != 0
    && var e := Difference(sent, received);
       && AllZero(e[..i]) && AllZero(e[i + 3..])
       && High(e[i]) * 256 + High(e[i + 1]) + e[i + 2] == burst * Pow2(k)
  }

  /**
   * Burst detection: if a packet with its checksum is accepted, nothing that differs from it by a burst of at most
   * sixteen bits, at any bit position, in the packet or in the checksum, is accepted too.
   */
  lemma BurstDetected(sent: seq<byte>, received: seq<byte>, i: nat, burst: word, k: nat)
    requires |sent| >= 2 && CrcValid(sent) && DiffersByBurst(sent, received, i, burst, k)
    ensures !CrcValid(received)
  {
    hide Xor, Shift, StepByte, CrcFrom;
    var e := Difference(sent, received);
    var middle := [e[i], e[i + 1], e[i + 2]];
    assert e == e[..i] + (middle + e[i + 3..]);
    CrcFromConcat(0, e[..i], middle + e[i + 3..]);
    ZerosKeep(0, e[..i]);
    CrcFromConcat(0, middle, e[i + 3..]);
    BurstPattern(e[i], e[i + 1], e[i + 2], burst, k);
    ZerosKeep(CrcFrom(0, middle), e[i + 3..]);
    Residue(sent);
    Residue(received);
    CrcLinear(sent, received);
    Zero(Crc(received));
  }

  // ----- parity

  function OddBits(bytes: seq<byte>): bool {
    if bytes == [] then false else Odd(bytes[|bytes| - 1]) != OddBits(bytes[..|bytes| - 1])
  }

  lemma TopBitApart(l: nat)
    requires l < 0x8000
    ensures Xor(0x8000, l) == 0x8000 + l
  {
    Powers();
    Split(15, 1, 0, 0, l);
    Zero(l);
  }

  lemma ShiftBitParity(c: word)
    ensures Odd(ShiftBit(c)) == Odd(c)
  {
    hide Xor, ShiftBit, Odd;
    ShiftBitForm(c);
    if c >= 0x8000 {
      var l := c - 0x8000;
      OddXor(2 * l, 0x1021);
      TopBitApart(l);
      OddXor(0x8000, l);
      OddConstants();
      OddTwice(l);
    } else {
      OddTwice(c);
    }
  }

  lemma OddTwice(l: nat)
    ensures Odd(2 * l) == Odd(l)
  {
  }

  lemma OddConstants()
    ensures Odd(0x1021) && Odd(0x8000)
  {
    OddTwice(0x4000); OddTwice(0x2000); OddTwice(0x1000); OddTwice(0x800); OddTwice(0x400); OddTwice(0x200); OddTwice(0x100);
    OddTwice(0x80); OddTwice(0x40); OddTwice(0x20); OddTwice(0x10); OddTwice(8); OddTwice(4); OddTwice(2); OddTwice(1);
    assert Odd(1);
    assert Odd(0x1021) == !Odd(0x810);
    OddTwice(0x408); OddTwice(0x204); OddTwice(0x102); OddTwice(0x81);
    assert Odd(0x81) == !Odd(0x40);
  }

  lemma {:induction false} ShiftParity(c: word, n: nat)
    ensures Odd(Shift(c, n)) == Odd(c)
  {
    hide Odd, ShiftBit;
    if n > 0 {
      ShiftParity(c, n - 1);
      ShiftBitParity(Shift(c, n - 1));
    }
  }

  lemma {:induction false} CrcParity(bytes: seq<byte>)
    ensures Odd(Crc(bytes)) == OddBits(bytes)
  {
    hide Odd, Shift, Xor;
    if bytes == [] {
      OddXor(0, 0);
      Cancel(0, 0);
    } else {
      var c, b := Crc(bytes[..|bytes| - 1]), bytes[|bytes| - 1];
      CrcParity(bytes[..|bytes| - 1]);
      Narrow(c, High(b));
      ShiftParity(Xor(c, High(b)), 8);
      OddXor(c, High(b));
      var n: nat := b;
      OddTwice(n); OddTwice(2 * n); OddTwice(4 * n); OddTwice(8 * n);
      OddTwice(16 * n); OddTwice(32 * n); OddTwice(64 * n); OddTwice(128 * n);
    }
  }

  /** Any odd number of flipped bits, anywhere, is detected. */
  lemma OddErrorsDetected(sent: seq<byte>, received: seq<byte>)
    requires |sent| == |received| >= 2 && CrcValid(sent) && OddBits(Difference(sent, received))
    ensures !CrcValid(received)
  {
    hide Odd, CrcFrom, Xor;
    Residue(sent);
    Residue(received);
    CrcLinear(sent, received);
    CrcParity(Difference(sent, received));
    OddXor(0, 0);
    Cancel(0, 0);
  }
}
