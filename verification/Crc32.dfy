/**
  The checksum of src/crc32.c. The byte-at-a-time loop over the table equals the division of the
  message, bit by bit, by the reflected polynomial; and the division tells apart any two messages
  whose differences lie within 32 consecutive bits.
*/
module Crc32 {
  import opened Prot
  import opened Crc32Table

  function Low(bit: bool): bv32 {
    if bit then 1 else 0
  }

  /** The remainder register after the bits of a message, first bit first. */
  function Divide(c: bv32, bits: seq<bool>): bv32
    decreases |bits|
  {
    if bits == [] then c else Divide(Shift(Xor(c, Low(bits[0]))), bits[1..])
  }

  function Xor(a: bv32, b: bv32): bv32 {
    a ^ b
  }

  function Half(b: bv32): bv32 {
    b >> 1
  }

  function Odd(b: bv32): bool {
    b & 1 == 1
  }

  /** The bits of a byte, least significant first. */
  function ByteBits(b: bv32): (bits: seq<bool>)
    ensures |bits| == 8
  {
    var b1 := Half(b);
    var b2 := Half(b1);
    var b3 := Half(b2);
    var b4 := Half(b3);
    var b5 := Half(b4);
    var b6 := Half(b5);
    var b7 := Half(b6);
    [Odd(b), Odd(b1), Odd(b2), Odd(b3), Odd(b4), Odd(b5), Odd(b6), Odd(b7)]
  }

  /** A byte as the word it is promoted to. */
  function Word(b: byte): bv32 {
    (b as bv8) as bv32
  }

  function Bits(buf: seq<byte>): seq<bool>
    decreases |buf|
  {
    if buf == [] then [] else ByteBits(Word(buf[0])) + Bits(buf[1..])
  }

  function Flip(c: bv32): bv32 {
    c ^ 0xffff_ffff
  }

  lemma FlipTwice(c: bv32)
    ensures Flip(Flip(c)) == c
  {
  }

  /** CRC-32 as a specification: complement, divide, complement. */
  function Checksum(crc: bv32, buf: seq<byte>): bv32 {
    Flip(Divide(Flip(crc), Bits(buf)))
  }

  // One byte.

  function Feedback(c: bv32): bv32 {
    if c & 1 == 1 then 0xedb8_8320 else 0
  }

  lemma ShiftOdd(c: bv32)
    requires Odd(c)
    ensures Shift(c) == Xor(Half(c), 0xedb8_8320)
  {
  }

  lemma ShiftEven(c: bv32)
    requires !Odd(c)
    ensures Shift(c) == Xor(Half(c), 0)
  {
  }

  lemma ShiftForm(c: bv32)
    ensures Shift(c) == Xor(Half(c), Feedback(c))
  {
    hide Half, Xor;
    if Odd(c) {
      ShiftOdd(c);
    } else {
      ShiftEven(c);
    }
  }

  lemma HalfLinear(a: bv32, b: bv32)
    ensures Half(Xor(a, b)) == Xor(Half(a), Half(b))
  {
  }

  lemma FeedbackLinear(a: bv32, b: bv32)
    ensures Feedback(Xor(a, b)) == Xor(Feedback(a), Feedback(b))
  {
    assert (a ^ b) & 1 == (a & 1) ^ (b & 1);
  }

  lemma XorAssoc(a: bv32, b: bv32, c: bv32)
    ensures Xor(Xor(a, b), c) == Xor(a, Xor(b, c))
  {
  }

  lemma XorComm(a: bv32, b: bv32)
    ensures Xor(a, b) == Xor(b, a)
  {
  }

  lemma XorSwap(p: bv32, q: bv32, r: bv32, s: bv32)
    ensures Xor(Xor(p, q), Xor(r, s)) == Xor(Xor(p, r), Xor(q, s))
  {
    hide Xor;
    XorAssoc(p, q, Xor(r, s));
    XorAssoc(q, r, s);
    XorComm(q, r);
    XorAssoc(r, q, s);
    XorAssoc(p, r, Xor(q, s));
  }

  lemma ShiftLinear(a: bv32, b: bv32)
    ensures Shift(Xor(a, b)) == Xor(Shift(a), Shift(b))
  {
    hide Shift, Xor, Half, Feedback;
    ShiftForm(a);
    ShiftForm(b);
    ShiftForm(Xor(a, b));
    HalfLinear(a, b);
    FeedbackLinear(a, b);
    XorSwap(Half(a), Half(b), Feedback(a), Feedback(b));
  }

  function Double(z: bv32): bv32 {
    z << 1
  }

  predicate Small(z: bv32) {
    z <= 0x7fff_ffff
  }

  lemma ShiftDouble(z: bv32)
    requires Small(z)
    ensures Shift(Double(z)) == z
  {
  }

  lemma ShiftDoubled(y: bv32, z: bv32)
    requires Small(z)
    ensures Shift(Xor(y, Double(z))) == Xor(Shift(y), z)
  {
    hide Xor, Shift, Double, Small;
    ShiftLinear(y, Double(z));
    ShiftDouble(z);
  }

  /** Eight doublings come through eight steps undone. */
  lemma Shift8Doubled(low: bv32, z: bv32, z1: bv32, z2: bv32, z3: bv32, z4: bv32, z5: bv32, z6: bv32, z7: bv32)
    requires Small(z) && Small(z1) && Small(z2) && Small(z3) && Small(z4) && Small(z5) && Small(z6) && Small(z7)
    requires z1 == Double(z) && z2 == Double(z1) && z3 == Double(z2) && z4 == Double(z3)
    requires z5 == Double(z4) && z6 == Double(z5) && z7 == Double(z6)
    ensures Shift8(Xor(low, Double(z7))) == Xor(Shift8(low), z)
  {
    hide Shift, Xor, Double, Small;
    var s1 := Shift(low);
    var s2 := Shift(s1);
    var s3 := Shift(s2);
    var s4 := Shift(s3);
    var s5 := Shift(s4);
    var s6 := Shift(s5);
    var s7 := Shift(s6);
    ShiftDoubled(low, z7);
    ShiftDoubled(s1, z6);
    ShiftDoubled(s2, z5);
    ShiftDoubled(s3, z4);
    ShiftDoubled(s4, z3);
    ShiftDoubled(s5, z2);
    ShiftDoubled(s6, z1);
    ShiftDoubled(s7, z);
  }

  predicate IsByte(b: bv32) {
    b <= 0xff
  }

  predicate IsHigh(b: bv32) {
    b <= 0x00ff_ffff
  }

  function LowByte(c: bv32): bv32 {
    c & 0xff
  }

  function HighBytes(c: bv32): bv32 {
    c >> 8
  }

  function Raise(c: bv32): bv32 {
    c << 8
  }

  lemma EightDoubles(high: bv32)
    requires IsHigh(high)
    ensures
      var z1 := Double(high);
      var z2 := Double(z1);
      var z3 := Double(z2);
      var z4 := Double(z3);
      var z5 := Double(z4);
      var z6 := Double(z5);
      var z7 := Double(z6);
      && Small(high) && Small(z1) && Small(z2) && Small(z3) && Small(z4) && Small(z5) && Small(z6) && Small(z7)
      && Double(z7) == Raise(high)
  {
  }

  /** Bits above the lowest byte come through eight steps unchanged, eight places down. */
  lemma Shift8High(low: bv32, high: bv32)
    requires IsHigh(high)
    ensures Shift8(Xor(low, Raise(high))) == Xor(Shift8(low), high)
  {
    hide Shift8, Xor, Double, Small, Raise, IsHigh;
    EightDoubles(high);
    var z1 := Double(high);
    var z2 := Double(z1);
    var z3 := Double(z2);
    var z4 := Double(z3);
    var z5 := Double(z4);
    var z6 := Double(z5);
    Shift8Doubled(low, high, z1, z2, z3, z4, z5, z6, Double(z6));
  }

  lemma SplitWord(c: bv32)
    ensures Xor(LowByte(c), Raise(HighBytes(c))) == c && IsHigh(HighBytes(c)) && IsByte(LowByte(c))
  {
  }

  lemma HighBytesKept(c: bv32, b: bv32)
    requires IsByte(b)
    ensures HighBytes(Xor(c, b)) == HighBytes(c)
  {
  }

  function Lookup(i: bv32): bv32
    requires IsByte(i)
  {
    Entry(i);
    TABLE[i as int]
  }

  lemma LookupEntry(i: bv32)
    requires IsByte(i)
    ensures Lookup(i) == Shift8(i)
  {
    hide Shift8;
    Entry(i);
  }

  /** One round of the table loop is eight shift steps. */
  lemma TableRound(c: bv32, b: bv32)
    requires IsByte(b)
    ensures IsByte(LowByte(Xor(c, b)))
    ensures Xor(Lookup(LowByte(Xor(c, b))), HighBytes(c)) == Shift8(Xor(c, b))
  {
    hide Shift8, Xor, LowByte, HighBytes, Raise, Lookup, IsByte, IsHigh;
    var x := Xor(c, b);
    SplitWord(x);
    HighBytesKept(c, b);
    LookupEntry(LowByte(x));
    Shift8High(LowByte(x), HighBytes(x));
  }

  lemma OddPart(y: bv32)
    ensures Xor(Low(Odd(y)), Double(Half(y))) == y && Small(Half(y))
  {
  }

  /** Taking the lowest bit in, and shifting, leaves the other bits to be taken in later. */
  lemma BitIn(s: bv32, y: bv32)
    ensures Shift(Xor(s, y)) == Xor(Shift(Xor(s, Low(Odd(y)))), Half(y))
  {
    hide Shift, Xor, Low, Odd, Half, Double, Small;
    OddPart(y);
    XorAssoc(s, Low(Odd(y)), Double(Half(y)));
    ShiftDoubled(Xor(s, Low(Odd(y))), Half(y));
  }

  lemma EightHalves(b: bv32)
    requires IsByte(b)
    ensures Half(Half(Half(Half(Half(Half(Half(Half(b)))))))) == Zero()
  {
  }

  function Zero(): bv32 {
    0
  }

  lemma XorZero(c: bv32)
    ensures Xor(c, Zero()) == c
  {
  }

  function TakeBit(c: bv32, b: bv32): bv32 {
    Shift(Xor(c, Low(Odd(b))))
  }

  lemma FourBitsIn(c: bv32, b: bv32)
    ensures
      var b1 := Half(b);
      var b2 := Half(b1);
      var b3 := Half(b2);
      Shift(Shift(Shift(Shift(Xor(c, b)))))
        == Xor(TakeBit(TakeBit(TakeBit(TakeBit(c, b), b1), b2), b3), Half(b3))
  {
    hide Shift, Xor, Low, Odd, Half;
    var b1 := Half(b);
    var b2 := Half(b1);
    var c1 := TakeBit(c, b);
    var c2 := TakeBit(c1, b1);
    BitIn(c, b);
    BitIn(c1, b1);
    BitIn(c2, b2);
    BitIn(TakeBit(c2, b2), Half(b2));
  }

  /** Taking the message bits in one by one is the same as taking the whole byte in first. */
  lemma ByteIn(c: bv32, b: bv32)
    requires IsByte(b)
    ensures Shift8(Xor(c, b)) == Fold8(c, b)
  {
    hide Shift, Xor, TakeBit, Zero, Half, IsByte;
    EightHalves(b);
    var b4 := Half(Half(Half(Half(b))));
    var b7 := Half(Half(Half(b4)));
    var c4 := TakeBit(TakeBit(TakeBit(TakeBit(c, b), Half(b)), Half(Half(b))), Half(Half(Half(b))));
    FourBitsIn(c, b);
    FourBitsIn(c4, b4);
    XorZero(TakeBit(TakeBit(TakeBit(TakeBit(c4, b4), Half(b4)), Half(Half(b4))), b7));
  }

  /** The eight bits of a byte taken in, least significant first. */
  function Fold8(c: bv32, b: bv32): bv32 {
    var c4 := TakeBit(TakeBit(TakeBit(TakeBit(c, b), Half(b)), Half(Half(b))), Half(Half(Half(b))));
    var b4 := Half(Half(Half(Half(b))));
    TakeBit(TakeBit(TakeBit(TakeBit(c4, b4), Half(b4)), Half(Half(b4))), Half(Half(Half(b4))))
  }

  // Whole messages.

  lemma {:induction false} DivideAppend(c: bv32, a: seq<bool>, b: seq<bool>)
    ensures Divide(c, a + b) == Divide(Divide(c, a), b)
    decreases |a|
  {
    if a == [] {
      assert a + b == b;
    } else {
      assert (a + b)[1..] == a[1..] + b;
      DivideAppend(Shift(Xor(c, Low(a[0]))), a[1..], b);
    }
  }

  lemma {:induction false} BitsAppend(a: seq<byte>, b: seq<byte>)
    ensures Bits(a + b) == Bits(a) + Bits(b)
    decreases |a|
  {
    if a == [] {
      assert a + b == b;
    } else {
      assert (a + b)[1..] == a[1..] + b;
      BitsAppend(a[1..], b);
      assert ByteBits(Word(a[0])) + (Bits(a[1..]) + Bits(b)) == (ByteBits(Word(a[0])) + Bits(a[1..])) + Bits(b);
    }
  }

  function Nibble(b: bv32): seq<bool> {
    [Odd(b), Odd(Half(b)), Odd(Half(Half(b))), Odd(Half(Half(Half(b))))]
  }

  lemma DivideBit(c: bv32, b: bv32, bits: seq<bool>)
    ensures Divide(c, [Odd(b)] + bits) == Divide(TakeBit(c, b), bits)
  {
    hide Shift, Xor, Low, Odd;
    assert ([Odd(b)] + bits)[1..] == bits;
  }

  lemma DivideNibble(c: bv32, b: bv32, bits: seq<bool>)
    ensures Divide(c, Nibble(b) + bits)
         == Divide(TakeBit(TakeBit(TakeBit(TakeBit(c, b), Half(b)), Half(Half(b))), Half(Half(Half(b)))), bits)
  {
    hide TakeBit, Odd, Half, Divide;
    var b1 := Half(b);
    var b2 := Half(b1);
    var b3 := Half(b2);
    assert Nibble(b) + bits == [Odd(b)] + ([Odd(b1)] + ([Odd(b2)] + ([Odd(b3)] + bits)));
    DivideBit(c, b, [Odd(b1)] + ([Odd(b2)] + ([Odd(b3)] + bits)));
    DivideBit(TakeBit(c, b), b1, [Odd(b2)] + ([Odd(b3)] + bits));
    DivideBit(TakeBit(TakeBit(c, b), b1), b2, [Odd(b3)] + bits);
    DivideBit(TakeBit(TakeBit(TakeBit(c, b), b1), b2), b3, bits);
  }

  lemma DivideByte(c: bv32, b: bv32)
    ensures Divide(c, ByteBits(b)) == Fold8(c, b)
  {
    hide TakeBit, Odd, Half;
    var b4 := Half(Half(Half(Half(b))));
    assert ByteBits(b) == Nibble(b) + (Nibble(b4) + []);
    DivideNibble(c, b, Nibble(b4) + []);
    DivideNibble(TakeBit(TakeBit(TakeBit(TakeBit(c, b), Half(b)), Half(Half(b))), Half(Half(Half(b)))), b4, []);
  }

  lemma ByteFits(b: byte)
    ensures IsByte(Word(b))
  {
  }

  lemma NextByte(c: bv32, buf: seq<byte>, p: nat)
    requires p < |buf|
    ensures Divide(c, Bits(buf[..p + 1])) == Divide(Divide(c, Bits(buf[..p])), ByteBits(Word(buf[p])))
  {
    hide Divide, ByteBits;
    var one := [buf[p]];
    assert buf[..p + 1] == buf[..p] + one;
    BitsAppend(buf[..p], one);
    assert Bits(one[1..]) == [];
    assert Bits(one) == ByteBits(Word(buf[p]));
    DivideAppend(c, Bits(buf[..p]), ByteBits(Word(buf[p])));
  }

  /** The loop over the table computes the bitwise division of the message. */
  method Crc32(crc: bv32, buf: seq<byte>) returns (r: bv32)
    ensures r == Checksum(crc, buf)
  {
    hide Shift8, Xor, Lookup, LowByte, HighBytes, IsByte, Flip, Fold8, ByteBits;
    r := Flip(crc);
    var p, size := 0, |buf|;
    while size > 0
      invariant 0 <= p <= |buf| && p + size == |buf|
      invariant r == Divide(Flip(crc), Bits(buf[..p]))
    {
      var b := Word(buf[p]);
      ByteFits(buf[p]);
      TableRound(r, b);
      ByteIn(r, b);
      DivideByte(r, b);
      NextByte(Flip(crc), buf, p);
      r := Xor(Lookup(LowByte(Xor(r, b))), HighBytes(r));
      p, size := p + 1, size - 1;
    }
    assert buf[..p] == buf;
    r := Flip(r);
  }

  /** A checksum can be carried from one buffer to the next. */
  lemma Chains(crc: bv32, a: seq<byte>, b: seq<byte>)
    ensures Checksum(Checksum(crc, a), b) == Checksum(crc, a + b)
  {
    hide Divide, Bits, Flip;
    BitsAppend(a, b);
    DivideAppend(Flip(crc), Bits(a), Bits(b));
    FlipTwice(Divide(Flip(crc), Bits(a)));
  }

  // Error detection.

  lemma LowLinear(p: bool, q: bool)
    ensures Xor(Low(p), Low(q)) == Low(p != q)
  {
  }

  function Differences(a: seq<bool>, b: seq<bool>): seq<bool>
    requires |a| == |b|
  {
    seq(|a|, i requires 0 <= i < |a| => a[i] != b[i])
  }

  /** Division is linear: the remainders of two messages differ by the remainder of their difference. */
  lemma {:induction false} DivideLinear(c: bv32, d: bv32, a: seq<bool>, b: seq<bool>)
    requires |a| == |b|
    ensures Xor(Divide(c, a), Divide(d, b)) == Divide(Xor(c, d), Differences(a, b))
    decreases |a|
  {
    hide Shift, Xor, Low;
    if a != [] {
      var s, t := Xor(c, Low(a[0])), Xor(d, Low(b[0]));
      XorSwap(c, Low(a[0]), d, Low(b[0]));
      LowLinear(a[0], b[0]);
      ShiftLinear(s, t);
      assert Differences(a, b)[1..] == Differences(a[1..], b[1..]);
      DivideLinear(Shift(s), Shift(t), a[1..], b[1..]);
    }
  }

  /** The masks of 31 ones, 30 ones, and so on. */
  function Tail(j: nat): bv32 {
    if j == 0 then 0x7fff_ffff else Half(Tail(j - 1))
  }

  predicate Ones(m: bv32) {
    m & (m + 1) == 0 && m <= 0x7fff_ffff
  }

  lemma OnesHalf(m: bv32)
    requires Ones(m)
    ensures Ones(Half(m)) && Half(m) <= m
  {
  }

  lemma {:induction false} TailOnes(j: nat)
    ensures Ones(Tail(j))
  {
    hide Ones, Half;
    if j == 0 {
      AllOnes();
    } else {
      TailOnes(j - 1);
      OnesHalf(Tail(j - 1));
    }
  }

  lemma AllOnes()
    ensures Ones(0x7fff_ffff)
  {
  }

  lemma {:induction false} TailFalls(j: nat, k: nat)
    requires j <= k
    ensures Tail(k) <= Tail(j)
    decreases k - j
  {
    if j < k {
      TailFalls(j + 1, k);
      TailOnes(j);
      OnesHalf(Tail(j));
    }
  }

  lemma TailThirty()
    ensures Tail(30) == 1
  {
    assert Tail(1) == 0x3fffffff && Tail(2) == 0x1fffffff && Tail(3) == 0xfffffff && Tail(4) == 0x7ffffff
           && Tail(5) == 0x3ffffff;
    assert Tail(6) == 0x1ffffff && Tail(7) == 0xffffff && Tail(8) == 0x7fffff && Tail(9) == 0x3fffff
           && Tail(10) == 0x1fffff;
    assert Tail(11) == 0xfffff && Tail(12) == 0x7ffff && Tail(13) == 0x3ffff && Tail(14) == 0x1ffff
           && Tail(15) == 0xffff;
    assert Tail(16) == 0x7fff && Tail(17) == 0x3fff && Tail(18) == 0x1fff && Tail(19) == 0xfff && Tail(20) == 0x7ff;
    assert Tail(21) == 0x3ff && Tail(22) == 0x1ff && Tail(23) == 0xff && Tail(24) == 0x7f && Tail(25) == 0x3f;
    assert Tail(26) == 0x1f && Tail(27) == 0xf && Tail(28) == 0x7 && Tail(29) == 0x3 && Tail(30) == 0x1;
  }

  predicate AtMost(a: bv32, b: bv32) {
    a <= b
  }

  lemma StepBack(c: bv32, bit: bool, m: bv32)
    requires Ones(m) && AtMost(1, m) && AtMost(Shift(Xor(c, Low(bit))), Half(m))
    ensures AtMost(c, m)
  {
  }

  lemma TailIsMask(j: nat)
    requires j <= 30
    ensures Ones(Tail(j)) && AtMost(1, Tail(j)) && Tail(j + 1) == Half(Tail(j))
  {
    TailOnes(j);
    TailFalls(j, 30);
    TailThirty();
  }

  lemma AtLeastZero(c: bv32)
    ensures AtMost(0, c)
  {
  }

  /** A register that `bits` drive to zero held nothing above the lowest |bits| places. */
  lemma {:induction false} SmallBefore(c: bv32, bits: seq<bool>)
    requires |bits| <= 31 && Divide(c, bits) == 0
    ensures AtMost(c, Tail(31 - |bits|))
    decreases |bits|
  {
    hide Shift, Xor, Low, Half, Ones, AtMost, Tail;
    if bits == [] {
      AtLeastZero(Tail(31));
    } else {
      var j := 31 - |bits|;
      SmallBefore(Shift(Xor(c, Low(bits[0]))), bits[1..]);
      TailIsMask(j);
      StepBack(c, bits[0], Tail(j));
    }
  }

  lemma ShiftNonzero(c: bv32)
    requires c != 0
    ensures Shift(c) != 0
  {
  }

  lemma NoBit(c: bv32)
    ensures Xor(c, Low(false)) == c && Shift(0) == 0 && Shift(Xor(0, Low(true))) == 0xedb8_8320
  {
  }

  lemma {:induction false} ZerosKeep(c: bv32, bits: seq<bool>)
    requires forall i | 0 <= i < |bits| :: !bits[i]
    ensures Divide(c, bits) == 0 <==> c == 0
    decreases |bits|
  {
    hide Shift, Xor, Low;
    if bits != [] {
      NoBit(c);
      ZerosKeep(Shift(c), bits[1..]);
      if c != 0 {
        ShiftNonzero(c);
      }
    }
  }

  /** A message whose ones begin at `p` and span no more than 32 places leaves a nonzero remainder. */
  lemma BurstLeavesRemainder(e: seq<bool>, p: nat)
    requires p < |e| && e[p]
    requires forall i | 0 <= i < |e| && e[i] :: p <= i < p + 32
    ensures Divide(0, e) != 0
  {
    hide Shift, Xor, Low, Half, Divide, Tail, AtMost;
    var q := if p + 32 <= |e| then p + 32 else |e|;
    var rest := e[p + 1..q] + e[q..];
    assert e[p..] == [true] + rest && e == e[..p] + e[p..];
    DivideAppend(0, e[..p], e[p..]);
    ZerosKeep(0, e[..p]);
    NoBit(0);
    DivideOne(rest);
    DivideAppend(0xedb8_8320, e[p + 1..q], e[q..]);
    ZerosKeep(Divide(0xedb8_8320, e[p + 1..q]), e[q..]);
    if Divide(0xedb8_8320, e[p + 1..q]) == 0 {
      SmallBefore(0xedb8_8320, e[p + 1..q]);
      TailBound(31 - |e[p + 1..q]|);
    }
  }

  lemma DivideOne(rest: seq<bool>)
    ensures Divide(0, [true] + rest) == Divide(0xedb8_8320, rest)
  {
    NoBit(0);
    assert ([true] + rest)[1..] == rest;
  }

  lemma TailBound(j: nat)
    ensures !AtMost(0xedb8_8320, Tail(j))
  {
    TailOnes(j);
  }

  lemma FlipInjective(a: bv32, b: bv32)
    requires Flip(a) == Flip(b)
    ensures a == b
  {
    FlipTwice(a);
    FlipTwice(b);
  }

  lemma XorSelf(c: bv32)
    ensures Xor(c, c) == 0
  {
  }

  /** Two messages whose bits differ, all within 32 consecutive places, never have the same checksum. */
  lemma DetectsBurst(crc: bv32, a: seq<byte>, b: seq<byte>, p: nat)
    requires |Bits(a)| == |Bits(b)|
    requires p < |Bits(a)| && Bits(a)[p] != Bits(b)[p]
    requires forall i | 0 <= i < |Bits(a)| && Bits(a)[i] != Bits(b)[i] :: p <= i < p + 32
    ensures Checksum(crc, a) != Checksum(crc, b)
  {
    hide Divide, Bits, Flip, Xor;
    var e := Differences(Bits(a), Bits(b));
    BurstLeavesRemainder(e, p);
    DivideLinear(Flip(crc), Flip(crc), Bits(a), Bits(b));
    XorSelf(Flip(crc));
    if Checksum(crc, a) == Checksum(crc, b) {
      FlipInjective(Divide(Flip(crc), Bits(a)), Divide(Flip(crc), Bits(b)));
      XorSelf(Divide(Flip(crc), Bits(a)));
    }
  }

  // From bytes to bits.

  lemma {:induction false} BitsAt(buf: seq<byte>, i: nat, j: nat)
    requires i < |buf| && j < 8
    ensures |Bits(buf)| == 8 * |buf| && Bits(buf)[8 * i + j] == ByteBits(Word(buf[i]))[j]
    decreases |buf|
  {
    hide Half, Odd, ByteBits, Word;
    if |buf| == 1 {
      assert Bits(buf[1..]) == [];
    } else if i == 0 {
      BitsAt(buf[1..], 0, 0);
    } else {
      BitsAt(buf[1..], i - 1, j);
    }
  }

  lemma ByteBitsInjective(x: bv32, y: bv32)
    requires IsByte(x) && IsByte(y) && ByteBits(x) == ByteBits(y)
    ensures x == y
  {
    assert ByteBits(x)[0] == ByteBits(y)[0] && ByteBits(x)[1] == ByteBits(y)[1];
    assert ByteBits(x)[2] == ByteBits(y)[2] && ByteBits(x)[3] == ByteBits(y)[3];
    assert ByteBits(x)[4] == ByteBits(y)[4] && ByteBits(x)[5] == ByteBits(y)[5];
    assert ByteBits(x)[6] == ByteBits(y)[6] && ByteBits(x)[7] == ByteBits(y)[7];
  }

  lemma WordNarrows(a: byte, b: byte)
    requires Word(a) == Word(b)
    ensures a as bv8 == b as bv8
  {
  }

  lemma WordInjective(a: byte, b: byte)
    requires Word(a) == Word(b)
    ensures a == b
  {
    hide Word;
    WordNarrows(a, b);
    ByteBack(a);
    ByteBack(b);
  }

  lemma DiffersAt(a: seq<byte>, b: seq<byte>, i: nat) returns (j: nat)
    requires i < |a| == |b| && a[i] != b[i]
    ensures j < 8 && ByteBits(Word(a[i]))[j] != ByteBits(Word(b[i]))[j]
  {
    hide Word, ByteBits;
    ByteFits(a[i]);
    ByteFits(b[i]);
    if ByteBits(Word(a[i])) == ByteBits(Word(b[i])) {
      ByteBitsInjective(Word(a[i]), Word(b[i]));
      WordInjective(a[i], b[i]);
    }
    j :| 0 <= j < 8 && ByteBits(Word(a[i]))[j] != ByteBits(Word(b[i]))[j];
  }

  /** The first place where two bit strings differ. */
  lemma {:induction false} FirstDifference(x: seq<bool>, y: seq<bool>, n: nat) returns (p: nat)
    requires |x| == |y| && n < |x| && x[n] != y[n]
    ensures p <= n && x[p] != y[p] && forall i | 0 <= i < p :: x[i] == y[i]
  {
    if m: nat :| m < n && x[m] != y[m] {
      p := FirstDifference(x, y, m);
    } else {
      p := n;
    }
  }

  /** Two messages of one length that differ, but only inside four consecutive bytes, never have the same checksum. */
  lemma DetectsFourBytes(crc: bv32, a: seq<byte>, b: seq<byte>, from: nat)
    requires |a| == |b| && a != b
    requires forall i | 0 <= i < |a| && a[i] != b[i] :: from <= i < from + 4
    ensures Checksum(crc, a) != Checksum(crc, b)
  {
    hide Bits, ByteBits, Word, Checksum;
    var k :| 0 <= k < |a| && a[k] != b[k];
    var j := DiffersAt(a, b, k);
    BitsAt(a, k, j);
    BitsAt(b, k, j);
    var p := FirstDifference(Bits(a), Bits(b), 8 * k + j);
    forall i | 0 <= i < |Bits(a)| && Bits(a)[i] != Bits(b)[i] ensures 8 * from <= i < 8 * from + 32 {
      BitsAt(a, i / 8, i % 8);
      BitsAt(b, i / 8, i % 8);
      assert a[i / 8] != b[i / 8];
    }
    DetectsBurst(crc, a, b, p);
  }

  // What the complements are for.

  lemma OneByte(c: bv32, b: byte, rest: seq<byte>)
    ensures Divide(c, Bits([b] + rest)) == Divide(Shift8(Xor(c, Word(b))), Bits(rest))
  {
    hide Shift8, Xor, Divide, ByteBits, Word, Fold8, IsByte;
    assert ([b] + rest)[1..] == rest;
    DivideAppend(c, ByteBits(Word(b)), Bits(rest));
    ByteFits(b);
    DivideByte(c, Word(b));
    ByteIn(c, Word(b));
  }

  lemma {:induction false} DivideInjective(c: bv32, d: bv32, bits: seq<bool>)
    ensures Divide(c, bits) == Divide(d, bits) <==> c == d
  {
    hide Divide, Xor;
    DivideLinear(c, d, bits, bits);
    ZerosKeep(Xor(c, d), Differences(bits, bits));
    XorIsZero(c, d);
    XorIsZero(Divide(c, bits), Divide(d, bits));
  }

  lemma XorIsZero(c: bv32, d: bv32)
    ensures Xor(c, d) == 0 <==> c == d
  {
  }

  lemma OnlyZeroStays(c: bv32)
    ensures Shift8(c) == c <==> c == 0
  {
  }

  /** A zero byte in front of a message changes its checksum, from every start but that of all ones. */
  lemma LeadingZero(crc: bv32, buf: seq<byte>)
    ensures Checksum(crc, [0] + buf) == Checksum(crc, buf) <==> crc == 0xffff_ffff
  {
    hide Divide, Bits, Shift8;
    OneByte(Flip(crc), 0, buf);
    DivideInjective(Shift8(Flip(crc)), Flip(crc), Bits(buf));
    OnlyZeroStays(Flip(crc));
    assert Word(0) == 0 && Xor(Flip(crc), 0) == Flip(crc);
  }

  function NextLow(w: bv32): bv8 {
    LowByte(w) as bv8
  }

  lemma FromBytes(b0: bv8, b1: bv8, b2: bv8, b3: bv8)
    ensures (((b3 as bv32) << 24) | ((b2 as bv32) << 16) | ((b1 as bv32) << 8) | (b0 as bv32)) as int
         == b0 as int + 0x100 * (b1 as int) + 0x1_0000 * (b2 as int) + 0x100_0000 * (b3 as int)
  {
  }

  lemma ToBytes(w: bv32)
    ensures w == ((NextLow(HighBytes(HighBytes(HighBytes(w)))) as bv32) << 24)
                 | ((NextLow(HighBytes(HighBytes(w))) as bv32) << 16)
                 | ((NextLow(HighBytes(w)) as bv32) << 8) | (NextLow(w) as bv32)
  {
  }

  lemma Places(n: nat, b0: byte, b1: byte, b2: byte, b3: byte)
    requires n < WORD && n == b0 as int + 0x100 * (b1 as int) + 0x1_0000 * (b2 as int) + 0x100_0000 * (b3 as int)
    ensures Le32(n) == [b0, b1, b2, b3]
  {
    hide Le32;
    var r := b2 as int + 0x100 * (b3 as int);
    var q := b1 as int + 0x100 * r;
    Place(n, q, b0);
    Place(q, r, b1);
    Place(r, b3 as int, b2);
    assert n / 0x1_0000 == r && n / 0x100_0000 == b3 as int;
    Le32Bytes(n);
  }

  lemma Place(n: nat, rest: nat, b: byte)
    requires n == b as int + 0x100 * rest
    ensures n % 256 == b as int && n / 256 == rest
  {
  }

  /** The lowest byte of a word. */
  function Lowest(w: bv32): byte {
    NextLow(w) as int
  }

  lemma InPlaces(w: bv32)
    ensures
      var w1 := HighBytes(w);
      var w2 := HighBytes(w1);
      w as int == Lowest(w) as int + 0x100 * (Lowest(w1) as int) + 0x1_0000 * (Lowest(w2) as int)
                  + 0x100_0000 * (Lowest(HighBytes(w2)) as int)
  {
    hide NextLow, HighBytes;
    var w1 := HighBytes(w);
    var w2 := HighBytes(w1);
    ToBytes(w);
    FromBytes(NextLow(w), NextLow(w1), NextLow(w2), NextLow(HighBytes(w2)));
  }

  lemma WordFits(w: bv32)
    ensures 0 <= w as int < WORD
  {
  }

  /** The four bytes of a stored word are its bytes from the lowest on. */
  lemma StoredBytes(w: bv32)
    ensures
      var w1 := HighBytes(w);
      var w2 := HighBytes(w1);
      0 <= w as int < WORD && Le32(w as int) == [Lowest(w), Lowest(w1), Lowest(w2), Lowest(HighBytes(w2))]
  {
    hide Le32, Lowest, HighBytes;
    var w1 := HighBytes(w);
    var w2 := HighBytes(w1);
    WordFits(w);
    InPlaces(w);
    Places(w as int, Lowest(w), Lowest(w1), Lowest(w2), Lowest(HighBytes(w2)));
  }

  lemma WordIs(b: byte, x: bv8)
    requires b as bv8 == x
    ensures Word(b) == x as bv32
  {
  }

  lemma BackAgain(x: bv8)
    ensures (x as int) as bv8 == x
  {
  }

  lemma LowNarrows(w: bv32)
    ensures NextLow(w) as bv32 == LowByte(w)
  {
  }

  lemma LowestIs(w: bv32)
    ensures Word(Lowest(w)) == LowByte(w)
  {
    hide NextLow, LowByte, Word;
    BackAgain(NextLow(w));
    WordIs(NextLow(w) as int, NextLow(w));
    LowNarrows(w);
  }

  /** A byte of a word that is taken in whole leaves the others to be taken in later. */
  lemma WordIn(c: bv32, w: bv32)
    ensures Shift8(Xor(c, w)) == Xor(Shift8(Xor(c, LowByte(w))), HighBytes(w))
  {
    hide Shift8, Xor, LowByte, HighBytes, Raise, IsHigh, IsByte;
    SplitWord(w);
    XorAssoc(c, LowByte(w), Raise(HighBytes(w)));
    Shift8High(Xor(c, LowByte(w)), HighBytes(w));
  }

  lemma FourHighs(w: bv32)
    ensures HighBytes(HighBytes(HighBytes(HighBytes(w)))) == Zero()
  {
  }

  /** A stored word as the end of a message: its four bytes are taken in like one. */
  lemma StoredWord(c: bv32, w: bv32)
    ensures Divide(c, Bits(Le32(w as int))) == Shift8(Shift8(Shift8(Shift8(Xor(c, w)))))
  {
    hide Shift8, Xor, LowByte, HighBytes, Divide, Bits, Word, Lowest, Zero, Le32;
    var w1 := HighBytes(w);
    var w2 := HighBytes(w1);
    var w3 := HighBytes(w2);
    StoredBytes(w);
    var b0, b1, b2, b3 := Lowest(w), Lowest(w1), Lowest(w2), Lowest(w3);
    assert Le32(w as int) == [b0] + ([b1] + ([b2] + ([b3] + [])));
    var c1 := Shift8(Xor(c, LowByte(w)));
    var c2 := Shift8(Xor(c1, LowByte(w1)));
    var c3 := Shift8(Xor(c2, LowByte(w2)));
    var c4 := Shift8(Xor(c3, LowByte(w3)));
    LowestIs(w);
    LowestIs(w1);
    LowestIs(w2);
    LowestIs(w3);
    OneByte(c, b0, [b1] + ([b2] + ([b3] + [])));
    OneByte(c1, b1, [b2] + ([b3] + []));
    OneByte(c2, b2, [b3] + []);
    OneByte(c3, b3, []);
    NoBits(c4);
    WordIn(c, w);
    WordIn(c1, w1);
    WordIn(c2, w2);
    WordIn(c3, w3);
    FourHighs(w);
    XorZero(c4);
  }

  lemma NoBits(c: bv32)
    ensures Divide(c, Bits([])) == c
  {
  }

  lemma AllOnesIn(c: bv32)
    ensures Xor(Flip(c), c) == 0xffff_ffff
  {
  }

  lemma Rest()
    ensures Flip(Shift8(Shift8(Shift8(Shift8(0xffff_ffff))))) == 0x2144_df1c
  {
    assert Shift8(0xffff_ffff) == 0x2dfd_1072;
  }

  /**
    A message with four bytes after it has the checksum 0x2144df1c if and only if they are its own checksum,
    as it is stored, whatever the message and the start.
  */
  lemma Residue(crc: bv32, buf: seq<byte>, trailer: seq<byte>)
    requires |trailer| == 4
    ensures Checksum(crc, buf + trailer) == 0x2144_df1c <==> trailer == Le32(Checksum(crc, buf) as int)
  {
    hide Le32, Checksum;
    var own := Le32(Checksum(crc, buf) as int);
    OwnTrailer(crc, buf);
    if trailer != own {
      assert forall i | 0 <= i < |buf| :: (buf + trailer)[i] == (buf + own)[i];
      assert forall i | 0 <= i < 4 :: (buf + trailer)[|buf| + i] == trailer[i] && (buf + own)[|buf| + i] == own[i];
      DetectsFourBytes(crc, buf + trailer, buf + own, |buf|);
    }
  }

  lemma OwnTrailer(crc: bv32, buf: seq<byte>)
    ensures Checksum(crc, buf + Le32(Checksum(crc, buf) as int)) == 0x2144_df1c
  {
    hide Divide, Bits, Flip, Shift8, Le32, Xor;
    var c := Checksum(crc, buf);
    Chains(crc, buf, Le32(c as int));
    StoredWord(Flip(c), c);
    AllOnesIn(c);
    Rest();
  }

  // The digits from 1 to 9, one by one.

  lemma FirstDigits()
    ensures Shift8(Xor(0xffff_ffff, Word(0x31))) == 0x7c23_1048 && Shift8(Xor(0x7c23_1048, Word(0x32))) == 0xb0ac_bb32
    ensures Shift8(Xor(0xb0ac_bb32, Word(0x33))) == 0x77b7_9c2d
  {
    assert Word(0x31) == 0x31 && Word(0x32) == 0x32 && Word(0x33) == 0x33;
  }

  lemma MiddleDigits()
    ensures Shift8(Xor(0x77b7_9c2d, Word(0x34))) == 0x641c_1f5c && Shift8(Xor(0x641c_1f5c, Word(0x35))) == 0x340a_c5e3
    ensures Shift8(Xor(0x340a_c5e3, Word(0x36))) == 0xf68d_2c9e
  {
    assert Word(0x34) == 0x34 && Word(0x35) == 0x35 && Word(0x36) == 0x36;
  }

  lemma LastDigits()
    ensures Shift8(Xor(0xf68d_2c9e, Word(0x37))) == 0xaffc_9660 && Shift8(Xor(0xaffc_9660, Word(0x38))) == 0x651f_2550
    ensures Shift8(Xor(0x651f_2550, Word(0x39))) == 0x340b_c6d9
  {
    assert Word(0x37) == 0x37 && Word(0x38) == 0x38 && Word(0x39) == 0x39;
  }

  lemma Digit(c: bv32, d: bv32, digits: seq<byte>)
    requires digits != [] && Shift8(Xor(c, Word(digits[0]))) == d
    ensures Divide(c, Bits(digits)) == Divide(d, Bits(digits[1..]))
  {
    hide Divide, Bits, Shift8, Word, Xor;
    assert digits == [digits[0]] + digits[1..];
    OneByte(c, digits[0], digits[1..]);
  }

  /** The check value of CRC-32: the checksum of the digits from 1 to 9 in ASCII. */
  lemma CheckValue()
    ensures Checksum(0, [0x31, 0x32, 0x33, 0x34, 0x35, 0x36, 0x37, 0x38, 0x39]) == 0xcbf4_3926
  {
    hide Divide, Bits, Shift8, Word, Xor;
    FirstDigits();
    MiddleDigits();
    LastDigits();
    var m: seq<byte> := [0x31, 0x32, 0x33, 0x34, 0x35, 0x36, 0x37, 0x38, 0x39];
    Digit(0xffff_ffff, 0x7c23_1048, m);
    Digit(0x7c23_1048, 0xb0ac_bb32, m[1..]);
    assert m[1..][1..] == m[2..];
    Digit(0xb0ac_bb32, 0x77b7_9c2d, m[2..]);
    assert m[2..][1..] == m[3..];
    Digit(0x77b7_9c2d, 0x641c_1f5c, m[3..]);
    assert m[3..][1..] == m[4..];
    Digit(0x641c_1f5c, 0x340a_c5e3, m[4..]);
    assert m[4..][1..] == m[5..];
    Digit(0x340a_c5e3, 0xf68d_2c9e, m[5..]);
    assert m[5..][1..] == m[6..];
    Digit(0xf68d_2c9e, 0xaffc_9660, m[6..]);
    assert m[6..][1..] == m[7..];
    Digit(0xaffc_9660, 0x651f_2550, m[7..]);
    assert m[7..][1..] == m[8..];
    Digit(0x651f_2550, 0x340b_c6d9, m[8..]);
    assert m[8..][1..] == m[9..];
    NoBits(0x340b_c6d9);
    assert m[9..] == [];
  }
}
