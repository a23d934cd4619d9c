/** The table-driven CRC of Tools/DumpRenderTree/CyclicRedundancyCheck.cpp.

    The reference is the bit-serial register of section 3.4 of RFC 2083: message bits
    enter least significant bit first, the register starts as all ones and is
    complemented at the end. */
module Crc {
  import opened Register

  type Bytes = seq<bv8>

  /** The feedback constant: the source writes it as the signed number -306674912. */
  const POLY: bv32 := 0xedb88320
  const ALL_ONES: bv32 := 0xffffffff

  // ----- The reference: one message bit at a time -----

  /** Shifts one message bit into the register. */
  function FeedBit(c: bv32, b: bv1): bv32 {
    if Odd(Xor(c, b as bv32)) then Xor(POLY, Half(c)) else Half(c)
  }

  function ByteBits(x: bv8): seq<bv1> {
    [(x & 1) as bv1, ((x >> 1) & 1) as bv1, ((x >> 2) & 1) as bv1, ((x >> 3) & 1) as bv1,
     ((x >> 4) & 1) as bv1, ((x >> 5) & 1) as bv1, ((x >> 6) & 1) as bv1, ((x >> 7) & 1) as bv1]
  }

  function Bits(buffer: Bytes): seq<bv1> {
    if buffer == [] then [] else ByteBits(buffer[0]) + Bits(buffer[1..])
  }

  function Crc32(buffer: Bytes): bv32 {
    Xor(Fold(FeedBit, ALL_ONES, Bits(buffer)), ALL_ONES)
  }

  // ----- The pieces of the fast form -----

  /** One turn of the inner loop of makeCrcTable. */
  function Step(c: bv32): bv32 {
    if c & 1 == 1 then POLY ^ ((c >> 1) & 0x7fffffff) else c >> 1
  }

  function TableEntry(i: bv32): bv32 { Iterate(Step, i, 8) }

  function Low(y: bv32): bv32 { y & 0xff }
  function Down(y: bv32): bv32 { (y >> 8) & 0x00ffffff }

  /** One turn of the loop of computeCrc, with the table replaced by its meaning. */
  function ByteStep(c: bv32, x: bv8): bv32 {
    Xor(TableEntry(Low(Xor(c, x as bv32))), Down(c))
  }

  // ----- Algebra of one step -----

  function Xor(a: bv32, b: bv32): bv32 { a ^ b }
  function BitValue(b: bv1): bv32 { b as bv32 }
  function Push(b: bv1, w: bv32): bv32 { (w << 1) | (b as bv32) }

  function Half(a: bv32): bv32 { a >> 1 }
  predicate Odd(a: bv32) { a & 1 == 1 }

  /** The mask of the source does nothing: the shift is logical. */
  lemma StepIs(c: bv32)
    ensures Step(c) == if Odd(c) then Xor(POLY, Half(c)) else Half(c)
  {
    assert (c >> 1) & 0x7fffffff == c >> 1;
  }

  lemma XorHalf(a: bv32, b: bv32)
    ensures Half(Xor(a, b)) == Xor(Half(a), Half(b))
  {
  }

  lemma XorOdd(a: bv32, b: bv32)
    ensures Odd(Xor(a, b)) <==> Odd(a) != Odd(b)
  {
  }

  lemma XorRegroup(a: bv32, b: bv32, c: bv32)
    ensures Xor(Xor(a, b), c) == Xor(a, Xor(b, c))
  {
  }

  lemma XorSwap(a: bv32, b: bv32)
    ensures Xor(a, b) == Xor(b, a)
  {
  }

  lemma XorSame(a: bv32)
    ensures Xor(a, a) == 0
  {
  }

  lemma XorNone(a: bv32)
    ensures Xor(a, 0) == a
  {
  }

  /** Everything else about Xor follows from these four laws. */
  lemma XorBack(a: bv32, b: bv32)
    ensures Xor(Xor(a, b), b) == a
  {
    XorRegroup(a, b, b);
    XorSame(b);
    XorNone(a);
  }

  lemma XorInjective(c: bv32, a: bv32, b: bv32)
    requires Xor(c, a) == Xor(c, b)
    ensures a == b
  {
    XorSwap(c, a);
    XorSwap(c, b);
    XorBack(a, c);
    XorBack(b, c);
  }

  lemma XorZero(a: bv32, b: bv32)
    ensures Xor(a, b) == 0 <==> a == b
  {
    XorSame(b);
    if Xor(a, b) == 0 {
      XorBack(a, b);
      XorBack(b, b);
    }
  }

  lemma XorInterchange(a: bv32, b: bv32, x: bv32, y: bv32)
    ensures Xor(Xor(a, b), Xor(x, y)) == Xor(Xor(a, x), Xor(b, y))
  {
    calc {
      Xor(Xor(a, b), Xor(x, y));
      { XorRegroup(a, b, Xor(x, y)); }
      Xor(a, Xor(b, Xor(x, y)));
      { XorRegroup(b, x, y); }
      Xor(a, Xor(Xor(b, x), y));
      { XorSwap(b, x); }
      Xor(a, Xor(Xor(x, b), y));
      { XorRegroup(x, b, y); }
      Xor(a, Xor(x, Xor(b, y)));
      { XorRegroup(a, x, Xor(b, y)); }
      Xor(Xor(a, x), Xor(b, y));
    }
  }

  /** Complementing both sides does not change their difference. */
  lemma XorComplements(a: bv32, b: bv32)
    ensures Xor(Xor(a, ALL_ONES), Xor(b, ALL_ONES)) == Xor(a, b)
  {
    XorInterchange(a, ALL_ONES, b, ALL_ONES);
    XorSame(ALL_ONES);
    XorNone(Xor(a, b));
  }

  lemma StepLinearAt(a: bv32, b: bv32)
    ensures Step(Xor(a, b)) == Xor(Step(a), Step(b))
  {
    StepIs(a);
    StepIs(b);
    StepIs(Xor(a, b));
    XorHalf(a, b);
    XorOdd(a, b);
    var x, y := Half(a), Half(b);
    if Odd(a) && Odd(b) {
      XorInterchange(POLY, x, POLY, y);
      XorSame(POLY);
      XorSwap(0, Xor(x, y));
      XorNone(Xor(x, y));
    } else if Odd(a) {
      XorRegroup(POLY, x, y);
    } else if Odd(b) {
      XorRegroup(POLY, x, y);
      XorSwap(POLY, x);
      XorRegroup(x, POLY, y);
    }
  }

  lemma StepLinear()
    ensures Linear(Step, Xor)
  {
    forall a, b
      ensures Step(Xor(a, b)) == Xor(Step(a), Step(b))
    {
      StepLinearAt(a, b);
    }
  }

  /** Undoes a step: POLY has its top bit set, so the new top bit tells which branch was taken. */
  function Back(y: bv32): bv32 {
    if y & 0x80000000 == 0 then y << 1 else ((y ^ POLY) << 1) | 1
  }

  lemma BackStep(c: bv32)
    ensures Back(Step(c)) == c
  {
  }

  lemma StepInjective()
    ensures Injective(Step)
  {
    forall a: bv32, b: bv32 | Step(a) == Step(b)
      ensures a == b
    {
      BackStep(a);
      BackStep(b);
    }
  }

  lemma BitOdd(b: bv1)
    ensures Half(BitValue(b)) == 0
  {
  }

  lemma FeedBitIsStep(c: bv32, b: bv1)
    ensures FeedBit(c, b) == Step(Xor(c, BitValue(b)))
  {
    StepIs(Xor(c, BitValue(b)));
    XorHalf(c, BitValue(b));
    BitOdd(b);
    XorNone(Half(c));
  }

  lemma FeedBitInjective()
    ensures InjectiveInState(FeedBit)
  {
    forall a: bv32, b: bv32, x: bv1 | FeedBit(a, x) == FeedBit(b, x)
      ensures a == b
    {
      FeedBitIsStep(a, x);
      FeedBitIsStep(b, x);
      BackStep(Xor(a, BitValue(x)));
      BackStep(Xor(b, BitValue(x)));
      XorBack(a, BitValue(x));
      XorBack(b, BitValue(x));
    }
  }

  lemma XorAssociative()
    ensures Associative(Xor)
  {
    forall a, b, c
      ensures Xor(Xor(a, b), c) == Xor(a, Xor(b, c))
    {
      XorRegroup(a, b, c);
    }
  }

  // ----- Up to 32 message bits at once -----

  /** The bits as a number, least significant first. */
  function Word(bits: seq<bv1>): bv32 {
    FoldRight(Push, 0, bits)
  }

  predicate Within(w: bv32, m: bv32) { w & !m == 0 }
  function Grow(m: bv32): bv32 { (m << 1) | 1 }

  /** The n low bits. */
  function Mask(n: nat): bv32 { Power(Grow, 0, n) }

  lemma PushWithin(b: bv1, w: bv32, m: bv32)
    requires Within(w, m)
    ensures Within(Push(b, w), Grow(m))
  {
  }

  lemma GrowWithin(w: bv32, m: bv32)
    requires Within(w, m)
    ensures Within(Grow(w), Grow(m))
  {
  }

  lemma WordInMask(bits: seq<bv1>)
    ensures Within(Word(bits), Mask(|bits|))
  {
    forall b, w, k | Within(w, k)
      ensures Within(Push(b, w), Grow(k))
    {
      PushWithin(b, w, k);
    }
    FoldRightBounded(Push, 0, bits, Within, Grow, 0);
  }

  lemma MaskMonotone(n: nat, k: nat)
    requires n <= k
    ensures Within(Mask(n), Mask(k))
  {
    forall w, m | Within(w, m)
      ensures Within(Grow(w), Grow(m))
    {
      GrowWithin(w, m);
    }
    PowerMonotone(Within, Grow, 0, n, k);
  }

  lemma Mask31()
    ensures Mask(31) == 0x7fffffff
  {
    assert Mask(2) == 0x3;
    assert Mask(4) == 0xf;
    assert Mask(6) == 0x3f;
    assert Mask(8) == 0xff;
    assert Mask(10) == 0x3ff;
    assert Mask(12) == 0xfff;
    assert Mask(14) == 0x3fff;
    assert Mask(16) == 0xffff;
    assert Mask(18) == 0x3ffff;
    assert Mask(20) == 0xfffff;
    assert Mask(22) == 0x3fffff;
    assert Mask(24) == 0xffffff;
    assert Mask(26) == 0x3ffffff;
    assert Mask(28) == 0xfffffff;
    assert Mask(30) == 0x3fffffff;
  }

  lemma TopClear(w: bv32, m: bv32)
    requires w & !m == 0 && m & !0x7fffffff == 0
    ensures w & 0x80000000 == 0
  {
  }

  lemma WordTopClear(bits: seq<bv1>)
    requires |bits| <= 31
    ensures Word(bits) & 0x80000000 == 0
  {
    WordInMask(bits);
    MaskMonotone(|bits|, 31);
    Mask31();
    TopClear(Word(bits), Mask(|bits|));
  }

  lemma ShiftBack(b: bv1, w: bv32)
    requires w & 0x80000000 == 0
    ensures Half(Push(b, w)) == w && Half(BitValue(b)) == 0
    ensures Odd(Push(b, w)) == Odd(BitValue(b))
  {
  }

  lemma StepSplit(x: bv32, low: bv32, w: bv32)
    requires Half(x) == w && Half(low) == 0 && Odd(x) == Odd(low)
    ensures Step(x) == Xor(Step(low), w)
  {
    StepIs(x);
    StepIs(low);
    XorNone(POLY);
    XorSwap(0, w);
    XorNone(w);
  }

  lemma StepPush(b: bv1, w: bv32)
    requires w & 0x80000000 == 0
    ensures Step(Push(b, w)) == Xor(Step(BitValue(b)), w)
  {
    ShiftBack(b, w);
    StepSplit(Push(b, w), BitValue(b), w);
  }

  lemma StepsOverWord(bits: seq<bv1>)
    requires |bits| <= 32
    ensures forall i :: 0 <= i < |bits| ==>
              Step(Push(bits[i], Word(bits[i+1..]))) == Xor(Step(BitValue(bits[i])), Word(bits[i+1..]))
  {
    forall i | 0 <= i < |bits|
      ensures Step(Push(bits[i], Word(bits[i+1..]))) == Xor(Step(BitValue(bits[i])), Word(bits[i+1..]))
    {
      WordTopClear(bits[i+1..]);
      StepPush(bits[i], Word(bits[i+1..]));
    }
  }

  lemma RegisterLaws()
    ensures Linear(Step, Xor) && Associative(Xor)
    ensures forall a :: Xor(a, 0) == a
    ensures forall a, b :: FeedBit(a, b) == Step(Xor(a, BitValue(b)))
  {
    StepLinear();
    XorAssociative();
    forall a
      ensures Xor(a, 0) == a
    {
      XorNone(a);
    }
    forall a, b
      ensures FeedBit(a, b) == Step(Xor(a, BitValue(b)))
    {
      FeedBitIsStep(a, b);
    }
  }

  /** Feeding at most 32 bits one by one is adding them all first and then stepping. */
  lemma FeedIsStepping(c: bv32, bits: seq<bv1>)
    requires |bits| <= 32
    ensures Fold(FeedBit, c, bits) == Iterate(Step, Xor(c, Word(bits)), |bits|)
  {
    RegisterLaws();
    StepsOverWord(bits);
    FoldIsIterate(FeedBit, Step, Xor, BitValue, Push, 0, c, bits);
  }

  // ----- One table lookup is eight bit steps -----

  lemma WordCons(bits: seq<bv1>, i: nat)
    requires i < |bits|
    ensures Word(bits[i..]) == Push(bits[i], Word(bits[i+1..]))
  {
    assert bits[i..][1..] == bits[i+1..];
  }

  lemma EightPushes(x: bv8)
    ensures Push((x & 1) as bv1, Push(((x >> 1) & 1) as bv1, Push(((x >> 2) & 1) as bv1, Push(((x >> 3) & 1) as bv1,
            Push(((x >> 4) & 1) as bv1, Push(((x >> 5) & 1) as bv1, Push(((x >> 6) & 1) as bv1,
            Push(((x >> 7) & 1) as bv1, 0)))))))) == x as bv32
  {
  }

  function Cons8(b: seq<bv1>): bv32
    requires |b| == 8
  {
    Push(b[0], Push(b[1], Push(b[2], Push(b[3], Push(b[4], Push(b[5], Push(b[6], Push(b[7], 0))))))))
  }

  lemma WordOfEight(b: seq<bv1>)
    requires |b| == 8
    ensures Word(b) == Cons8(b)
  {
    assert b == b[0..];
    WordCons(b, 0);
    WordCons(b, 1);
    WordCons(b, 2);
    WordCons(b, 3);
    WordCons(b, 4);
    WordCons(b, 5);
    WordCons(b, 6);
    WordCons(b, 7);
    assert b[8..] == [];
  }

  lemma ByteWord(x: bv8)
    ensures Word(ByteBits(x)) == x as bv32
  {
    WordOfEight(ByteBits(x));
    EightPushes(x);
  }

  /** A value whose low byte is zero is only shifted by eight steps. */
  lemma HighPartShifts(y: bv32)
    requires y & 0xff == 0
    ensures Iterate(Step, y, 8) == y >> 8
  {
  }

  function High(y: bv32): bv32 { y & 0xffffff00 }

  lemma SplitBytes(y: bv32)
    ensures Xor(Low(y), High(y)) == y
    ensures High(y) & 0xff == 0 && High(y) >> 8 == Down(y)
  {
  }

  lemma TableLookup(y: bv32)
    ensures Iterate(Step, y, 8) == Xor(TableEntry(Low(y)), Down(y))
  {
    SplitBytes(y);
    StepLinear();
    IterateLinear(Step, Xor, Low(y), High(y), 8);
    HighPartShifts(High(y));
  }

  lemma AddByte(c: bv32, x: bv8)
    ensures Down(Xor(c, x as bv32)) == Down(c)
  {
  }

  lemma ByteStepIsStepping(c: bv32, x: bv8)
    ensures ByteStep(c, x) == Iterate(Step, Xor(c, x as bv32), 8)
  {
    AddByte(c, x);
    TableLookup(Xor(c, x as bv32));
  }

  lemma FeedWord(c: bv32, bits: seq<bv1>, w: bv32, n: nat)
    requires |bits| == n <= 32 && Word(bits) == w
    ensures Fold(FeedBit, c, bits) == Iterate(Step, Xor(c, w), n)
  {
    FeedIsStepping(c, bits);
  }

  lemma ByteStepIsFeed(c: bv32, x: bv8)
    ensures ByteStep(c, x) == Fold(FeedBit, c, ByteBits(x))
  {
    ByteStepIsStepping(c, x);
    ByteWord(x);
    FeedWord(c, ByteBits(x), x as bv32, 8);
  }

  /** The loop of computeCrc over any buffer, from any state, feeds the buffer's bits. */
  lemma {:induction false} FastIsBitSerial(c: bv32, buffer: Bytes)
    ensures Fold(ByteStep, c, buffer) == Fold(FeedBit, c, Bits(buffer))
    decreases |buffer|
  {
    if buffer != [] {
      ByteStepIsFeed(c, buffer[0]);
      FoldConcat(FeedBit, c, ByteBits(buffer[0]), Bits(buffer[1..]));
      FastIsBitSerial(ByteStep(c, buffer[0]), buffer[1..]);
    }
  }

  lemma Crc32Fast(buffer: Bytes)
    ensures Crc32(buffer) == Xor(Fold(ByteStep, ALL_ONES, buffer), ALL_ONES)
  {
    FastIsBitSerial(ALL_ONES, buffer);
  }

  // ----- Error detection -----

  lemma PushInjective(b: bv1, w: bv32, b': bv1, w': bv32)
    requires w & 0x80000000 == 0 && w' & 0x80000000 == 0 && Push(b, w) == Push(b', w')
    ensures b == b' && w == w'
  {
  }

  lemma {:induction false} WordInjective(u: seq<bv1>, v: seq<bv1>)
    requires |u| == |v| <= 32 && Word(u) == Word(v)
    ensures u == v
  {
    if u != [] {
      WordTopClear(u[1..]);
      WordTopClear(v[1..]);
      PushInjective(u[0], Word(u[1..]), v[0], Word(v[1..]));
      WordInjective(u[1..], v[1..]);
      assert u == [u[0]] + u[1..] && v == [v[0]] + v[1..];
    }
  }

  /** Two messages that differ, but only within 32 consecutive bits at any position,
      leave the register in different states. */
  lemma BurstChangesState(c: bv32, before: seq<bv1>, u: seq<bv1>, v: seq<bv1>, after: seq<bv1>)
    requires |u| == |v| <= 32 && u != v
    ensures Fold(FeedBit, c, before + u + after) != Fold(FeedBit, c, before + v + after)
  {
    var s := Fold(FeedBit, c, before);
    var su, sv := Fold(FeedBit, s, u), Fold(FeedBit, s, v);
    FoldConcat(FeedBit, c, before, u);
    FoldConcat(FeedBit, c, before, v);
    FoldConcat(FeedBit, c, before + u, after);
    FoldConcat(FeedBit, c, before + v, after);
    if Fold(FeedBit, su, after) == Fold(FeedBit, sv, after) {
      FeedBitInjective();
      FoldInjective(FeedBit, su, sv, after);
      FeedIsStepping(s, u);
      FeedIsStepping(s, v);
      StepInjective();
      IterateInjective(Step, Xor(s, Word(u)), Xor(s, Word(v)), |u|);
      XorInjective(s, Word(u), Word(v));
      WordInjective(u, v);
    }
  }

  lemma CrcDetectsBurst(x: Bytes, y: Bytes, before: seq<bv1>, u: seq<bv1>, v: seq<bv1>, after: seq<bv1>)
    requires Bits(x) == before + u + after && Bits(y) == before + v + after
    requires |u| == |v| <= 32 && u != v
    ensures Crc32(x) != Crc32(y)
  {
    BurstChangesState(ALL_ONES, before, u, v, after);
    var a, b := Fold(FeedBit, ALL_ONES, Bits(x)), Fold(FeedBit, ALL_ONES, Bits(y));
    XorComplements(a, b);
    XorZero(a, b);
    XorZero(Crc32(x), Crc32(y));
  }

  lemma {:induction false} BitsConcat(x: Bytes, y: Bytes)
    ensures Bits(x + y) == Bits(x) + Bits(y)
  {
    if x == [] {
      assert x + y == y;
    } else {
      assert (x + y)[1..] == x[1..] + y;
      BitsConcat(x[1..], y);
    }
  }

  lemma {:induction false} BitsLength(x: Bytes)
    ensures |Bits(x)| == 8 * |x|
  {
    if x != [] {
      BitsLength(x[1..]);
    }
  }

  lemma ByteBitsInjective(x: bv8, y: bv8)
    requires ByteBits(x) == ByteBits(y)
    ensures x == y
  {
    ByteWord(x);
    ByteWord(y);
    assert (x as bv32) as bv8 == x && (y as bv32) as bv8 == y;
  }

  lemma {:induction false} BitsInjective(x: Bytes, y: Bytes)
    requires |x| == |y| && Bits(x) == Bits(y)
    ensures x == y
  {
    if x != [] {
      assert Bits(x)[..8] == ByteBits(x[0]) && Bits(x)[8..] == Bits(x[1..]);
      assert Bits(y)[..8] == ByteBits(y[0]) && Bits(y)[8..] == Bits(y[1..]);
      ByteBitsInjective(x[0], y[0]);
      BitsInjective(x[1..], y[1..]);
      assert x == [x[0]] + x[1..] && y == [y[0]] + y[1..];
    }
  }

  /** The same for buffers: damage confined to four consecutive bytes never goes unnoticed. */
  lemma CrcDetectsWindow(x: Bytes, y: Bytes, i: nat, n: nat)
    requires |x| == |y| && x != y && n <= 4 && i + n <= |x|
    requires x[..i] == y[..i] && x[i + n..] == y[i + n..]
    ensures Crc32(x) != Crc32(y)
  {
    var u, v := x[i..i + n], y[i..i + n];
    assert x == x[..i] + u + x[i + n..] && y == x[..i] + v + x[i + n..];
    BitsConcat(x[..i] + u, x[i + n..]);
    BitsConcat(x[..i], u);
    BitsConcat(x[..i] + v, x[i + n..]);
    BitsConcat(x[..i], v);
    BitsLength(u);
    BitsLength(v);
    if Bits(u) == Bits(v) {
      BitsInjective(u, v);
    } else {
      CrcDetectsBurst(x, y, Bits(x[..i]), Bits(u), Bits(v), Bits(x[i + n..]));
    }
  }

  // ----- The CRC of a bytewise xor -----

  function XorByte(x: bv8, y: bv8): bv8 { x ^ y }

  function XorBytes(x: Bytes, y: Bytes): Bytes
    requires |x| == |y|
  {
    Zip(XorByte, x, y)
  }

  lemma WidenXor(x: bv8, y: bv8)
    ensures XorByte(x, y) as bv32 == Xor(x as bv32, y as bv32)
  {
  }

  lemma ByteStepAffineAt(a: bv32, b: bv32, x: bv8, y: bv8)
    ensures ByteStep(Xor(a, b), XorByte(x, y)) == Xor(ByteStep(a, x), ByteStep(b, y))
  {
    ByteStepIsStepping(Xor(a, b), XorByte(x, y));
    ByteStepIsStepping(a, x);
    ByteStepIsStepping(b, y);
    WidenXor(x, y);
    XorInterchange(a, b, x as bv32, y as bv32);
    StepLinear();
    IterateLinear(Step, Xor, Xor(a, x as bv32), Xor(b, y as bv32), 8);
  }

  lemma ByteStepAffine()
    ensures Affine(ByteStep, Xor, XorByte)
  {
    forall a, b, x, y
      ensures ByteStep(Xor(a, b), XorByte(x, y)) == Xor(ByteStep(a, x), ByteStep(b, y))
    {
      ByteStepAffineAt(a, b, x, y);
    }
  }

  lemma XorOfComplements(a: bv32, b: bv32, c: bv32)
    ensures Xor(Xor(Xor(a, b), c), ALL_ONES)
         == Xor(Xor(Xor(a, ALL_ONES), Xor(b, ALL_ONES)), Xor(c, ALL_ONES))
  {
    XorComplements(a, b);
    XorRegroup(Xor(a, b), c, ALL_ONES);
  }

  lemma CrcOfXor(x: Bytes, y: Bytes, z: Bytes)
    requires |x| == |y| == |z|
    ensures Crc32(XorBytes(XorBytes(x, y), z)) == Xor(Xor(Crc32(x), Crc32(y)), Crc32(z))
  {
    ByteStepAffine();
    FoldAffine(ByteStep, Xor, XorByte, ALL_ONES, ALL_ONES, x, y);
    FoldAffine(ByteStep, Xor, XorByte, Xor(ALL_ONES, ALL_ONES), ALL_ONES, XorBytes(x, y), z);
    XorBack(ALL_ONES, ALL_ONES);
    XorOfComplements(Fold(ByteStep, ALL_ONES, x), Fold(ByteStep, ALL_ONES, y), Fold(ByteStep, ALL_ONES, z));
    Crc32Fast(x);
    Crc32Fast(y);
    Crc32Fast(z);
    Crc32Fast(XorBytes(XorBytes(x, y), z));
  }

  /** How the CRCs of two buffers differ depends on how the buffers differ alone. */
  lemma CrcDifference(x: Bytes, y: Bytes)
    requires |x| == |y|
    ensures Xor(Crc32(x), Crc32(y)) == Fold(ByteStep, 0, XorBytes(x, y))
  {
    ByteStepAffine();
    XorSame(ALL_ONES);
    FoldDifference(ByteStep, Xor, XorByte, ALL_ONES, 0, x, y);
    Crc32Fast(x);
    Crc32Fast(y);
    XorComplements(Fold(ByteStep, ALL_ONES, x), Fold(ByteStep, ALL_ONES, y));
  }

  /** So whether they collide depends on their difference alone. */
  lemma CollisionDependsOnDifference(x: Bytes, y: Bytes)
    requires |x| == |y|
    ensures Crc32(x) == Crc32(y) <==> Fold(ByteStep, 0, XorBytes(x, y)) == 0
  {
    CrcDifference(x, y);
    XorZero(Crc32(x), Crc32(y));
  }

  // ----- The code -----

  /** What every slot of a filled table holds. */
  function Table(): (t: seq<bv32>)
    ensures |t| == 256
  {
    seq(256, (i: int) requires 0 <= i < 256 => TableEntry(i as bv32))
  }

  lemma TableAt(i: nat)
    requires i < 256
    ensures Table()[i] == TableEntry(i as bv32)
  {
  }

  /** The inner loop of makeCrcTable. */
  method MakeEntry(i: bv32) returns (c: bv32)
    ensures c == TableEntry(i)
  {
    c := i;
    for k := 0 to 8
      invariant Iterate(Step, c, 8 - k) == TableEntry(i)
    {
      IterateOnce(Step, c, 8 - k);
      c := if c & 1 == 1 then POLY ^ ((c >> 1) & 0x7fffffff) else c >> 1;
    }
  }

  method MakeCrcTable(crcTable: array<bv32>)
    requires crcTable.Length == 256
    modifies crcTable
    ensures crcTable[..] == Table()
  {
    ghost var t := Table();
    for i := 0 to 256
      invariant crcTable[..i] == t[..i]
    {
      var c := MakeEntry(i as bv32);
      TableAt(i);
      crcTable[i] := c;
      assert crcTable[..i + 1] == crcTable[..i] + [c];
    }
    assert crcTable[..] == crcTable[..256] && t == t[..256];
  }

  lemma LookupIsStep(c: bv32, x: bv8)
    ensures Low(Xor(c, x as bv32)) as int < 256
    ensures Xor(Table()[Low(Xor(c, x as bv32)) as int], Down(c)) == ByteStep(c, x)
  {
    LowIsByte(Xor(c, x as bv32));
    IndexRoundTrip(Low(Xor(c, x as bv32)));
    TableAt(Low(Xor(c, x as bv32)) as int);
  }

  lemma LowIsByte(y: bv32)
    ensures Low(y) as int < 256
  {
  }

  lemma IndexRoundTrip(i: bv32)
    ensures (i as int) as bv32 == i
  {
  }

  /** The body of the loop of computeCrc. */
  function LookupStep(crcTable: seq<bv32>, crc: bv32, x: bv8): bv32
    requires |crcTable| == 256
  {
    LowIsByte(Xor(crc, x as bv32));
    Xor(crcTable[Low(Xor(crc, x as bv32)) as int], Down(crc))
  }

  lemma LoopTurn(t: seq<bv32>, c: bv32, buffer: Bytes, i: nat)
    requires t == Table() && i < |buffer|
    ensures Fold(ByteStep, LookupStep(t, c, buffer[i]), buffer[i + 1..]) == Fold(ByteStep, c, buffer[i..])
  {
    LookupIsStep(c, buffer[i]);
    FoldOnce(ByteStep, c, buffer[i..]);
    assert buffer[i..][1..] == buffer[i + 1..];
  }

  method RunTable(crcTable: seq<bv32>, buffer: Bytes) returns (r: bv32)
    requires crcTable == Table()
    ensures r == Crc32(buffer)
  {
    var crc := ALL_ONES;
    assert buffer[0..] == buffer;
    for i := 0 to |buffer|
      invariant Fold(ByteStep, crc, buffer[i..]) == Fold(ByteStep, ALL_ONES, buffer)
    {
      LoopTurn(crcTable, crc, buffer, i);
      crc := LookupStep(crcTable, crc, buffer[i]);
    }
    assert buffer[|buffer|..] == [];
    Crc32Fast(buffer);
    r := Xor(crc, ALL_ONES);
  }

  /** The function-local statics of computeCrc. */
  class CrcComputer {
    const crcTable: array<bv32>
    var crcTableComputed: bool

    constructor ()
      ensures Valid() && !crcTableComputed && fresh(crcTable)
    {
      crcTable := new bv32[256];
      crcTableComputed := false;
    }

    ghost predicate Valid()
      reads this, crcTable
    {
      crcTable.Length == 256 && (crcTableComputed ==> crcTable[..] == Table())
    }

    method ComputeCrc(buffer: Bytes) returns (r: bv32)
      requires Valid()
      modifies this, crcTable
      ensures Valid() && crcTableComputed
      ensures r == Crc32(buffer)
    {
      if !crcTableComputed {
        MakeCrcTable(crcTable);
        crcTableComputed := true;
      }
      r := RunTable(crcTable[..], buffer);
    }
  }
}
