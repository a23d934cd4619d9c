/** What the CRC misses when damage runs over the edge between the data and the CRC field
    behind it: the last `d` bytes of the data and all but the last `d` bytes of the field. */
module CrcEdge {
  import opened Register
  import opened Crc

  /** Eight steps, written out. */
  function Eight(c: bv32): bv32 {
    Step(Step(Step(Step(Step(Step(Step(Step(c))))))))
  }

  function BackEight(y: bv32): bv32 {
    Back(Back(Back(Back(Back(Back(Back(Back(y))))))))
  }

  lemma EightIs(c: bv32)
    ensures Iterate(Step, c, 8) == Eight(c)
  {
  }

  lemma BackEightIs(c: bv32)
    ensures BackEight(Eight(c)) == c
  {
    var c1 := Step(c);
    var c2 := Step(c1);
    var c3 := Step(c2);
    var c4 := Step(c3);
    var c5 := Step(c4);
    var c6 := Step(c5);
    var c7 := Step(c6);
    BackStep(c7);
    BackStep(c6);
    BackStep(c5);
    BackStep(c4);
    BackStep(c3);
    BackStep(c2);
    BackStep(c1);
    BackStep(c);
  }

  lemma ByteStepIs(c: bv32, x: bv8)
    ensures ByteStep(c, x) == Eight(Xor(c, x as bv32))
  {
    ByteStepIsStepping(c, x);
    EightIs(Xor(c, x as bv32));
  }

  // ----- Differences in the last bytes -----

  /** What a difference in the last bytes does to the CRC, whatever comes before. */
  lemma TailDifference(p: Bytes, u: Bytes, v: Bytes)
    requires |u| == |v|
    ensures Xor(Crc32(p + u), Crc32(p + v)) == Fold(ByteStep, 0, XorBytes(u, v))
  {
    var s := Fold(ByteStep, ALL_ONES, p);
    FoldConcat(ByteStep, ALL_ONES, p, u);
    FoldConcat(ByteStep, ALL_ONES, p, v);
    Crc32Fast(p + u);
    Crc32Fast(p + v);
    XorComplements(Fold(ByteStep, s, u), Fold(ByteStep, s, v));
    ByteStepAffine();
    XorSame(s);
    FoldDifference(ByteStep, Xor, XorByte, s, 0, u, v);
  }

  lemma ZeroFirst(a: bv32)
    ensures Xor(0, a) == a
  {
    XorSwap(0, a);
    XorNone(a);
  }

  lemma TailOne(x: bv8)
    ensures Fold(ByteStep, 0, [x]) == Eight(x as bv32)
  {
    FoldOnce(ByteStep, 0, [x]);
    ByteStepIs(0, x);
    ZeroFirst(x as bv32);
  }

  lemma TailTwo(x: bv8, y: bv8)
    ensures Fold(ByteStep, 0, [x, y]) == Eight(Xor(Eight(x as bv32), y as bv32))
  {
    FoldConcat(ByteStep, 0, [x], [y]);
    assert [x] + [y] == [x, y];
    TailOne(x);
    FoldOnce(ByteStep, Eight(x as bv32), [y]);
    ByteStepIs(Eight(x as bv32), y);
  }

  lemma TailThree(x: bv8, y: bv8, z: bv8)
    ensures Fold(ByteStep, 0, [x, y, z]) == Eight(Xor(Eight(Xor(Eight(x as bv32), y as bv32)), z as bv32))
  {
    FoldConcat(ByteStep, 0, [x, y], [z]);
    assert [x, y] + [z] == [x, y, z];
    TailTwo(x, y);
    var c := Fold(ByteStep, 0, [x, y]);
    FoldOnce(ByteStep, c, [z]);
    ByteStepIs(c, z);
  }

  // ----- The bytes as one word -----

  function Word2(x: bv8, y: bv8): bv32 { (x as bv32) | ((y as bv32) << 8) }
  function Word3(x: bv8, y: bv8, z: bv8): bv32 { (x as bv32) | ((y as bv32) << 8) | ((z as bv32) << 16) }

  lemma EightLinear(a: bv32, b: bv32)
    ensures Eight(Xor(a, b)) == Xor(Eight(a), Eight(b))
  {
    StepLinear();
    IterateLinear(Step, Xor, a, b, 8);
    EightIs(a);
    EightIs(b);
    EightIs(Xor(a, b));
  }

  function Up(c: bv32): bv32 { c << 8 }

  /** Eight steps take in a byte, and the rest moves down. */
  lemma EightMoves(low: bv32, rest: bv32)
    requires rest & 0xff000000 == 0
    ensures Eight(Xor(low, Up(rest))) == Xor(Eight(low), rest)
  {
    EightLinear(low, Up(rest));
    HighPartShifts(Up(rest));
    EightIs(Up(rest));
  }

  lemma Word3Splits(x: bv8, y: bv8, z: bv8)
    ensures Word3(x, y, z) == Xor(x as bv32, Up(Word2(y, z))) && Word2(y, z) & 0xff000000 == 0
    ensures Word2(y, z) == Xor(y as bv32, Up(z as bv32)) && (z as bv32) & 0xff000000 == 0
  {
  }

  lemma TailThreeIs(x: bv8, y: bv8, z: bv8)
    ensures Fold(ByteStep, 0, [x, y, z]) == Eight(Eight(Eight(Word3(x, y, z))))
  {
    TailThree(x, y, z);
    Word3Splits(x, y, z);
    var a := Eight(x as bv32);
    EightMoves(x as bv32, Word2(y, z));
    XorRegroup(a, y as bv32, Up(z as bv32));
    EightMoves(Xor(a, y as bv32), z as bv32);
  }

  lemma TailTwoIs(x: bv8, y: bv8)
    ensures Fold(ByteStep, 0, [x, y]) == Eight(Eight(Word2(x, y)))
  {
    TailTwo(x, y);
    Word3Splits(0, x, y);
    EightMoves(x as bv32, y as bv32);
  }

  // ----- Which differences leave the last bytes of the CRC alone -----

  lemma KernelOne(x: bv32)
    requires x & 0xffffff00 == 0 && Eight(x) & 0xff == 0
    ensures x == 0
  {
  }

  lemma KernelTwoEven(x: bv32)
    requires x & 0xffff0001 == 0 && Eight(Eight(x)) & 0xffff == 0
    ensures x == 0
  {
  }

  lemma LowZero(a: bv32, b: bv32)
    requires a & 0xffff == 0 && b & 0xffff == 0
    ensures Xor(a, b) & 0xffff == 0
  {
  }

  /** The odd differences are the even ones with 0xd861 added. */
  lemma KernelTwo(x: bv32)
    requires x & 0xffff0000 == 0 && Eight(Eight(x)) & 0xffff == 0
    ensures x == 0 || x == 0xd861
  {
    if Odd(x) {
      var e := Xor(x, 0xd861);
      assert e & 0xffff0001 == 0;
      EightLinear(x, 0xd861);
      EightLinear(Eight(x), Eight(0xd861));
      BlindWord();
      LowZero(Eight(Eight(x)), Eight(Eight(0xd861)));
      KernelTwoEven(e);
      XorZero(x, 0xd861);
    } else {
      assert x & 0xffff0001 == 0;
      KernelTwoEven(x);
    }
  }

  lemma BlindWord()
    ensures Eight(Eight(0xd861)) == 0xf4ee0000
  {
  }

  lemma BackKernelThree(y: bv32)
    requires y & 0xffffff == 0 && BackEight(BackEight(BackEight(y))) & 0xff000000 == 0
    ensures y == 0
  {
  }

  lemma KernelThree(x: bv32)
    requires x & 0xff000000 == 0 && Eight(Eight(Eight(x))) & 0xffffff == 0
    ensures x == 0
  {
    BackEightIs(Eight(Eight(x)));
    BackEightIs(Eight(x));
    BackEightIs(x);
    BackKernelThree(Eight(Eight(Eight(x))));
    assert BackEight(BackEight(BackEight(0))) == 0;
  }

  lemma Words(x: bv8, y: bv8, z: bv8)
    ensures (x as bv32) & 0xffffff00 == 0 && (x as bv32 == 0 ==> x == 0)
    ensures Word2(x, y) & 0xffff0000 == 0 && (Word2(x, y) == 0 ==> x == 0 && y == 0)
    ensures Word2(x, y) == 0xd861 ==> x == 0x61 && y == 0xd8
    ensures Word3(x, y, z) & 0xff000000 == 0 && (Word3(x, y, z) == 0 ==> x == 0 && y == 0 && z == 0)
  {
  }

  /** The one difference over the edge that goes unnoticed: it changes the last two bytes of
      the data by 0x61 and 0xd8, and the first two of the CRC by 0xf4 and 0xee. */
  lemma BlindSpot()
    ensures Fold(ByteStep, 0, [0x61, 0xd8]) == 0xf4ee0000
  {
    TailTwoIs(0x61, 0xd8);
    assert Word2(0x61, 0xd8) == 0xd861;
    BlindWord();
  }

  // ----- The verdict for each number of data bytes -----

  lemma XorByteBack(x: bv8, y: bv8)
    ensures XorByte(x, XorByte(x, y)) == y
    ensures XorByte(x, y) == 0 ==> x == y
  {
  }

  lemma OneByte(x: bv8)
    requires Fold(ByteStep, 0, [x]) & 0xff == 0
    ensures x == 0
  {
    TailOne(x);
    Words(x, 0, 0);
    KernelOne(x as bv32);
  }

  lemma TwoBytes(x: bv8, y: bv8)
    requires Fold(ByteStep, 0, [x, y]) & 0xffff == 0
    ensures (x == 0 && y == 0) || (x == 0x61 && y == 0xd8)
  {
    TailTwoIs(x, y);
    Words(x, y, 0);
    KernelTwo(Word2(x, y));
  }

  lemma ThreeBytes(x: bv8, y: bv8, z: bv8)
    requires Fold(ByteStep, 0, [x, y, z]) & 0xffffff == 0
    ensures x == 0 && y == 0 && z == 0
  {
    TailThreeIs(x, y, z);
    Words(x, y, z);
    KernelThree(Word3(x, y, z));
  }

  lemma EdgeOne(p: Bytes, u: Bytes, v: Bytes)
    requires |u| == |v| == 1 && Xor(Crc32(p + u), Crc32(p + v)) & 0xff == 0
    ensures u == v
  {
    TailDifference(p, u, v);
    ZipAt(XorByte, u, v);
    var x := XorByte(u[0], v[0]);
    assert XorBytes(u, v) == [x];
    OneByte(x);
    XorByteBack(u[0], v[0]);
  }

  lemma EdgeTwo(p: Bytes, u: Bytes, v: Bytes)
    requires |u| == |v| == 2 && Xor(Crc32(p + u), Crc32(p + v)) & 0xffff == 0
    ensures u == v || v == [XorByte(u[0], 0x61), XorByte(u[1], 0xd8)]
  {
    TailDifference(p, u, v);
    ZipAt(XorByte, u, v);
    var x, y := XorByte(u[0], v[0]), XorByte(u[1], v[1]);
    assert XorBytes(u, v) == [x, y];
    TwoBytes(x, y);
    XorByteBack(u[0], v[0]);
    XorByteBack(u[1], v[1]);
  }

  lemma EdgeThree(p: Bytes, u: Bytes, v: Bytes)
    requires |u| == |v| == 3 && Xor(Crc32(p + u), Crc32(p + v)) & 0xffffff == 0
    ensures u == v
  {
    TailDifference(p, u, v);
    ZipAt(XorByte, u, v);
    var x, y, z := XorByte(u[0], v[0]), XorByte(u[1], v[1]), XorByte(u[2], v[2]);
    assert XorBytes(u, v) == [x, y, z];
    ThreeBytes(x, y, z);
    XorByteBack(u[0], v[0]);
    XorByteBack(u[1], v[1]);
    XorByteBack(u[2], v[2]);
  }

  lemma EdgeBlind(p: Bytes, u: Bytes)
    requires |u| == 2
    ensures Crc32(p + [XorByte(u[0], 0x61), XorByte(u[1], 0xd8)]) == Xor(Crc32(p + u), 0xf4ee0000)
  {
    var v := [XorByte(u[0], 0x61), XorByte(u[1], 0xd8)];
    TailDifference(p, u, v);
    ZipAt(XorByte, u, v);
    XorByteBack(u[0], 0x61);
    XorByteBack(u[1], 0xd8);
    assert XorBytes(u, v) == [0x61, 0xd8];
    BlindSpot();
    var a, b := Crc32(p + u), Crc32(p + v);
    XorSwap(a, b);
    XorBack(b, a);
    XorSwap(0xf4ee0000, a);
  }
}
