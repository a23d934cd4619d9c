/** What pins the CRC down from outside: a buffer followed by its own CRC always leaves the
    same residue, which a receiver of section 3.4 of RFC 2083 can check without taking the
    message apart; and the empty buffer has CRC zero. */
module CrcResidue {
  import opened Register
  import opened Crc
  import opened CrcEdge

  function LowByte(c: bv32): bv8 { (c & 0xff) as bv8 }

  function Rest(c: bv32): bv32 { c >> 8 }

  /** The four bytes of a number, least significant first: the order in which the register
      takes in its bits. */
  function LittleEndian(c: bv32): (r: Bytes)
    ensures |r| == 4
  {
    [LowByte(c), LowByte(Rest(c)), LowByte(Rest(Rest(c))), LowByte(Rest(Rest(Rest(c))))]
  }

  lemma SplitLow(c: bv32)
    ensures c == Xor(LowByte(c) as bv32, Up(Rest(c))) && Rest(c) & 0xff000000 == 0
  {
  }

  /** Adding a word and stepping eight times takes in its low byte; the rest moves down. */
  lemma TakesByte(r: bv32, c: bv32)
    ensures Eight(Xor(r, c)) == Xor(ByteStep(r, LowByte(c)), Rest(c))
  {
    var low := LowByte(c) as bv32;
    SplitLow(c);
    XorRegroup(r, low, Up(Rest(c)));
    EightMoves(Xor(r, low), Rest(c));
    ByteStepIs(r, LowByte(c));
  }

  lemma TakesInByte(c: bv32)
    ensures TakesIn(ByteStep, Eight, Xor, c, LowByte(c), Rest(c))
  {
    forall r
      ensures Eight(Xor(r, c)) == Xor(ByteStep(r, LowByte(c)), Rest(c))
    {
      TakesByte(r, c);
    }
  }

  lemma NothingLeft(c: bv32)
    ensures Rest(Rest(Rest(Rest(c)))) == 0
  {
  }

  /** Feeding the bytes of a word is adding the word and then stepping. */
  lemma FeedsWord(r: bv32, c: bv32)
    ensures Fold(ByteStep, r, LittleEndian(c)) == Eight(Eight(Eight(Eight(Xor(r, c)))))
  {
    var c1, c2, c3 := Rest(c), Rest(Rest(c)), Rest(Rest(Rest(c)));
    TakesInByte(c);
    TakesInByte(c1);
    TakesInByte(c2);
    TakesInByte(c3);
    NothingLeft(c);
    forall x
      ensures Xor(x, 0) == x
    {
      XorNone(x);
    }
    FoldWord(ByteStep, Eight, Xor, r, 0, c, c1, c2, c3, LowByte(c), LowByte(c1), LowByte(c2), LowByte(c3));
  }

  lemma OnesSteps()
    ensures Eight(Eight(Eight(Eight(0xffffffff)))) == 0xdebb20e3
  {
    assert Eight(0xffffffff) == 0x2dfd1072;
    assert Eight(0x2dfd1072) == 0xbe26ed00;
    assert Eight(0xbe26ed00) == 0x00be26ed;
    assert Eight(0x00be26ed) == 0xdebb20e3;
  }

  /** A buffer followed by its CRC leaves the same residue, whatever the buffer is: this
      fixes the complement at the end. */
  lemma Residue(x: Bytes)
    ensures Crc32(x + LittleEndian(Crc32(x))) == 0x2144df1c
  {
    var r, c := Fold(ByteStep, ALL_ONES, x), Crc32(x);
    Crc32Fast(x);
    Crc32Fast(x + LittleEndian(c));
    FoldConcat(ByteStep, ALL_ONES, x, LittleEndian(c));
    FeedsWord(r, c);
    XorRegroup(r, r, ALL_ONES);
    XorSame(r);
    ZeroFirst(ALL_ONES);
    OnesSteps();
    assert Xor(0xdebb20e3, 0xffffffff) == 0x2144df1c;
  }

  /** The empty buffer has CRC zero: the register starts as what it is complemented with. */
  lemma EmptyIsZero()
    ensures Crc32([]) == 0
  {
    XorSame(ALL_ONES);
  }

  /** No other four bytes behind a buffer leave this residue. */
  lemma ResidueOnlyOfCrc(x: Bytes, field: Bytes)
    requires |field| == 4
    ensures Crc32(x + field) == 0x2144df1c <==> field == LittleEndian(Crc32(x))
  {
    Residue(x);
    var own := LittleEndian(Crc32(x));
    if field != own {
      assert (x + field)[|x|..] == field && (x + own)[|x|..] == own;
      assert (x + field)[..|x|] == (x + own)[..|x|];
      CrcDetectsWindow(x + field, x + own, |x|, 4);
    }
  }
}
