/** How far the comment that DumpRenderTree splices into a PNG checks itself. */
module PngDamage {
  import opened Basics
  import opened Crc
  import opened CrcEdge
  import opened Chunks
  import opened Png

  // ----- Bytes of the field -----

  lemma LowByteEqual(a: bv32, b: bv32)
    requires BigEndian(a)[3] == BigEndian(b)[3]
    ensures Xor(a, b) & 0xff == 0
  {
  }

  lemma LowTwoEqual(a: bv32, b: bv32)
    requires BigEndian(a)[3] == BigEndian(b)[3] && BigEndian(a)[2] == BigEndian(b)[2]
    ensures Xor(a, b) & 0xffff == 0
  {
  }

  lemma LowThreeEqual(a: bv32, b: bv32)
    requires BigEndian(a)[3] == BigEndian(b)[3] && BigEndian(a)[2] == BigEndian(b)[2] && BigEndian(a)[1] == BigEndian(b)[1]
    ensures Xor(a, b) & 0xffffff == 0
  {
  }

  lemma FieldShifted(c: bv32)
    ensures var f, g := BigEndian(c), BigEndian(Xor(c, 0xf4ee0000));
            g == [XorByte(f[0], 0xf4), XorByte(f[1], 0xee), f[2], f[3]]
  {
  }

  // ----- A body and its check field -----

  /** The one damage within four consecutive bytes that goes unnoticed. */
  predicate Blind(body: Bytes, body': Bytes, field': Bytes) {
    var m, field := |body|, CrcField(body);
    && m >= 2 && body' == body[..m - 2] + [XorByte(body[m - 2], 0x61), XorByte(body[m - 1], 0xd8)]
    && field' == [XorByte(field[0], 0xf4), XorByte(field[1], 0xee), field[2], field[3]]
  }

  /** Damage within at most four consecutive bytes of body and field. */
  ghost predicate Damaged(body: Bytes, body': Bytes, field': Bytes, i: nat, n: nat) {
    && |body'| == |body| && |field'| == 4 && n <= 4 && i + n <= |body| + 4
    && (body' != body || field' != CrcField(body))
    && (forall k {:trigger body'[k]} :: 0 <= k < |body| && (k < i || i + n <= k) ==> body'[k] == body[k])
    && (forall k {:trigger field'[k]} :: 0 <= k < 4 && (|body| + k < i || i + n <= |body| + k) ==> field'[k] == CrcField(body)[k])
  }

  lemma BlindFits(body: Bytes, body': Bytes, field': Bytes)
    requires Blind(body, body', field')
    ensures field' == CrcField(body')
  {
    var p, u := body[..|body| - 2], body[|body| - 2..];
    assert body == p + u;
    EdgeBlind(p, u);
    FieldShifted(Crc32(body));
  }

  lemma SameBodyWrongField(body: Bytes, body': Bytes, field': Bytes, i: nat, n: nat)
    requires Damaged(body, body', field', i, n) && i >= |body|
    ensures field' != CrcField(body')
  {
    assert body' == body;
  }

  lemma SameFieldWrongBody(body: Bytes, body': Bytes, field': Bytes, i: nat, n: nat)
    requires Damaged(body, body', field', i, n) && i + n <= |body|
    ensures field' != CrcField(body')
  {
    assert field' == CrcField(body);
    CrcDetectsWindow(body, body', i, n);
    if CrcField(body) == CrcField(body') {
      BigEndianInjective(Crc32(body), Crc32(body'));
    }
  }

  /** Over the edge, with the first `d` bytes of the window in the body. */
  lemma {:induction false} OverEdge(body: Bytes, body': Bytes, field': Bytes, i: nat, n: nat)
    requires Damaged(body, body', field', i, n) && i < |body| < i + n && field' == CrcField(body')
    ensures Blind(body, body', field')
  {
    var p, u, v := body[..i], body[i..], body'[i..];
    assert body == p + u;
    assert body' == p + v;
    var c, c' := Crc32(body), Crc32(body');
    assert field'[3] == BigEndian(c)[3];
    if |u| == 1 {
      LowByteEqual(c, c');
      EdgeOne(p, u, v);
      assert false;
    } else if |u| == 2 {
      assert field'[2] == BigEndian(c)[2];
      LowTwoEqual(c, c');
      EdgeTwo(p, u, v);
      assert u != v;
      EdgeBlind(p, u);
      FieldShifted(c);
    } else {
      assert field'[2] == BigEndian(c)[2] && field'[1] == BigEndian(c)[1];
      LowThreeEqual(c, c');
      EdgeThree(p, u, v);
      assert false;
    }
  }

  /** Whether damage within four consecutive bytes of a body and its check field shows. */
  lemma DamageShows(body: Bytes, body': Bytes, field': Bytes, i: nat, n: nat)
    requires Damaged(body, body', field', i, n)
    ensures field' != CrcField(body') <==> !Blind(body, body', field')
  {
    if Blind(body, body', field') {
      BlindFits(body, body', field');
    } else if i + n <= |body| {
      SameFieldWrongBody(body, body', field', i, n);
    } else if i >= |body| {
      SameBodyWrongField(body, body', field', i, n);
    } else if field' == CrcField(body') {
      OverEdge(body, body', field', i, n);
    }
  }

  // ----- The comment -----

  function CommentBody(checksum: Bytes): Bytes { TEXT + (KEYWORD + checksum) }

  /** The output with the comment's type and data, and its CRC field, replaced. */
  function WithAltered(data: Bytes, body: Bytes, field: Bytes): Bytes
    requires |data| >= InsertOffset()
  {
    Altered(PNG, data, InsertOffset(), 0x29, body, field)
  }

  lemma UnalteredIsOutput(data: Bytes, checksum: Bytes)
    requires |data| >= InsertOffset()
    ensures WithAltered(data, CommentBody(checksum), CrcField(CommentBody(checksum))) == WithComment(data, checksum)
  {
  }

  /** Every copy that is damaged only there is of this form. */
  lemma DamagedIsAltered(data: Bytes, checksum: Bytes, damaged: Bytes)
    requires |data| >= InsertOffset() && |checksum| == 32
    requires var out := WithComment(data, checksum);
             |damaged| == |out| && damaged[..37] == out[..37] && damaged[86..] == out[86..]
    ensures damaged == WithAltered(data, damaged[37..82], damaged[82..86])
  {
    var out := WithComment(data, checksum);
    CommentBytes(checksum);
    assert out[..37] == data[..33] + PNG.enc(0x29);
    assert out[86..] == data[33..];
    assert damaged == damaged[..37] + damaged[37..82] + damaged[82..86] + damaged[86..];
  }

  /** The comment checks itself: a copy of the output that is damaged within at most four
      consecutive bytes of the comment's type, data and CRC is refused by the reader, with
      one exception for each checksum; that one reads as a comment with another checksum. */
  lemma DamagedComment(data: Bytes, checksum: Bytes, header: PngChunk, more: seq<PngChunk>,
                       body: Bytes, field: Bytes, i: nat, n: nat)
    requires |data| >= InsertOffset() && |checksum| == 32 && |header.data| == 13
    requires ParsePng(data) == Some([header] + more)
    requires Damaged(CommentBody(checksum), body, field, i, n)
    ensures ParsePng(WithAltered(data, body, field)) == None <==> !Blind(CommentBody(checksum), body, field)
    ensures Blind(CommentBody(checksum), body, field) ==>
              ParsePng(WithAltered(data, body, field)) == Some([header, TextChunk(Slipped(checksum))] + more)
  {
    PngLawful();
    assert PNG.size(0x29) == 41;
    AlteredReads(PNG, SIGNATURE, data, InsertOffset(), header, 0x29, body, field, more);
    DamageShows(CommentBody(checksum), body, field, i, n);
    if Blind(CommentBody(checksum), body, field) {
      SlippedBody(checksum, body);
    }
  }

  function Slipped(checksum: Bytes): Bytes
    requires |checksum| == 32
  {
    checksum[..30] + [XorByte(checksum[30], 0x61), XorByte(checksum[31], 0xd8)]
  }

  lemma SlippedBody(checksum: Bytes, body: Bytes)
    requires |checksum| == 32
    requires var b := CommentBody(checksum); body == b[..43] + [XorByte(b[43], 0x61), XorByte(b[44], 0xd8)]
    ensures body[..4] == TEXT && body[4..] == KEYWORD + Slipped(checksum)
  {
  }

  /** There is such damage for every checksum. */
  lemma DamageCanSlip(data: Bytes, checksum: Bytes, header: PngChunk, more: seq<PngChunk>)
    returns (body: Bytes, field: Bytes)
    requires |data| >= InsertOffset() && |checksum| == 32 && |header.data| == 13
    requires ParsePng(data) == Some([header] + more)
    ensures Damaged(CommentBody(checksum), body, field, 43, 4) && Slipped(checksum) != checksum
    ensures ParsePng(WithAltered(data, body, field)) == Some([header, TextChunk(Slipped(checksum))] + more)
  {
    var b, f := CommentBody(checksum), CrcField(CommentBody(checksum));
    body := b[..43] + [XorByte(b[43], 0x61), XorByte(b[44], 0xd8)];
    field := [XorByte(f[0], 0xf4), XorByte(f[1], 0xee), f[2], f[3]];
    XorByteBack(checksum[30], 0x61);
    XorChanges(checksum[30]);
    assert Slipped(checksum)[30] != checksum[30];
    assert b[43] == checksum[30] && body[43] != b[43];
    DamagedComment(data, checksum, header, more, body, field, 43, 4);
  }

  lemma XorChanges(x: bv8)
    ensures XorByte(x, 0x61) != x
  {
  }
}
