/** The checksum comment that Tools/DumpRenderTree/PixelDumpSupport.cpp splices into a PNG.

    The reference is a reader for the chunk layout of section 3.2 of RFC 2083 that
    refuses a chunk whose CRC does not match. */
module Png {
  import opened Basics
  import opened Crc
  import opened Chunks

  type PngChunk = Chunk<bv32, bv8>

  const SIGNATURE: Bytes := [0x89, 0x50, 0x4e, 0x47, 0x0d, 0x0a, 0x1a, 0x0a]
  const TEXT: Bytes := [0x74, 0x45, 0x58, 0x74]
  /** "checksum" and its terminating zero byte. */
  const KEYWORD: Bytes := [0x63, 0x68, 0x65, 0x63, 0x6b, 0x73, 0x75, 0x6d, 0x00]

  // ----- Big-endian numbers -----

  function BigEndian(n: bv32): (r: Bytes)
    ensures |r| == 4
  {
    [((n >> 24) & 0xff) as bv8, ((n >> 16) & 0xff) as bv8, ((n >> 8) & 0xff) as bv8, (n & 0xff) as bv8]
  }

  function FromBigEndian(s: Bytes): bv32
    requires |s| == 4
  {
    (s[0] as bv32 << 24) | (s[1] as bv32 << 16) | (s[2] as bv32 << 8) | (s[3] as bv32)
  }

  lemma BigEndianRoundTrip(n: bv32)
    ensures FromBigEndian(BigEndian(n)) == n
  {
  }

  lemma BigEndianOnto(s: Bytes)
    requires |s| == 4
    ensures BigEndian(FromBigEndian(s)) == s
  {
  }

  lemma BigEndianInjective(m: bv32, n: bv32)
    requires BigEndian(m) == BigEndian(n)
    ensures m == n
  {
    BigEndianRoundTrip(m);
    BigEndianRoundTrip(n);
  }

  // ----- The format -----

  function DecodeLength(s: Bytes): bv32 { if |s| == 4 then FromBigEndian(s) else 0 }
  function Size(n: bv32): nat { n as int }

  function CrcField(covered: Bytes): (r: Bytes)
    ensures |r| == 4
  {
    BigEndian(Crc32(covered))
  }

  const PNG: Format<bv32, bv8> := Format(BigEndian, DecodeLength, Size, CrcField)

  lemma PngLawful()
    ensures Lawful(PNG)
  {
    forall n
      ensures |BigEndian(n)| == 4 && DecodeLength(BigEndian(n)) == n
    {
      BigEndianRoundTrip(n);
    }
    forall s: Bytes | |s| == 4
      ensures BigEndian(DecodeLength(s)) == s
    {
      BigEndianOnto(s);
    }
  }

  function ParsePng(s: Bytes): Option<seq<PngChunk>> { ParseFile(PNG, SIGNATURE, s) }

  function EncodePng(cs: seq<PngChunk>): Bytes { SIGNATURE + EncodeAll(PNG, cs) }

  lemma ParsePngExact(s: Bytes, cs: seq<PngChunk>)
    ensures ParsePng(s) == Some(cs) <==> AllWellFormed(PNG, cs) && s == EncodePng(cs)
  {
    PngLawful();
    ParseFileExact(PNG, SIGNATURE, s, cs);
  }

  // ----- The comment -----

  function TextChunk(checksum: Bytes): PngChunk {
    Chunk(0x29, TEXT, KEYWORD + checksum)
  }

  /** The byte of an ASCII character. */
  function Ascii(text: string): seq<int> {
    seq(|text|, (i: int) requires 0 <= i < |text| => text[i] as int)
  }

  function Codes(s: Bytes): seq<int> {
    seq(|s|, (i: int) requires 0 <= i < |s| => s[i] as int)
  }

  /** The comment is a chunk of type tEXt, with the keyword "checksum" and a zero byte before
      the text (section 4.2.7 of RFC 2083); the signature is that of section 3.1. */
  lemma CommentReads(checksum: Bytes)
    ensures Codes(TextChunk(checksum).kind) == Ascii("tEXt")
    ensures |TextChunk(checksum).data| == 9 + |checksum|
    ensures Codes(TextChunk(checksum).data[..8]) == Ascii("checksum") && TextChunk(checksum).data[8] == 0
    ensures TextChunk(checksum).data[9..] == checksum
    ensures Codes(SIGNATURE) == [137, 80, 78, 71, 13, 10, 26, 10]
  {
    assert TextChunk(checksum).data[..8] == KEYWORD[..8];
  }

  lemma TextChunkWellFormed(checksum: Bytes)
    requires |checksum| == 32
    ensures WellFormed(PNG, TextChunk(checksum))
  {
    assert PNG.size(0x29) == 41;
  }

  function InsertOffset(): nat { 8 + 25 }

  function WithComment(data: Bytes, checksum: Bytes): Bytes
    requires |data| >= InsertOffset()
  {
    Splice(data, InsertOffset(), Encode(PNG, TextChunk(checksum)))
  }

  /** Splicing the comment in right after a 13-byte header chunk inserts exactly one
      chunk, the valid tEXt chunk, in what a checking reader sees; and the output is
      readable in this way only if the input was. */
  lemma CommentInserted(data: Bytes, checksum: Bytes, header: PngChunk, more: seq<PngChunk>)
    requires |data| >= InsertOffset() && |checksum| == 32 && |header.data| == 13
    ensures ParsePng(WithComment(data, checksum)) == Some([header, TextChunk(checksum)] + more)
       <==> ParsePng(data) == Some([header] + more)
  {
    PngLawful();
    TextChunkWellFormed(checksum);
    SpliceAfterFirst(PNG, SIGNATURE, data, InsertOffset(), header, TextChunk(checksum), more);
  }

  /** Dropping the second chunk of what the reader sees gives back the input bytes. */
  lemma {:induction false} DroppingCommentRestores(data: Bytes, checksum: Bytes, header: PngChunk, more: seq<PngChunk>)
    requires |data| >= InsertOffset() && |checksum| == 32 && |header.data| == 13
    requires ParsePng(data) == Some([header] + more)
    ensures var cs := ParsePng(WithComment(data, checksum));
            cs.Some? && |cs.value| >= 2 && EncodePng(cs.value[..1] + cs.value[2..]) == data
  {
    CommentInserted(data, checksum, header, more);
    var cs := [header, TextChunk(checksum)] + more;
    assert cs[..1] + cs[2..] == [header] + more;
    ParsePngExact(data, [header] + more);
  }

  // ----- The code -----

  method AppendIntToVector(number: bv32, vector: Bytes) returns (r: Bytes)
    ensures r == vector + BigEndian(number)
  {
    r := vector + [0, 0, 0, 0];
    var offset := |vector|;
    r := r[offset := ((number >> 24) & 0xff) as bv8];
    r := r[offset + 1 := ((number >> 16) & 0xff) as bv8];
    r := r[offset + 2 := ((number >> 8) & 0xff) as bv8];
    r := r[offset + 3 := (number & 0xff) as bv8];
  }

  /** The bytes of textCommentPrefix: length field, type, keyword. */
  const PREFIX: Bytes := [0x00, 0x00, 0x00, 0x29] + TEXT + KEYWORD

  lemma CommentBytes(checksum: Bytes)
    ensures var body := TEXT + (KEYWORD + checksum);
            Encode(PNG, TextChunk(checksum)) == [0x00, 0x00, 0x00, 0x29] + body + BigEndian(Crc32(body))
  {
    assert PNG.enc(0x29) == [0x00, 0x00, 0x00, 0x29];
  }

  /** `checksum` points at at least 32 characters, of which the first 32 are used. */
  method ConvertChecksumToPngComment(crc: CrcComputer, checksum: Bytes) returns (bytesToAdd: Bytes)
    requires crc.Valid() && |checksum| >= 32
    modifies crc, crc.crcTable
    ensures crc.Valid()
    ensures bytesToAdd == Encode(PNG, TextChunk(checksum[..32])) && |bytesToAdd| == 53
  {
    bytesToAdd := PREFIX;
    bytesToAdd := bytesToAdd + checksum[..32];
    var dataToCrc := PREFIX[4..];
    dataToCrc := dataToCrc + checksum[..32];
    var crc32 := crc.ComputeCrc(dataToCrc);
    assert dataToCrc == TEXT + (KEYWORD + checksum[..32]);
    CommentBytes(checksum[..32]);
    assert bytesToAdd == [0x00, 0x00, 0x00, 0x29] + dataToCrc;
    bytesToAdd := AppendIntToVector(crc32, bytesToAdd);
  }

  /** The standard output: every call of fwrite may be cut short. `limits` holds the
      number of bytes that the next calls accept; later calls accept everything. `calls`
      records how many bytes each call was given and how many it accepted. */
  class Output {
    var written: Bytes
    var limits: seq<nat>
    var calls: seq<(nat, nat)>

    constructor (limits: seq<nat>)
      ensures written == [] && calls == [] && this.limits == limits
    {
      written, calls := [], [];
      this.limits := limits;
    }

    method Fwrite(bytes: Bytes) returns (count: nat)
      modifies this
      ensures count <= |bytes| && written == old(written) + bytes[..count] && calls == old(calls) + [(|bytes|, count)]
      ensures old(limits) == [] ==> count == |bytes| && limits == []
    {
      count := |bytes|;
      if limits != [] {
        count := if limits[0] < count then limits[0] else count;
        limits := limits[1..];
      }
      written := written + bytes[..count];
      calls := calls + [(|bytes|, count)];
    }
  }

  /** How the rest of the file is written: in pieces of 32768 bytes, the last one shorter,
      up to the first piece that is not accepted in full. */
  ghost predicate InPieces(calls: seq<(nat, nat)>, rest: int, sent: int) {
    if calls == [] then rest == 0 && sent == 0 else
    var n := |calls| - 1;
    && (forall i :: 0 <= i < n ==> calls[i] == (32768, 32768)) && 32768 * n < rest
    && calls[n].0 == (if rest - 32768 * n < 32768 then rest - 32768 * n else 32768)
    && calls[n].1 <= calls[n].0 && sent == 32768 * n + calls[n].1
    && (calls[n].1 == calls[n].0 ==> sent == rest)
  }

  /** The loop of printPNG: it stops at the first short write. */
  method WriteRest(out: Output, data: Bytes, start: nat) returns (ghost sent: nat, ghost calls: seq<(nat, nat)>)
    requires start <= |data|
    modifies out
    ensures sent <= |data| - start && out.written == old(out.written) + data[start..][..sent]
    ensures out.calls == old(out.calls) + calls && InPieces(calls, |data| - start, sent)
    ensures old(out.limits) == [] ==> sent == |data| - start
  {
    var bytesToWriteInOneChunk := 32768;
    var position := start;
    sent, calls := 0, [];
    while position < |data|
      invariant start <= position == start + sent <= |data|
      invariant out.written == old(out.written) + data[start..][..sent] && out.calls == old(out.calls) + calls
      invariant old(out.limits) == [] ==> out.limits == []
      invariant InPieces(calls, |data| - start, sent) ||
                (sent == 32768 * |calls| && position < |data| && forall i :: 0 <= i < |calls| ==> calls[i] == (32768, 32768))
      invariant position < |data| ==> sent == 32768 * |calls|
      invariant position < |data| ==> forall i :: 0 <= i < |calls| ==> calls[i] == (32768, 32768)
    {
      var remaining := |data| - position;
      var size := if remaining < bytesToWriteInOneChunk then remaining else bytesToWriteInOneChunk;
      var bytesWritten := out.Fwrite(data[position..position + size]);
      GrowPrefix(data, start, position, size, bytesWritten);
      sent, calls := sent + bytesWritten, calls + [(size, bytesWritten)];
      if bytesWritten != size {
        break;
      }
      position := position + bytesWritten;
    }
  }

  /** Returns the announced Content-Length. The results of the first two writes are ignored. */
  method PrintPng(out: Output, crc: CrcComputer, data: Bytes, checksum: Bytes) returns (contentLength: nat)
    requires crc.Valid() && |data| >= InsertOffset() && |checksum| >= 32
    modifies out, crc, crc.crcTable
    ensures crc.Valid()
    ensures contentLength == |WithComment(data, checksum[..32])|
    ensures old(out.written) <= out.written
    ensures var sent := out.written[|old(out.written)|..];
            |sent| <= contentLength && (|sent| == contentLength <==> sent == WithComment(data, checksum[..32]))
    ensures old(out.limits) == [] ==> out.written == old(out.written) + WithComment(data, checksum[..32])
    ensures old(out.calls) <= out.calls && |old(out.calls)| + 2 <= |out.calls|
    ensures var calls, sent := out.calls[|old(out.calls)|..], |out.written| - |old(out.written)|;
            calls[0].0 == 33 && calls[1].0 == 53 && InPieces(calls[2..], |data| - 33, sent - calls[0].1 - calls[1].1)
  {
    ghost var before, called := out.written, out.calls;
    var bytesToAdd := ConvertChecksumToPngComment(crc, checksum);
    contentLength := |data| + |bytesToAdd|;
    var insertOffset := InsertOffset();
    var a := out.Fwrite(data[..insertOffset]);
    var b := out.Fwrite(bytesToAdd);
    ghost var c, rest := WriteRest(out, data, insertOffset);
    Delivered(before, data, insertOffset, bytesToAdd, a, b, c, out.written);
    assert out.calls == called + ([(33, a), (53, b)] + rest);
    assert out.calls[|called|..] == [(33, a), (53, b)] + rest;
    assert ([(33, a), (53, b)] + rest)[2..] == rest;
  }

  lemma Delivered(before: Bytes, data: Bytes, start: nat, added: Bytes, a: nat, b: nat, c: nat, written: Bytes)
    requires start <= |data| && a <= start && b <= |added| && c <= |data| - start
    requires written == before + data[..start][..a] + added[..b] + data[start..][..c]
    ensures before <= written
    ensures var sent := written[|before|..];
            |sent| <= |data| + |added| && (|sent| == |data| + |added| <==> sent == Splice(data, start, added))
    ensures a == start && b == |added| && c == |data| - start ==> written == before + Splice(data, start, added)
  {
    Assembled(data, start, added, a, b, c);
    var sent := data[..start][..a] + added[..b] + data[start..][..c];
    assert written == before + sent;
    assert written[|before|..] == sent;
  }

  lemma GrowPrefix(data: Bytes, start: nat, position: nat, size: nat, count: nat)
    requires start <= position && position + size <= |data| && count <= size
    ensures data[start..][..position - start] + data[position..position + size][..count]
         == data[start..][..position - start + count]
  {
  }

  lemma Assembled(data: Bytes, start: nat, added: Bytes, a: nat, b: nat, c: nat)
    requires start <= |data| && a <= start && b <= |added| && c <= |data| - start
    ensures var sent := data[..start][..a] + added[..b] + data[start..][..c];
            |sent| <= |data| + |added| && (|sent| == |data| + |added| <==> sent == Splice(data, start, added))
    ensures a == start && b == |added| && c == |data| - start ==>
              data[..start][..a] + added[..b] + data[start..][..c] == Splice(data, start, added)
  {
    if a == start && b == |added| && c == |data| - start {
      assert data[..start][..a] == data[..start] && added[..b] == added && data[start..][..c] == data[start..];
    }
  }
}
