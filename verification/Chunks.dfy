/** Files made of <length> <type> <data> <check> records, section 3.2 of RFC 2083, for an
    arbitrary coding of lengths and an arbitrary check sum. */
module Chunks {
  import opened Basics

  /** `length` is the stored length field. */
  datatype Chunk<L, B> = Chunk(length: L, kind: seq<B>, data: seq<B>)

  datatype Format<!L, !B> = Format(enc: L -> seq<B>, dec: seq<B> -> L, size: L -> nat, sum: seq<B> -> seq<B>)

  ghost predicate Lawful<L(!new), B(!new)>(f: Format<L, B>) {
    && (forall n :: |f.enc(n)| == 4 && f.dec(f.enc(n)) == n)
    && (forall s :: |s| == 4 ==> f.enc(f.dec(s)) == s)
    && (forall s :: |f.sum(s)| == 4)
  }

  predicate WellFormed<L, B>(f: Format<L, B>, c: Chunk<L, B>) {
    |c.kind| == 4 && |c.data| == f.size(c.length)
  }

  function Encode<L, B>(f: Format<L, B>, c: Chunk<L, B>): seq<B> {
    f.enc(c.length) + (c.kind + c.data) + f.sum(c.kind + c.data)
  }

  function EncodeAll<L, B>(f: Format<L, B>, cs: seq<Chunk<L, B>>): seq<B> {
    if cs == [] then [] else Encode(f, cs[0]) + EncodeAll(f, cs[1..])
  }

  /** Reads one chunk and returns it with what follows; a wrong check sum is refused. */
  function Parse<L, B(==)>(f: Format<L, B>, s: seq<B>): (r: Option<(Chunk<L, B>, seq<B>)>)
    ensures r.Some? ==> |r.value.1| < |s|
  {
    if |s| < 12 then None else
    var length := f.dec(s[..4]);
    var end := 8 + f.size(length);
    if |s| < end + 4 || s[end..end + 4] != f.sum(s[4..end]) then None
    else Some((Chunk(length, s[4..8], s[8..end]), s[end + 4..]))
  }

  function ParseAll<L, B(==)>(f: Format<L, B>, s: seq<B>): Option<seq<Chunk<L, B>>>
    decreases |s|
  {
    if s == [] then Some([]) else
    var first := Parse(f, s);
    if first.None? then None else
    var more := ParseAll(f, first.value.1);
    if more.None? then None else Some([first.value.0] + more.value)
  }

  lemma ParseEncoded<L(!new), B(!new)>(f: Format<L, B>, c: Chunk<L, B>, rest: seq<B>)
    requires Lawful(f) && WellFormed(f, c)
    ensures Parse(f, Encode(f, c) + rest) == Some((c, rest))
  {
    var s, end := Encode(f, c) + rest, 8 + |c.data|;
    assert s[..4] == f.enc(c.length);
    assert s[4..end] == c.kind + c.data;
    assert s[4..8] == c.kind && s[8..end] == c.data;
    assert s[end..end + 4] == f.sum(c.kind + c.data) && s[end + 4..] == rest;
  }

  lemma Reassemble<B>(s: seq<B>, end: nat)
    requires 8 <= end && end + 4 <= |s|
    ensures s[4..end] == s[4..8] + s[8..end]
    ensures s == s[..4] + s[4..end] + s[end..end + 4] + s[end + 4..]
  {
    assert s[..end] == s[..4] + s[4..end];
    assert s[..end + 4] == s[..end] + s[end..end + 4];
  }

  lemma ParsedEncodes<L(!new), B(!new)>(f: Format<L, B>, s: seq<B>)
    requires Lawful(f) && Parse(f, s).Some?
    ensures var (c, rest) := Parse(f, s).value; WellFormed(f, c) && s == Encode(f, c) + rest
  {
    Reassemble(s, 8 + f.size(f.dec(s[..4])));
  }

  lemma PrefixCancels<B>(p: seq<B>, x: seq<B>, y: seq<B>)
    ensures p + x == p + y <==> x == y
  {
    if p + x == p + y {
      assert x == (p + x)[|p|..];
      assert y == (p + y)[|p|..];
    }
  }

  ghost predicate AllWellFormed<L, B>(f: Format<L, B>, cs: seq<Chunk<L, B>>) {
    forall i :: 0 <= i < |cs| ==> WellFormed(f, cs[i])
  }

  /** The reader accepts exactly the encodings, and each byte string encodes one list. */
  lemma {:induction false} ParseAllExact<L(!new), B(!new)>(f: Format<L, B>, s: seq<B>, cs: seq<Chunk<L, B>>)
    requires Lawful(f)
    ensures ParseAll(f, s) == Some(cs) <==> AllWellFormed(f, cs) && s == EncodeAll(f, cs)
    decreases |cs|
  {
    if cs == [] {
    } else {
      var c, tail := cs[0], EncodeAll(f, cs[1..]);
      if WellFormed(f, c) && s == EncodeAll(f, cs) {
        ParseEncoded(f, c, tail);
        ParseAllExact(f, tail, cs[1..]);
        assert cs == [c] + cs[1..];
      }
      if ParseAll(f, s) == Some(cs) {
        ParsedEncodes(f, s);
        ParseAllExact(f, Parse(f, s).value.1, cs[1..]);
        assert forall i :: 0 < i < |cs| ==> cs[i] == cs[1..][i - 1];
      }
    }
  }

  lemma ParseCons<L(!new), B(!new)>(f: Format<L, B>, c: Chunk<L, B>, more: seq<Chunk<L, B>>, tail: seq<B>)
    requires Lawful(f) && WellFormed(f, c)
    ensures ParseAll(f, Encode(f, c) + tail) == Some([c] + more) <==> ParseAll(f, tail) == Some(more)
  {
    ParseEncoded(f, c, tail);
    var rest := ParseAll(f, tail);
    if rest.Some? {
      PrefixCancels([c], rest.value, more);
    }
  }

  lemma FirstChunk<L(!new), B(!new)>(f: Format<L, B>, s: seq<B>, c: Chunk<L, B>, more: seq<Chunk<L, B>>)
    requires Lawful(f) && ParseAll(f, s) == Some([c] + more)
    ensures WellFormed(f, c) && |Encode(f, c)| == 12 + |c.data| <= |s|
    ensures s[..12 + |c.data|] == Encode(f, c)
  {
    ParsedEncodes(f, s);
    assert ([c] + more)[0] == c;
    assert s == Encode(f, c) + Parse(f, s).value.1;
  }

  /** Inserting a well-formed chunk after the first one inserts it in what the reader
      sees; and the longer string reads in this way only if the shorter one did. */
  lemma InsertAfterFirst<L(!new), B(!new)>(f: Format<L, B>, front: seq<B>, tail: seq<B>, first: Chunk<L, B>,
                                         added: Chunk<L, B>, more: seq<Chunk<L, B>>)
    requires Lawful(f) && WellFormed(f, added) && |front| == 12 + |first.data|
    ensures ParseAll(f, front + (Encode(f, added) + tail)) == Some([first, added] + more)
       <==> ParseAll(f, front + tail) == Some([first] + more)
  {
    assert [first, added] + more == [first] + ([added] + more);
    if front == Encode(f, first) && WellFormed(f, first) {
      ParseCons(f, first, [added] + more, Encode(f, added) + tail);
      ParseCons(f, added, more, tail);
      ParseCons(f, first, more, tail);
    } else {
      NotFirstChunk(f, front, tail, first, more);
      NotFirstChunk(f, front, Encode(f, added) + tail, first, [added] + more);
    }
  }

  lemma NotFirstChunk<L(!new), B(!new)>(f: Format<L, B>, front: seq<B>, tail: seq<B>, c: Chunk<L, B>,
                                      more: seq<Chunk<L, B>>)
    requires Lawful(f) && |front| == 12 + |c.data| && !(front == Encode(f, c) && WellFormed(f, c))
    ensures ParseAll(f, front + tail) != Some([c] + more)
  {
    assert (front + tail)[..|front|] == front;
    if ParseAll(f, front + tail) == Some([c] + more) {
      FirstChunk(f, front + tail, c, more);
    }
  }

  /** A second chunk whose check field does not fit makes the whole string unreadable. */
  lemma WrongSumRefused<L(!new), B(!new)>(f: Format<L, B>, first: Chunk<L, B>, length: L, body: seq<B>, field: seq<B>, tail: seq<B>)
    requires Lawful(f) && WellFormed(f, first) && |body| == 4 + f.size(length) && |field| == 4 && field != f.sum(body)
    ensures ParseAll(f, Encode(f, first) + (f.enc(length) + body + field + tail)) == None
  {
    var s, end := f.enc(length) + body + field + tail, 4 + |body|;
    assert s[..4] == f.enc(length);
    assert s[4..end] == body;
    assert s[end..end + 4] == field;
    ParseEncoded(f, first, s);
  }

  // ----- Files: a signature and then chunks -----

  function ParseFile<L, B(==)>(f: Format<L, B>, signature: seq<B>, s: seq<B>): Option<seq<Chunk<L, B>>> {
    if signature <= s then ParseAll(f, s[|signature|..]) else None
  }

  lemma ParseFileExact<L(!new), B(!new)>(f: Format<L, B>, signature: seq<B>, s: seq<B>, cs: seq<Chunk<L, B>>)
    requires Lawful(f)
    ensures ParseFile(f, signature, s) == Some(cs) <==> AllWellFormed(f, cs) && s == signature + EncodeAll(f, cs)
  {
    if signature <= s {
      ParseAllExact(f, s[|signature|..], cs);
      assert s == signature + s[|signature|..];
      PrefixCancels(signature, s[|signature|..], EncodeAll(f, cs));
    }
  }

  function Splice<B>(s: seq<B>, at: nat, added: seq<B>): seq<B>
    requires at <= |s|
  {
    s[..at] + added + s[at..]
  }

  lemma {:induction false} SpliceAfterFirst<L(!new), B(!new)>(f: Format<L, B>, signature: seq<B>, s: seq<B>, at: nat, first: Chunk<L, B>,
                                         added: Chunk<L, B>, more: seq<Chunk<L, B>>)
    requires Lawful(f) && WellFormed(f, added)
    requires at == |signature| + 12 + |first.data| <= |s|
    ensures ParseFile(f, signature, Splice(s, at, Encode(f, added))) == Some([first, added] + more)
       <==> ParseFile(f, signature, s) == Some([first] + more)
  {
    var k := |signature|;
    var out := Splice(s, at, Encode(f, added));
    assert out[..k] == s[..k];
    assert s[k..] == s[k..at] + s[at..];
    assert out[k..] == s[k..at] + (Encode(f, added) + s[at..]);
    InsertAfterFirst(f, s[k..at], s[at..], first, added, more);
  }

  /** A file into which a chunk with this type and data and this check field is spliced. */
  function Altered<L, B>(f: Format<L, B>, s: seq<B>, at: nat, length: L, body: seq<B>, field: seq<B>): seq<B>
    requires at <= |s|
  {
    s[..at] + (f.enc(length) + body + field) + s[at..]
  }

  /** The reader accepts it exactly if the field fits, and then reads the chunk as it is. */
  lemma AlteredReads<L(!new), B(!new)>(f: Format<L, B>, signature: seq<B>, s: seq<B>, at: nat, first: Chunk<L, B>,
                                     length: L, body: seq<B>, field: seq<B>, more: seq<Chunk<L, B>>)
    requires Lawful(f) && at == |signature| + 12 + |first.data| <= |s|
    requires ParseFile(f, signature, s) == Some([first] + more)
    requires |body| == 4 + f.size(length) && |field| == 4
    ensures ParseFile(f, signature, Altered(f, s, at, length, body, field)) ==
            if field == f.sum(body) then Some([first, Chunk(length, body[..4], body[4..])] + more) else None
  {
    var k, out := |signature|, Altered(f, s, at, length, body, field);
    if field == f.sum(body) {
      var c := Chunk(length, body[..4], body[4..]);
      assert c.kind + c.data == body;
      assert out == Splice(s, at, Encode(f, c));
      SpliceAfterFirst(f, signature, s, at, first, c, more);
    } else {
      FirstChunk(f, s[k..], first, more);
      assert s[k..][..12 + |first.data|] == s[k..at];
      CutAltered(s, k, at, f.enc(length) + body + field);
      assert out[k..] == s[k..at] + (f.enc(length) + body + field + s[at..]);
      WrongSumRefused(f, first, length, body, field, s[at..]);
    }
  }

  lemma CutAltered<B>(s: seq<B>, k: nat, at: nat, added: seq<B>)
    requires k <= at <= |s|
    ensures var out := s[..at] + added + s[at..]; out[..k] == s[..k] && out[k..] == s[k..at] + (added + s[at..])
  {
    assert s[..at] == s[..k] + s[k..at];
  }
}
