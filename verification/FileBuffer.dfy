/** The growing buffer of fillBufferWithContentsOfFile in Source/JavaScriptCore/jsc.cpp. */
module FileBuffer {

  /** An open file: `rest` are the bytes that can still be read before the end or before
      a read error, which end the loop alike. A read that returns fewer bytes than asked
      for has met that point. */
  class File {
    var rest: seq<char>
    var ended: bool

    constructor (contents: seq<char>)
      ensures rest == contents && !ended
    {
      rest, ended := contents, false;
    }

    method Fread(size: nat) returns (bytes: seq<char>)
      modifies this
      ensures |bytes| <= |old(rest)| && bytes == old(rest)[..|bytes|] && rest == old(rest)[|bytes|..]
      ensures |bytes| <= size && ended == (old(ended) || |bytes| < size)
      ensures |bytes| < size ==> rest == []
    {
      var count := if size < |rest| then size else |rest|;
      bytes := rest[..count];
      rest := rest[count..];
      if count < size {
        ended := true;
      }
    }
  }

  /** A leading "#!" becomes "//"; nothing else changes. */
  function WithoutShebang(s: seq<char>): (r: seq<char>)
    ensures |r| == |s| && forall i :: 2 <= i < |s| ==> r[i] == s[i]
  {
    if |s| >= 2 && s[0] == '#' && s[1] == '!' then "//" + s[2..] else s
  }

  /** Vector::resize: the old contents stay; what is new is arbitrary, here `fill`. */
  function Resize(buffer: seq<char>, size: nat, fill: char): (r: seq<char>)
    requires |buffer| <= size
    ensures |r| == size && r[..|buffer|] == buffer
  {
    buffer + seq(size - |buffer|, _ => fill)
  }

  /** The capacity: 1024, doubled until it exceeds the size. */
  function Capacity(size: nat, capacity: nat): (r: nat)
    requires capacity > 0
    ensures r > size && r >= capacity && (r == capacity || r <= 2 * size)
    decreases size - capacity
  {
    if size < capacity then capacity else Capacity(size, 2 * capacity)
  }

  /** Without a file the result is false. */
  method FillBufferWithContentsOfFile(f: File?, fill: char) returns (ok: bool, buffer: seq<char>)
    requires f != null ==> !f.ended
    modifies f
    ensures ok <==> f != null
    ensures ok ==> |old(f.rest)| < |buffer| && buffer[|old(f.rest)|] == '\0'
    ensures ok ==> buffer[..|old(f.rest)|] == WithoutShebang(old(f.rest))
    ensures ok ==> |buffer| == Capacity(|old(f.rest)|, 1024)
  {
    if f == null {
      return false, [];
    }
    var size;
    buffer, size := FillBuffer(f, fill);
    ok := true;
  }

  /** The buffer holds the file's bytes, with a zero after them, in bounds; its capacity is
      1024 or at most twice the size. */
  method FillBuffer(f: File, fill: char) returns (buffer: seq<char>, bufferSize: nat)
    requires !f.ended
    modifies f
    ensures bufferSize == |old(f.rest)| < |buffer|
    ensures buffer[..bufferSize] == WithoutShebang(old(f.rest)) && buffer[bufferSize] == '\0'
    ensures |buffer| == Capacity(bufferSize, 1024) && (|buffer| == 1024 || |buffer| <= 2 * bufferSize)
    ensures forall i :: 0 <= i < bufferSize ==>
              buffer[i] == if "#!" <= old(f.rest) && i < 2 then '/' else old(f.rest)[i]
    ensures f.rest == []
  {
    bufferSize := 0;
    var bufferCapacity := 1024;
    buffer := Resize([], bufferCapacity, fill);
    while !f.ended
      invariant |buffer| == bufferCapacity && bufferSize < bufferCapacity
      invariant bufferSize <= |old(f.rest)| && buffer[..bufferSize] == old(f.rest)[..bufferSize]
      invariant f.rest == old(f.rest)[bufferSize..] && (f.ended ==> f.rest == [])
      invariant bufferCapacity > 0 && Capacity(|old(f.rest)|, 1024) == Capacity(|old(f.rest)|, bufferCapacity)
      decreases !f.ended, |f.rest|
    {
      var bytes := f.Fread(bufferCapacity - bufferSize);
      buffer := Overwrite(buffer, bufferSize, bytes);
      ReadMore(old(f.rest), bufferSize, |bytes|);
      bufferSize := bufferSize + |bytes|;
      if bufferSize == bufferCapacity {
        bufferCapacity := bufferCapacity * 2;
        assert buffer[..bufferSize] == buffer;
        buffer := Resize(buffer, bufferCapacity, fill);
      }
    }
    assert old(f.rest)[..bufferSize] == old(f.rest);
    buffer := Finish(buffer, bufferSize);
    forall i | 0 <= i < bufferSize
      ensures buffer[i] == if "#!" <= old(f.rest) && i < 2 then '/' else old(f.rest)[i]
    {
      assert buffer[..bufferSize][i] == buffer[i];
    }
  }

  /** The terminating zero, and the shebang line. */
  method Finish(bytes: seq<char>, size: nat) returns (buffer: seq<char>)
    requires size < |bytes| && |bytes| >= 2
    ensures |buffer| == |bytes| && buffer[size] == '\0' && buffer[..size] == WithoutShebang(bytes[..size])
  {
    buffer := bytes[size := '\0'];
    if buffer[0] == '#' && buffer[1] == '!' {
      buffer := buffer[0 := '/'][1 := '/'];
    }
  }

  /** What fread does to the buffer. */
  function Overwrite(buffer: seq<char>, at: nat, bytes: seq<char>): (r: seq<char>)
    requires at + |bytes| <= |buffer|
    ensures |r| == |buffer| && r[..at + |bytes|] == buffer[..at] + bytes
  {
    buffer[..at] + bytes + buffer[at + |bytes|..]
  }

  lemma ReadMore(s: seq<char>, i: nat, n: nat)
    requires i + n <= |s|
    ensures s[..i] + s[i..][..n] == s[..i + n] && s[i..][n..] == s[i + n..]
  {
  }
}
