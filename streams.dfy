/** The two files the hybrid cipher touches, held in memory: the input
    file read front to back with Python's short-read semantics, and the
    output file, which may exist before the call, is truncated when opened
    for writing and can be removed. */
module Streams {
  import opened Base

  /** `f.read(n)` at offset `pos`: at most `n` bytes, fewer (possibly
      none) at the end of the data. */
  function ReadAt(data: seq<byte>, pos: nat, n: nat): (r: seq<byte>)
    requires pos <= |data|
    ensures |r| == Min(n, |data| - pos)
    ensures r == data[pos..pos + |r|]
  {
    data[pos..Min(pos + n, |data|)]
  }

  /** Two reads in a row take what one read of the combined size takes. */
  lemma ReadAtSplit(data: seq<byte>, pos: nat, n: nat, m: nat)
    requires pos <= |data|
    ensures pos + |ReadAt(data, pos, n)| <= |data|
    ensures ReadAt(data, pos, n) + ReadAt(data, pos + |ReadAt(data, pos, n)|, m) == ReadAt(data, pos, n + m)
  {
    var a := ReadAt(data, pos, n);
    var b := ReadAt(data, pos + |a|, m);
    assert a + b == data[pos..pos + |a| + |b|];
  }

  /** An input file opened with `open(path, 'rb')`. */
  class Reader {
    const data: seq<byte>
    var pos: nat

    predicate Valid()
      reads this
    {
      pos <= |data|
    }

    constructor (data: seq<byte>)
      ensures this.data == data && pos == 0 && Valid()
    {
      this.data := data;
      pos := 0;
    }

    /** `read(n)`: the next bytes, at most `n` of them. */
    method Read(n: nat) returns (chunk: seq<byte>)
      requires Valid()
      modifies this
      ensures Valid()
      ensures chunk == ReadAt(data, old(pos), n)
      ensures pos == old(pos) + |chunk|
    {
      chunk := data[pos..Min(pos + n, |data|)];
      pos := pos + |chunk|;
    }
  }

  /** The output path: whether a file is there and what it holds. */
  class OutputFile {
    var present: bool
    var content: seq<byte>

    /** A file that is not there holds nothing. */
    predicate Valid()
      reads this
    {
      !present ==> content == []
    }

    constructor (present: bool, content: seq<byte>)
      requires !present ==> content == []
      ensures this.present == present && this.content == content && Valid()
    {
      this.present := present;
      this.content := content;
    }

    /** `open(path, 'wb')`: creates the file or truncates it. */
    method Open()
      modifies this
      ensures Valid() && present && content == []
    {
      present := true;
      content := [];
    }

    /** `write(b)` appends to the open file. */
    method Write(b: seq<byte>)
      requires present
      modifies this
      ensures Valid() && present && content == old(content) + b
    {
      content := content + b;
    }

    /** `if os.path.exists(path): os.remove(path)`. */
    method RemoveIfExists()
      requires Valid()
      modifies this
      ensures Valid() && !present && content == []
    {
      if present {
        present := false;
        content := [];
      }
    }
  }
}
