/** The container header written by `encrypt_file_hybrid` and read back by
    `decrypt_file_hybrid`:

      "HYBR" | version (1 byte) | key length (2 bytes, big-endian)
             | transposed key text | nonce length (1 byte) | nonce

    followed by the GCM ciphertext and the 16-byte tag. */
module Container {
  import opened Base
  import opened Streams

  /** The magic number `b'HYBR'`. */
  const MAGIC: seq<byte> := [0x48, 0x59, 0x42, 0x52]

  /** The only version the writer produces. */
  const VERSION: byte := 1

  /** `int.from_bytes(b, 'big')` for the one- and two-byte length fields
      (a short read may leave one byte or none; the empty string reads as 0). */
  function FromBigEndian(b: seq<byte>): nat
    requires |b| <= 2
  {
    if |b| == 0 then 0
    else if |b| == 1 then b[0]
    else b[0] as nat * 256 + b[1] as nat
  }

  /** `n.to_bytes(2, 'big')`. */
  function ToBigEndian2(n: nat): (b: seq<byte>)
    requires n < 0x1_0000
    ensures |b| == 2 && FromBigEndian(b) == n
  {
    [n / 256, n % 256]
  }

  /** `n.to_bytes(1, 'big')`. */
  function ToBigEndian1(n: nat): (b: seq<byte>)
    requires n < 0x100
    ensures |b| == 1 && FromBigEndian(b) == n
  {
    [n]
  }

  /** `header_size = 4 + 1 + 2 + enc_key_len + 1 + nonce_len`. */
  function HeaderSize(encKeyLen: nat, nonceLen: nat): nat
  {
    4 + 1 + 2 + encKeyLen + 1 + nonceLen
  }

  /** The bytes `encrypt_file_hybrid` writes before the ciphertext. */
  function HeaderBytes(encKey: seq<byte>, nonce: seq<byte>): (h: seq<byte>)
    requires |encKey| < 0x1_0000 && |nonce| < 0x100
    ensures |h| == HeaderSize(|encKey|, |nonce|)
    ensures h[..4] == MAGIC && h[4] == VERSION
  {
    MAGIC + [VERSION] + ToBigEndian2(|encKey|) + encKey + ToBigEndian1(|nonce|) + nonce
  }

  /** What `decrypt_file_hybrid` reads from the header: the fields as
      stated (`encKeyLen`, `nonceLen`), the bytes actually obtained (which a
      short file may truncate), and the offset the reader stops at. */
  datatype Header = Header(
    version: seq<byte>,
    encKeyLen: nat,
    encKey: seq<byte>,
    nonceLen: nat,
    nonce: seq<byte>,
    end: nat)

  /** The header reads of `decrypt_file_hybrid`, in order; `None` is the
      magic mismatch, the only check made on the header itself. */
  function ParseHeader(file: seq<byte>): Option<Header>
  {
    if ReadAt(file, 0, 4) != MAGIC then None
    else
      var version := ReadAt(file, 4, 1);
      var lenBytes := ReadAt(file, 4 + |version|, 2);
      var encKey := ReadAt(file, 4 + |version| + |lenBytes|, FromBigEndian(lenBytes));
      Some(ParseNonce(file, version, FromBigEndian(lenBytes), encKey, 4 + |version| + |lenBytes| + |encKey|))
  }

  /** The nonce field, read from offset `at` once the key field is in. */
  function ParseNonce(file: seq<byte>, version: seq<byte>, encKeyLen: nat, encKey: seq<byte>, at: nat): Header
    requires at <= |file|
  {
    var nonceLenBytes := ReadAt(file, at, 1);
    var nonce := ReadAt(file, at + |nonceLenBytes|, FromBigEndian(nonceLenBytes));
    Header(version, encKeyLen, encKey, FromBigEndian(nonceLenBytes), nonce, at + |nonceLenBytes| + |nonce|)
  }

  /** `ParseHeader` as the sequence of reads a caller performs. */
  lemma ParseHeaderReads(file: seq<byte>, version: seq<byte>, lenBytes: seq<byte>, encKey: seq<byte>,
                         nonceLenBytes: seq<byte>, nonce: seq<byte>)
    requires ReadAt(file, 0, 4) == MAGIC
    requires version == ReadAt(file, 4, 1)
    requires lenBytes == ReadAt(file, 4 + |version|, 2)
    requires encKey == ReadAt(file, 4 + |version| + |lenBytes|, FromBigEndian(lenBytes))
    requires nonceLenBytes == ReadAt(file, 4 + |version| + |lenBytes| + |encKey|, 1)
    requires nonce == ReadAt(file, 4 + |version| + |lenBytes| + |encKey| + |nonceLenBytes|, FromBigEndian(nonceLenBytes))
    ensures ParseHeader(file) == Some(Header(version, FromBigEndian(lenBytes), encKey, FromBigEndian(nonceLenBytes), nonce,
                                             4 + |version| + |lenBytes| + |encKey| + |nonceLenBytes| + |nonce|))
  {
    var at := 4 + |version| + |lenBytes| + |encKey|;
    assert ParseHeader(file) == Some(ParseNonce(file, version, FromBigEndian(lenBytes), encKey, at));
  }

  // ---------------------------------------------------------------------
  // Properties of the layout

  /** Parsing what the writer wrote recovers the key text and the nonce,
      whatever follows the header, and stops exactly at its end. */
  lemma ParseWrittenHeader(encKey: seq<byte>, nonce: seq<byte>, rest: seq<byte>)
    requires |encKey| < 0x1_0000 && |nonce| < 0x100
    ensures ParseHeader(HeaderBytes(encKey, nonce) + rest)
            == Some(Header([VERSION], |encKey|, encKey, |nonce|, nonce, HeaderSize(|encKey|, |nonce|)))
  {
    var lb, nb := ToBigEndian2(|encKey|), ToBigEndian1(|nonce|);
    var q1 := MAGIC;
    var q2 := q1 + [VERSION];
    var q3 := q2 + lb;
    var q4 := q3 + encKey;
    var q5 := q4 + nb;
    var q6 := q5 + nonce;
    var file := q6 + rest;
    assert file == HeaderBytes(encKey, nonce) + rest;
    assert file[..|q6|] == q6;
    ReadNext(file, q5, nonce);
    ReadNext(file, q4, nb);
    ReadNext(file, q3, encKey);
    ReadNext(file, q2, lb);
    ReadNext(file, q1, [VERSION]);
    ReadNext(file, [], MAGIC);
  }

  /** Reading the piece that follows a known prefix returns that piece,
      and the shorter prefix is known too. */
  lemma ReadNext(file: seq<byte>, prefix: seq<byte>, piece: seq<byte>)
    requires |prefix| + |piece| <= |file| && file[..|prefix| + |piece|] == prefix + piece
    ensures ReadAt(file, |prefix|, |piece|) == piece
    ensures file[..|prefix|] == prefix
  {
    var whole := file[..|prefix| + |piece|];
    assert file[|prefix|..|prefix| + |piece|] == whole[|prefix|..];
    assert file[..|prefix|] == whole[..|prefix|];
  }

  /** The magic number is the header's only gate: parsing fails exactly
      when the first four bytes are not `HYBR` (or the file is shorter). */
  lemma MagicDecides(file: seq<byte>)
    ensures ParseHeader(file).None? <==> (|file| < 4 || file[..4] != MAGIC)
  {
  }

  /** The version byte is read and discarded: two files that differ at most
      in that byte parse to the same key text, nonce, lengths and end offset. */
  lemma VersionIgnored(a: seq<byte>, b: seq<byte>)
    requires |a| == |b| > 4 && a[..4] == b[..4] && a[5..] == b[5..]
    ensures ParseHeader(b).None? == ParseHeader(a).None?
    ensures ParseHeader(a).Some? ==> ParseHeader(b) == Some(ParseHeader(a).value.(version := [b[4]]))
  {
    assert ReadAt(a, 0, 4) == a[..4] && ReadAt(b, 0, 4) == b[..4];
    if ParseHeader(a).Some? {
      VersionIgnoredFields(a, b);
    }
  }

  /** `VersionIgnored` for a file whose magic matches, field by field. */
  lemma VersionIgnoredFields(a: seq<byte>, b: seq<byte>)
    requires |a| == |b| > 4 && a[5..] == b[5..]
    requires ReadAt(a, 0, 4) == MAGIC && ReadAt(b, 0, 4) == MAGIC
    ensures ParseHeader(a).Some?
    ensures ParseHeader(b) == Some(ParseHeader(a).value.(version := [b[4]]))
  {
    var lenBytes := ReadAt(a, 5, 2);
    var encKey := ReadAt(a, 5 + |lenBytes|, FromBigEndian(lenBytes));
    var nonceLenBytes := ReadAt(a, 5 + |lenBytes| + |encKey|, 1);
    var nonce := ReadAt(a, 5 + |lenBytes| + |encKey| + |nonceLenBytes|, FromBigEndian(nonceLenBytes));
    var h := Header([a[4]], FromBigEndian(lenBytes), encKey, FromBigEndian(nonceLenBytes), nonce,
                    5 + |lenBytes| + |encKey| + |nonceLenBytes| + |nonce|);
    ParseAfterVersion(a, a, lenBytes, encKey, nonceLenBytes, nonce);
    ParseAfterVersion(a, b, lenBytes, encKey, nonceLenBytes, nonce);
    assert h.(version := [b[4]]) == Header([b[4]], h.encKeyLen, h.encKey, h.nonceLen, h.nonce, h.end);
  }

  /** A file that agrees with `a` after the version byte parses to the
      fields read from `a`, with its own version byte. */
  lemma ParseAfterVersion(a: seq<byte>, b: seq<byte>, lenBytes: seq<byte>, encKey: seq<byte>,
                          nonceLenBytes: seq<byte>, nonce: seq<byte>)
    requires |a| == |b| > 4 && a[5..] == b[5..] && ReadAt(b, 0, 4) == MAGIC
    requires lenBytes == ReadAt(a, 5, 2)
    requires encKey == ReadAt(a, 5 + |lenBytes|, FromBigEndian(lenBytes))
    requires nonceLenBytes == ReadAt(a, 5 + |lenBytes| + |encKey|, 1)
    requires nonce == ReadAt(a, 5 + |lenBytes| + |encKey| + |nonceLenBytes|, FromBigEndian(nonceLenBytes))
    ensures ParseHeader(b) == Some(Header([b[4]], FromBigEndian(lenBytes), encKey, FromBigEndian(nonceLenBytes), nonce,
                                          5 + |lenBytes| + |encKey| + |nonceLenBytes| + |nonce|))
  {
    SameFieldReads(a, b, lenBytes, encKey, nonceLenBytes, nonce);
    ParseHeaderReads(b, [b[4]], lenBytes, encKey, nonceLenBytes, nonce);
  }

  /** The reads after the version byte return the same bytes from both files. */
  lemma SameFieldReads(a: seq<byte>, b: seq<byte>, lenBytes: seq<byte>, encKey: seq<byte>,
                       nonceLenBytes: seq<byte>, nonce: seq<byte>)
    requires |a| == |b| > 4 && a[5..] == b[5..]
    requires lenBytes == ReadAt(a, 5, 2)
    requires encKey == ReadAt(a, 5 + |lenBytes|, FromBigEndian(lenBytes))
    requires nonceLenBytes == ReadAt(a, 5 + |lenBytes| + |encKey|, 1)
    requires nonce == ReadAt(a, 5 + |lenBytes| + |encKey| + |nonceLenBytes|, FromBigEndian(nonceLenBytes))
    ensures ReadAt(b, 4, 1) == [b[4]]
    ensures lenBytes == ReadAt(b, 5, 2)
    ensures encKey == ReadAt(b, 5 + |lenBytes|, FromBigEndian(lenBytes))
    ensures nonceLenBytes == ReadAt(b, 5 + |lenBytes| + |encKey|, 1)
    ensures nonce == ReadAt(b, 5 + |lenBytes| + |encKey| + |nonceLenBytes|, FromBigEndian(nonceLenBytes))
  {
    ReadBeyondVersion(a, b, 5, 2);
    ReadBeyondVersion(a, b, 5 + |lenBytes|, FromBigEndian(lenBytes));
    ReadBeyondVersion(a, b, 5 + |lenBytes| + |encKey|, 1);
    ReadBeyondVersion(a, b, 5 + |lenBytes| + |encKey| + |nonceLenBytes|, FromBigEndian(nonceLenBytes));
  }

  /** Reads past the version byte do not see it. */
  lemma ReadBeyondVersion(a: seq<byte>, b: seq<byte>, from: nat, n: nat)
    requires |a| == |b| && 4 < from <= |a| && a[5..] == b[5..]
    ensures ReadAt(b, from, n) == ReadAt(a, from, n)
  {
    var hi := Min(from + n, |a|);
    forall i | from <= i < hi
      ensures a[i] == b[i]
    {
      assert a[i] == a[5..][i - 5] && b[i] == b[5..][i - 5];
    }
    assert a[from..hi] == b[from..hi];
  }

  /** The reads stop at the stated header size when the file is long enough
      for it, and at the end of the file otherwise; in the first case every
      field arrived in full. */
  lemma ParseEnd(file: seq<byte>)
    requires ParseHeader(file).Some?
    ensures var h := ParseHeader(file).value;
            h.end == Min(HeaderSize(h.encKeyLen, h.nonceLen), |file|)
            && (HeaderSize(h.encKeyLen, h.nonceLen) <= |file| ==>
                  |h.version| == 1 && |h.encKey| == h.encKeyLen && |h.nonce| == h.nonceLen)
  {
  }
}
