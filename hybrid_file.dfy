/** `encrypt_file_hybrid` and `decrypt_file_hybrid` over in-memory files.

    Each is a method that follows the source's reads, writes and loops, and
    is proved equal to a specification function (`EncryptedFile`,
    `DecryptedFile`) that states the whole result at once. The random AES
    key and nonce are parameters, AES-GCM is the abstract `Gcm`, and the
    size `os.path.getsize` reports is a parameter of decryption (it is a
    separate call from the reads, so it can disagree with the data). */
module HybridFile {
  import opened Base
  import opened Hex
  import opened Container
  import opened Streams
  import opened Aead
  import Myszkowski
  import MyszkowskiProps

  /** `CHUNK`: 64 KiB per read. */
  const CHUNK: nat := 64 * 1024

  /** The ways the two functions fail. */
  datatype FileError =
    | EmptyKeyword    // myszkowski_encrypt / myszkowski_decrypt refuse an empty keyword
    | MagicMismatch   // the first four bytes are not "HYBR"
    | BadKeyHex       // the recovered key text is not hex
    | CipherRejected  // AES.new refuses the key length or an empty nonce
    | TooShort        // ciphertext_size < 0
    | TruncatedTag    // fewer than 16 bytes left for the tag
    | TagMismatch     // cipher.verify fails

  /** Errors raised only after the output file was opened; these remove it. */
  predicate AfterOpen(e: FileError)
  {
    e == TruncatedTag || e == TagMismatch
  }

  /** The transposed key text is the hex of the key, rearranged: ASCII,
      two characters per key byte. */
  lemma KeyTextAscii(key: seq<byte>, keyword: seq<char>)
    requires |keyword| > 0
    ensures Myszkowski.Encrypted(ToHex(key), keyword).Ok?
    ensures IsAscii(Myszkowski.Encrypted(ToHex(key), keyword).value)
    ensures |Myszkowski.Encrypted(ToHex(key), keyword).value| == 2 * |key|
  {
    var hex := ToHex(key);
    HexIsAscii(key);
    MyszkowskiProps.EncryptedIsPermutation(hex, keyword);
    var t := Myszkowski.Encrypted(hex, keyword).value;
    forall i | 0 <= i < |t| ensures t[i] as int < 128 {
      assert t[i] in multiset(t);
      assert t[i] in multiset(hex);
      var j :| 0 <= j < |hex| && hex[j] == t[i];
    }
  }

  // ---------------------------------------------------------------------
  // Specification functions

  /** The bytes `encrypt_file_hybrid(in, out, keyword)` leaves in `out`
      for a given key and nonce: header, GCM ciphertext, tag. */
  function EncryptedFile(g: Gcm, plain: seq<byte>, keyword: seq<char>, key: seq<byte>, nonce: seq<byte>): Result<seq<byte>, FileError>
    requires |key| == 32 && |nonce| == 12
  {
    if |keyword| == 0 then Err(EmptyKeyword)
    else
      KeyTextAscii(key, keyword);
      var keyText := Myszkowski.Encrypted(ToHex(key), keyword).value;
      var body := XorStream(g, key, nonce, 0, plain);
      Ok(HeaderBytes(EncodeAscii(keyText), nonce) + body + g.mac(key, nonce, body))
  }

  /** The outcome of `decrypt_file_hybrid(in, out, keyword)` on a file with
      contents `file` whose size was reported as `total`: the plaintext
      left in `out`, or the error raised. */
  function DecryptedFile(g: Gcm, file: seq<byte>, total: nat, keyword: seq<char>): Result<seq<byte>, FileError>
  {
    match ParseHeader(file)
    case None => Err(MagicMismatch)
    case Some(h) =>
      match RecoveredKey(h.encKey, keyword)
      case Err(e) => Err(e)
      case Ok(key) => DecryptedPayload(g, file, total, h, key)
  }

  /** Key recovery: undo the transposition, then `bytes.fromhex`. */
  function RecoveredKey(encKey: seq<byte>, keyword: seq<char>): Result<seq<byte>, FileError>
  {
    match Myszkowski.Decrypted(DecodeBytes(encKey), keyword)
    case Err(_) => Err(EmptyKeyword)
    case Ok(keyHex) =>
      match FromHex(keyHex)
      case None => Err(BadKeyHex)
      case Some(key) => Ok(key)
  }

  /** Everything after the header: cipher set-up, the size check, the body
      and the tag. */
  function DecryptedPayload(g: Gcm, file: seq<byte>, total: nat, h: Header, key: seq<byte>): Result<seq<byte>, FileError>
    requires h.end <= |file|
  {
    if !CipherAccepts(key, h.nonce) then Err(CipherRejected)
    else
      var size := total - HeaderSize(h.encKeyLen, h.nonceLen) - TAG_LEN;
      if size < 0 then Err(TooShort)
      else
        var body := ReadAt(file, h.end, size);
        var tag := ReadAt(file, h.end + |body|, TAG_LEN);
        if |tag| != TAG_LEN then Err(TruncatedTag)
        else if tag != g.mac(key, h.nonce, body) then Err(TagMismatch)
        else Ok(XorStream(g, key, h.nonce, 0, body))
  }

  /** `DecryptedFile` once the header is parsed: key recovery, then the
      payload. */
  lemma DecryptedFileStages(g: Gcm, file: seq<byte>, total: nat, keyword: seq<char>, h: Header)
    requires ParseHeader(file) == Some(h)
    ensures h.end <= |file|
    ensures RecoveredKey(h.encKey, keyword).Err? ==>
              DecryptedFile(g, file, total, keyword) == Err(RecoveredKey(h.encKey, keyword).error)
    ensures RecoveredKey(h.encKey, keyword).Ok? ==>
              DecryptedFile(g, file, total, keyword) == DecryptedPayload(g, file, total, h, RecoveredKey(h.encKey, keyword).value)
  {
  }

  /** `EncryptedFile` piece by piece, for a non-empty keyword. */
  lemma EncryptedFileParts(g: Gcm, plain: seq<byte>, keyword: seq<char>, key: seq<byte>, nonce: seq<byte>)
    requires |key| == 32 && |nonce| == 12 && |keyword| > 0
    ensures Myszkowski.Encrypted(ToHex(key), keyword).Ok?
    ensures IsAscii(Myszkowski.Encrypted(ToHex(key), keyword).value)
    ensures |Myszkowski.Encrypted(ToHex(key), keyword).value| == 64
    ensures EncryptedFile(g, plain, keyword, key, nonce)
            == Ok(HeaderBytes(EncodeAscii(Myszkowski.Encrypted(ToHex(key), keyword).value), nonce)
                  + XorStream(g, key, nonce, 0, plain)
                  + g.mac(key, nonce, XorStream(g, key, nonce, 0, plain)))
  {
    KeyTextAscii(key, keyword);
  }

  // ---------------------------------------------------------------------
  // The two functions

  /** `encrypt_file_hybrid`, with `key` and `nonce` standing for
      `get_random_bytes(32)` and `get_random_bytes(12)`. */
  method EncryptFile(g: Gcm, input: seq<byte>, out: OutputFile, keyword: seq<char>, key: seq<byte>, nonce: seq<byte>)
    returns (r: Result<(), FileError>)
    requires |key| == 32 && |nonce| == 12 && out.Valid()
    modifies out
    ensures out.Valid()
    ensures EncryptedFile(g, input, keyword, key, nonce).Ok? ==>
              r.Ok? && out.present && out.content == EncryptedFile(g, input, keyword, key, nonce).value
    ensures EncryptedFile(g, input, keyword, key, nonce).Err? ==>
              r == Err(EncryptedFile(g, input, keyword, key, nonce).error)
              && out.present == old(out.present) && out.content == old(out.content)
  {
    var cipher := new GcmContext(g, key, nonce);
    var keyHex := ToHex(key);
    var keyCipherText := Myszkowski.Encrypt(keyHex, keyword);
    if keyCipherText.Err? {
      assert |keyword| == 0;
      return Err(EmptyKeyword);
    }
    KeyTextAscii(key, keyword);
    EncryptedFileParts(g, input, keyword, key, nonce);
    var keyCipherBytes := EncodeAscii(keyCipherText.value);
    assert keyCipherBytes == EncodeAscii(Myszkowski.Encrypted(ToHex(key), keyword).value);
    out.Open();
    WriteHeader(out, keyCipherBytes, nonce);
    ghost var header := out.content;
    assert header == HeaderBytes(keyCipherBytes, nonce);
    EncryptBody(cipher, input, out);
    ghost var body := cipher.processed;
    assert body == XorStream(g, key, nonce, 0, input);
    var tag := cipher.Digest();
    out.Write(tag);
    assert out.content == header + body + g.mac(key, nonce, body);
    assert out.content == EncryptedFile(g, input, keyword, key, nonce).value;
    r := Ok(());
  }

  /** The six header writes of `encrypt_file_hybrid`. */
  method WriteHeader(out: OutputFile, encKey: seq<byte>, nonce: seq<byte>)
    requires out.Valid() && out.present && |encKey| < 0x1_0000 && |nonce| < 0x100
    modifies out
    ensures out.Valid() && out.present
    ensures out.content == old(out.content) + HeaderBytes(encKey, nonce)
  {
    out.Write(MAGIC);
    out.Write([VERSION]);
    out.Write(ToBigEndian2(|encKey|));
    out.Write(encKey);
    out.Write(ToBigEndian1(|nonce|));
    out.Write(nonce);
  }

  /** The read-until-EOF loop: every chunk of the input is encrypted and
      written, so the body is the whole input under one keystream. */
  method EncryptBody(cipher: GcmContext, input: seq<byte>, out: OutputFile)
    requires cipher.processed == [] && out.Valid() && out.present
    modifies cipher, out
    ensures out.Valid() && out.present
    ensures cipher.processed == XorStream(cipher.g, cipher.key, cipher.nonce, 0, input)
    ensures out.content == old(out.content) + cipher.processed
  {
    var fin := new Reader(input);
    ghost var header := out.content;
    ghost var g, key, nonce := cipher.g, cipher.key, cipher.nonce;
    while true
      invariant fin.data == input && fin.Valid()
      invariant out.Valid() && out.present
      invariant cipher.processed == XorStream(g, key, nonce, 0, input[..fin.pos])
      invariant out.content == header + cipher.processed
      decreases |input| - fin.pos
    {
      ghost var mid := fin.pos;
      var chunk := fin.Read(CHUNK);
      if |chunk| == 0 {
        break;
      }
      EncryptStep(g, key, nonce, input, mid, fin.pos, chunk);
      var encrypted := cipher.Encrypt(chunk);
      assert cipher.processed == XorStream(g, key, nonce, 0, input[..fin.pos]);
      out.Write(encrypted);
      assert out.content == header + cipher.processed;
    }
    assert input[..fin.pos] == input;
  }

  lemma EncryptStep(g: Gcm, key: seq<byte>, nonce: seq<byte>, data: seq<byte>, mid: nat, end: nat, chunk: seq<byte>)
    requires mid <= end <= |data| && chunk == data[mid..end]
    ensures XorStream(g, key, nonce, 0, data[..mid]) + XorStream(g, key, nonce, mid, chunk)
            == XorStream(g, key, nonce, 0, data[..end])
  {
    assert data[..end] == data[..mid] + chunk;
    XorStreamSplit(g, key, nonce, 0, data[..mid], chunk);
  }

  /** The body loop of `decrypt_file_hybrid`: reads of at most `CHUNK`
      bytes until `size` bytes are read or the input runs out, each
      decrypted and written. */
  method DecryptBody(cipher: GcmContext, fin: Reader, size: nat, out: OutputFile) returns (ghost chunks: seq<nat>)
    requires fin.Valid() && out.Valid() && out.present
    modifies cipher, fin, out
    ensures fin.Valid() && out.Valid() && out.present
    ensures cipher.processed == old(cipher.processed) + ReadAt(fin.data, old(fin.pos), size)
    ensures fin.pos == old(fin.pos) + |ReadAt(fin.data, old(fin.pos), size)|
    ensures out.content == old(out.content) + XorStream(cipher.g, cipher.key, cipher.nonce, |old(cipher.processed)|, ReadAt(fin.data, old(fin.pos), size))
    ensures forall i :: 0 <= i < |chunks| ==> 0 < chunks[i] <= CHUNK
    ensures Myszkowski.Sum(chunks) == |ReadAt(fin.data, old(fin.pos), size)|
  {
    chunks := [];
    var bytesRead := 0;
    ghost var data, start, seen, written := fin.data, fin.pos, cipher.processed, out.content;
    ghost var g, key, nonce := cipher.g, cipher.key, cipher.nonce;
    while bytesRead < size
      invariant fin.Valid() && out.Valid() && out.present
      invariant fin.data == data && cipher.g == g && cipher.key == key && cipher.nonce == nonce
      invariant bytesRead <= size && fin.pos == start + bytesRead
      invariant cipher.processed == seen + data[start..fin.pos]
      invariant out.content == written + XorStream(g, key, nonce, |seen|, data[start..fin.pos])
      invariant forall i :: 0 <= i < |chunks| ==> 0 < chunks[i] <= CHUNK
      invariant Myszkowski.Sum(chunks) == bytesRead
      decreases size - bytesRead
    {
      ghost var mid := fin.pos;
      var readSize := Min(CHUNK, size - bytesRead);
      var chunk := fin.Read(readSize);
      if |chunk| == 0 {
        break;
      }
      BodyStep(g, key, nonce, seen, written, data, start, mid, fin.pos, chunk);
      var plain := cipher.Decrypt(chunk);
      assert cipher.processed == seen + data[start..fin.pos];
      out.Write(plain);
      assert out.content == written + XorStream(g, key, nonce, |seen|, data[start..fin.pos]);
      bytesRead := bytesRead + |chunk|;
      SumAppend(chunks, |chunk|);
      assert 0 < |chunk| <= CHUNK;
      chunks := chunks + [|chunk|];
    }
    BodyEnd(data, start, fin.pos, size);
  }

  /** The loop stops after `size` bytes or at the end of the file. */
  lemma BodyEnd(data: seq<byte>, start: nat, pos: nat, size: nat)
    requires start <= pos <= |data| && pos - start <= size
    requires pos - start == size || pos == |data|
    ensures ReadAt(data, start, size) == data[start..pos]
  {
  }

  /** One more chunk extends both the bytes decrypted and the bytes written. */
  lemma BodyStep(g: Gcm, key: seq<byte>, nonce: seq<byte>, seen: seq<byte>, written: seq<byte>,
                 data: seq<byte>, start: nat, mid: nat, end: nat, chunk: seq<byte>)
    requires start <= mid <= end <= |data| && chunk == data[mid..end]
    ensures (seen + data[start..mid]) + chunk == seen + data[start..end]
    ensures (written + XorStream(g, key, nonce, |seen|, data[start..mid]))
              + XorStream(g, key, nonce, |seen + data[start..mid]|, chunk)
            == written + XorStream(g, key, nonce, |seen|, data[start..end])
  {
    assert data[start..end] == data[start..mid] + chunk;
    XorStreamSplit(g, key, nonce, |seen|, data[start..mid], chunk);
  }

  lemma SumAppend(s: seq<nat>, x: nat)
    ensures Myszkowski.Sum(s + [x]) == Myszkowski.Sum(s) + x
  {
    assert (s + [x])[..|s|] == s;
  }

  /** The second half of `decrypt_file_hybrid`, from `AES.new` on, with
      the reader positioned after the header. */
  method DecryptPayload(g: Gcm, fin: Reader, total: nat, h: Header, key: seq<byte>, out: OutputFile)
    returns (r: Result<(), FileError>, ghost chunks: seq<nat>)
    requires fin.Valid() && fin.pos == h.end && out.Valid()
    modifies fin, out
    ensures out.Valid()
    ensures DecryptedPayload(g, fin.data, total, h, key).Ok? ==>
              r.Ok? && out.present && out.content == DecryptedPayload(g, fin.data, total, h, key).value
    ensures DecryptedPayload(g, fin.data, total, h, key).Err? ==>
              r == Err(DecryptedPayload(g, fin.data, total, h, key).error)
    ensures r.Err? && !AfterOpen(r.error) ==> out.present == old(out.present) && out.content == old(out.content)
    ensures r.Err? && AfterOpen(r.error) ==> !out.present
    ensures forall i :: 0 <= i < |chunks| ==> 0 < chunks[i] <= CHUNK
    ensures r.Ok? ==> Myszkowski.Sum(chunks) == |out.content|
  {
    chunks := [];
    if !CipherAccepts(key, h.nonce) {
      return Err(CipherRejected), chunks;
    }
    var cipher := new GcmContext(g, key, h.nonce);
    var headerSize := HeaderSize(h.encKeyLen, h.nonceLen);
    var ciphertextSize := total - headerSize - TAG_LEN;
    if ciphertextSize < 0 {
      return Err(TooShort), chunks;
    }
    out.Open();
    chunks := DecryptBody(cipher, fin, ciphertextSize, out);
    ghost var body := ReadAt(fin.data, h.end, ciphertextSize);
    assert cipher.processed == body && fin.pos == h.end + |body|;
    assert out.content == XorStream(g, key, h.nonce, 0, body);
    var tag := fin.Read(TAG_LEN);
    if |tag| != TAG_LEN {
      out.RemoveIfExists();
      return Err(TruncatedTag), chunks;
    }
    var ok := cipher.Verify(tag);
    if !ok {
      out.RemoveIfExists();
      return Err(TagMismatch), chunks;
    }
    r := Ok(());
  }

  /** `decrypt_file_hybrid`. `total` is what `os.path.getsize` reported;
      `chunks` records the size of every body read. */
  method DecryptFile(g: Gcm, input: seq<byte>, total: nat, out: OutputFile, keyword: seq<char>)
    returns (r: Result<(), FileError>, ghost chunks: seq<nat>)
    requires out.Valid()
    modifies out
    ensures out.Valid()
    ensures DecryptedFile(g, input, total, keyword).Ok? ==>
              r.Ok? && out.present && out.content == DecryptedFile(g, input, total, keyword).value
    ensures DecryptedFile(g, input, total, keyword).Err? ==>
              r == Err(DecryptedFile(g, input, total, keyword).error)
    ensures r.Err? && !AfterOpen(r.error) ==> out.present == old(out.present) && out.content == old(out.content)
    ensures r.Err? && AfterOpen(r.error) ==> !out.present
    ensures forall i :: 0 <= i < |chunks| ==> 0 < chunks[i] <= CHUNK
    ensures r.Ok? ==> Myszkowski.Sum(chunks) == |out.content|
  {
    chunks := [];
    var fin := new Reader(input);
    var magic := fin.Read(4);
    if magic != MAGIC {
      return Err(MagicMismatch), chunks;
    }
    var version, lenBytes, keyCipherBytes := ReadKeyField(fin);
    var aesKey := RecoverKey(keyCipherBytes, keyword);
    if aesKey.Err? {
      KeyStage(g, input, total, keyword, version, lenBytes, keyCipherBytes);
      return Err(aesKey.error), chunks;
    }
    var h := ReadNonceField(fin, version, lenBytes, keyCipherBytes);
    DecryptedFileStages(g, input, total, keyword, h);
    r, chunks := DecryptPayload(g, fin, total, h, aesKey.value, out);
  }

  /** A key that cannot be recovered decides the outcome, whatever the
      nonce field holds. */
  lemma KeyStage(g: Gcm, input: seq<byte>, total: nat, keyword: seq<char>,
                 version: seq<byte>, lenBytes: seq<byte>, keyCipherBytes: seq<byte>)
    requires ReadAt(input, 0, 4) == MAGIC
    requires version == ReadAt(input, 4, 1)
    requires lenBytes == ReadAt(input, 4 + |version|, 2)
    requires keyCipherBytes == ReadAt(input, 4 + |version| + |lenBytes|, FromBigEndian(lenBytes))
    ensures RecoveredKey(keyCipherBytes, keyword).Err? ==>
              DecryptedFile(g, input, total, keyword) == Err(RecoveredKey(keyCipherBytes, keyword).error)
  {
    var at := 4 + |version| + |lenBytes| + |keyCipherBytes|;
    var nl := ReadAt(input, at, 1);
    var n := ReadAt(input, at + |nl|, FromBigEndian(nl));
    ParseHeaderReads(input, version, lenBytes, keyCipherBytes, nl, n);
    DecryptedFileStages(g, input, total, keyword, ParseHeader(input).value);
  }

  /** The nonce-length and nonce reads of `decrypt_file_hybrid`, which
      complete the header. */
  method ReadNonceField(fin: Reader, version: seq<byte>, lenBytes: seq<byte>, keyCipherBytes: seq<byte>)
    returns (h: Header)
    requires fin.Valid() && ReadAt(fin.data, 0, 4) == MAGIC
    requires version == ReadAt(fin.data, 4, 1)
    requires lenBytes == ReadAt(fin.data, 4 + |version|, 2)
    requires keyCipherBytes == ReadAt(fin.data, 4 + |version| + |lenBytes|, FromBigEndian(lenBytes))
    requires fin.pos == 4 + |version| + |lenBytes| + |keyCipherBytes|
    modifies fin
    ensures fin.Valid() && fin.pos == h.end
    ensures ParseHeader(fin.data) == Some(h) && h.encKey == keyCipherBytes
  {
    var nonceLenBytes := fin.Read(1);
    var nonceLen := FromBigEndian(nonceLenBytes);
    var nonce := fin.Read(nonceLen);
    h := Header(version, FromBigEndian(lenBytes), keyCipherBytes, nonceLen, nonce, fin.pos);
    ParseHeaderReads(fin.data, version, lenBytes, keyCipherBytes, nonceLenBytes, nonce);
  }

  /** The version, key-length and key reads of `decrypt_file_hybrid`. */
  method ReadKeyField(fin: Reader) returns (version: seq<byte>, lenBytes: seq<byte>, keyCipherBytes: seq<byte>)
    requires fin.Valid() && fin.pos == 4
    modifies fin
    ensures fin.Valid()
    ensures version == ReadAt(fin.data, 4, 1)
    ensures lenBytes == ReadAt(fin.data, 4 + |version|, 2)
    ensures keyCipherBytes == ReadAt(fin.data, 4 + |version| + |lenBytes|, FromBigEndian(lenBytes))
    ensures fin.pos == 4 + |version| + |lenBytes| + |keyCipherBytes|
  {
    version := fin.Read(1);
    lenBytes := fin.Read(2);
    var encKeyLen := FromBigEndian(lenBytes);
    keyCipherBytes := fin.Read(encKeyLen);
  }

  /** Key recovery in `decrypt_file_hybrid`: decode the key text, undo
      the transposition, parse the hex. */
  method RecoverKey(keyCipherBytes: seq<byte>, keyword: seq<char>) returns (r: Result<seq<byte>, FileError>)
    ensures r == RecoveredKey(keyCipherBytes, keyword)
  {
    var keyCipherText := DecodeBytes(keyCipherBytes);
    var keyHex := Myszkowski.Decrypt(keyCipherText, keyword);
    if keyHex.Err? {
      return Err(EmptyKeyword);
    }
    var aesKey := FromHex(keyHex.value);
    if aesKey.None? {
      return Err(BadKeyHex);
    }
    r := Ok(aesKey.value);
  }
}
