/** What the hybrid file format promises end to end: a file written by
    `encrypt_file_hybrid` decrypts back to its plaintext (under the
    keyword condition that `myszkowski_decrypt` needs), the layout of the
    written file, and how `decrypt_file_hybrid` decides its errors. */
module HybridProps {
  import opened Base
  import opened Hex
  import opened Container
  import opened Streams
  import opened Aead
  import opened HybridFile
  import Myszkowski
  import KeywordOrder
  import GridArith
  import MyszkowskiProps
  import MyszkowskiRoundTrip

  /** The read order of a keyword's columns. */
  function KeywordOrderOf(keyword: seq<char>): seq<nat>
  {
    KeywordOrder.ReadOrder(KeywordOrder.Ranks(keyword))
  }

  // ---------------------------------------------------------------------
  // The written file

  /** A written file is the 84-byte header for a 64-character key text and
      a 12-byte nonce, the ciphertext (as long as the plaintext), and the
      16-byte tag of that ciphertext; only an empty keyword is refused. */
  lemma EncryptedFileLayout(g: Gcm, plain: seq<byte>, keyword: seq<char>, key: seq<byte>, nonce: seq<byte>)
    requires |key| == 32 && |nonce| == 12
    ensures EncryptedFile(g, plain, keyword, key, nonce).Err? <==> |keyword| == 0
    ensures EncryptedFile(g, plain, keyword, key, nonce).Err? ==>
              EncryptedFile(g, plain, keyword, key, nonce).error == EmptyKeyword
    ensures |keyword| > 0 ==>
              var f := EncryptedFile(g, plain, keyword, key, nonce).value;
              var body := XorStream(g, key, nonce, 0, plain);
              |f| == |plain| + HeaderSize(64, 12) + TAG_LEN
              && f[..4] == MAGIC && f[4] == VERSION
              && f[HeaderSize(64, 12)..HeaderSize(64, 12) + |plain|] == body
              && f[HeaderSize(64, 12) + |plain|..] == g.mac(key, nonce, body)
  {
    if |keyword| > 0 {
      EncryptedFileParts(g, plain, keyword, key, nonce);
      var t := Myszkowski.Encrypted(ToHex(key), keyword).value;
      var hb := HeaderBytes(EncodeAscii(t), nonce);
      var body := XorStream(g, key, nonce, 0, plain);
      var f := hb + body + g.mac(key, nonce, body);
      assert |hb| == HeaderSize(64, 12);
      assert f[..4] == hb[..4] && f[4] == hb[4];
      assert f[|hb|..|hb| + |body|] == body;
      assert f[|hb| + |body|..] == g.mac(key, nonce, body);
    }
  }

  // ---------------------------------------------------------------------
  // Round trip

  /** The key text in the header transposes back to the key when the
      columns that get the one extra character of the 64-character hex
      text are read first. */
  lemma KeyRecovered(key: seq<byte>, keyword: seq<char>)
    requires |key| == 32 && |keyword| > 0
    requires MyszkowskiRoundTrip.ExtrasLeftmost(KeywordOrderOf(keyword), 64 % |keyword|)
    ensures Myszkowski.Encrypted(ToHex(key), keyword).Ok?
    ensures IsAscii(Myszkowski.Encrypted(ToHex(key), keyword).value)
    ensures RecoveredKey(EncodeAscii(Myszkowski.Encrypted(ToHex(key), keyword).value), keyword) == Ok(key)
  {
    var hex := ToHex(key);
    KeyTextAscii(key, keyword);
    HexIsAscii(key);
    var t := Myszkowski.Encrypted(hex, keyword).value;
    AsciiRoundTrip(t);
    MyszkowskiRoundTrip.RoundTripIff(hex, keyword);
    HexRoundTrip(key);
  }

  /** With the grid-replay decryption in place of `myszkowski_decrypt`,
      the key comes back under every non-empty keyword. */
  lemma KeyRecoveredByGrid(key: seq<byte>, keyword: seq<char>)
    requires |key| == 32 && |keyword| > 0
    ensures Myszkowski.Encrypted(ToHex(key), keyword).Ok?
    ensures IsAscii(Myszkowski.Encrypted(ToHex(key), keyword).value)
    ensures var keyText := DecodeBytes(EncodeAscii(Myszkowski.Encrypted(ToHex(key), keyword).value));
            MyszkowskiRoundTrip.DecryptedByGrid(keyText, keyword).Ok?
            && FromHex(MyszkowskiRoundTrip.DecryptedByGrid(keyText, keyword).value) == Some(key)
  {
    var hex := ToHex(key);
    KeyTextAscii(key, keyword);
    HexIsAscii(key);
    AsciiRoundTrip(Myszkowski.Encrypted(hex, keyword).value);
    MyszkowskiRoundTrip.GridDecryptInverts(hex, keyword);
    HexRoundTrip(key);
  }

  /** `decrypt_file_hybrid` undoes `encrypt_file_hybrid`: reading back a
      written file, with its true size, under the same keyword gives the
      plaintext, whenever the key text survives the transposition. */
  lemma FileRoundTrip(g: Gcm, plain: seq<byte>, keyword: seq<char>, key: seq<byte>, nonce: seq<byte>)
    requires |key| == 32 && |nonce| == 12 && |keyword| > 0
    requires MyszkowskiRoundTrip.ExtrasLeftmost(KeywordOrderOf(keyword), 64 % |keyword|)
    ensures EncryptedFile(g, plain, keyword, key, nonce).Ok?
    ensures var f := EncryptedFile(g, plain, keyword, key, nonce).value;
            DecryptedFile(g, f, |f|, keyword) == Ok(plain)
  {
    EncryptedFileParts(g, plain, keyword, key, nonce);
    var t := Myszkowski.Encrypted(ToHex(key), keyword).value;
    var body := XorStream(g, key, nonce, 0, plain);
    KeyRecovered(key, keyword);
    WrittenFileDecrypts(g, EncodeAscii(t), nonce, body, keyword, key);
    XorStreamInvolution(g, key, nonce, 0, plain);
  }

  /** A file made of a header whose key text recovers `key`, a ciphertext
      and its tag decrypts to that ciphertext's decryption. */
  lemma WrittenFileDecrypts(g: Gcm, encKey: seq<byte>, nonce: seq<byte>, body: seq<byte>, keyword: seq<char>, key: seq<byte>)
    requires |encKey| == 64 && |nonce| == 12 && |key| == 32
    requires RecoveredKey(encKey, keyword) == Ok(key)
    ensures var f := HeaderBytes(encKey, nonce) + body + g.mac(key, nonce, body);
            DecryptedFile(g, f, |f|, keyword) == Ok(XorStream(g, key, nonce, 0, body))
  {
    var tag := g.mac(key, nonce, body);
    var f := HeaderBytes(encKey, nonce) + body + tag;
    assert f == HeaderBytes(encKey, nonce) + (body + tag);
    ParseWrittenHeader(encKey, nonce, body + tag);
    var h := Header([VERSION], 64, encKey, 12, nonce, HeaderSize(64, 12));
    DecryptedFileStages(g, f, |f|, keyword, h);
    PayloadOfWrittenFile(g, HeaderBytes(encKey, nonce), body, tag, h, key);
  }

  /** The payload stage on header, ciphertext and its tag returns the
      ciphertext decrypted. */
  lemma PayloadOfWrittenFile(g: Gcm, hb: seq<byte>, body: seq<byte>, tag: seq<byte>, h: Header, key: seq<byte>)
    requires |key| == 32 && |h.nonce| == 12
    requires |hb| == h.end == HeaderSize(h.encKeyLen, h.nonceLen)
    requires tag == g.mac(key, h.nonce, body)
    ensures DecryptedPayload(g, hb + body + tag, |hb + body + tag|, h, key)
            == Ok(XorStream(g, key, h.nonce, 0, body))
  {
    var f := hb + body + tag;
    assert ReadAt(f, h.end, |body|) == body;
    assert ReadAt(f, h.end + |body|, TAG_LEN) == tag;
  }

  /** Without the condition the key is lost: what `myszkowski_decrypt`
      returns either holds filler, which `bytes.fromhex` rejects, or has
      another length than 64, which no 32-byte key has as hex. */
  lemma KeyLostOtherwise(key: seq<byte>, keyword: seq<char>)
    requires |key| == 32 && |keyword| > 0
    requires !MyszkowskiRoundTrip.ExtrasLeftmost(KeywordOrderOf(keyword), 64 % |keyword|)
    ensures Myszkowski.Encrypted(ToHex(key), keyword).Ok?
    ensures IsAscii(Myszkowski.Encrypted(ToHex(key), keyword).value)
    ensures RecoveredKey(EncodeAscii(Myszkowski.Encrypted(ToHex(key), keyword).value), keyword) != Ok(key)
  {
    var hex := ToHex(key);
    KeyTextAscii(key, keyword);
    MyszkowskiProps.EncryptedHasNoNul(hex, keyword);
    var t := Myszkowski.Encrypted(hex, keyword).value;
    AsciiRoundTrip(t);
    var cols, order := |keyword|, KeywordOrderOf(keyword);
    var u := Myszkowski.RStrip(Myszkowski.Reassembled(t, order, Myszkowski.ChunkLens(64, cols), GridArith.RowCount(64, cols)));
    assert Myszkowski.Decrypted(t, keyword) == Ok(u);
    MyszkowskiRoundTrip.MisSplitShape(t, cols, order);
    StrippedKeyTextDigits(key, keyword);
    if j :| 0 <= j < |u| && u[j] == NUL {
      FromHexRejectsStray(u, j);
    } else if FromHex(u).Some? {
      FromHexLength(u);
    }
  }

  /** The text `myszkowski_decrypt` rebuilds from a transposed key holds
      only lower-case hex digits and filler. */
  lemma StrippedKeyTextDigits(key: seq<byte>, keyword: seq<char>)
    requires |key| == 32 && |keyword| > 0
    ensures Myszkowski.Encrypted(ToHex(key), keyword).Ok?
    ensures var t := Myszkowski.Encrypted(ToHex(key), keyword).value;
            var cols := |keyword|;
            var u := Myszkowski.RStrip(Myszkowski.Reassembled(t, KeywordOrderOf(keyword), Myszkowski.ChunkLens(|t|, cols), GridArith.RowCount(|t|, cols)));
            forall j :: 0 <= j < |u| ==> u[j] == NUL || IsLowerHex(u[j])
  {
    var hex := ToHex(key);
    HexIsAscii(key);
    MyszkowskiProps.EncryptedIsPermutation(hex, keyword);
    HexIsLowerHex(key);
    var t := Myszkowski.Encrypted(hex, keyword).value;
    forall k | 0 <= k < |t| ensures IsLowerHex(t[k]) {
      assert t[k] in multiset(hex);
      var i :| 0 <= i < |hex| && hex[i] == t[k];
    }
    StrippedDigits(t, KeywordOrderOf(keyword), |keyword|);
  }

  /** Rebuilding and stripping a text of hex digits leaves hex digits and
      filler only. */
  lemma StrippedDigits(ct: seq<char>, order: seq<nat>, cols: nat)
    requires cols > 0 && |ct| > 0 && KeywordOrder.IsColumnOrder(order, cols)
    requires forall k :: 0 <= k < |ct| ==> IsLowerHex(ct[k])
    ensures var u := Myszkowski.RStrip(Myszkowski.Reassembled(ct, order, Myszkowski.ChunkLens(|ct|, cols), GridArith.RowCount(|ct|, cols)));
            forall j :: 0 <= j < |u| ==> u[j] == NUL || IsLowerHex(u[j])
  {
    var lens := Myszkowski.ChunkLens(|ct|, cols);
    var rows := GridArith.RowCount(|ct|, cols);
    var s := Myszkowski.Reassembled(ct, order, lens, rows);
    var u := Myszkowski.RStrip(s);
    MyszkowskiProps.RStripLength(s);
    forall j | 0 <= j < |u| ensures u[j] == NUL || IsLowerHex(u[j]) {
      assert u[j] == s[j];
      MyszkowskiRoundTrip.ReassembledFromCiphertext(ct, order, lens, rows, j);
    }
  }

  /** Every keyword whose length divides 64 (1, 2, 4, ..., 64 characters)
      gives a file that decrypts back to its plaintext. */
  lemma FileRoundTripWhenDivisible(g: Gcm, plain: seq<byte>, keyword: seq<char>, key: seq<byte>, nonce: seq<byte>)
    requires |key| == 32 && |nonce| == 12 && |keyword| > 0 && 64 % |keyword| == 0
    ensures EncryptedFile(g, plain, keyword, key, nonce).Ok?
    ensures var f := EncryptedFile(g, plain, keyword, key, nonce).value;
            DecryptedFile(g, f, |f|, keyword) == Ok(plain)
  {
    FileRoundTrip(g, plain, keyword, key, nonce);
  }

  // ---------------------------------------------------------------------
  // Errors of decrypt_file_hybrid

  /** "Invalid file format" is raised exactly when the file does not start
      with the magic number; every later failure is reported differently. */
  lemma MagicMismatchIff(g: Gcm, file: seq<byte>, total: nat, keyword: seq<char>)
    ensures DecryptedFile(g, file, total, keyword) == Err(MagicMismatch)
            <==> (|file| < 4 || file[..4] != MAGIC)
  {
    MagicDecides(file);
  }

  /** With the true file size, a file that passes the size check always
      holds a full tag: the size check leaves room for it. */
  lemma NeverTruncatedTag(g: Gcm, file: seq<byte>, keyword: seq<char>)
    ensures DecryptedFile(g, file, |file|, keyword) != Err(TruncatedTag)
  {
    if ParseHeader(file).Some? {
      var h := ParseHeader(file).value;
      ParseEnd(file);
    }
  }

  /** A successful decryption returns as many bytes as the reported size
      leaves after the header's stated size and the tag. */
  lemma DecryptedLength(g: Gcm, file: seq<byte>, total: nat, keyword: seq<char>)
    requires ParseHeader(file).Some?
    ensures var h := ParseHeader(file).value;
            DecryptedFile(g, file, total, keyword).Ok? ==>
              |DecryptedFile(g, file, total, keyword).value| == total - HeaderSize(h.encKeyLen, h.nonceLen) - TAG_LEN
  {
    var h := ParseHeader(file).value;
    DecryptedFileStages(g, file, total, keyword, h);
  }

  /** The version byte is never checked: two files that differ only there
      decrypt to the same outcome. */
  lemma VersionIgnoredFile(g: Gcm, a: seq<byte>, b: seq<byte>, total: nat, keyword: seq<char>)
    requires |a| == |b| > 4 && a[..4] == b[..4] && a[5..] == b[5..]
    ensures DecryptedFile(g, a, total, keyword) == DecryptedFile(g, b, total, keyword)
  {
    VersionIgnored(a, b);
    if ParseHeader(a).Some? {
      var h := ParseHeader(a).value;
      var hb := ParseHeader(b).value;
      assert hb == h.(version := [b[4]]);
      ParseEnd(a);
      DecryptedFileStages(g, a, total, keyword, h);
      DecryptedFileStages(g, b, total, keyword, hb);
      if RecoveredKey(h.encKey, keyword).Ok? {
        PayloadBeyondVersion(g, a, b, total, h, hb, RecoveredKey(h.encKey, keyword).value);
      }
    }
  }

  /** The payload stage reads only past the version byte. */
  lemma PayloadBeyondVersion(g: Gcm, a: seq<byte>, b: seq<byte>, total: nat, h: Header, hb: Header, key: seq<byte>)
    requires 4 < h.end <= |a| == |b| && a[5..] == b[5..]
    requires hb == h.(version := hb.version)
    ensures DecryptedPayload(g, a, total, h, key) == DecryptedPayload(g, b, total, hb, key)
  {
    if CipherAccepts(key, h.nonce) {
      var size := total - HeaderSize(h.encKeyLen, h.nonceLen) - TAG_LEN;
      if size >= 0 {
        ReadBeyondVersion(a, b, h.end, size);
        var body := ReadAt(a, h.end, size);
        ReadBeyondVersion(a, b, h.end + |body|, TAG_LEN);
      }
    }
  }
}
