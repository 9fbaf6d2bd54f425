# Hybrid file cipher: Myszkowski-wrapped AES-GCM key, in Dafny

`crypto_hybrid.py` encrypts a file with AES-256-GCM under a fresh random key and
nonce. The key is written into the file's header after two steps: it becomes a
64-character hex string, and that string is scrambled with a Myszkowski
transposition under a user keyword. Decryption reads the header and undoes the
transposition with the keyword. It then decodes the hex back into the key and
decrypts the body in 64 KiB chunks. Last, it checks the 16-byte GCM tag. Every
error after the output file was opened removes that file.

This project models that core and proves properties of the model:

- `KeywordOrder`: `_keyword_order` (rank of each keyword character) and the
  column read order, the stable sort of column indices by `(rank, index)`.
- `Myszkowski`: `myszkowski_encrypt` and `myszkowski_decrypt` as imperative
  methods that mirror the source's loops. Each is proved equal to a
  specification function (`Encrypted`, `Decrypted`).
- `MyszkowskiProps`: encryption is a permutation of a filler-free text, and
  both functions refuse an empty keyword.
- `MyszkowskiRoundTrip`: when decryption undoes encryption, exactly, and the
  decryption that replays the grid (see Findings).
- `Hex`: `bytes.hex()`, `bytes.fromhex` (with CPython's whitespace skipping and
  either-case digits), and UTF-8 on the ASCII key text.
- `Container`: the header writer and the header reads of
  `decrypt_file_hybrid`, including short reads of a truncated file.
- `Aead`: AES-GCM as an abstract keystream and tag (`Gcm`), and the cipher
  object as a class that remembers the ciphertext it has processed.
- `Streams`: the input file as a reader with Python's short-read semantics, and
  the output file as a class with a `present` flag and its content.
- `HybridFile`: `encrypt_file_hybrid` and `decrypt_file_hybrid` as methods
  over those classes. Each is proved equal to a specification function
  (`EncryptedFile`, `DecryptedFile`).
- `HybridProps`: end-to-end properties of the file format:
  - the file round trip;
  - the written layout;
  - which errors decryption raises, and when.
- `GridArith` and `Base`: the integer facts, the byte type and XOR.

The random key and nonce of `encrypt_file_hybrid` are parameters. So is the
size `os.path.getsize` reports to `decrypt_file_hybrid`: it is a separate call
from the reads, so the model lets it disagree with the data. The properties
about real files take it equal to the file length.

Where the documentation and the code disagree, the model follows the code. The
docstring of `_keyword_order` (`crypto_hybrid.py:17`) gives `"BALLOON"` the
ranks `[2, 1, 3, 3, 4, 4, 5]`. The code sorts the distinct characters
`A, B, L, N, O`, so `N` has rank 4 and `O` has rank 5, and the result is
`[2, 1, 3, 3, 5, 5, 4]`. `KeywordOrder.BalloonRanks` proves both the code's
value and that it is not the docstring's.

## Model

| member | source | states |
|---|---|---|
| KeywordOrder.Distinct | crypto_hybrid.py:20 | `sorted(set(chars))`: strictly increasing, holding exactly the keyword's characters |
| KeywordOrder.IncreasingCard | crypto_hybrid.py:20 | a strictly increasing sequence has as many elements as the set of its characters (no duplicates survive `set`) |
| KeywordOrder.RanksFollowCharacters | crypto_hybrid.py:19-22 | for any two positions, the ranks compare exactly as the characters do: equal characters have equal ranks and `kw[i] < kw[j]` iff `rank[i] < rank[j]` (both directions) |
| KeywordOrder.RanksCoverDistinct | crypto_hybrid.py:21-22 | every rank lies in 1..(number of distinct characters) and every value in that range occurs |
| KeywordOrder.BalloonRanks | crypto_hybrid.py:17 | `"BALLOON"` ranks as `[2, 1, 3, 3, 5, 5, 4]`, not as the docstring's `[2, 1, 3, 3, 4, 4, 5]` |
| KeywordOrder.SortColumns | crypto_hybrid.py:42-43 | insertion of the first n column indices keeps them sorted by `(rank, index)` and holds exactly the indices below n |
| KeywordOrder.ReadOrder | crypto_hybrid.py:42-43 | `idxs_sorted` is a permutation of `0..cols-1` sorted by `(rank, index)`, so tied columns are read left to right |
| KeywordOrder.ReadOrderUnique | crypto_hybrid.py:62-64 | any permutation sorted by `(rank, index)` is the read order: decryption recomputes exactly encryption's order |
| KeywordOrder.SortedUnique | crypto_hybrid.py:43 | two sequences of distinct columns sorted by `(rank, index)` with the same members are equal |
| KeywordOrder.ReadOrderBA | crypto_hybrid.py:42-43 | keyword `"BA"` has ranks `[2, 1]` and reads column 1 before column 0 |
| Myszkowski.PaddedSliceIsRow | crypto_hybrid.py:37 | `plaintext[i:i+cols].ljust(cols, '\0')` at `i = k * cols` is row k of the grid: the text's cells, filler past its end |
| Myszkowski.BuildRows | crypto_hybrid.py:35-37 | the row loop builds `ceil(len / cols)` rows, row k being grid row k |
| Myszkowski.ReadColumns | crypto_hybrid.py:45-50 | the nested read loop emits each column's non-filler cells top to bottom, columns in read order |
| Myszkowski.Encrypt | crypto_hybrid.py:24-52 | the method returns exactly the specification `Encrypted`: `EmptyKeyword` for an empty keyword, else the columns read in order |
| Myszkowski.ColumnLengths | crypto_hybrid.py:67-75 | `col_lens_sorted`: `len // cols + 1` for the first `len % cols` read positions, `len // cols` for the rest |
| Myszkowski.ChunkStart | crypto_hybrid.py:79-83 | `ptr` before read position `pos` is `pos * (len // cols) + min(pos, len % cols)` |
| Myszkowski.ChunkInside | crypto_hybrid.py:80-83 | every chunk ends inside the ciphertext, none is longer than the row count, and the first is exactly as long |
| Myszkowski.SplitParts | crypto_hybrid.py:78-83 | `parts[c]` is the slice of the ciphertext at column c's read position |
| Myszkowski.LongestPart | crypto_hybrid.py:87 | `max_r` is `ceil(len / cols)` |
| Myszkowski.RebuildRow | crypto_hybrid.py:90-96 | a rebuilt row holds, per column, the part's r-th character or filler |
| Myszkowski.RebuildRows | crypto_hybrid.py:89-97 | the row loop builds the first `max_r` rows of the rebuilt grid |
| Myszkowski.Decrypt | crypto_hybrid.py:54-101 | the method returns exactly the specification `Decrypted`: `EmptyKeyword`, or the rebuilt grid joined row-major with trailing filler stripped |
| MyszkowskiProps.EncryptRefusesEmptyKeyword | crypto_hybrid.py:30-31 | encryption of any text under the empty keyword is the `EmptyKeyword` error |
| MyszkowskiProps.DecryptRefusesEmptyKeyword | crypto_hybrid.py:58-59 | decryption of any text under the empty keyword is the `EmptyKeyword` error |
| MyszkowskiProps.EncryptedIsPermutation | crypto_hybrid.py:35-52 | for a text without `'\0'`, the output is a permutation of the input (same multiset, same length) |
| MyszkowskiProps.GatherIsPermutation | crypto_hybrid.py:45-50 | reading every column once in any column order yields a permutation of a filler-free text |
| MyszkowskiProps.EncryptedHasNoNul | crypto_hybrid.py:49-50 | encryption never emits the filler character |
| MyszkowskiProps.ColumnTextOfText | crypto_hybrid.py:46-50 | column c of a filler-free text holds exactly the characters at `c, c + cols, ...` inside the text, as many as the column's true length |
| MyszkowskiProps.RStripPadding | crypto_hybrid.py:100 | `rstrip('\0')` of a filler-free text followed by filler gives the text back |
| MyszkowskiProps.RStripPrefix | crypto_hybrid.py:100 | `rstrip('\0')` returns a prefix and keeps every position up to the last non-filler character |
| MyszkowskiRoundTrip.ChunksTile | crypto_hybrid.py:67-83 | the remainder-rule chunk lengths sum to the ciphertext length and the chunks joined give the whole ciphertext (no gap, no overlap) |
| MyszkowskiRoundTrip.JoinParts | crypto_hybrid.py:79-83 | the first k chunks joined are the ciphertext's prefix up to `ptr` after k steps |
| MyszkowskiRoundTrip.PartIsColumn | crypto_hybrid.py:80-82 | cut at the grid's true column lengths, each part is exactly the column encryption wrote |
| MyszkowskiRoundTrip.ReassembleColumns | crypto_hybrid.py:86-100 | rebuilding from correctly sized parts gives the plaintext followed by the last row's padding |
| MyszkowskiRoundTrip.ReassembledFromCiphertext | crypto_hybrid.py:89-96 | every character of the rebuilt grid is a ciphertext character or filler |
| MyszkowskiRoundTrip.DecryptInverts | crypto_hybrid.py:54-101 | under the condition (the first `len % cols` read positions are columns `0..len % cols - 1`), decryption returns the filler-free plaintext |
| MyszkowskiRoundTrip.DecryptFailsOtherwise | crypto_hybrid.py:67-75 | without the condition, decryption of the encryption is never the plaintext |
| MyszkowskiRoundTrip.MisSplitShape | crypto_hybrid.py:67-100 | a mis-split leaves a stripped text of a different length than the ciphertext, or one with filler inside |
| MyszkowskiRoundTrip.MisSplitLosesText | crypto_hybrid.py:67-100 | a mis-split never rebuilds any filler-free text of the ciphertext's length |
| MyszkowskiRoundTrip.LastRowCell | crypto_hybrid.py:89-96 | the last row's cell in column `order[pos]` is a real character exactly when `pos < len % cols` |
| MyszkowskiRoundTrip.RoundTripIff | crypto_hybrid.py:36-37 | `decrypt(encrypt(p, k), k) == p` for filler-free p if and only if the condition holds (both directions) |
| MyszkowskiRoundTrip.RoundTripWhenDivisible | crypto_hybrid.py:67-75 | when the keyword length divides the text length, the round trip always holds |
| MyszkowskiRoundTrip.HexKeyRoundTrip | crypto_hybrid.py:115-116 | the 64-character key hex survives the round trip under keywords of length 1, 2, 4, 8, 16, 32 or 64 |
| MyszkowskiRoundTrip.StrategiesAgree | crypto_hybrid.py:70-75 | the remainder rule and the true column lengths coincide exactly under the condition, and there both decryptions agree |
| MyszkowskiRoundTrip.GridDecryptInverts | crypto_hybrid.py:36-37 | the grid-replay decryption inverts encryption for every non-empty keyword and filler-free text |
| MyszkowskiRoundTrip.BAabcEncrypts | crypto_hybrid.py:24-52 | under `"BA"`, `"abc"` encrypts to `"bac"` |
| MyszkowskiRoundTrip.BAbacRows | crypto_hybrid.py:86-97 | decrypting `"bac"` under `"BA"` rebuilds the rows `"cb"` and `"\0a"` |
| MyszkowskiRoundTrip.BAbacDecrypts | crypto_hybrid.py:54-101 | `"bac"` decrypts under `"BA"` to `"cb\0a"` |
| MyszkowskiRoundTrip.BAabcCounterexample | crypto_hybrid.py:67-75 | `decrypt(encrypt("abc", "BA"), "BA")` is `"cb\0a"`, not `"abc"` |
| Hex.Digit | crypto_hybrid.py:115 | each digit `bytes.hex()` writes is a lower-case hex digit |
| Hex.DigitValue | crypto_hybrid.py:161 | a character has a digit value below 16 exactly when it is a hex digit of either case |
| Hex.HexRoundTrip | crypto_hybrid.py:161 | `bytes.fromhex(b.hex()) == b` for every byte string |
| Hex.FromHexRejectsStray | crypto_hybrid.py:160-163 | `fromhex` rejects any string holding a character that is neither whitespace nor a hex digit (filler included) |
| Hex.FromHexLength | crypto_hybrid.py:161 | without whitespace, a successful `fromhex` yields one byte per two characters |
| Hex.HexIsAscii | crypto_hybrid.py:115-117 | the key hex is ASCII and free of filler |
| Hex.HexIsLowerHex | crypto_hybrid.py:115 | every character of `bytes.hex()` is a lower-case hex digit |
| Hex.EncodeAscii | crypto_hybrid.py:117 | UTF-8 of ASCII text is one byte per character, with the character's code |
| Hex.DecodeBytes | crypto_hybrid.py:156 | decoding yields one character per byte with the byte's code |
| Hex.AsciiRoundTrip | crypto_hybrid.py:117 | decoding the encoded ASCII key text gives it back |
| Container.ToBigEndian2 | crypto_hybrid.py:126 | `to_bytes(2, 'big')` gives two bytes that `int.from_bytes` reads back |
| Container.ToBigEndian1 | crypto_hybrid.py:128 | `to_bytes(1, 'big')` gives one byte that `int.from_bytes` reads back |
| Container.HeaderBytes | crypto_hybrid.py:124-129 | the written header starts with `HYBR` and version 1 and is `4+1+2+len(key)+1+len(nonce)` bytes long |
| Container.ParseWrittenHeader | crypto_hybrid.py:148-166 | parsing what the writer wrote, whatever follows, recovers version 1, the key text, the nonce and both lengths, and stops at `header_size` |
| Container.ParseHeaderReads | crypto_hybrid.py:148-166 | the header parse is the source's read sequence: magic, version, key length, key, nonce length, nonce |
| Container.MagicDecides | crypto_hybrid.py:148-150 | parsing fails exactly when the file is shorter than 4 bytes or does not start with `HYBR` |
| Container.VersionIgnored | crypto_hybrid.py:152 | two files differing only in the version byte parse to the same fields and end offset |
| Container.ParseEnd | crypto_hybrid.py:172 | the reads stop at `header_size` when the file is that long (and every field arrived in full), else at the end of the file |
| Streams.ReadAt | crypto_hybrid.py:183 | `f.read(n)` returns the next `min(n, remaining)` bytes of the file |
| Streams.ReadAtSplit | crypto_hybrid.py:181-189 | two reads in a row return what one read of the combined size returns |
| Streams.Reader.Read | crypto_hybrid.py:183 | a read returns the bytes at the position and advances it by their count |
| Streams.OutputFile.Open | crypto_hybrid.py:179 | `open(out_path, 'wb')` creates or truncates the file |
| Streams.OutputFile.Write | crypto_hybrid.py:188 | a write appends to the content |
| Streams.OutputFile.RemoveIfExists | crypto_hybrid.py:200-201 | the `os.path.exists`/`os.remove` pair leaves no file |
| Aead.XorStreamSplit | crypto_hybrid.py:132-136 | encrypting in chunks gives the same bytes as encrypting at once |
| Aead.XorStreamInvolution | crypto_hybrid.py:187 | decryption with the same key, nonce and offset undoes encryption |
| Aead.GcmContext.constructor | crypto_hybrid.py:112 | a new cipher keeps its key and nonce and has processed nothing |
| Aead.GcmContext.Encrypt | crypto_hybrid.py:136 | `cipher.encrypt` returns the chunk XOR-ed at the current offset and records the output |
| Aead.GcmContext.Decrypt | crypto_hybrid.py:187 | `cipher.decrypt` returns the chunk XOR-ed at the current offset and records the input |
| Aead.GcmContext.Digest | crypto_hybrid.py:139 | `cipher.digest` is the tag of all ciphertext processed |
| Aead.GcmContext.Verify | crypto_hybrid.py:196 | `cipher.verify` succeeds exactly when the tag is that of the ciphertext processed |
| HybridFile.KeyTextAscii | crypto_hybrid.py:115-118 | the transposed key text is ASCII and two characters per key byte, so `enc_key_len` is 64 |
| HybridFile.EncryptedFileParts | crypto_hybrid.py:124-139 | the written file is header, ciphertext of the whole input, then the tag of that ciphertext |
| HybridFile.WriteHeader | crypto_hybrid.py:124-129 | the six header writes append exactly `HeaderBytes` |
| HybridFile.EncryptBody | crypto_hybrid.py:132-136 | the read-until-empty loop appends the encryption of the whole input and leaves the cipher having processed it |
| HybridFile.EncryptStep | crypto_hybrid.py:133-136 | one more chunk extends the ciphertext of the prefix read so far |
| HybridFile.EncryptFile | crypto_hybrid.py:105-139 | the method's output file and result are exactly `EncryptedFile`; an empty keyword fails before the output is opened and leaves it untouched |
| HybridFile.DecryptBody | crypto_hybrid.py:180-189 | the loop reads at most `ciphertext_size` bytes in chunks of 1..`CHUNK` bytes, stopping early only at end of file, and writes their decryption |
| HybridFile.BodyEnd | crypto_hybrid.py:181-185 | when the loop stops, what it read is `f.read(ciphertext_size)` |
| HybridFile.BodyStep | crypto_hybrid.py:187-189 | one more chunk extends both the bytes read and the plaintext written |
| HybridFile.ReadKeyField | crypto_hybrid.py:152-155 | the version, key-length and key reads return the parse's fields |
| HybridFile.RecoverKey | crypto_hybrid.py:156-163 | key recovery is transposition undone, then `fromhex`, with `BadKeyHex` on invalid hex |
| HybridFile.KeyStage | crypto_hybrid.py:159-163 | a key-recovery error is the whole decryption's error |
| HybridFile.ReadNonceField | crypto_hybrid.py:165-166 | the nonce reads complete the parse and leave the reader at its end |
| HybridFile.DecryptedFileStages | crypto_hybrid.py:159-176 | after a successful parse, decryption is key recovery, then the payload stage |
| HybridFile.DecryptPayload | crypto_hybrid.py:169-206 | cipher set-up, size check, body loop and tag check give exactly `DecryptedPayload`; errors before opening leave the output untouched, errors after it remove it |
| HybridFile.DecryptFile | crypto_hybrid.py:141-206 | the method's output file and result are exactly `DecryptedFile`, with the same cleanup rule and chunks of at most `CHUNK` bytes summing to the output length |
| HybridProps.EncryptedFileLayout | crypto_hybrid.py:124-139 | encryption fails only (and always) for an empty keyword; the file is `len(plain) + 100` bytes: `HYBR`, version 1, the 84-byte header, then the ciphertext and its 16-byte tag |
| HybridProps.KeyRecovered | crypto_hybrid.py:156-163 | under the condition for 64 characters, the header's key text decodes back to the key |
| HybridProps.KeyLostOtherwise | crypto_hybrid.py:159-163 | without the condition, key recovery never returns the key |
| HybridProps.StrippedKeyTextDigits | crypto_hybrid.py:159 | what decryption rebuilds from a transposed key holds only lower-case hex digits and filler |
| HybridProps.KeyRecoveredByGrid | crypto_hybrid.py:159-161 | with the grid-replay decryption, the key comes back under every non-empty keyword |
| HybridProps.FileRoundTrip | crypto_hybrid.py:141-206 | a written file, with its true size and the same keyword, decrypts to the plaintext whenever the condition holds for 64 characters |
| HybridProps.PayloadOfWrittenFile | crypto_hybrid.py:172-196 | the payload stage on header, ciphertext and its tag returns the decrypted ciphertext |
| HybridProps.FileRoundTripWhenDivisible | crypto_hybrid.py:105-206 | every keyword whose length divides 64 gives a file that decrypts to its plaintext |
| HybridProps.MagicMismatchIff | crypto_hybrid.py:148-150 | decryption reports the magic mismatch if and only if the file does not start with `HYBR` |
| HybridProps.NeverTruncatedTag | crypto_hybrid.py:192-194 | with the true file size, the short-tag error never occurs: the size check leaves room for the tag |
| HybridProps.DecryptedLength | crypto_hybrid.py:172-189 | a successful decryption returns `total - header_size - 16` bytes |
| HybridProps.VersionIgnoredFile | crypto_hybrid.py:152 | two files differing only in the version byte decrypt to the same outcome |
| HybridProps.PayloadBeyondVersion | crypto_hybrid.py:178-196 | the payload stage has the same outcome on two files that agree after the version byte |

## Left out

- AES-GCM itself: the keystream and the tag are the abstract functions of `Gcm`, so a tag check with a wrong key may pass or fail. The model therefore says nothing about decrypting with a wrong keyword: it cannot tell whether the tag check catches it. What it does show (`HybridProps.KeyLostOtherwise`) is that even the right keyword loses the key when the split condition fails for the 64-character key text.
- `get_random_bytes`: the key and nonce are parameters.
- The filesystem: files are byte sequences in memory, and `os.path.getsize` is the `total` parameter. `os.path.exists` and `os.remove` are the `present` flag. Failures to open or read a file are not modelled. The input and the output are assumed to be distinct files: when `in_path` and `out_path` name the same file, `open(out_path, 'wb')` (`crypto_hybrid.py:122`, `179`) truncates the input before its body is read, and the model, whose reader holds its own immutable data, does not capture that aliasing.
- Error messages: each `raise` is a `FileError` constructor; the text, and the re-wrapping at `crypto_hybrid.py:202`, are not modelled.
- The `except Exception` branch (`crypto_hybrid.py:203-206`): inside the `try`, the model has no error other than the two `ValueError`s.
- UTF-8 decoding of the key text maps each byte to one character and never fails. The source raises `UnicodeDecodeError` on invalid UTF-8. In the model such bytes become non-hex characters that `fromhex` rejects, so only the kind of error differs.
- `HybridFile.WriteHeader`: requires lengths that fit the 2- and 1-byte fields, where `to_bytes` would raise `OverflowError`; the writer always has 64 and 12.
- Bytes are integers 0..255. `Base.Xor`, written out bit by bit, is how the abstract GCM keystream is applied to a byte inside `cipher.encrypt` and `cipher.decrypt` (`crypto_hybrid.py:136`, `187`); that combination is part of the `Gcm` abstraction, not code of the source.
- The ghost `chunks` of `HybridFile.DecryptBody` records the chunk sizes for the contract. The source keeps no such list.
- The unused `total` of `encrypt_file_hybrid` (`crypto_hybrid.py:121`) and the unused `hashlib` import.
- `streamlit_app.py` and `cli.py`: user interface and argument parsing only. They are not part of this model.

## Findings

| source | as written | input that shows it | evidently intended | confidence | as-written member | corrected member |
|---|---|---|---|---|---|---|
| crypto_hybrid.py:67-75 | the one extra character of a short last row is credited to the first `len % cols` columns in read order | keyword `"BA"`, text `"abc"`: encrypts to `"bac"`, which decrypts to `"cb\0a"` | the extra characters belong to the original columns `0..len % cols - 1`, as encryption's grid has them, so decryption inverts encryption | not executed | MyszkowskiRoundTrip.BAabcCounterexample | MyszkowskiRoundTrip.GridDecryptInverts |
| crypto_hybrid.py:17 | the docstring of `_keyword_order` gives `"BALLOON"` the ranks `[2, 1, 3, 3, 4, 4, 5]` | keyword `"BALLOON"`: the code returns `[2, 1, 3, 3, 5, 5, 4]` | the ranks follow the alphabet, as the docstring's own `A=1, B=2, L=3, N=4, O=5` and the code have it; only the example list is wrong | not executed | KeywordOrder.BalloonRanks | KeywordOrder.RanksFollowCharacters |

The as-written decryption is what the file functions use, since it is what the
program does. `MyszkowskiRoundTrip.RoundTripIff` characterises exactly when it
still works. For the 64-character key text, the condition reduces to:
`HybridProps.FileRoundTrip` holds, and `HybridProps.KeyLostOtherwise` shows the
key is lost otherwise. The corrected decryption `MyszkowskiRoundTrip.DecryptedByGrid`
replays encryption's column lengths. `MyszkowskiRoundTrip.GridDecryptInverts`
and `HybridProps.KeyRecoveredByGrid` prove that it recovers the text, and so
the key, under every non-empty keyword.

The second row is a documentation error, not a code error. The example in the
docstring of `_keyword_order` disagrees with that docstring's own alphabetical
rule (`A=1, B=2, L=3, N=4, O=5`) and with the code. `KeywordOrder.BalloonRanks`
proves the value the code computes. `KeywordOrder.RanksFollowCharacters` proves
the rule the docstring states: ranks compare exactly as the characters do.
