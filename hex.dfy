/** The text form of the AES key: `bytes.hex()` on the way in,
    `bytes.fromhex` on the way out, and the UTF-8 coding of the (ASCII) key
    text stored in the header. */
module Hex {
  import opened Base

  /** A character `bytes.hex()` can produce. */
  predicate IsLowerHex(c: char)
  {
    '0' <= c <= '9' || 'a' <= c <= 'f'
  }

  /** The lower-case digit `bytes.hex()` writes for a nibble. */
  function Digit(k: nat): (c: char)
    requires k < 16
    ensures IsLowerHex(c)
  {
    if k < 10 then ('0' as int + k) as char else ('a' as int + k - 10) as char
  }

  /** The value of a hexadecimal digit of either case, `None` for any other
      character. */
  function DigitValue(c: char): (v: Option<nat>)
    ensures v.Some? ==> v.value < 16
    ensures v.Some? <==> ('0' <= c <= '9' || 'a' <= c <= 'f' || 'A' <= c <= 'F')
  {
    if '0' <= c <= '9' then Some(c as int - '0' as int)
    else if 'a' <= c <= 'f' then Some(c as int - 'a' as int + 10)
    else if 'A' <= c <= 'F' then Some(c as int - 'A' as int + 10)
    else None
  }

  /** The ASCII whitespace `bytes.fromhex` skips between digit pairs:
      space, tab, line feed, vertical tab, form feed, carriage return. */
  predicate IsSpace(c: char)
  {
    c == ' ' || c == '\t' || c == '\n' || c == '\U{b}' || c == '\U{c}' || c == '\r'
  }

  /** `bytes.hex()`: two lower-case digits per byte, high nibble first. */
  function ToHex(bytes: seq<byte>): (s: seq<char>)
    ensures |s| == 2 * |bytes|
  {
    if |bytes| == 0 then []
    else
      var b := bytes[0] as int;
      [Digit(b / 16), Digit(b % 16)] + ToHex(bytes[1..])
  }

  /** `bytes.fromhex(s)`: whitespace is skipped before each pair, each pair
      is two digits of either case, and anything else (a lone digit, a
      filler character, a non-ASCII character) is an error. */
  function FromHex(s: seq<char>): Option<seq<byte>>
  {
    if |s| == 0 then Some([])
    else if IsSpace(s[0]) then FromHex(s[1..])
    else if |s| < 2 then None
    else
      match (DigitValue(s[0]), DigitValue(s[1]))
      case (Some(hi), Some(lo)) =>
        (match FromHex(s[2..])
         case Some(rest) => Some([hi * 16 + lo] + rest)
         case None => None)
      case _ => None
  }

  /** `fromhex` inverts `hex`. */
  lemma {:induction false} HexRoundTrip(bytes: seq<byte>)
    ensures FromHex(ToHex(bytes)) == Some(bytes)
  {
    if |bytes| > 0 {
      HexRoundTrip(bytes[1..]);
      HexStep(bytes);
    }
  }

  /** If the rest of the bytes read back, so do all of them. */
  lemma HexStep(bytes: seq<byte>)
    requires |bytes| > 0 && FromHex(ToHex(bytes[1..])) == Some(bytes[1..])
    ensures FromHex(ToHex(bytes)) == Some(bytes)
  {
    HexHead(bytes);
    FromHexPair(ToHex(bytes), bytes[0], bytes[1..]);
    ConsTail(bytes);
  }

  lemma ConsTail<T>(s: seq<T>)
    requires |s| > 0
    ensures [s[0]] + s[1..] == s
  {
  }

  /** `hex` writes the two digits of the first byte, then the rest. */
  lemma HexHead(bytes: seq<byte>)
    requires |bytes| > 0
    ensures var s := ToHex(bytes); var b := bytes[0] as int;
            s[2..] == ToHex(bytes[1..]) &&
            DigitValue(s[0]) == Some(b / 16) && DigitValue(s[1]) == Some(b % 16)
  {
    var b := bytes[0] as int;
    var s := ToHex(bytes);
    assert s == [Digit(b / 16), Digit(b % 16)] + ToHex(bytes[1..]);
    DigitOf(b / 16);
    DigitOf(b % 16);
  }

  /** One step of `fromhex` over a leading digit pair. */
  lemma FromHexPair(s: seq<char>, first: byte, rest: seq<byte>)
    requires |s| >= 2
    requires DigitValue(s[0]) == Some(first as int / 16) && DigitValue(s[1]) == Some(first as int % 16)
    requires FromHex(s[2..]) == Some(rest)
    ensures FromHex(s) == Some([first] + rest)
  {
    assert !IsSpace(s[0]);
    var b := first as int;
    assert b / 16 * 16 + b % 16 == b;
  }

  /** Each lower-case digit reads back as its own value. */
  lemma DigitOf(k: nat)
    requires k < 16
    ensures DigitValue(Digit(k)) == Some(k)
  {
  }

  /** `fromhex` accepts only whitespace and digits: a string holding any
      other character, the filler character among them, is rejected. */
  lemma {:induction false} FromHexRejectsStray(s: seq<char>, i: nat)
    requires i < |s| && !IsSpace(s[i]) && DigitValue(s[i]).None?
    ensures FromHex(s) == None
  {
    if IsSpace(s[0]) {
      FromHexRejectsStray(s[1..], i - 1);
    } else if |s| >= 2 && DigitValue(s[0]).Some? && DigitValue(s[1]).Some? {
      FromHexRejectsStray(s[2..], i - 2);
    }
  }

  /** Without whitespace, `fromhex` yields one byte per two characters. */
  lemma {:induction false} FromHexLength(s: seq<char>)
    requires forall i :: 0 <= i < |s| ==> !IsSpace(s[i])
    requires FromHex(s).Some?
    ensures |s| == 2 * |FromHex(s).value|
  {
    if |s| > 0 {
      FromHexLength(s[2..]);
    }
  }

  // ---------------------------------------------------------------------
  // UTF-8 of the key text

  predicate IsAscii(s: seq<char>)
  {
    forall i :: 0 <= i < |s| ==> s[i] as int < 128
  }

  /** `s.encode('utf-8')` for ASCII text: one byte per character. */
  function EncodeAscii(s: seq<char>): (b: seq<byte>)
    requires IsAscii(s)
    ensures |b| == |s|
    ensures forall i :: 0 <= i < |s| ==> b[i] as int == s[i] as int
  {
    seq(|s|, i requires 0 <= i < |s| => s[i] as int)
  }

  /** `b.decode('utf-8')`, one character per byte. */
  function DecodeBytes(b: seq<byte>): (s: seq<char>)
    ensures |s| == |b|
    ensures forall i :: 0 <= i < |b| ==> s[i] as int == b[i] as int
  {
    seq(|b|, i requires 0 <= i < |b| => (b[i] as int) as char)
  }

  /** Decoding the encoded key text gives it back. */
  lemma AsciiRoundTrip(s: seq<char>)
    requires IsAscii(s)
    ensures DecodeBytes(EncodeAscii(s)) == s
  {
  }

  /** Hex text is ASCII and free of the filler character. */
  lemma HexIsAscii(bytes: seq<byte>)
    ensures IsAscii(ToHex(bytes)) && NoNul(ToHex(bytes))
  {
    var s := ToHex(bytes);
    HexIsLowerHex(bytes);
    forall i | 0 <= i < |s| ensures s[i] as int < 128 && s[i] != NUL {
      assert IsLowerHex(s[i]);
    }
  }

  /** `hex` writes only lower-case digits. */
  lemma {:induction false} HexIsLowerHex(bytes: seq<byte>)
    ensures forall i :: 0 <= i < |ToHex(bytes)| ==> IsLowerHex(ToHex(bytes)[i])
  {
    if |bytes| > 0 {
      HexIsLowerHex(bytes[1..]);
      var b := bytes[0] as int;
      var s := ToHex(bytes);
      assert s == [Digit(b / 16), Digit(b % 16)] + ToHex(bytes[1..]);
      forall i | 0 <= i < |s| ensures IsLowerHex(s[i]) {
        if i >= 2 {
          assert s[i] == ToHex(bytes[1..])[i - 2];
        }
      }
    }
  }
}
