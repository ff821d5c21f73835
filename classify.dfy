/** Key classification of the cleaner: `isBinary` and the test the scan applies
    to each key, `isBinary(key) || !utf8.Valid(key)`. */
module Classify {
  import opened Utf8

  /** A byte `isBinary` lets through: printable ASCII (0x20 to 0x7E), or one of
      newline (0x0A), carriage return (0x0D) and tab (0x09). */
  predicate IsTextByte(b: Byte) {
    !(b < 32 || b > 126) || b == 0x0A || b == 0x0D || b == 0x09
  }

  /** `isBinary(data)`: some byte of `data` is not a text byte. */
  predicate IsBinary(data: seq<Byte>) {
    exists i :: 0 <= i < |data| && !IsTextByte(data[i])
  }

  /** The loop of `isBinary`, returning at the first byte that is not a text byte. */
  method ScanForBinary(data: seq<Byte>) returns (binary: bool)
    ensures binary <==> IsBinary(data)
    ensures !binary <==> forall i :: 0 <= i < |data| ==> IsTextByte(data[i])
  {
    for i := 0 to |data|
      invariant forall j :: 0 <= j < i ==> IsTextByte(data[j])
    {
      var b := data[i];
      if b < 32 || b > 126 {
        if b != 0x0A && b != 0x0D && b != 0x09 {
          return true;
        }
      }
    }
    return false;
  }

  /** The scan's test for a binary key: a byte outside the text bytes, or not
      valid UTF-8. */
  predicate IsBinaryKey(key: seq<Byte>) {
    IsBinary(key) || !Valid(key)
  }

  /** The UTF-8 half of the key test never decides anything: a key that passes
      `isBinary` is all ASCII, hence valid UTF-8. So a key is binary exactly when
      one of its bytes is not a text byte, and the empty key is not binary. */
  lemma Utf8CheckRedundant(key: seq<Byte>)
    ensures IsBinaryKey(key) <==> IsBinary(key)
    ensures !IsBinaryKey(key) <==> forall i :: 0 <= i < |key| ==> IsTextByte(key[i])
    ensures key == [] ==> !IsBinaryKey(key)
  {
    if !IsBinary(key) {
      assert forall i :: 0 <= i < |key| ==> key[i] < 0x80 by {
        forall i | 0 <= i < |key| ensures key[i] < 0x80 {
          assert IsTextByte(key[i]);
        }
      }
      AsciiIsValid(key);
    }
  }
}
