/** The lowercase hexadecimal codec carried by every grant token. */
module Hex {
  import opened Common

  /** Index of a hexadecimal digit in the source's alphabet `0123456789abcdef`. */
  function EncodeDigit(nibble: byte): byte
    requires nibble < 16
  {
    if nibble < 10 then '0' as int + nibble else 'a' as int + (nibble - 10)
  }

  function DecodeDigit(digit: byte): (nibble: Option<byte>)
    ensures nibble.Some? ==> nibble.value < 16
  {
    if '0' as int <= digit <= '9' as int then Some(digit - '0' as int)
    else if 'a' as int <= digit <= 'f' as int then Some(digit - 'a' as int + 10)
    else None
  }

  /** The text of a byte string: two digits a byte, high nibble first. */
  function Encode(bytes: Bytes): (text: Bytes)
    ensures |text| == 2 * |bytes|
  {
    if bytes == [] then []
    else [EncodeDigit(bytes[0] / 16), EncodeDigit(bytes[0] % 16)] + Encode(bytes[1..])
  }

  /** The byte string a text denotes, or nothing when some digit is not lowercase hexadecimal. */
  function Decode(text: Bytes): (bytes: Option<Bytes>)
    requires |text| % 2 == 0
    ensures bytes.Some? ==> 2 * |bytes.value| == |text|
  {
    if text == [] then Some([])
    else Prepend(DecodeDigit(text[0]), DecodeDigit(text[1]), Decode(text[2..]))
  }

  function Prepend(high: Option<byte>, low: Option<byte>, rest: Option<Bytes>): (bytes: Option<Bytes>)
    requires high.Some? ==> high.value < 16
    requires low.Some? ==> low.value < 16
    ensures bytes.Some? ==> rest.Some? && |bytes.value| == 1 + |rest.value|
  {
    if high.None? || low.None? || rest.None? then None
    else Some([high.value * 16 + low.value] + rest.value)
  }

  /** `decode_hex_array::<N>`: exactly `count` bytes or nothing. */
  function DecodeArray(text: Bytes, count: nat): (bytes: Option<Bytes>)
    ensures bytes.Some? ==> |bytes.value| == count
  {
    if |text| != 2 * count || !IsAscii(text) then None else Decode(text)
  }

  predicate IsHexText(text: Bytes) {
    forall i :: 0 <= i < |text| ==> DecodeDigit(text[i]).Some?
  }

  const DIGITS := "0123456789abcdef"

  /** Two digits of the source's alphabet a byte, the high half first. */
  lemma {:induction false} EncodeAt(bytes: Bytes, i: nat)
    requires i < |bytes|
    ensures Encode(bytes)[2 * i] == DIGITS[bytes[i] / 16] as int
    ensures Encode(bytes)[2 * i + 1] == DIGITS[bytes[i] % 16] as int
  {
    if i == 0 {
      DigitAt(bytes[0] / 16);
      DigitAt(bytes[0] % 16);
    } else {
      EncodeAt(bytes[1..], i - 1);
    }
  }

  lemma DigitAt(nibble: byte)
    requires nibble < 16
    ensures EncodeDigit(nibble) == DIGITS[nibble] as int
  {
    assert DIGITS[0..10] == "0123456789" && DIGITS[10..16] == "abcdef";
    if nibble < 8 {
      assert nibble == 0 || nibble == 1 || nibble == 2 || nibble == 3
             || nibble == 4 || nibble == 5 || nibble == 6 || nibble == 7;
    } else {
      assert nibble == 8 || nibble == 9 || nibble == 10 || nibble == 11
             || nibble == 12 || nibble == 13 || nibble == 14 || nibble == 15;
    }
  }

  lemma {:induction false} EncodeThenDecode(bytes: Bytes)
    ensures IsHexText(Encode(bytes))
    ensures Decode(Encode(bytes)) == Some(bytes)
  {
    if bytes != [] {
      EncodeThenDecode(bytes[1..]);
      assert Encode(bytes)[2..] == Encode(bytes[1..]);
      assert DecodeDigit(Encode(bytes)[0]) == Some(bytes[0] / 16);
      assert DecodeDigit(Encode(bytes)[1]) == Some(bytes[0] % 16);
      assert [bytes[0]] + bytes[1..] == bytes;
      forall i | 0 <= i < |Encode(bytes)| ensures DecodeDigit(Encode(bytes)[i]).Some? {
        if i >= 2 { assert Encode(bytes)[i] == Encode(bytes[1..])[i - 2]; }
      }
    }
  }

  lemma {:induction false} DecodeThenEncode(text: Bytes)
    requires |text| % 2 == 0 && Decode(text).Some?
    ensures Encode(Decode(text).value) == text
  {
    if text != [] {
      DecodeThenEncode(text[2..]);
      var bytes := Decode(text).value;
      assert bytes[1..] == Decode(text[2..]).value;
      assert text == [text[0], text[1]] + text[2..];
    }
  }

  /** Decoding accepts exactly the image of encoding: one spelling for each byte string. */
  lemma DecodeArrayIsExact(text: Bytes, count: nat, bytes: Bytes)
    ensures DecodeArray(text, count) == Some(bytes) <==> |bytes| == count && text == Encode(bytes)
  {
    EncodeThenDecode(bytes);
    if |text| == 2 * count && Decode(text).Some? {
      DecodeThenEncode(text);
    }
  }

  /** `encode_hex`: pushes two digits for each byte. */
  method EncodeLoop(bytes: Bytes) returns (output: Bytes)
    ensures output == Encode(bytes)
  {
    output := [];
    for i := 0 to |bytes|
      invariant output + Encode(bytes[i..]) == Encode(bytes)
    {
      output := output + [EncodeDigit(bytes[i] / 16)];
      output := output + [EncodeDigit(bytes[i] % 16)];
      assert bytes[i..][1..] == bytes[i + 1..];
    }
  }

  function After(prefix: Bytes, rest: Option<Bytes>): Option<Bytes> {
    match rest
    case Some(bytes) => Some(prefix + bytes)
    case None => None
  }

  lemma AfterPrepend(prefix: Bytes, high: byte, low: byte, rest: Option<Bytes>)
    requires high < 16 && low < 16
    ensures After(prefix, Prepend(Some(high), Some(low), rest)) == After(prefix + [high * 16 + low], rest)
  {
    if rest.Some? {
      assert prefix + ([high * 16 + low] + rest.value) == (prefix + [high * 16 + low]) + rest.value;
    }
  }

  lemma DecodeStep(prefix: Bytes, text: Bytes)
    requires |text| % 2 == 0 && text != []
    ensures DecodeDigit(text[0]).None? || DecodeDigit(text[1]).None? ==> Decode(text).None?
    ensures DecodeDigit(text[0]).Some? && DecodeDigit(text[1]).Some? ==>
      var value := DecodeDigit(text[0]).value * 16 + DecodeDigit(text[1]).value;
      After(prefix, Decode(text)) == After(prefix + [value], Decode(text[2..]))
  {
    var high, low, rest := DecodeDigit(text[0]), DecodeDigit(text[1]), Decode(text[2..]);
    assert Decode(text) == Prepend(high, low, rest);
    assert high.None? || low.None? ==> Prepend(high, low, rest).None?;
    hide Decode, DecodeDigit, Prepend, After;
    if high.Some? && low.Some? {
      AfterPrepend(prefix, high.value, low.value, rest);
    }
  }

  /** `decode_hex_array`: fills a fixed buffer pair by pair and stops at the first bad digit. */
  method DecodeArrayLoop(input: Bytes, count: nat) returns (decoded: Option<Bytes>)
    ensures decoded == DecodeArray(input, count)
  {
    hide Decode;
    if |input| != 2 * count || !IsAscii(input) {
      return None;
    }
    var output := new byte[count](_ => 0);
    assert input[0..] == input;
    assert Decode(input).Some? ==> output[..0] + Decode(input).value == Decode(input).value;
    for i := 0 to count
      invariant Decode(input) == After(output[..i], Decode(input[2 * i..]))
    {
      DecodeStep(output[..i], input[2 * i..]);
      assert input[2 * i..][2..] == input[2 * (i + 1)..];
      var high, low := DecodeDigit(input[2 * i]), DecodeDigit(input[2 * i + 1]);
      if high.None? || low.None? {
        return None;
      }
      ghost var before := output[..i];
      output[i] := high.value * 16 + low.value;
      assert output[..i + 1] == before + [output[i]];
    }
    DecodeEmpty(input[2 * count..]);
    assert output[..count] + [] == output[..];
    return Some(output[..]);
  }

  lemma DecodeEmpty(text: Bytes)
    requires text == []
    ensures Decode(text) == Some([])
  {
  }
}
