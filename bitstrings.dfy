/** The test helpers of tests/viterbi-utils.h that convert between bit
    vectors and their text form, a string of '0' and '1' characters with
    the first bit first. */
module BitStrings {

  /** Every character is '0' or '1'. */
  predicate IsBinary(text: string)
  {
    forall i :: 0 <= i < |text| ==> text[i] == '0' || text[i] == '1'
  }

  /** The bits a binary text stands for: '1' is set, anything else clear. */
  function ToBits(text: string): (bits: seq<bool>)
    ensures |bits| == |text|
    ensures forall i :: 0 <= i < |text| ==> (bits[i] <==> text[i] == '1')
  {
    seq(|text|, i requires 0 <= i < |text| => text[i] == '1')
  }

  /** The text form of `bits`: one character per bit. */
  function ToText(bits: seq<bool>): (text: string)
    ensures |text| == |bits| && IsBinary(text)
  {
    seq(|bits|, i requires 0 <= i < |bits| => if bits[i] then '1' else '0')
  }

  /** `string_to_bits`: a vector of the text's length, filled position by
      position. The source asserts that every character is a digit. */
  method StringToBits(text: string) returns (bits: seq<bool>)
    requires IsBinary(text)
    ensures bits == ToBits(text)
    ensures ToText(bits) == text
  {
    var buffer := new bool[|text|];
    for i := 0 to |text|
      invariant forall j :: 0 <= j < i ==> buffer[j] == (text[j] == '1')
    {
      buffer[i] := text[i] == '1';
    }
    bits := buffer[..];
    TextRoundTrip(text);
  }

  /** `bits_to_string`: start from the empty string and append one
      character per bit. */
  method BitsToString(bits: seq<bool>) returns (text: string)
    ensures text == ToText(bits)
    ensures IsBinary(text) && ToBits(text) == bits
  {
    text := "";
    for i := 0 to |bits|
      invariant text == ToText(bits[..i])
    {
      text := text + [if bits[i] then '1' else '0'];
    }
    assert bits[..|bits|] == bits;
    BitsRoundTrip(bits);
  }

  /** The `_b` literal suffix used by the tests: `"0110"_b` is
      `string_to_bits("0110")`. */
  method BitsLiteral(text: string) returns (bits: seq<bool>)
    requires IsBinary(text)
    ensures bits == ToBits(text)
    ensures |bits| == |text| && forall i :: 0 <= i < |text| ==> (bits[i] <==> text[i] == '1')
  {
    bits := StringToBits(text);
  }

  /** A binary text survives the trip through bits and back. */
  lemma TextRoundTrip(text: string)
    requires IsBinary(text)
    ensures ToText(ToBits(text)) == text
  {
    var back := ToText(ToBits(text));
    forall i | 0 <= i < |text|
      ensures back[i] == text[i]
    {
      assert text[i] == '0' || text[i] == '1';
    }
  }

  /** Bits survive the trip through text and back. */
  lemma BitsRoundTrip(bits: seq<bool>)
    ensures ToBits(ToText(bits)) == bits
  {
  }
}
