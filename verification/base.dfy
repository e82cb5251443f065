/** Vocabulary shared by every part of the model: optional values, the fixed
    integer widths of the C source, C's truncating division, and the
    correspondence between the gateway's bytes and the characters of its text. */
module Base {

  /** A value that may be absent: a C pointer that may be NULL. */
  datatype Option<+T> = None | Some(value: T)

  /** Where the model keeps a defect of the C source next to its repair:
      the code as written, or as evidently intended. */
  datatype Variant = AsWritten | Intended

  const TWO_16: int := 0x1_0000
  const TWO_32: int := 0x1_0000_0000
  const TWO_64: int := 0x1_0000_0000_0000_0000

  /** `unsigned int` / `ip_t` and `unsigned short` values. */
  type u32 = x: int | 0 <= x < 0x1_0000_0000
  type u16 = x: int | 0 <= x < 0x1_0000

  /** An octet of a buffer. */
  type byte = x: int | 0 <= x < 256

  /** The quotient of C's `/` on a signed operand and a positive divisor:
      truncated toward zero, unlike Dafny's Euclidean `/`. */
  function CDiv(a: int, b: int): (q: int)
    requires b > 0
    ensures a >= 0 ==> q * b <= a < q * b + b
    ensures a < 0 ==> q * b - b < a <= q * b
  {
    if a >= 0 then a / b else -((-a) / b)
  }

  /** The characters of a C string: everything before its terminating NUL. */
  predicate NoNul(s: seq<char>) {
    forall i :: 0 <= i < |s| ==> s[i] != '\0'
  }

  lemma NoNulConcat(a: seq<char>, b: seq<char>)
    requires NoNul(a) && NoNul(b)
    ensures NoNul(a + b)
  {
  }

  /** A string whose every character stands for one byte of the C source. */
  predicate IsByteText(s: seq<char>) {
    forall i :: 0 <= i < |s| ==> s[i] as int < 256
  }

  function CharOfByte(b: byte): (c: char)
    ensures c as int == b
  {
    b as char
  }

  function ByteOfChar(c: char): (b: byte)
    requires c as int < 256
    ensures b == c as int
  {
    c as int
  }

  /** The bytes of a C string, read as text. */
  function TextOfBytes(b: seq<byte>): (s: seq<char>)
    ensures |s| == |b|
    ensures forall i :: 0 <= i < |b| ==> s[i] as int == b[i]
  {
    if |b| == 0 then [] else [CharOfByte(b[0])] + TextOfBytes(b[1..])
  }

  /** The text written out as bytes. */
  function BytesOfText(s: seq<char>): (b: seq<byte>)
    requires IsByteText(s)
    ensures |b| == |s|
    ensures forall i :: 0 <= i < |s| ==> b[i] == s[i] as int
  {
    if |s| == 0 then [] else [ByteOfChar(s[0])] + BytesOfText(s[1..])
  }

  /** Writing out two texts one after the other. */
  lemma BytesOfTextAppend(a: seq<char>, b: seq<char>)
    requires IsByteText(a) && IsByteText(b)
    ensures IsByteText(a + b)
    ensures BytesOfText(a + b) == BytesOfText(a) + BytesOfText(b)
  {
    assert forall i :: 0 <= i < |a + b| ==> (a + b)[i] == if i < |a| then a[i] else b[i - |a|];
  }

  /** Reading bytes as text and writing them back gives the same bytes. */
  lemma BytesTextRoundTrip(b: seq<byte>)
    ensures IsByteText(TextOfBytes(b))
    ensures BytesOfText(TextOfBytes(b)) == b
  {
    var s := TextOfBytes(b);
    var b' := BytesOfText(s);
    assert forall i :: 0 <= i < |b| ==> b'[i] == b[i];
  }
}
