/** ASCII lower-casing in the "C" locale, where tolower maps exactly the
    letters 'A'..'Z' to 'a'..'z' and leaves every other byte alone. */
module Strings {
  import opened Bytes

  predicate IsUpper(c: Byte) {
    'A' <= c <= 'Z'
  }

  /** tolower of one byte in the "C" locale. */
  function LowerByte(c: Byte): (d: Byte)
    ensures !IsUpper(d)
    ensures IsUpper(c) ==> d as int == c as int + 32 && 'a' <= d <= 'z'
    ensures !IsUpper(c) ==> d == c
  {
    if IsUpper(c) then (c as int + 32) as char else c
  }

  /** The text with every byte passed through LowerByte. */
  function Lowered(text: ByteString): (r: ByteString)
    ensures |r| == |text|
    ensures forall i :: 0 <= i < |r| ==> r[i] == LowerByte(text[i])
  {
    seq(|text|, i requires 0 <= i < |text| => LowerByte(text[i]))
  }

  /** toLowerCopy: copy the text into a buffer, then lower-case the buffer in place. */
  method ToLowerCopy(text: ByteString) returns (lower: ByteString)
    ensures lower == Lowered(text)
  {
    var buffer := new Byte[|text|](i requires 0 <= i < |text| => text[i]);
    for i := 0 to buffer.Length
      invariant forall j :: 0 <= j < i ==> buffer[j] == LowerByte(text[j])
      invariant forall j :: i <= j < buffer.Length ==> buffer[j] == text[j]
    {
      buffer[i] := LowerByte(buffer[i]);
    }
    lower := buffer[..];
  }

  /** The lower-cased copy has the same length, holds no 'A'..'Z', and keeps
      every byte outside 'A'..'Z' at its position. */
  lemma LoweredShape(text: ByteString)
    ensures |Lowered(text)| == |text|
    ensures forall c :: c in Lowered(text) ==> !IsUpper(c)
    ensures forall i :: 0 <= i < |text| && !IsUpper(text[i]) ==> Lowered(text)[i] == text[i]
  {
  }

  /** Lower-casing twice is lower-casing once. */
  lemma LoweredIdempotent(text: ByteString)
    ensures Lowered(Lowered(text)) == Lowered(text)
  {
  }

  /** Two texts have the same lower-cased copy exactly when they agree
      position by position up to the case of letters. */
  lemma LoweredEqualIff(a: ByteString, b: ByteString)
    ensures Lowered(a) == Lowered(b) <==>
              |a| == |b| && forall i :: 0 <= i < |a| ==> LowerByte(a[i]) == LowerByte(b[i])
  {
    if |a| == |b| && forall i :: 0 <= i < |a| ==> LowerByte(a[i]) == LowerByte(b[i]) {
      assert forall i :: 0 <= i < |a| ==> Lowered(a)[i] == Lowered(b)[i];
    }
  }

  /** The text with every byte of `targets` replaced by '_'. */
  function Underscored(text: ByteString, targets: set<Byte>): (r: ByteString)
    ensures |r| == |text|
    ensures '_' !in targets ==> forall c :: c in r ==> c !in targets
    ensures forall i :: 0 <= i < |text| ==> r[i] == (if text[i] in targets then '_' else text[i])
  {
    seq(|text|, i requires 0 <= i < |text| => if text[i] in targets then '_' else text[i])
  }

  /** Text holding none of the targets is left as it is. */
  lemma UnderscoredUnchanged(text: ByteString, targets: set<Byte>)
    requires forall c :: c in text ==> c !in targets
    ensures Underscored(text, targets) == text
  {
  }

  /** Overwrites, in place, every byte of the buffer that is one of `targets` with '_'. */
  method UnderscoreInPlace(buffer: array<Byte>, targets: set<Byte>)
    modifies buffer
    ensures buffer[..] == Underscored(old(buffer[..]), targets)
  {
    for i := 0 to buffer.Length
      invariant forall j :: 0 <= j < i ==>
                  buffer[j] == (if old(buffer[j]) in targets then '_' else old(buffer[j]))
      invariant forall j :: i <= j < buffer.Length ==> buffer[j] == old(buffer[j])
    {
      if buffer[i] in targets {
        buffer[i] := '_';
      }
    }
  }

  /** The text with the targets replaced by '_', made as the source makes it:
      the text is copied into a buffer that is then underscored in place. */
  method UnderscoredCopy(text: ByteString, targets: set<Byte>) returns (r: ByteString)
    ensures r == Underscored(text, targets)
  {
    var buffer := new Byte[|text|](i requires 0 <= i < |text| => text[i]);
    assert buffer[..] == text;
    UnderscoreInPlace(buffer, targets);
    r := buffer[..];
  }
}
