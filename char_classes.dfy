/** The four character classes of Python's `string` module that the password
    generator draws from, written out as literals, together with the ASCII
    ranges that characterise them. */
module CharClasses {

  /** `string.ascii_lowercase` */
  const AsciiLowercase: string := "abcdefghijklmnopqrstuvwxyz"
  /** `string.ascii_uppercase` */
  const AsciiUppercase: string := "ABCDEFGHIJKLMNOPQRSTUVWXYZ"
  /** `string.digits` */
  const Digits: string := "0123456789"
  /** `string.punctuation` */
  const Punctuation: string := "!\"#$%&'()*+,-./:;<=>?@[\\]^_`{|}~"

  predicate IsAsciiLower(c: char) { 'a' <= c <= 'z' }
  predicate IsAsciiUpper(c: char) { 'A' <= c <= 'Z' }
  predicate IsDigit(c: char) { '0' <= c <= '9' }
  predicate IsAlnum(c: char) { IsAsciiLower(c) || IsAsciiUpper(c) || IsDigit(c) }

  /** Printable ASCII (0x20 to 0x7E) that is neither a space nor alphanumeric. */
  predicate IsPunctuation(c: char) { '!' <= c <= '~' && !IsAlnum(c) }

  /** No character occurs twice. */
  predicate Distinct(s: string) {
    forall i, j :: 0 <= i < j < |s| ==> s[i] != s[j]
  }

  lemma LowercaseMembers()
    ensures |AsciiLowercase| == 26 && Distinct(AsciiLowercase)
    ensures forall c :: c in AsciiLowercase <==> IsAsciiLower(c)
  {
  }

  lemma UppercaseMembers()
    ensures |AsciiUppercase| == 26 && Distinct(AsciiUppercase)
    ensures forall c :: c in AsciiUppercase <==> IsAsciiUpper(c)
  {
  }

  lemma DigitMembers()
    ensures |Digits| == 10 && Distinct(Digits)
    ensures forall c :: c in Digits <==> IsDigit(c)
  {
  }

  /** The 32 punctuation characters are the four runs of printable ASCII
      between the space and the digits, the digits and the upper case
      letters, the upper and the lower case letters, and after the lower
      case letters. */
  lemma PunctuationMembers()
    ensures |Punctuation| == 32 && Distinct(Punctuation)
    ensures forall c :: c in Punctuation <==> IsPunctuation(c)
  {
    assert forall i :: 0 <= i < 15 ==> Punctuation[i] as int == '!' as int + i;
    assert forall i :: 15 <= i < 22 ==> Punctuation[i] as int == ':' as int + (i - 15);
    assert forall i :: 22 <= i < 28 ==> Punctuation[i] as int == '[' as int + (i - 22);
    assert forall i :: 28 <= i < 32 ==> Punctuation[i] as int == '{' as int + (i - 28);
    forall c | IsPunctuation(c) ensures c in Punctuation {
      var k := c as int;
      if k <= '/' as int {
        assert Punctuation[k - '!' as int] == c;
      } else if k <= '@' as int {
        assert Punctuation[15 + k - ':' as int] == c;
      } else if k <= '`' as int {
        assert Punctuation[22 + k - '[' as int] == c;
      } else {
        assert Punctuation[28 + k - '{' as int] == c;
      }
    }
  }

  /** Two duplicate-free strings with no character in common concatenate to a
      duplicate-free string. */
  lemma DistinctConcat(a: string, b: string)
    requires Distinct(a) && Distinct(b)
    requires forall c :: c in a ==> c !in b
    ensures Distinct(a + b)
  {
    forall i, j | 0 <= i < j < |a + b| ensures (a + b)[i] != (a + b)[j] {
      if j < |a| {
        assert (a + b)[i] == a[i] && (a + b)[j] == a[j];
      } else if i < |a| {
        assert (a + b)[i] in a && (a + b)[j] in b;
      } else {
        assert (a + b)[i] == b[i - |a|] && (a + b)[j] == b[j - |a|];
      }
    }
  }
}
