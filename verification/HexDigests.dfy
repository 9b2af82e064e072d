/** SHA-256 digests as text. */
module HexDigests {

  /** 64 lower-case hexadecimal digits. */
  predicate HexDigest(s: string) {
    |s| == 64 && forall i :: 0 <= i < |s| ==> '0' <= s[i] <= '9' || 'a' <= s[i] <= 'f'
  }

  /** The digits, one by one. */
  lemma HexDigestIs(text: string)
    ensures HexDigest(text) <==> |text| == 64 && forall i :: 0 <= i < 64 ==> text[i] in "0123456789abcdef"
  {
    forall c: char
      ensures c in "0123456789abcdef" <==> '0' <= c <= '9' || 'a' <= c <= 'f'
    {
      DigitIs(c);
    }
  }

  lemma DigitIs(c: char)
    ensures c in "0123456789abcdef" <==> '0' <= c <= '9' || 'a' <= c <= 'f'
  {
    var digits := "0123456789abcdef";
    if '0' <= c <= '9' {
      assert digits[c as int - 48] == c;
    }
    if 'a' <= c <= 'f' {
      assert digits[c as int - 87] == c;
    }
  }
}
