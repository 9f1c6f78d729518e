/**
 The character classes of the console's expressions, code point by code point.
 */
module Characters {
  import opened Text

  /** TAB to CR, SP and the other space separators, NBSP, ZWNBSP, LS and PS. */
  const WHITE_SPACE: set<int> :=
    {9, 10, 11, 12, 13, 32, 160, 5760, 8192, 8193, 8194, 8195, 8196, 8197, 8198, 8199, 8200, 8201, 8202,
     8232, 8233, 8239, 8287, 12288, 65279}

  lemma SpaceExactly(c: char)
    ensures IsSpace(c) <==> c as int in WHITE_SPACE
    ensures IsLineEnd(c) <==> c as int in {10, 13, 8232, 8233}
  {
  }

  const DIGITS: string := "0123456789"
  const LOWER_HEX: string := "0123456789abcdef"
  const UPPER_HEX: string := "0123456789ABCDEF"

  lemma DigitExactly(c: char)
    ensures IsDigit(c) <==> c in DIGITS
  {
    if IsDigit(c) {
      assert DIGITS[c as int - 48] == c;
    }
  }

  /** A hex digit stands at the place of its value, in either case. */
  lemma HexExactly(c: char)
    ensures IsHex(c) <==> c in LOWER_HEX || c in UPPER_HEX
    ensures IsHex(c) ==> c == LOWER_HEX[HexValue(c)] || c == UPPER_HEX[HexValue(c)]
  {
    if IsHex(c) {
      var d := HexValue(c);
      assert c == LOWER_HEX[d] || c == UPPER_HEX[d];
    }
  }

  const SMALL: string := "abcdefghijklmnopqrstuvwxyz"
  const LARGE: string := "ABCDEFGHIJKLMNOPQRSTUVWXYZ"

  /** Lower-casing changes the 26 capital letters and nothing else. */
  lemma LowerExactly(c: char)
    ensures forall k :: 0 <= k < 26 ==> LowerChar(LARGE[k]) == SMALL[k]
    ensures c !in LARGE ==> LowerChar(c) == c
  {
    if 'A' <= c <= 'Z' {
      assert LARGE[c as int - 65] == c;
    }
  }
}
