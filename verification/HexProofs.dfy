/** The printer and the parser undo each other, and fixed-size decoding is positional. */
module HexProofs {
  import opened Basics
  import opened ByteStrings
  import opened Hex

  function LowerChar(c: char): char {
    if 'A' <= c <= 'F' then (c as int - 'A' as int + 'a' as int) as char else c
  }

  function Lower(s: string): (r: string)
    ensures |r| == |s|
  {
    if s == "" then "" else Lower(s[..|s| - 1]) + [LowerChar(s[|s| - 1])]
  }

  lemma DigitOfNibble(n: nibble)
    ensures FromHexDigit(HEX_DIGITS[n]) == n && Nibble(HEX_DIGITS[n]) == n
  {
    assert n in {0, 1, 2, 3, 4, 5, 6, 7, 8, 9, 10, 11, 12, 13, 14, 15};
  }

  lemma NibbleOfDigit(c: char)
    requires FromHexDigit(c) >= 0
    ensures HEX_DIGITS[Nibble(c)] == LowerChar(c)
  {
    assert FromHexDigit(c) in {0, 1, 2, 3, 4, 5, 6, 7, 8, 9, 10, 11, 12, 13, 14, 15};
  }

  // ----- printing and reading in terms of nibbles -----

  /** The digits of nibbles. */
  function TextOf(ns: seq<nibble>): (t: string)
    ensures |t| == |ns|
  {
    if ns == [] then "" else TextOf(ns[..|ns| - 1]) + [HEX_DIGITS[ns[|ns| - 1]]]
  }

  lemma {:induction false} HalvesOfPairs(ns: seq<nibble>)
    requires |ns| % 2 == 0
    ensures Halves(Pairs(ns)) == ns
    decreases |ns|
  {
    if ns == [] {
    } else {
      HalvesOfPairs(ns[2..]);
      var b := ByteOf(ns[0], ns[1]);
      assert Pairs(ns) == [b] + Pairs(ns[2..]) && Pairs(ns)[1..] == Pairs(ns[2..]);
      assert b / 16 == ns[0] && b % 16 == ns[1];
      assert ns == [ns[0], ns[1]] + ns[2..];
    }
  }

  lemma ReadLast(t: string, n: nibble)
    ensures AllDigits(t) ==> AllDigits(t + [HEX_DIGITS[n]])
    ensures Nibbles(t + [HEX_DIGITS[n]]) == Nibbles(t) + [n]
  {
    DigitOfNibble(n);
    NibblesLast(t, HEX_DIGITS[n]);
  }

  lemma {:induction false} ReadText(ns: seq<nibble>)
    ensures AllDigits(TextOf(ns)) && Nibbles(TextOf(ns)) == ns
  {
    if ns == [] {
    } else {
      var init, n := ns[..|ns| - 1], ns[|ns| - 1];
      ReadText(init);
      ReadLast(TextOf(init), n);
      assert ns == init + [n];
    }
  }

  lemma {:induction false} WriteNibbles(t: string)
    requires AllDigits(t)
    ensures TextOf(Nibbles(t)) == Lower(t)
  {
    if t == "" {
    } else {
      var init, c := t[..|t| - 1], t[|t| - 1];
      WriteNibbles(init);
      NibbleOfDigit(c);
      assert Nibbles(t)[..|t| - 1] == Nibbles(init);
    }
  }

  lemma TextOfLastTwo(ns: seq<nibble>, hi: nibble, lo: nibble)
    ensures TextOf(ns + [hi, lo]) == TextOf(ns) + [HEX_DIGITS[hi], HEX_DIGITS[lo]]
  {
    var all := ns + [hi, lo];
    assert all[..|all| - 1] == ns + [hi] && (ns + [hi])[..|ns|] == ns;
  }

  /** The printer prints the halves. */
  lemma {:induction false} HexTextOfHalves(bs: seq<byte>)
    ensures HexText(bs) == TextOf(Halves(bs))
  {
    if bs == [] {
    } else {
      var init, b := bs[..|bs| - 1], bs[|bs| - 1];
      HexTextOfHalves(init);
      assert bs == init + [b];
      HalvesLast(init, b);
      TextOfLastTwo(Halves(init), b / 16, b % 16);
    }
  }

  /** Printing gives digits only, two a byte, and reading the pairs back gives the bytes. */
  lemma PrintedText(bs: seq<byte>)
    ensures var t := HexText(bs); |t| == 2 * |bs| && AllDigits(t) && Pairs(Nibbles(t)) == bs
  {
    HexTextOfHalves(bs);
    ReadText(Halves(bs));
    PairsOfHalves(bs);
  }

  lemma DigitsHaveNoPrefix(t: string)
    requires AllDigits(t)
    ensures !HasPrefix(t) && Strip(t) == t
  {
    if |t| >= 2 {
      assert FromHexDigit(t[1]) >= 0;
    }
  }

  /** Printing and parsing back, with or without the optional prefix. */
  lemma ParsePrinted(bs: seq<byte>)
    ensures Parse(HexText(bs)) == Some(bs) && Parse("0x" + HexText(bs)) == Some(bs)
  {
    PrintedText(bs);
    DigitsHaveNoPrefix(HexText(bs));
    assert ("0x" + HexText(bs))[2..] == HexText(bs);
  }

  /** Parsing and printing back gives the text without its prefix, in lower case. */
  lemma PrintParsed(s: string)
    requires Parse(s).Some?
    ensures HexText(Parse(s).value) == Lower(Strip(s))
  {
    var ns := Nibbles(Strip(s));
    HexTextOfHalves(Pairs(ns));
    HalvesOfPairs(ns);
    WriteNibbles(Strip(s));
  }

  // ----- fixed-size values -----

  /** The number that hexadecimal digits denote. */
  function Base16(ns: seq<nibble>): nat {
    if ns == [] then 0 else 16 * Base16(ns[..|ns| - 1]) + ns[|ns| - 1]
  }

  function DigitsValue(t: string): nat {
    Base16(Nibbles(t))
  }

  lemma Base16LastTwo(ns: seq<nibble>, hi: nibble, lo: nibble)
    ensures Base16(ns + [hi, lo]) == 256 * Base16(ns) + 16 * (hi as int) + lo
  {
    var all := ns + [hi, lo];
    assert all[..|all| - 1] == ns + [hi] && (ns + [hi])[..|ns|] == ns;
  }

  /** The number bytes denote is the number their nibbles denote. */
  lemma {:induction false} HalvesValue(bs: seq<byte>)
    ensures BeValue(bs) == Base16(Halves(bs))
  {
    if bs == [] {
    } else {
      var init, b := bs[..|bs| - 1], bs[|bs| - 1];
      HalvesValue(init);
      assert bs == init + [b];
      HalvesLast(init, b);
      Base16LastTwo(Halves(init), b / 16, b % 16);
    }
  }

  lemma BeValueLast(s: seq<byte>, b: byte)
    ensures BeValue(s + [b]) == 256 * BeValue(s) + b
  {
    assert (s + [b])[..|s|] == s;
  }

  lemma WrittenAtEnd(size: nat, at: nat, bs: seq<byte>)
    requires size - 1 <= at + |bs| <= size
    ensures Written(Zeros(size), at, bs) == if at + |bs| == size then Zeros(at) + bs else Zeros(at) + (bs + [0])
  {
  }

  /**
   * What an accepted text is worth: the number its digits denote, except that a second "0x" left after the stripped
   * prefix is skipped by the parser but still moves the bytes one position up.
   */
  lemma FixedValue(t: string, size: nat)
    requires ParseFixed(t, size).Some?
    ensures BeValue(ParseFixed(t, size).value) == DigitsValue(Strip(t)) * if HasPrefix(t) then 256 else 1
  {
    var bs := ParsedFits(t);
    var at := size - |t| / 2;
    HalvesOfPairs(Nibbles(Strip(t)));
    HalvesValue(bs);
    WrittenAtEnd(size, at, bs);
    if HasPrefix(t) {
      BeValuePadded(at, bs + [0]);
      BeValueLast(bs, 0);
    } else {
      BeValuePadded(at, bs);
    }
  }

  predicate ZeroDigits(t: string) {
    forall i :: 0 <= i < |t| ==> t[i] == '0'
  }

  lemma {:induction false} ZeroValue(t: string)
    requires AllDigits(t)
    ensures DigitsValue(t) == 0 <==> ZeroDigits(t)
  {
    if t == "" {
    } else {
      ZeroValue(t[..|t| - 1]);
    }
  }

  /** The decoded number is the number written exactly when no second prefix is left, or the digits are all zero. */
  lemma FixedValueIsExact(t: string, size: nat)
    requires ParseFixed(t, size).Some?
    ensures BeValue(ParseFixed(t, size).value) == DigitsValue(Strip(t)) <==> !HasPrefix(t) || ZeroDigits(Strip(t))
  {
    FixedValue(t, size);
    ZeroValue(Strip(t));
  }

  /** A prefix left after the stripped one does shift the value, behind "0x" as behind "Q". */
  lemma SecondPrefixShifts()
    ensures ParseFixed(Strip("0x0x01"), 4) == Some([0, 0, 1, 0]) && ParseFixed(Strip("0x01"), 4) == Some([0, 0, 0, 1])
    ensures ParseFixed("Q0x01"[1..], 4) == Some([0, 0, 1, 0]) && ParseFixed("Q01"[1..], 4) == Some([0, 0, 0, 1])
  {
    assert "Q0x01"[1..] == "0x01" && "Q01"[1..] == "01";
    assert Strip("0x0x01") == "0x01" && Strip("0x01") == "01" && Strip("01") == "01";
    assert "01"[..1] == "0" && "0"[..0] == "";
    assert Nibbles("01") == [0, 1] && Pairs([0, 1]) == [1];
    assert Parse("01") == Some([1]) && Parse("0x01") == Some([1]);
    assert Written(Zeros(4), 2, [1]) == [0, 0, 1, 0] && Written(Zeros(4), 3, [1]) == [0, 0, 0, 1];
  }

  lemma WriteAll(bs: seq<byte>)
    ensures Written(Zeros(|bs|), 0, bs) == bs
  {
  }

  lemma FixedPrinted(bs: seq<byte>)
    ensures ParseFixed(HexText(bs), |bs|) == Some(bs)
  {
    PrintedText(bs);
    ParsePrinted(bs);
    WriteAll(bs);
  }

  /** Fixed-size printing and parsing back: "Q" + hex(address), and "0x" + hex of a 32-byte value. */
  lemma FixedRoundTrip(bs: seq<byte>)
    ensures ParseFixed(HexText(bs), |bs|) == Some(bs)
    ensures ParseFixed(("Q" + HexText(bs))[1..], |bs|) == Some(bs)
    ensures ParseFixed(Strip("0x" + HexText(bs)), |bs|) == Some(bs)
  {
    var t := HexText(bs);
    FixedPrinted(bs);
    assert ("Q" + t)[1..] == t && ("0x" + t)[2..] == t;
    assert HasPrefix("0x" + t);
  }

  // ----- which texts are accepted -----

  const DIGITS := "0123456789abcdefABCDEF"

  lemma DigitsAreHex(c: char)
    ensures FromHexDigit(c) >= 0 <==> c in DIGITS
  {
    if '0' <= c <= '9' {
      assert DIGITS[c as int - '0' as int] == c;
    } else if 'a' <= c <= 'f' {
      assert DIGITS[c as int - 'a' as int + 10] == c;
    } else if 'A' <= c <= 'F' {
      assert DIGITS[c as int - 'A' as int + 16] == c;
    }
  }

  /** The parser accepts exactly an even number of hexadecimal digits, of either case, after at most one "0x". */
  lemma AcceptedTexts(s: string)
    ensures var t := if "0x" <= s then s[2..] else s;
            && (Parse(s).Some? <==> |t| % 2 == 0 && forall i :: 0 <= i < |t| ==> t[i] in DIGITS)
            && (Parse(s).Some? ==> 2 * |Parse(s).value| == |t|)
  {
    var t := if "0x" <= s then s[2..] else s;
    assert t == Strip(s);
    forall i | 0 <= i < |t|
      ensures FromHexDigit(t[i]) >= 0 <==> t[i] in DIGITS
    {
      DigitsAreHex(t[i]);
    }
  }

  lemma LowerSameDigit(c: char)
    ensures FromHexDigit(LowerChar(c)) == FromHexDigit(c)
  {
  }

  lemma {:induction false} LowerAt(s: string)
    ensures forall i :: 0 <= i < |s| ==> Lower(s)[i] == LowerChar(s[i])
  {
    if s == "" {
    } else {
      LowerAt(s[..|s| - 1]);
    }
  }

  lemma {:induction false} NibblesOfLower(t: string)
    ensures Nibbles(Lower(t)) == Nibbles(t)
  {
    if t == "" {
    } else {
      var init, c := t[..|t| - 1], t[|t| - 1];
      NibblesOfLower(init);
      LowerSameDigit(c);
      NibblesLast(Lower(init), LowerChar(c));
    }
  }

  lemma StripLower(s: string)
    ensures Strip(Lower(s)) == Lower(Strip(s))
  {
    LowerAt(s);
    LowerAt(Strip(s));
    assert HasPrefix(Lower(s)) == HasPrefix(s);
  }

  /** The case of the digits does not matter. */
  lemma CaseIsIgnored(s: string)
    ensures Parse(Lower(s)) == Parse(s)
  {
    var t := Strip(s);
    StripLower(s);
    LowerAt(t);
    NibblesOfLower(t);
    forall i | 0 <= i < |t|
      ensures FromHexDigit(Lower(t)[i]) == FromHexDigit(t[i])
    {
      LowerSameDigit(t[i]);
    }
  }

  /** A fixed-size value is decoded exactly from the texts the parser accepts that need no more bytes than it has. */
  lemma FixedAccepts(t: string, size: nat)
    ensures ParseFixed(t, size).Some? <==> Parse(t).Some? && |t| <= 2 * size
    ensures ParseFixed(t, size).Some? ==> |ParseFixed(t, size).value| == size
  {
  }
}
