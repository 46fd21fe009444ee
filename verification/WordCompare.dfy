/**
 * The comparison operators of `address` and `bytes32`: equality by little-endian words, order by
 * nested big-endian words.  A load of disjointly shifted bytes joined by `|` is written as their sum.
 */
module WordCompare {
  import opened ByteStrings

  function Load64be(d: seq<nat>): nat
    requires |d| >= 8
  {
    d[0] * 0x100_0000_0000_0000 + d[1] * 0x1_0000_0000_0000 + d[2] * 0x100_0000_0000 + d[3] * 0x1_0000_0000
    + d[4] * 0x100_0000 + d[5] * 0x1_0000 + d[6] * 0x100 + d[7]
  }

  function Load64le(d: seq<nat>): nat
    requires |d| >= 8
  {
    d[0] + d[1] * 0x100 + d[2] * 0x1_0000 + d[3] * 0x100_0000
    + d[4] * 0x1_0000_0000 + d[5] * 0x100_0000_0000 + d[6] * 0x1_0000_0000_0000 + d[7] * 0x100_0000_0000_0000
  }

  function Load32be(d: seq<nat>): nat
    requires |d| >= 4
  {
    d[0] * 0x100_0000 + d[1] * 0x1_0000 + d[2] * 0x100 + d[3]
  }

  function Load32le(d: seq<nat>): nat
    requires |d| >= 4
  {
    d[0] + d[1] * 0x100 + d[2] * 0x1_0000 + d[3] * 0x100_0000
  }

  predicate AddressEqual(a: Address, b: Address) {
    && Load64le(a) == Load64le(b)
    && Load64le(a[8..]) == Load64le(b[8..])
    && Load32le(a[16..]) == Load32le(b[16..])
  }

  predicate AddressLess(a: Address, b: Address) {
    || Load64be(a) < Load64be(b)
    || (Load64be(a) == Load64be(b)
        && (|| Load64be(a[8..]) < Load64be(b[8..])
            || (Load64be(a[8..]) == Load64be(b[8..]) && Load32be(a[16..]) < Load32be(b[16..]))))
  }

  predicate WordEqual(a: Word, b: Word) {
    && Load64le(a) == Load64le(b)
    && Load64le(a[8..]) == Load64le(b[8..])
    && Load64le(a[16..]) == Load64le(b[16..])
    && Load64le(a[24..]) == Load64le(b[24..])
  }

  predicate WordLess(a: Word, b: Word) {
    || Load64be(a) < Load64be(b)
    || (Load64be(a) == Load64be(b)
        && (|| Load64be(a[8..]) < Load64be(b[8..])
            || (Load64be(a[8..]) == Load64be(b[8..])
                && (|| Load64be(a[16..]) < Load64be(b[16..])
                    || (Load64be(a[16..]) == Load64be(b[16..])
                        && Load64be(a[24..]) < Load64be(b[24..]))))))
  }

  /** Byte-lexicographic order, the independent meaning of the word-wise order. */
  predicate LexLess(a: seq<byte>, b: seq<byte>)
    requires |a| == |b|
  {
    a != [] && (a[0] < b[0] || (a[0] == b[0] && LexLess(a[1..], b[1..])))
  }

  lemma OneByteValue(x: byte)
    ensures BeValue([x]) == x
  {
    assert [x][..0] == [];
  }

  lemma {:induction false} LexIsNumeric(a: seq<byte>, b: seq<byte>)
    requires |a| == |b|
    ensures LexLess(a, b) <==> BeValue(a) < BeValue(b)
  {
    if a == [] {
    } else {
      assert a == a[..1] + a[1..] && b == b[..1] + b[1..];
      BeValueConcatLess(a[..1], a[1..], b[..1], b[1..]);
      OneByteValue(a[0]);
      OneByteValue(b[0]);
      assert a[..1] == [a[0]] && b[..1] == [b[0]];
      LexIsNumeric(a[1..], b[1..]);
    }
  }

  lemma Load32beIsValue(d: seq<byte>)
    requires |d| >= 4
    ensures Load32be(d) == BeValue(d[..4])
  {
    assert d[..4][..3] == d[..3] && d[..3][..2] == d[..2] && d[..2][..1] == [d[0]];
    OneByteValue(d[0]);
    assert BeValue(d[..3]) == 256 * BeValue(d[..2]) + d[2];
  }

  lemma Load64beIsValue(d: seq<byte>)
    requires |d| >= 8
    ensures Load64be(d) == BeValue(d[..8])
  {
    Load32beIsValue(d);
    Load32beIsValue(d[4..]);
    assert d[..8] == d[..4] + d[4..][..4];
    BeValueConcat(d[..4], d[4..][..4]);
    assert Pow256(4) == 0x1_0000_0000;
  }

  /** The number of bytes read from the lowest to the highest. */
  function LeValue(s: seq<byte>): nat {
    if s == [] then 0 else s[0] + 256 * LeValue(s[1..])
  }

  lemma LeValueSplits(s: seq<byte>)
    requires |s| >= 4
    ensures LeValue(s) == Load32le(s) + 0x1_0000_0000 * LeValue(s[4..])
  {
    assert s[1..][1..] == s[2..] && s[2..][1..] == s[3..] && s[3..][1..] == s[4..];
    assert LeValue(s) == s[0] + 256 * LeValue(s[1..]);
    assert LeValue(s[1..]) == s[1] + 256 * LeValue(s[2..]);
    assert LeValue(s[2..]) == s[2] + 256 * LeValue(s[3..]);
    assert LeValue(s[3..]) == s[3] + 256 * LeValue(s[4..]);
  }

  lemma LowByteUnique(x: nat, rest: nat, x': nat, rest': nat)
    requires x < 256 && x' < 256 && x + 256 * rest == x' + 256 * rest'
    ensures x == x' && rest == rest'
  {
  }

  lemma FourBytesUnique(a: nat, b: nat, c: nat, d: nat, a': nat, b': nat, c': nat, d': nat)
    requires a < 256 && b < 256 && c < 256 && a' < 256 && b' < 256 && c' < 256
    requires a + 0x100 * b + 0x1_0000 * c + 0x100_0000 * d == a' + 0x100 * b' + 0x1_0000 * c' + 0x100_0000 * d'
    ensures a == a' && b == b' && c == c' && d == d'
  {
    LowByteUnique(a, b + 0x100 * c + 0x1_0000 * d, a', b' + 0x100 * c' + 0x1_0000 * d');
    LowByteUnique(b, c + 0x100 * d, b', c' + 0x100 * d');
    LowByteUnique(c, d, c', d');
  }

  lemma Load32leSplits(d: seq<byte>, e: seq<byte>)
    requires |d| >= 4 && |e| >= 4 && Load32le(d) == Load32le(e)
    ensures d[..4] == e[..4]
  {
    FourBytesUnique(d[0], d[1], d[2], d[3], e[0], e[1], e[2], e[3]);
  }

  lemma Load64leHalves(d: seq<byte>)
    requires |d| >= 8
    ensures Load64le(d) == Load32le(d) + 0x1_0000_0000 * Load32le(d[4..])
    ensures Load32le(d) < 0x1_0000_0000 && Load32le(d[4..]) < 0x1_0000_0000
  {
  }

  lemma HalvesUnique(x: nat, x': nat, y: nat, y': nat)
    requires x < 0x1_0000_0000 && y < 0x1_0000_0000
    requires x + 0x1_0000_0000 * x' == y + 0x1_0000_0000 * y'
    ensures x == y && x' == y'
  {
  }

  lemma Load64leInjective(d: seq<byte>, e: seq<byte>)
    requires |d| >= 8 && |e| >= 8 && Load64le(d) == Load64le(e)
    ensures d[..8] == e[..8]
  {
    Load64leHalves(d);
    Load64leHalves(e);
    HalvesUnique(Load32le(d), Load32le(d[4..]), Load32le(e), Load32le(e[4..]));
    Load32leSplits(d, e);
    Load32leSplits(d[4..], e[4..]);
    assert d[..8] == d[..4] + d[4..][..4] && e[..8] == e[..4] + e[4..][..4];
  }

  /** The little-endian loads are the numbers of the bytes in little-endian order. */
  lemma LoadsAreLittleEndian(d: seq<byte>)
    ensures |d| == 8 ==> Load64le(d) == LeValue(d)
    ensures |d| == 4 ==> Load32le(d) == LeValue(d)
  {
    if |d| == 4 {
      LeValueSplits(d);
    } else if |d| == 8 {
      LeValueSplits(d);
      LeValueSplits(d[4..]);
      Load64leHalves(d);
    }
  }

  lemma AddressParts(s: Address)
    ensures s == s[..8] + s[8..] && s[8..] == s[8..][..8] + s[16..]
    ensures Load64be(s) == BeValue(s[..8]) && Load64be(s[8..]) == BeValue(s[8..][..8])
    ensures Load32be(s[16..]) == BeValue(s[16..])
  {
    Load64beIsValue(s);
    Load64beIsValue(s[8..]);
    Load32beIsValue(s[16..]);
    assert s[16..][..4] == s[16..];
  }

  /** `==` on addresses is byte equality; `<` is byte-lexicographic and numeric order. */
  lemma AddressCompareCorrect(a: Address, b: Address)
    ensures AddressEqual(a, b) <==> a == b
    ensures AddressLess(a, b) <==> LexLess(a, b)
    ensures AddressLess(a, b) <==> BeValue(a) < BeValue(b)
  {
    if AddressEqual(a, b) {
      Load64leInjective(a, b);
      Load64leInjective(a[8..], b[8..]);
      Load32leSplits(a[16..], b[16..]);
      assert a == a[..8] + a[8..][..8] + a[16..][..4] && b == b[..8] + b[8..][..8] + b[16..][..4];
    }
    AddressParts(a);
    AddressParts(b);
    BeValueConcatLess(a[..8], a[8..], b[..8], b[8..]);
    BeValueConcatLess(a[8..][..8], a[16..], b[8..][..8], b[16..]);
    LexIsNumeric(a, b);
  }

  lemma WordParts(s: Word)
    ensures s == s[..8] + s[8..] && s[8..] == s[8..][..8] + s[16..] && s[16..] == s[16..][..8] + s[24..]
    ensures Load64be(s) == BeValue(s[..8]) && Load64be(s[8..]) == BeValue(s[8..][..8])
    ensures Load64be(s[16..]) == BeValue(s[16..][..8]) && Load64be(s[24..]) == BeValue(s[24..])
  {
    Load64beIsValue(s);
    Load64beIsValue(s[8..]);
    Load64beIsValue(s[16..]);
    Load64beIsValue(s[24..]);
    assert s[24..][..8] == s[24..];
  }

  /** `==` on 32-byte values is byte equality; `<` is byte-lexicographic and numeric order. */
  lemma WordCompareCorrect(a: Word, b: Word)
    ensures WordEqual(a, b) <==> a == b
    ensures WordLess(a, b) <==> LexLess(a, b)
    ensures WordLess(a, b) <==> BeValue(a) < BeValue(b)
  {
    if WordEqual(a, b) {
      Load64leInjective(a, b);
      Load64leInjective(a[8..], b[8..]);
      Load64leInjective(a[16..], b[16..]);
      Load64leInjective(a[24..], b[24..]);
      assert a == a[..8] + a[8..][..8] + a[16..][..8] + a[24..][..8];
      assert b == b[..8] + b[8..][..8] + b[16..][..8] + b[24..][..8];
    }
    WordParts(a);
    WordParts(b);
    BeValueConcatLess(a[..8], a[8..], b[..8], b[8..]);
    BeValueConcatLess(a[8..][..8], a[16..], b[8..][..8], b[16..]);
    BeValueConcatLess(a[16..][..8], a[24..], b[16..][..8], b[24..]);
    LexIsNumeric(a, b);
  }

  /** The six operators form a total order: exactly one of `<`, `==`, `>`, and `<` is transitive. */
  lemma AddressOrderIsTotal(a: Address, b: Address, c: Address)
    ensures (if AddressLess(a, b) then 1 else 0) + (if AddressEqual(a, b) then 1 else 0)
            + (if AddressLess(b, a) then 1 else 0) == 1
    ensures AddressLess(a, b) && AddressLess(b, c) ==> AddressLess(a, c)
  {
    AddressCompareCorrect(a, b);
    AddressCompareCorrect(b, a);
    AddressCompareCorrect(b, c);
    AddressCompareCorrect(a, c);
    if BeValue(a) == BeValue(b) {
      BeValueInjective(a, b);
    }
  }

  lemma WordOrderIsTotal(a: Word, b: Word, c: Word)
    ensures (if WordLess(a, b) then 1 else 0) + (if WordEqual(a, b) then 1 else 0)
            + (if WordLess(b, a) then 1 else 0) == 1
    ensures WordLess(a, b) && WordLess(b, c) ==> WordLess(a, c)
  {
    WordCompareCorrect(a, b);
    WordCompareCorrect(b, a);
    WordCompareCorrect(b, c);
    WordCompareCorrect(a, c);
    if BeValue(a) == BeValue(b) {
      BeValueInjective(a, b);
    }
  }
}
