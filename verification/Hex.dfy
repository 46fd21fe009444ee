/** The hex printer and parser. */
module Hex {
  import opened Basics
  import opened ByteStrings
  import opened FilterIterators

  const HEX_DIGITS := "0123456789abcdef"

  function HexOfByte(b: byte): string {
    [HEX_DIGITS[b / 16], HEX_DIGITS[b % 16]]
  }

  /** What the printer prints: two digits a byte, in order. */
  function HexText(bs: seq<byte>): string {
    if bs == [] then "" else HexText(bs[..|bs| - 1]) + HexOfByte(bs[|bs| - 1])
  }

  method HexOfBytes(bs: seq<byte>) returns (str: string)
    ensures str == HexText(bs)
  {
    str := "";
    for i := 0 to |bs|
      invariant str == HexText(bs[..i])
    {
      assert bs[..i + 1][..i] == bs[..i];
      str := str + HexOfByte(bs[i]);
    }
    assert bs[..|bs|] == bs;
  }

  /** The value of a hex digit, or -1. */
  function FromHexDigit(h: char): (v: int)
    ensures -1 <= v < 16
  {
    if '0' <= h <= '9' then h as int - '0' as int
    else if 'a' <= h <= 'f' then h as int - 'a' as int + 10
    else if 'A' <= h <= 'F' then h as int - 'A' as int + 10
    else -1
  }

  // ----- what a text means -----

  predicate HasPrefix(s: string) {
    |s| >= 2 && s[0] == '0' && s[1] == 'x'
  }

  /** The text without one leading "0x". */
  function Strip(s: string): string {
    if HasPrefix(s) then s[2..] else s
  }

  predicate AllDigits(t: string) {
    forall i :: 0 <= i < |t| ==> FromHexDigit(t[i]) >= 0
  }

  type nibble = v: int | 0 <= v < 16

  /** The value of a digit; what it says of other characters is never used. */
  function Nibble(h: char): nibble {
    Max(FromHexDigit(h), 0)
  }

  function Nibbles(t: string): (ns: seq<nibble>)
    ensures |ns| == |t|
  {
    if t == "" then [] else Nibbles(t[..|t| - 1]) + [Nibble(t[|t| - 1])]
  }

  /** The byte two digits denote, high nibble first. */
  function ByteOf(hi: nibble, lo: nibble): byte {
    var h: int := hi;
    16 * h + lo
  }

  /** The bytes denoted by consecutive pairs of nibbles; a last single nibble is ignored. */
  function Pairs(ns: seq<nibble>): (bs: seq<byte>)
    ensures |bs| == |ns| / 2
  {
    if |ns| < 2 then [] else [ByteOf(ns[0], ns[1])] + Pairs(ns[2..])
  }

  /** The nibbles of bytes, high ones first. */
  function Halves(bs: seq<byte>): (ns: seq<nibble>)
    ensures |ns| == 2 * |bs|
  {
    if bs == [] then [] else [bs[0] / 16, bs[0] % 16] + Halves(bs[1..])
  }

  lemma {:induction false} PairsOfHalves(bs: seq<byte>)
    ensures Pairs(Halves(bs)) == bs
  {
    if bs == [] {
    } else {
      PairsOfHalves(bs[1..]);
      assert Halves(bs)[2..] == Halves(bs[1..]);
      assert bs == [bs[0]] + bs[1..];
    }
  }

  /** The meaning of the parser: one optional "0x", then an even number of digits. */
  function Parse(s: string): Option<seq<byte>> {
    var t := Strip(s);
    if |t| % 2 == 0 && AllDigits(t) then Some(Pairs(Nibbles(t))) else None
  }

  // ----- the loop of the parser -----

  /** The nibbles are those of `out` and one more, held shifted in `hiNibble`. */
  ghost predicate Waits(ns: seq<nibble>, out: seq<byte>, hiNibble: int) {
    exists m: nibble :: hiNibble == ByteOf(m, 0) && ns == Halves(out) + [m]
  }

  /**
   * What the loop variables hold when the characters of `u` have been read without failure: the nibbles read are those
   * of the bytes put out, then the one in waiting.
   */
  ghost predicate Consumed(u: string, hiNibble: int, out: seq<byte>) {
    var t := Strip(u);
    && AllDigits(t)
    && if |t| % 2 == 0 then Nibbles(t) == Halves(out) else Waits(Nibbles(t), out, hiNibble)
  }

  lemma NibblesLast(t: string, h: char)
    ensures Nibbles(t + [h]) == Nibbles(t) + [Nibble(h)]
  {
    assert (t + [h])[..|t|] == t;
  }

  lemma {:induction false} HalvesLast(bs: seq<byte>, b: byte)
    ensures Halves(bs + [b]) == Halves(bs) + [b / 16, b % 16]
  {
    if bs == [] {
      assert bs + [b] == [b];
    } else {
      HalvesLast(bs[1..], b);
      assert (bs + [b])[1..] == bs[1..] + [b];
    }
  }

  lemma StripDigit(u: string, h: char)
    requires FromHexDigit(h) >= 0
    ensures Strip(u + [h]) == Strip(u) + [h] && FromHexDigit(h) == Nibble(h)
    ensures |Strip(u)| % 2 == |u| % 2
  {
  }

  lemma StartByte(t: string, out: seq<byte>, h: char)
    requires Nibbles(t) == Halves(out) && FromHexDigit(h) >= 0
    ensures Waits(Nibbles(t + [h]), out, 16 * FromHexDigit(h))
  {
    NibblesLast(t, h);
    assert ByteOf(Nibble(h), 0) == 16 * FromHexDigit(h);
  }

  lemma HalvesOfByte(m: nibble, n: nibble)
    ensures ByteOf(m, 0) + n == ByteOf(m, n) && ByteOf(m, n) / 16 == m && ByteOf(m, n) % 16 == n
  {
  }

  lemma CompleteByte(ns: seq<nibble>, out: seq<byte>, hiNibble: int, n: nibble)
    requires Waits(ns, out, hiNibble)
    ensures 0 <= hiNibble + n < 256 && ns + [n] == Halves(out + [hiNibble + n])
  {
    var m: nibble :| hiNibble == ByteOf(m, 0) && ns == Halves(out) + [m];
    var b: byte := hiNibble + n;
    HalvesOfByte(m, n);
    HalvesLast(out, b);
    assert Halves(out) + [m] + [n] == Halves(out) + [m, n];
  }

  lemma ConsumeDigit(u: string, hiNibble: int, out: seq<byte>, h: char)
    requires Consumed(u, hiNibble, out) && FromHexDigit(h) >= 0
    ensures |u| % 2 == 0 ==> Consumed(u + [h], 16 * FromHexDigit(h), out)
    ensures |u| % 2 == 1 ==> 0 <= hiNibble + FromHexDigit(h) < 256
                             && Consumed(u + [h], hiNibble, out + [hiNibble + FromHexDigit(h)])
  {
    var t := Strip(u);
    StripDigit(u, h);
    if |u| % 2 == 0 {
      StartByte(t, out, h);
    } else {
      NibblesLast(t, h);
      CompleteByte(Nibbles(t), out, hiNibble, Nibble(h));
    }
  }

  lemma OneCharacter(u: string, hiNibble: int, out: seq<byte>)
    requires Consumed(u, hiNibble, out) && |u| == 1
    ensures out == [] && (hiNibble == 0 <==> u[0] == '0')
  {
    var m: nibble :| hiNibble == ByteOf(m, 0) && Nibbles(u) == Halves(out) + [m];
    assert |Nibbles(u)| == |Halves(out)| + 1;
    assert u[..0] == "" && Nibbles(u) == [Nibble(u[0])] && Nibbles(u) == [m];
    assert FromHexDigit(u[0]) >= 0;
    HalvesOfByte(m, 0);
  }

  lemma ConsumePrefix(u: string, hiNibble: int, out: seq<byte>)
    requires Consumed(u, hiNibble, out) && |u| == 1 && hiNibble == 0
    ensures Consumed(u + ['x'], hiNibble, out)
  {
    OneCharacter(u, hiNibble, out);
    assert Strip(u + ['x']) == [];
  }

  lemma RejectCharacter(u: string, hiNibble: int, out: seq<byte>, h: char, rest: string)
    requires Consumed(u, hiNibble, out) && FromHexDigit(h) < 0 && !(|u| == 1 && hiNibble == 0 && h == 'x')
    ensures Parse(u + [h] + rest) == None
  {
    var s := u + [h] + rest;
    if |u| == 1 {
      OneCharacter(u, hiNibble, out);
    }
    if HasPrefix(s) {
      assert |u| >= 2 && HasPrefix(u);
      assert Strip(s)[|u| - 2] == h;
    } else {
      assert s[|u|] == h;
    }
  }

  datatype Reading = Rejected | Skipped | High(hiNibble: int) | Complete(value: byte)

  /** The loop body: what the character at position `i` does to the loop variables. */
  method ReadCharacter(i: nat, hiNibble: int, h: char, ghost u: string, ghost bs: seq<byte>) returns (r: Reading)
    requires i == |u| && Consumed(u, hiNibble, bs)
    ensures match r
            case Rejected => forall rest :: Parse(u + [h] + rest) == None
            case Skipped => Consumed(u + [h], hiNibble, bs)
            case High(hiNibble') => Consumed(u + [h], hiNibble', bs)
            case Complete(value) => i % 2 == 1 && Consumed(u + [h], hiNibble, bs + [value])
  {
    var v := FromHexDigit(h);
    if v < 0 {
      if i == 1 && hiNibble == 0 && h == 'x' {
        ConsumePrefix(u, hiNibble, bs);
        return Skipped;
      }
      forall rest
        ensures Parse(u + [h] + rest) == None
      {
        RejectCharacter(u, hiNibble, bs, h, rest);
      }
      return Rejected;
    }
    ConsumeDigit(u, hiNibble, bs, h);
    r := if i % 2 == 0 then High(16 * v) else Complete(hiNibble + v);
  }

  lemma ParseConsumed(s: string, hiNibble: int, bs: seq<byte>)
    requires Consumed(s, hiNibble, bs)
    ensures Parse(s) == if |s| % 2 == 0 then Some(bs) else None
  {
    PairsOfHalves(bs);
  }

  lemma Rejoin(s: string, i: nat)
    requires i < |s|
    ensures s[..i + 1] == s[..i] + [s[i]] && s == s[..i] + [s[i]] + s[i + 1..]
  {
  }

  /** `from_hex` to a byte string. */
  method FromHex(s: string) returns (r: Option<seq<byte>>)
    ensures r == Parse(s)
  {
    var hiNibble := -1;
    var bs: seq<byte> := [];
    for i := 0 to |s|
      invariant Consumed(s[..i], hiNibble, bs)
    {
      Rejoin(s, i);
      var reading := ReadCharacter(i, hiNibble, s[i], s[..i], bs);
      match reading
      case Rejected => return None;
      case Skipped =>
      case High(hi) => hiNibble := hi;
      case Complete(value) => bs := bs + [value];
    }
    assert s[..|s|] == s;
    ParseConsumed(s, hiNibble, bs);
    r := if |s| % 2 == 0 then Some(bs) else None;
  }

  /** `was` with the bytes `bs` written from `at` on. */
  function Written(was: seq<byte>, at: nat, bs: seq<byte>): (now: seq<byte>)
    requires at + |bs| <= |was|
    ensures |now| == |was|
    ensures forall j :: 0 <= j < |was| ==> now[j] == if at <= j < at + |bs| then bs[j - at] else was[j]
  {
    was[..at] + bs + was[at + |bs|..]
  }

  lemma WriteNext(was: seq<byte>, at: nat, bs: seq<byte>, value: byte)
    requires at + |bs| < |was|
    ensures Written(was, at, bs)[at + |bs| := value] == Written(was, at, bs + [value])
  {
  }

  /**
   * `from_hex` through an output pointer: whatever the input, no more than half its length is written, and on success
   * exactly the parsed bytes are.
   */
  method FromHexInto(s: string, out: array<byte>, at: nat) returns (ok: bool, ghost bs: seq<byte>)
    requires at + |s| / 2 <= out.Length
    modifies out
    ensures |bs| <= |s| / 2 && out[..] == Written(old(out[..]), at, bs)
    ensures Parse(s) == if ok then Some(bs) else None
  {
    var hiNibble := -1;
    var p := at;
    bs := [];
    for i := 0 to |s|
      invariant Consumed(s[..i], hiNibble, bs) && |bs| <= i / 2 && p == at + |bs|
      invariant out[..] == Written(old(out[..]), at, bs)
    {
      Rejoin(s, i);
      var reading := ReadCharacter(i, hiNibble, s[i], s[..i], bs);
      match reading
      case Rejected => return false, bs;
      case Skipped =>
      case High(hi) => hiNibble := hi;
      case Complete(value) =>
        WriteNext(old(out[..]), at, bs, value);
        out[p] := value;
        p := p + 1;
        bs := bs + [value];
    }
    assert s[..|s|] == s;
    ParseConsumed(s, hiNibble, bs);
    ok := |s| % 2 == 0;
  }

  /** The same loop, reading through a whitespace-skipping iterator. */
  method FromSpacedHex(s: string) returns (r: Option<seq<byte>>)
    ensures r == Parse(Filter(IsNotSpace, s))
  {
    var it := new FilterIterator(s, IsNotSpace, 0, |s|);
    var end := new FilterIterator(s, IsNotSpace, |s|, |s|);
    var hiNibble := -1;
    var i := 0;
    var bs: seq<byte> := [];
    ghost var u := "";
    assert s[0..|s|] == s;
    var more := it.NotEqual(end);
    while more
      invariant it.Valid() && fresh(it) && it != end && it.end == |s| && end.base == |s|
      invariant more <==> it.base != |s|
      invariant i == |u| && u + it.Remaining() == Filter(IsNotSpace, s)
      invariant Consumed(u, hiNibble, bs)
      decreases |s| - it.base
    {
      var h := it.Deref();
      ghost var rest := it.Remaining()[1..];
      MoveHead(u, it.Remaining());
      var reading := ReadCharacter(i, hiNibble, h, u, bs);
      match reading {
        case Rejected => return None;
        case Skipped =>
        case High(hi) => hiNibble := hi;
        case Complete(value) => bs := bs + [value];
      }
      u := u + [h];
      i := i + 1;
      it.Increment();
      more := it.NotEqual(end);
    }
    assert u == Filter(IsNotSpace, s);
    ParseConsumed(u, hiNibble, bs);
    r := if i % 2 == 0 then Some(bs) else None;
  }

  // ----- fixed-size values -----

  /** The parsed bytes never need more than half the characters. */
  function ParsedFits(t: string): (bs: seq<byte>)
    requires Parse(t).Some?
    ensures bs == Parse(t).value && |bs| <= |t| / 2
  {
    Parse(t).value
  }

  /** Decoding into `size` zero bytes, the window ending at the right edge. */
  function ParseFixed(t: string, size: nat): Option<seq<byte>> {
    if |t| / 2 > size then None
    else
      match Parse(t)
      case None => None
      case Some(bs) => Some(Written(Zeros(size), size - |t| / 2, ParsedFits(t)))
  }

  method DecodeFixed(t: string, size: nat) returns (r: Option<seq<byte>>)
    ensures r == ParseFixed(t, size)
  {
    var bytes := new byte[size](_ => 0);
    assert bytes[..] == Zeros(size);
    if |t| / 2 > size {
      return None;
    }
    var ok, bs := FromHexInto(t, bytes, size - |t| / 2);
    r := if ok then Some(bytes[..]) else None;
  }

  /** `from_hex<T>` for a T of `size` bytes. */
  method FromHexFixed(s: string, size: nat) returns (r: Option<seq<byte>>)
    ensures r == ParseFixed(Strip(s), size)
  {
    r := DecodeFixed(if |s| >= 2 && s[0] == '0' && s[1] == 'x' then s[2..] else s, size);
  }

  /** `from_prefixed_hex<T>` for a T of `size` bytes. */
  method FromPrefixedHex(s: string, prefix: string, size: nat) returns (r: Option<seq<byte>>)
    ensures r == if s != "" && !(prefix <= s) then None
                 else ParseFixed(if s == "" then "" else s[|prefix|..], size)
  {
    var t := s;
    if s != "" {
      if !(prefix <= s) {
        return None;
      }
      t := s[|prefix|..];
    }
    r := DecodeFixed(t, size);
  }
}
