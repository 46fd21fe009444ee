/** What the interpreter's 32-bit and 160-bit conversions mean for the 256-bit numbers they cut or widen. */
module VmValues {
  import opened ByteStrings
  import opened WordCompare
  import opened ExampleVm

  lemma Remainder(q: nat, d: nat, r: nat)
    requires r < d
    ensures (q * d + r) % d == r
  {
    var v := q * d + r;
    assert v == v / d * d + v % d;
    PlaceValueOrder(q, v / d, d, r, v % d);
    PlaceValueOrder(v / d, q, d, v % d, r);
  }

  lemma LowBytes(w: Word, n: nat)
    requires n <= 32
    ensures BeValue(w[32 - n..]) == BeValue(w) % Pow256(n)
  {
    var hi, lo := w[..32 - n], w[32 - n..];
    assert w == hi + lo;
    BeValueConcat(hi, lo);
    BeValueBound(lo);
    Remainder(BeValue(hi), Pow256(n), BeValue(lo));
  }

  /** `to_uint32` is reduction modulo 2^32. */
  lemma ToUint32IsModulo(w: Word)
    ensures ToUint32(w) == BeValue(w) % TWO_32
  {
    LowBytes(w, 4);
    Load32beIsValue(w[28..]);
    assert w[28..][..4] == w[28..];
    assert Pow256(4) == TWO_32;
  }

  lemma FourDigits(x: uint32)
    ensures x / 0x100_0000 * 0x100_0000 + x / 0x1_0000 % 0x100 * 0x1_0000 + x / 0x100 % 0x100 * 0x100 + x % 0x100 == x
  {
    var a, b := x / 0x100, x / 0x1_0000;
    assert b == a / 0x100 && x / 0x100_0000 == b / 0x100;
    assert b == b / 0x100 * 0x100 + b % 0x100;
    assert a == b * 0x100 + a % 0x100;
    assert x == a * 0x100 + x % 0x100;
  }

  /** `to_uint256` keeps the number, so `to_uint32` undoes it. */
  lemma ToWordKeepsValue(x: uint32)
    ensures BeValue(ToWord(x)) == x && ToUint32(ToWord(x)) == x
  {
    var low: seq<byte> := [x / 0x100_0000, x / 0x1_0000 % 0x100, x / 0x100 % 0x100, x % 0x100];
    BeValuePadded(28, low);
    Load32beIsValue(low);
    assert low[..4] == low;
    FourDigits(x);
  }

  /** `to_address` is reduction modulo 2^160 and undoes the widening of an address, which keeps the number. */
  lemma AddressConversions(w: Word, a: Address)
    ensures BeValue(ToAddress(w)) == BeValue(w) % Pow256(20)
    ensures BeValue(AddressToWord(a)) == BeValue(a) && ToAddress(AddressToWord(a)) == a
  {
    LowBytes(w, 20);
    BeValuePadded(12, a);
  }

  lemma SumOfRemainders(x: nat, y: nat)
    ensures (x % TWO_32 + y % TWO_32) % TWO_32 == (x + y) % TWO_32
  {
  }

  /** ADD pushes the sum of its operands modulo 2^32. */
  lemma AddIsSumModulo32Bits<H>(c: Core<H>)
    requires 2 <= |c.stack| <= STACK_LIMIT
    ensures ExecAdd(c).Next?
    ensures BeValue(Top(ExecAdd(c).core, 0)) == (BeValue(Top(c, 0)) + BeValue(Top(c, 1))) % TWO_32
  {
    var x, y := Top(c, 0), Top(c, 1);
    ToUint32IsModulo(x);
    ToUint32IsModulo(y);
    var sum := (ToUint32(x) + ToUint32(y)) % TWO_32;
    assert Top(ExecAdd(c).core, 0) == ToWord(sum);
    ToWordKeepsValue(sum);
    SumOfRemainders(BeValue(x), BeValue(y));
  }

  /** PUSH pushes the number its data denote, whatever their length. */
  lemma PushKeepsValue<H>(env: Env<H>, op: byte, immediate: seq<byte>, c: Core<H>)
    requires IsPush(op) && |immediate| == PushWidth(op) && |c.stack| < STACK_LIMIT
    ensures var e := Exec(env, op, immediate, c);
            e.Next? && e.core.stack[..|c.stack|] == c.stack && BeValue(Top(e.core, 0)) == BeValue(immediate)
  {
    BeValuePadded(32 - |immediate|, immediate);
  }

  /** CALLDATALOAD reads the input as if it went on with zeros for ever. */
  lemma CallDataBytes(input: seq<byte>, offset: nat, i: nat)
    requires i < 32
    ensures CallData(input, offset)[i] == if offset + i < |input| then input[offset + i] else 0
  {
  }
}
