/** Byte strings, the fixed-size byte values of the C API, and their big-endian numeric value. */
module ByteStrings {
  type byte = b: int | 0 <= b < 256

  function Zeros(n: nat): (s: seq<byte>)
    ensures |s| == n && forall i :: 0 <= i < n ==> s[i] == 0
  {
    seq(n, _ => 0)
  }

  type Address = s: seq<byte> | |s| == 20 witness Zeros(20)

  type Word = s: seq<byte> | |s| == 32 witness Zeros(32)

  const ZERO_WORD: Word := Zeros(32)

  function Pow256(n: nat): (p: nat)
    ensures p >= 1
  {
    if n == 0 then 1 else 256 * Pow256(n - 1)
  }

  /** The number a byte string denotes, most significant byte first. */
  function BeValue(s: seq<byte>): nat {
    if s == [] then 0 else 256 * BeValue(s[..|s| - 1]) + s[|s| - 1]
  }

  lemma {:induction false} BeValueBound(s: seq<byte>)
    ensures BeValue(s) < Pow256(|s|)
  {
    if s == [] {
    } else {
      BeValueBound(s[..|s| - 1]);
    }
  }

  lemma ScaleSum(h: int, p: int, l: int)
    ensures 256 * (h * p + l) == h * (256 * p) + 256 * l
  {
  }

  lemma {:induction false} BeValueConcat(x: seq<byte>, y: seq<byte>)
    ensures BeValue(x + y) == BeValue(x) * Pow256(|y|) + BeValue(y)
  {
    if y == [] {
      assert x + y == x;
    } else {
      var y' := y[..|y| - 1];
      assert (x + y)[..|x + y| - 1] == x + y';
      BeValueConcat(x, y');
      ScaleSum(BeValue(x), Pow256(|y'|), BeValue(y'));
    }
  }

  lemma MulMonotone(a: nat, b: nat, p: nat)
    requires a <= b
    ensures a * p <= b * p
  {
  }

  lemma PlaceValueOrder(h: nat, h': nat, p: nat, l: nat, l': nat)
    requires l < p && l' < p
    ensures h * p + l < h' * p + l' <==> h < h' || (h == h' && l < l')
  {
    if h < h' {
      assert h * p + p == (h + 1) * p <= h' * p by { MulMonotone(h + 1, h', p); }
    } else if h > h' {
      assert h' * p + p == (h' + 1) * p <= h * p by { MulMonotone(h' + 1, h, p); }
    }
  }

  /** Comparing high parts first and low parts on a tie is comparing the numbers. */
  lemma BeValueConcatLess(x: seq<byte>, y: seq<byte>, x': seq<byte>, y': seq<byte>)
    requires |y| == |y'|
    ensures BeValue(x + y) < BeValue(x' + y')
            <==> BeValue(x) < BeValue(x') || (BeValue(x) == BeValue(x') && BeValue(y) < BeValue(y'))
  {
    var p := Pow256(|y|);
    BeValueConcat(x, y);
    BeValueConcat(x', y');
    BeValueBound(y);
    BeValueBound(y');
    PlaceValueOrder(BeValue(x), BeValue(x'), p, BeValue(y), BeValue(y'));
  }

  lemma {:induction false} BeValueInjective(x: seq<byte>, y: seq<byte>)
    requires |x| == |y| && BeValue(x) == BeValue(y)
    ensures x == y
  {
    if x == [] {
    } else {
      var x', y' := x[..|x| - 1], y[..|y| - 1];
      assert x == x' + [x[|x| - 1]] && y == y' + [y[|y| - 1]];
      BeValueInjective(x', y');
    }
  }

  lemma {:induction false} BeValueZeros(n: nat)
    ensures BeValue(Zeros(n)) == 0
  {
    if n == 0 {
    } else {
      assert Zeros(n)[..n - 1] == Zeros(n - 1);
      BeValueZeros(n - 1);
    }
  }

  /** Leading zero bytes do not change the number. */
  lemma BeValuePadded(n: nat, s: seq<byte>)
    ensures BeValue(Zeros(n) + s) == BeValue(s)
  {
    BeValueConcat(Zeros(n), s);
    BeValueZeros(n);
  }
}
