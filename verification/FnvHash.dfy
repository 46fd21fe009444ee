/** The FNV-1a based hash of addresses and 32-byte keys, with 64-bit wrap-around written out. */
module FnvHash {
  import opened ByteStrings
  import opened WordCompare

  const TWO_64: nat := 0x1_0000_0000_0000_0000
  const FNV_PRIME: nat := 0x100_0000_01b3
  const OFFSET_BASIS: nat := 0xcbf2_9ce4_8422_2325

  type uint64 = x: nat | x < TWO_64

  /** The low `n` bits of the bitwise exclusive or. */
  function Xor(x: nat, y: nat, n: nat): nat {
    if n == 0 then 0 else (x + y) % 2 + 2 * Xor(x / 2, y / 2, n - 1)
  }

  function Pow2(n: nat): nat {
    if n == 0 then 1 else 2 * Pow2(n - 1)
  }

  lemma {:induction false} XorBound(x: nat, y: nat, n: nat)
    ensures Xor(x, y, n) < Pow2(n)
  {
    if n == 0 {
    } else {
      XorBound(x / 2, y / 2, n - 1);
    }
  }

  lemma {:induction false} XorCommutes(x: nat, y: nat, n: nat)
    ensures Xor(x, y, n) == Xor(y, x, n)
  {
    if n == 0 {
    } else {
      XorCommutes(x / 2, y / 2, n - 1);
    }
  }

  lemma BitAndRest(b: nat, r: nat, b': nat, r': nat)
    requires b < 2 && b' < 2 && b + 2 * r == b' + 2 * r'
    ensures b == b' && r == r'
  {
  }

  lemma SameBit(x: nat, x': nat, y: nat)
    requires (x + y) % 2 == (x' + y) % 2
    ensures x % 2 == x' % 2
  {
  }

  /** The bit at place `k`. */
  function Bit(x: nat, k: nat): nat {
    if k == 0 then x % 2 else Bit(x / 2, k - 1)
  }

  lemma BitOfSum(b: nat, r: nat, k: nat)
    requires b < 2
    ensures Bit(b + 2 * r, k) == if k == 0 then b else Bit(r, k - 1)
  {
  }

  lemma DifferentBits(x: nat, y: nat)
    ensures (x + y) % 2 == 1 <==> x % 2 != y % 2
  {
  }

  /** A bit of the exclusive or is set exactly where the bits differ. */
  lemma {:induction false} XorBits(x: nat, y: nat, n: nat, k: nat)
    requires k < n
    ensures Bit(Xor(x, y, n), k) == 1 <==> Bit(x, k) != Bit(y, k)
    decreases n
  {
    BitOfSum((x + y) % 2, Xor(x / 2, y / 2, n - 1), k);
    if k == 0 {
      DifferentBits(x, y);
    } else {
      XorBits(x / 2, y / 2, n - 1, k - 1);
    }
  }

  lemma {:induction false} XorInjective(x: nat, x': nat, y: nat, n: nat)
    requires x < Pow2(n) && x' < Pow2(n) && Xor(x, y, n) == Xor(x', y, n)
    ensures x == x'
  {
    if n == 0 {
    } else {
      BitAndRest((x + y) % 2, Xor(x / 2, y / 2, n - 1), (x' + y) % 2, Xor(x' / 2, y / 2, n - 1));
      SameBit(x, x', y);
      XorInjective(x / 2, x' / 2, y / 2, n - 1);
    }
  }

  lemma {:induction false} Pow2Sum(m: nat, n: nat)
    ensures Pow2(m + n) == Pow2(m) * Pow2(n)
  {
    if m == 0 {
    } else {
      Pow2Sum(m - 1, n);
    }
  }

  lemma Pow2Of64()
    ensures Pow2(64) == TWO_64
  {
    assert Pow2(4) == 16;
    Pow2Sum(4, 4);
    Pow2Sum(8, 8);
    Pow2Sum(16, 16);
    Pow2Sum(32, 32);
  }

  /** The 64-bit exclusive or. */
  function Xor64(x: uint64, y: uint64): uint64 {
    Pow2Of64();
    XorBound(x, y, 64);
    Xor(x, y, 64)
  }

  lemma Xor64Injective(x: uint64, x': uint64, y: uint64, y': uint64)
    ensures Xor64(x, y) == Xor64(x', y) ==> x == x'
    ensures Xor64(x, y) == Xor64(x, y') ==> y == y'
  {
    Pow2Of64();
    if Xor64(x, y) == Xor64(x', y) {
      XorInjective(x, x', y, 64);
    }
    if Xor64(x, y) == Xor64(x, y') {
      XorCommutes(x, y, 64);
      XorCommutes(x, y', 64);
      XorInjective(y, y', x, 64);
    }
  }

  function Fnv1aBy64(h: uint64, x: uint64): uint64 {
    (Xor64(h, x) * FNV_PRIME) % TWO_64
  }

  /** The inverse of the (odd) prime modulo 2^64. */
  const FNV_INVERSE: nat := 0xce96_5057_aff6_957b

  lemma ModOfSum(z: uint64, t: int)
    ensures (z + t * TWO_64) % TWO_64 == z
  {
  }

  /** Multiplying by the inverse of the prime undoes the multiplication by the prime. */
  lemma PrimeIsInvertible(z: uint64)
    ensures ((z * FNV_PRIME) % TWO_64 * FNV_INVERSE) % TWO_64 == z
  {
    var k := FNV_PRIME * FNV_INVERSE / TWO_64;
    assert FNV_PRIME * FNV_INVERSE == 1 + k * TWO_64;
    var q := z * FNV_PRIME / TWO_64;
    var r := (z * FNV_PRIME) % TWO_64;
    assert r == z * FNV_PRIME - q * TWO_64;
    calc {
      r * FNV_INVERSE;
      z * FNV_PRIME * FNV_INVERSE - q * TWO_64 * FNV_INVERSE;
      z * (FNV_PRIME * FNV_INVERSE) - q * FNV_INVERSE * TWO_64;
      z + (z * k - q * FNV_INVERSE) * TWO_64;
    }
    ModOfSum(z, z * k - q * FNV_INVERSE);
  }

  /** The transformation is injective in each of its two arguments. */
  lemma Fnv1aInjective(h: uint64, h': uint64, x: uint64, x': uint64)
    ensures Fnv1aBy64(h, x) == Fnv1aBy64(h', x) ==> h == h'
    ensures Fnv1aBy64(h, x) == Fnv1aBy64(h, x') ==> x == x'
  {
    PrimeIsInvertible(Xor64(h, x));
    PrimeIsInvertible(Xor64(h', x));
    PrimeIsInvertible(Xor64(h, x'));
    Xor64Injective(h, h', x, x');
  }

  function HashAddress(s: Address): uint64 {
    Fnv1aBy64(Fnv1aBy64(Fnv1aBy64(OFFSET_BASIS, Load64le(s)), Load64le(s[8..])), Load32le(s[16..]))
  }

  function HashWord(s: Word): uint64 {
    Fnv1aBy64(
      Fnv1aBy64(Fnv1aBy64(Fnv1aBy64(OFFSET_BASIS, Load64le(s)), Load64le(s[8..])), Load64le(s[16..])),
      Load64le(s[24..]))
  }

  /** The words a hash loads, in the order it folds them. */
  function LoadedFromAddress(s: Address): seq<uint64> {
    [Load64le(s), Load64le(s[8..]), Load32le(s[16..])]
  }

  function LoadedFromWord(s: Word): seq<uint64> {
    [Load64le(s), Load64le(s[8..]), Load64le(s[16..]), Load64le(s[24..])]
  }

  /** The loads are little-endian, eight bytes each, from the first byte to the last. */
  lemma LoadsInOrder(a: Address, s: Word, k: nat)
    ensures k < 2 ==> LoadedFromAddress(a)[k] == LeValue(a[8 * k..8 * k + 8])
    ensures LoadedFromAddress(a)[2] == LeValue(a[16..20])
    ensures k < 4 ==> LoadedFromWord(s)[k] == LeValue(s[8 * k..8 * k + 8])
  {
    LoadsAreLittleEndian(a[16..20]);
    if k < 2 {
      LoadsAreLittleEndian(a[8 * k..8 * k + 8]);
    }
    if k < 4 {
      LoadsAreLittleEndian(s[8 * k..8 * k + 8]);
    }
  }

  type Mixer = (uint64, uint64) -> uint64

  function Fold(f: Mixer, h: uint64, ws: seq<uint64>): uint64
    decreases |ws|
  {
    if ws == [] then h else Fold(f, f(h, ws[0]), ws[1..])
  }

  ghost predicate InjectiveInEach(f: Mixer) {
    && (forall h: uint64, h': uint64, x: uint64 :: f(h, x) == f(h', x) ==> h == h')
    && (forall h: uint64, x: uint64, x': uint64 :: f(h, x) == f(h, x') ==> x == x')
  }

  lemma {:induction false} FoldInjective(f: Mixer, h: uint64, h': uint64, ws: seq<uint64>)
    requires InjectiveInEach(f) && Fold(f, h, ws) == Fold(f, h', ws)
    ensures h == h'
    decreases |ws|
  {
    if ws == [] {
    } else {
      FoldInjective(f, f(h, ws[0]), f(h', ws[0]), ws[1..]);
    }
  }

  /** Changing exactly one of any number of folded words changes the hash. */
  lemma {:induction false} FoldSeparates(f: Mixer, h: uint64, ws: seq<uint64>, k: nat, w: uint64)
    requires InjectiveInEach(f) && k < |ws| && ws[k] != w
    ensures Fold(f, h, ws) != Fold(f, h, ws[k := w])
    decreases |ws|
  {
    var ws' := ws[k := w];
    if k == 0 {
      assert ws'[1..] == ws[1..];
      if Fold(f, h, ws) == Fold(f, h, ws') {
        FoldInjective(f, f(h, ws[0]), f(h, w), ws[1..]);
      }
    } else {
      assert ws'[1..] == ws[1..][k - 1 := w];
      FoldSeparates(f, f(h, ws[0]), ws[1..], k - 1, w);
    }
  }

  lemma FnvInjectiveInEach()
    ensures InjectiveInEach(Fnv1aBy64)
  {
    forall h: uint64, h': uint64, x: uint64
      ensures Fnv1aBy64(h, x) == Fnv1aBy64(h', x) ==> h == h'
    {
      Fnv1aInjective(h, h', x, x);
    }
    forall h: uint64, x: uint64, x': uint64
      ensures Fnv1aBy64(h, x) == Fnv1aBy64(h, x') ==> x == x'
    {
      Fnv1aInjective(h, h, x, x');
    }
  }

  lemma {:induction false} FoldLast(f: Mixer, h: uint64, ws: seq<uint64>, w: uint64)
    ensures Fold(f, h, ws + [w]) == f(Fold(f, h, ws), w)
    decreases |ws|
  {
    if ws == [] {
    } else {
      assert (ws + [w])[1..] == ws[1..] + [w];
      FoldLast(f, f(h, ws[0]), ws[1..], w);
    }
  }

  lemma FoldUnfolds(f: Mixer, h: uint64, w0: uint64, w1: uint64, w2: uint64, w3: uint64)
    ensures Fold(f, h, [w0, w1, w2]) == f(f(f(h, w0), w1), w2)
    ensures Fold(f, h, [w0, w1, w2, w3]) == f(f(f(f(h, w0), w1), w2), w3)
  {
    assert [] + [w0] == [w0] && [w0] + [w1] == [w0, w1] && [w0, w1] + [w2] == [w0, w1, w2];
    assert [w0, w1, w2] + [w3] == [w0, w1, w2, w3];
    FoldLast(f, h, [], w0);
    FoldLast(f, h, [w0], w1);
    FoldLast(f, h, [w0, w1], w2);
    FoldLast(f, h, [w0, w1, w2], w3);
  }

  lemma AddressLoadsDiffer(a: Address, b: Address)
    requires a != b
    ensures LoadedFromAddress(a) != LoadedFromAddress(b)
  {
    if LoadedFromAddress(a) == LoadedFromAddress(b) {
      assert LoadedFromAddress(a)[0] == LoadedFromAddress(b)[0];
      assert LoadedFromAddress(a)[1] == LoadedFromAddress(b)[1];
      assert LoadedFromAddress(a)[2] == LoadedFromAddress(b)[2];
      assert AddressEqual(a, b);
      AddressCompareCorrect(a, b);
    }
  }

  lemma WordLoadsDiffer(a: Word, b: Word)
    requires a != b
    ensures LoadedFromWord(a) != LoadedFromWord(b)
  {
    if LoadedFromWord(a) == LoadedFromWord(b) {
      assert LoadedFromWord(a)[0] == LoadedFromWord(b)[0];
      assert LoadedFromWord(a)[1] == LoadedFromWord(b)[1];
      assert LoadedFromWord(a)[2] == LoadedFromWord(b)[2];
      assert LoadedFromWord(a)[3] == LoadedFromWord(b)[3];
      assert WordEqual(a, b);
      WordCompareCorrect(a, b);
    }
  }

  lemma AddressHashIsFold(a: Address)
    ensures HashAddress(a) == Fold(Fnv1aBy64, OFFSET_BASIS, LoadedFromAddress(a))
  {
    FoldUnfolds(Fnv1aBy64, OFFSET_BASIS, Load64le(a), Load64le(a[8..]), Load32le(a[16..]), 0);
  }

  lemma WordHashIsFold(s: Word)
    ensures HashWord(s) == Fold(Fnv1aBy64, OFFSET_BASIS, LoadedFromWord(s))
  {
    FoldUnfolds(Fnv1aBy64, OFFSET_BASIS, Load64le(s), Load64le(s[8..]), Load64le(s[16..]), Load64le(s[24..]));
  }

  /** Two addresses that differ in exactly one loaded word never collide. */
  lemma AddressHashSeparates(a: Address, b: Address, k: nat)
    requires a != b && k < 3 && LoadedFromAddress(b) == LoadedFromAddress(a)[k := LoadedFromAddress(b)[k]]
    ensures HashAddress(a) != HashAddress(b)
  {
    AddressHashIsFold(a);
    AddressHashIsFold(b);
    assert LoadedFromAddress(a)[k] != LoadedFromAddress(b)[k] by { AddressLoadsDiffer(a, b); }
    FnvInjectiveInEach();
    FoldSeparates(Fnv1aBy64, OFFSET_BASIS, LoadedFromAddress(a), k, LoadedFromAddress(b)[k]);
  }

  /** Two 32-byte keys that differ in exactly one loaded word never collide. */
  lemma WordHashSeparates(a: Word, b: Word, k: nat)
    requires a != b && k < 4 && LoadedFromWord(b) == LoadedFromWord(a)[k := LoadedFromWord(b)[k]]
    ensures HashWord(a) != HashWord(b)
  {
    WordHashIsFold(a);
    WordHashIsFold(b);
    assert LoadedFromWord(a)[k] != LoadedFromWord(b)[k] by { WordLoadsDiffer(a, b); }
    FnvInjectiveInEach();
    FoldSeparates(Fnv1aBy64, OFFSET_BASIS, LoadedFromWord(a), k, LoadedFromWord(b)[k]);
  }

  lemma {:induction false} XorZero(x: nat, n: nat)
    requires x < Pow2(n)
    ensures Xor(x, 0, n) == x
  {
    if n == 0 {
    } else {
      XorZero(x / 2, n - 1);
    }
  }

  function TimesPrime(h: uint64): uint64 {
    h * 0x100_0000_01b3 % 0x1_0000_0000_0000_0000
  }

  lemma FnvOfZero(h: uint64)
    ensures Fnv1aBy64(h, 0) == TimesPrime(h)
  {
    Pow2Of64();
    XorZero(h, 64);
  }

  lemma ZeroLoads(d: seq<byte>)
    requires |d| >= 8 && forall i :: 0 <= i < |d| ==> d[i] == 0
    ensures Load64le(d) == 0 && Load32le(d) == 0
  {
  }

  lemma HashesOfZeroWords(a: Address, k: Word)
    requires (forall i :: 0 <= i < 20 ==> a[i] == 0) && (forall i :: 0 <= i < 32 ==> k[i] == 0)
    ensures HashAddress(a) == TimesPrime(TimesPrime(TimesPrime(OFFSET_BASIS)))
    ensures HashWord(k) == TimesPrime(TimesPrime(TimesPrime(TimesPrime(OFFSET_BASIS))))
  {
    var h := OFFSET_BASIS;
    FnvOfZero(h);
    FnvOfZero(TimesPrime(h));
    FnvOfZero(TimesPrime(TimesPrime(h)));
    FnvOfZero(TimesPrime(TimesPrime(TimesPrime(h))));
    ZeroLoads(a);
    ZeroLoads(a[8..]);
    assert Load32le(a[16..]) == 0;
    ZeroLoads(k);
    ZeroLoads(k[8..]);
    ZeroLoads(k[16..]);
    ZeroLoads(k[24..]);
  }

  lemma PowersOfPrime()
    ensures TimesPrime(0xcbf2_9ce4_8422_2325) == 0xaf63_bd4c_8601_b7df
    ensures TimesPrime(0xaf63_bd4c_8601_b7df) == 0x0832_8807_b4eb_6fed
    ensures TimesPrime(0x0832_8807_b4eb_6fed) == 0xd94d_1218_6c0f_2fb7
    ensures TimesPrime(0xd94d_1218_6c0f_2fb7) == 0x4d25_767f_9dce_13f5
  {
  }

  /** The hashes of the zero address and the zero key are the published ones. */
  lemma HashesOfZero(a: Address, k: Word)
    requires (forall i :: 0 <= i < 20 ==> a[i] == 0) && (forall i :: 0 <= i < 32 ==> k[i] == 0)
    ensures HashAddress(a) == 0xd94d_1218_6c0f_2fb7
    ensures HashWord(k) == 0x4d25_767f_9dce_13f5
  {
    HashesOfZeroWords(a, k);
    PowersOfPrime();
  }
}
