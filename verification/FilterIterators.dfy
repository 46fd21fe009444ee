/** The single-pass filter iterator over a range of elements. */
module FilterIterators {
  function Filter<T>(keep: T -> bool, s: seq<T>): seq<T> {
    if s == [] then [] else (if keep(s[0]) then [s[0]] else []) + Filter(keep, s[1..])
  }

  /** `isspace`, with the unsigned subtraction written out. */
  predicate IsSpace(c: char) {
    c == ' ' || (c as int - '\t' as int) % 0x1_0000_0000 < 5
  }

  predicate IsNotSpace(c: char) {
    !IsSpace(c)
  }

  lemma SpacesAreTheSixOfC(c: char)
    ensures IsSpace(c) <==> c in {' ', '\t', '\n', '\U{000B}', '\U{000C}', '\r'}
  {
    var k := c as int - 9;
    assert k < 0 ==> k % 0x1_0000_0000 == k + 0x1_0000_0000;
  }

  class FilterIterator<T(0)> {
    const source: seq<T>
    const keep: T -> bool
    const begin: nat
    const end: nat
    var base: nat
    var value: T                // cached, because the base range may be read only once
    ghost var reads_: seq<nat>  // the positions dereferenced so far

    /** The cached value is current, and every position up to it has been read exactly once, in order. */
    ghost predicate Valid()
      reads this
    {
      && begin <= base <= end <= |source|
      && (base < end ==> keep(source[base]) && value == source[base])
      && reads_ == seq((if base < end then base + 1 else end) - begin, i requires 0 <= i => begin + i)
    }

    /** What the walk will still yield. */
    ghost function Remaining(): seq<T>
      reads this
      requires Valid()
    {
      Filter(keep, source[base..end])
    }

    method ForwardToNextValue()
      requires begin <= base <= end <= |source|
      requires reads_ == seq(base - begin, i requires 0 <= i => begin + i)
      modifies this
      ensures Valid()
      ensures Remaining() == Filter(keep, source[old(base)..end]) && base >= old(base)
    {
      while base != end
        invariant begin <= old(base) <= base <= end
        invariant reads_ == seq(base - begin, i requires 0 <= i => begin + i)
        invariant Filter(keep, source[base..end]) == Filter(keep, source[old(base)..end])
        decreases end - base
      {
        value := source[base];
        reads_ := reads_ + [base];
        if keep(value) {
          break;
        }
        assert source[base..end][1..] == source[base + 1..end];
        base := base + 1;
      }
    }

    constructor (source: seq<T>, keep: T -> bool, it: nat, end: nat)
      requires it <= end <= |source|
      ensures Valid() && Remaining() == Filter(keep, source[it..end])
      ensures this.source == source && this.keep == keep && this.begin == it && this.end == end
    {
      this.source, this.keep, this.begin, this.end := source, keep, it, end;
      base := it;
      reads_ := [];
      new;
      ForwardToNextValue();
    }

    method Deref() returns (v: T)
      requires Valid() && base != end
      ensures Remaining() != [] && v == Remaining()[0]
    {
      assert source[base..end][0] == source[base];
      v := value;
    }

    method Increment()
      requires Valid() && base != end
      modifies this
      ensures Valid() && Remaining() == old(Remaining())[1..]
      ensures base > old(base)
    {
      ghost var s := source[base..end];
      assert s[0] == source[base] && s[1..] == source[base + 1..end];
      base := base + 1;
      ForwardToNextValue();
    }

    method NotEqual(o: FilterIterator<T>) returns (b: bool)
      ensures b <==> base != o.base
    {
      b := base != o.base;
    }
  }

  lemma MoveHead<T>(done: seq<T>, left: seq<T>)
    requires left != []
    ensures done + left == done + [left[0]] + left[1..]
  {
  }

  /** Walking to the end yields exactly the elements that satisfy the predicate, and reads every element once, in order. */
  method Walk<T(0)>(s: seq<T>, keep: T -> bool) returns (out: seq<T>, ghost positions: seq<nat>)
    ensures out == Filter(keep, s)
    ensures positions == seq(|s|, i requires 0 <= i => i)
  {
    var it := new FilterIterator(s, keep, 0, |s|);
    var end := new FilterIterator(s, keep, |s|, |s|);
    assert s[0..|s|] == s;
    out := [];
    var more := it.NotEqual(end);
    while more
      invariant it.Valid() && fresh(it) && it.source == s && it.begin == 0 && it.end == |s|
                && it.keep == keep && end.base == |s| && it != end
      invariant more <==> it.base != |s|
      invariant out + it.Remaining() == Filter(keep, s)
      decreases |s| - it.base
    {
      var v := it.Deref();
      MoveHead(out, it.Remaining());
      out := out + [v];
      it.Increment();
      more := it.NotEqual(end);
    }
    positions := it.reads_;
  }

  /** The filter keeps exactly the satisfying elements, with their multiplicity. */
  lemma {:induction false} FilterKeepsExactly<T>(keep: T -> bool, s: seq<T>, x: T)
    ensures multiset(Filter(keep, s))[x] == if keep(x) then multiset(s)[x] else 0
  {
    if s == [] {
    } else {
      assert s == [s[0]] + s[1..];
      FilterKeepsExactly(keep, s[1..], x);
    }
  }
}
