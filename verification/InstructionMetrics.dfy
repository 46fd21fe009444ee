/** The stack columns of the instruction metrics table (one entry for each of the 256 opcodes). */
module InstructionMetrics {
  import opened ByteStrings

  datatype Metrics = Metrics(required: nat, change: int)

  const UNDEFINED := Metrics(0, 0)

  /** What every entry promises a static checker: a met requirement keeps the height non-negative. */
  function StackMetrics(op: byte): (m: Metrics)
    ensures m.required + m.change >= 0
    ensures m.change <= 1
  {
    if op == 0x00 then Metrics(0, 0)
    else if op <= 0x07 || op in {0x0a, 0x0b} then Metrics(2, -1)
    else if op <= 0x09 then Metrics(3, -2)
    else if op <= 0x0f then UNDEFINED
    else if op in {0x15, 0x19} then Metrics(1, 0)
    else if op <= 0x1d || op == 0x20 then Metrics(2, -1)
    else if op <= 0x2f then UNDEFINED
    else if op in {0x31, 0x35, 0x3b, 0x3f, 0x40} then Metrics(1, 0)
    else if op in {0x37, 0x39, 0x3e} then Metrics(3, -3)
    else if op == 0x3c then Metrics(4, -4)
    else if op <= 0x48 then Metrics(0, 1)
    else if op <= 0x4f then UNDEFINED
    else if op in {0x50, 0x56} then Metrics(1, -1)
    else if op in {0x51, 0x54} then Metrics(1, 0)
    else if op in {0x52, 0x53, 0x55, 0x57} then Metrics(2, -2)
    else if op <= 0x5a then Metrics(0, 1)
    else if op == 0x5b then Metrics(0, 0)
    else if op <= 0x5e then UNDEFINED
    else if op <= 0x7f then Metrics(0, 1)
    else if op <= 0x8f then Metrics(op - 0x7f, 1)
    else if op <= 0x9f then Metrics(op - 0x8e, 0)
    else if op <= 0xa4 then Metrics(op - 0x9e, 0x9e - op)
    else if op == 0xf0 then Metrics(3, -2)
    else if op == 0xf1 then Metrics(7, -6)
    else if op in {0xf3, 0xfd} then Metrics(2, -2)
    else if op in {0xf4, 0xfa} then Metrics(6, -5)
    else if op == 0xf5 then Metrics(4, -3)
    else UNDEFINED
  }

  /** The entry of an instruction that takes `pops` operands and leaves `pushes` results. */
  function Arity(pops: nat, pushes: nat): Metrics {
    Metrics(pops, pushes - pops)
  }

  /** The numbered families: PUSHn, DUPn, SWAPn and LOGn. */
  lemma Families(n: nat)
    ensures n <= 32 ==> StackMetrics(0x5f + n) == Arity(0, 1)
    ensures 1 <= n <= 16 ==> StackMetrics(0x7f + n) == Arity(n, n + 1)
    ensures 1 <= n <= 16 ==> StackMetrics(0x8f + n) == Arity(n + 1, n + 1)
    ensures n <= 4 ==> StackMetrics(0xa0 + n) == Arity(n + 2, 0)
  {
  }

  /** Arithmetic, comparison, bitwise logic and hashing. */
  lemma Computations(op: byte)
    ensures op in {0x15, 0x19} ==> StackMetrics(op) == Arity(1, 1)
    ensures 0x01 <= op <= 0x07 || op in {0x0a, 0x0b} ==> StackMetrics(op) == Arity(2, 1)
    ensures 0x10 <= op <= 0x14 || 0x16 <= op <= 0x18 || 0x1a <= op <= 0x1d || op == 0x20
            ==> StackMetrics(op) == Arity(2, 1)
    ensures op in {0x08, 0x09} ==> StackMetrics(op) == Arity(3, 1)
  {
  }

  /** Questions about the environment, by what they are given. */
  lemma Queries(op: byte)
    ensures op in {0x30, 0x32, 0x33, 0x34, 0x36, 0x38, 0x3a, 0x3d} ==> StackMetrics(op) == Arity(0, 1)
    ensures 0x41 <= op <= 0x48 || 0x58 <= op <= 0x5a ==> StackMetrics(op) == Arity(0, 1)
    ensures op in {0x31, 0x35, 0x3b, 0x3f, 0x40, 0x51, 0x54} ==> StackMetrics(op) == Arity(1, 1)
  {
  }

  /** Copies to memory, stores, jumps, endings, calls and creations. */
  lemma Effects(op: byte)
    ensures op in {0x37, 0x39, 0x3e} ==> StackMetrics(op) == Arity(3, 0)
    ensures op == 0x3c ==> StackMetrics(op) == Arity(4, 0)
    ensures op in {0x50, 0x56} ==> StackMetrics(op) == Arity(1, 0)
    ensures op in {0x52, 0x53, 0x55, 0x57, 0xf3, 0xfd} ==> StackMetrics(op) == Arity(2, 0)
    ensures op == 0xf0 ==> StackMetrics(op) == Arity(3, 1)
    ensures op == 0xf1 ==> StackMetrics(op) == Arity(7, 1)
    ensures op in {0xf4, 0xfa} ==> StackMetrics(op) == Arity(6, 1)
    ensures op == 0xf5 ==> StackMetrics(op) == Arity(4, 1)
  {
  }

  /** What does nothing to the stack, and what is undefined. */
  lemma Inert(op: byte)
    ensures op in {0x00, 0x5b, 0xfe} ==> StackMetrics(op) == Arity(0, 0)
    ensures 0x0c <= op <= 0x0f || op in {0x1e, 0x1f} || 0x21 <= op <= 0x2f || 0x49 <= op <= 0x4f || 0x5c <= op <= 0x5e
            ==> StackMetrics(op) == UNDEFINED
    ensures 0xa5 <= op <= 0xef || 0xf6 <= op <= 0xf9 || op in {0xf2, 0xfb, 0xfc, 0xff} ==> StackMetrics(op) == UNDEFINED
  {
  }
}
