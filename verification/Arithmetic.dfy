/** Facts about division that the wrap-around proofs share. */
module Arithmetic {
  lemma {:induction false} SmallMultiple(d: int, cycle: int, product: int)
    requires 0 < cycle && d * cycle == product && -cycle < product < cycle
    ensures d == 0
  {
  }

  lemma {:induction false} ModuloIsRemainder(x: int, laps: int, cycle: int, rest: int)
    requires 0 <= rest < cycle
    requires x == rest + laps * cycle
    ensures x % cycle == rest && x / cycle == laps
  {
    var q, r := x / cycle, x % cycle;
    calc {
      (q - laps) * cycle;
      q * cycle - laps * cycle;
      (x - r) - (x - rest);
      rest - r;
    }
    SmallMultiple(q - laps, cycle, rest - r);
  }

  lemma {:induction false} NextModulo(x: int, cycle: int)
    requires 0 <= x < cycle
    ensures (x + 1) % cycle == if x + 1 == cycle then 0 else x + 1
  {
    ModuloIsRemainder(x + 1, if x + 1 == cycle then 1 else 0, cycle, if x + 1 == cycle then 0 else x + 1);
  }

  /** A quotient grows by one exactly at the multiples of the divisor. */
  lemma {:induction false} NextQuotient(x: nat, cycle: nat)
    requires 0 < cycle && 1 <= x
    ensures x / cycle == (x - 1) / cycle + if x % cycle == 0 then 1 else 0
  {
    var q, r := x / cycle, x % cycle;
    if r == 0 {
      ModuloIsRemainder(x - 1, q - 1, cycle, cycle - 1);
    } else {
      ModuloIsRemainder(x - 1, q, cycle, r - 1);
    }
  }

  /** A wrap-around of the larger field is a wrap-around of the whole. */
  lemma {:induction false} CarryModulo(upper: nat, x: nat, y: nat, radix: nat, cycle: nat, whole: nat, total: nat)
    requires 0 < radix && 0 < cycle && whole == cycle * radix
    requires upper == x % cycle
    ensures 0 < whole
    requires total == (upper * radix + y) % whole
    ensures total == (x * radix + y) % whole
  {
    var q := x / cycle;
    var low := upper * radix + y;
    var p := low / whole;
    calc {
      x * radix + y;
      (cycle * q + upper) * radix + y;
      (cycle * q) * radix + low;
      { assert (cycle * q) * radix == q * whole; }
      q * whole + low;
      q * whole + (p * whole + total);
      total + (q + p) * whole;
    }
    ModuloIsRemainder(x * radix + y, q + p, whole, total);
  }

  lemma {:induction false} BlocksInOrder(m: int, e: int, block: int, offset: int)
    requires 0 <= offset < block
    ensures m * block + offset < e * block <==> m < e
  {
    if m < e {
      assert (m + 1) * block <= e * block;
    } else {
      assert e * block <= m * block;
    }
  }

  lemma {:induction false} OffsetInBlock(cur: nat, rest: nat, unit: nat, radix: nat)
    requires cur < radix && rest < unit
    ensures 0 <= cur * unit + rest < unit * radix
  {
    assert (cur + 1) * unit <= radix * unit;
  }

  /** Stepping off the start of a whole block stays in it: on the cycle, and on either side of `end`. */
  lemma {:induction false} SameBlock(m: int, block: int, p: int, q: int, cycle: int, end: int)
    requires 0 <= p < block && 0 <= q < block && 0 < cycle
    requires cycle % block == 0 && end % block == 0
    ensures (m * block + q) % cycle == (m * block + p) % cycle + q - p
    ensures (m * block + p) % cycle < end <==> (m * block + q) % cycle < end
  {
    var c, e := cycle / block, end / block;
    var laps := (m * block + p) / cycle;
    var n := m - laps * c;
    assert cycle == c * block && end == e * block;
    assert n * block == m * block - laps * cycle by {
      assert (laps * c) * block == laps * (c * block);
      assert n * block == m * block - (laps * c) * block;
    }
    assert (m * block + p) % cycle == n * block + p;
    BlocksInOrder(n, c, block, p);
    BlocksInOrder(n, c, block, q);
    BlocksInOrder(n, 0, block, p);
    BlocksInOrder(n, 0, block, q);
    ModuloIsRemainder(m * block + q, laps, cycle, n * block + q);
    BlocksInOrder(n, e, block, p);
    BlocksInOrder(n, e, block, q);
  }

  /** A carry into the next field and a new value of this one move `i` by `n` units, and inside one block. */
  lemma {:induction false} CarryMoves(i: int, unit: nat, radix: nat, cur: nat, rest: nat, carry: int, next: nat,
                                      n: int, cycle: int, end: int)
    requires cur < radix && next < radix && rest < unit
    requires carry * radix + next - cur == n
    ensures 0 < unit * radix
    requires i % (unit * radix) == cur * unit + rest
    requires 0 < cycle && cycle % (unit * radix) == 0 && end % (unit * radix) == 0
    ensures
      var (whole, all) := ((i + carry * (unit * radix)) % cycle, (i + n * unit) % cycle);
      all == whole + (next - cur) * unit && (whole < end <==> all < end)
  {
    OffsetInBlock(cur, rest, unit, radix);
    OffsetInBlock(next, rest, unit, radix);
    var block := unit * radix;
    var p, q := cur * unit + rest, next * unit + rest;
    UnitsOfCarry(unit, radix, carry, next - cur, n);
    assert q - p == (next - cur) * unit;
    WholeBlocks(i, block, p, carry);
    SameBlock(i / block + carry, block, p, q, cycle, end);
  }

  lemma {:induction false} UnitsOfCarry(unit: int, radix: int, carry: int, step: int, n: int)
    requires carry * radix + step == n
    ensures n * unit == carry * (unit * radix) + step * unit
  {
    calc {
      n * unit;
      (carry * radix) * unit + step * unit;
      carry * (unit * radix) + step * unit;
    }
  }

  lemma {:induction false} WholeBlocks(i: int, block: nat, p: int, carry: int)
    requires 0 < block && i % block == p
    ensures (i / block + carry) * block + p == i + carry * block
  {
  }

  /** Going round a cycle in two moves is going round it in one. */
  lemma {:induction false} TwoMoves(x: int, y: int, cycle: int)
    requires 0 < cycle
    ensures (x % cycle + y) % cycle == (x + y) % cycle
  {
    var laps, more := x / cycle, (x % cycle + y) / cycle;
    assert (laps + more) * cycle == laps * cycle + more * cycle;
    ModuloIsRemainder(x + y, laps + more, cycle, (x % cycle + y) % cycle);
  }

  lemma {:induction false} AtMostHalf(quotient: nat, radix: nat, amount: nat)
    requires 2 <= radix && quotient * radix <= amount
    ensures 2 * quotient <= amount
  {
    assert quotient * 2 <= quotient * radix;
  }
}
