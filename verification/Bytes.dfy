/** Bytes, byte strings and the arithmetic of circular positions, shared by every component. */
module Bytes {

  /** An unsigned char. */
  newtype Byte = x: int | 0 <= x < 256

  datatype Option<+T> = None | Some(value: T)

  function Min(a: nat, b: nat): nat {
    if a < b then a else b
  }

  function Max(a: nat, b: nat): nat {
    if a < b then b else a
  }

  /** The byte strings of `parts`, one after the other. */
  function Concat<T>(parts: seq<seq<T>>): seq<T> {
    if parts == [] then [] else parts[0] + Concat(parts[1..])
  }

  lemma {:induction false} ConcatAppend<T>(a: seq<seq<T>>, b: seq<seq<T>>)
    ensures Concat(a + b) == Concat(a) + Concat(b)
  {
    if a == [] {
      assert a + b == b;
    } else {
      ConcatAppend(a[1..], b);
      assert (a + b)[1..] == a[1..] + b;
    }
  }

  lemma ConcatSnoc<T>(a: seq<seq<T>>, x: seq<T>)
    ensures Concat(a + [x]) == Concat(a) + x
  {
    ConcatAppend(a, [x]);
  }

  lemma Associate<T>(a: seq<T>, b: seq<T>, c: seq<T>)
    ensures a + (b + c) == (a + b) + c
  {
  }

  /** The slot of absolute position `p` on a circle of `m` slots. */
  function Slot(p: nat, m: nat): (r: nat)
    requires 0 < m
    ensures r < m
    decreases p
  {
    if p < m then p else Slot(p - m, m)
  }

  /** `Slot` is the remainder that the code computes. */
  lemma {:induction false} SlotIsMod(p: nat, m: nat)
    requires 0 < m
    ensures Slot(p, m) == p % m
    decreases p
  {
    if p >= m {
      SlotIsMod(p - m, m);
      var q := (p - m) / m;
      assert p - m == q * m + (p - m) % m;
      ModUnique(p, m, q + 1, (p - m) % m);
    }
  }

  /** The remainder of a number that is written as a multiple of `m` plus a small rest. */
  lemma ModUnique(x: int, m: int, q: int, r: int)
    requires m > 0 && 0 <= r < m && x == q * m + r
    ensures x % m == r
  {
    var d := x / m - q;
    assert x == m * (x / m) + x % m;
    assert m * d == r - x % m;
    assert d >= 1 ==> m * d >= m;
    assert d <= -1 ==> m * d <= -m;
  }

  /** Going `i <= m` steps round a circle of `m` slots from absolute position `p`. */
  lemma {:induction false} SlotStep(p: nat, i: nat, m: nat)
    requires 0 < m && i <= m
    ensures Slot(p + i, m) == if Slot(p, m) + i < m then Slot(p, m) + i else Slot(p, m) + i - m
    decreases p
  {
    if p >= m {
      SlotStep(p - m, i, m);
    } else if p + i >= m {
      assert Slot(p + i, m) == Slot(p + i - m, m);
    }
  }
}
