/**
 * The five cage operations and their evaluation over a list of cell values
 * (`Operation.calculate`).  Swift's `Int` is modelled as unbounded `int`;
 * Swift's `/` truncates toward zero, which `TruncDiv` writes out.
 */
module Operations {
  import opened Wrappers

  /** Swift's `abs`: the magnitude, never negative. */
  function Abs(x: int): (magnitude: int)
    ensures magnitude >= 0 && (magnitude == x || magnitude == -x)
  {
    if x < 0 then -x else x
  }

  /** The smaller of two values: Swift's `min`, or the first of two sorted values. */
  function Min(a: int, b: int): (m: int)
    ensures m <= a && m <= b && (m == a || m == b)
  {
    if a <= b then a else b
  }

  /** The larger of two values: the last of two sorted values. */
  function Max(a: int, b: int): (m: int)
    ensures m >= a && m >= b && (m == a || m == b)
  {
    if a <= b then b else a
  }

  /** Quotient rounded toward zero, as Swift's `Int` division computes it. */
  function TruncDiv(a: int, b: int): (q: int)
    requires b != 0
    ensures Abs(a - b * q) < Abs(b)
    ensures a >= 0 ==> a - b * q >= 0
    ensures a <= 0 ==> a - b * q <= 0
  {
    var q := if (a < 0) == (b < 0) then Abs(a) / Abs(b) else -(Abs(a) / Abs(b));
    TruncatedRemainder(a, b, q);
    q
  }

  /** The quotient of the magnitudes, signed, leaves a remainder with the sign of `a`. */
  lemma TruncatedRemainder(a: int, b: int, q: int)
    requires b != 0
    requires q == if (a < 0) == (b < 0) then Abs(a) / Abs(b) else -(Abs(a) / Abs(b))
    ensures Abs(a - b * q) < Abs(b)
    ensures a >= 0 ==> a - b * q >= 0
    ensures a <= 0 ==> a - b * q <= 0
  {
    var x, y := Abs(a), Abs(b);
    var q0, r0 := x / y, x % y;
    assert x == y * q0 + r0 && 0 <= r0 < y;
    MulSigns(y, q0);
    if a >= 0 && b > 0 {
      assert a - b * q == r0;
    } else if a >= 0 {
      assert b == -y && q == -q0;
      assert a - b * q == r0;
    } else if b > 0 {
      assert b == y && q == -q0;
      assert a - b * q == -r0;
    } else {
      assert b == -y && q == q0;
      assert a - b * q == -r0;
    }
  }

  lemma MulSigns(u: int, v: int)
    ensures (-u) * (-v) == u * v && (-u) * v == -(u * v) && u * (-v) == -(u * v)
  {
  }

  /** Swift's `%`: the remainder that goes with `TruncDiv`, carrying the sign of `a`. */
  function TruncRem(a: int, b: int): (r: int)
    requires b != 0
    ensures Abs(r) < Abs(b)
    ensures a >= 0 ==> r >= 0
    ensures a <= 0 ==> r <= 0
  {
    a - b * TruncDiv(a, b)
  }

  /** `values.reduce(0, +)` */
  function Sum(values: seq<int>): (sum: int)
    ensures (forall k :: 0 <= k < |values| ==> values[k] >= 1) ==> sum >= |values|
  {
    if values == [] then 0 else values[0] + Sum(values[1..])
  }

  /** `values.reduce(1, *)` */
  function Product(values: seq<int>): (product: int)
    ensures product == 0 <==> exists k :: 0 <= k < |values| && values[k] == 0
  {
    if values == [] then 1 else values[0] * Product(values[1..])
  }

  /** The operation of a cage; `NoOp` is the source's `.none`, the operation of a one-cell cage. */
  datatype Operation = Add | Subtract | Multiply | Divide | NoOp
  {
    /**
     * The value the operation yields from the cell values, or `None` for an
     * empty list, a Subtract or Divide over other than two values, and a
     * Divide whose smaller value is zero.
     */
    function Calculate(values: seq<int>): (r: Option<int>)
      ensures r.None? <==>
        || |values| == 0
        || ((this == Subtract || this == Divide) && |values| != 2)
        || (this == Divide && |values| == 2 && Min(values[0], values[1]) == 0)
      ensures r.Some? && this == Add ==> r.value == Sum(values)
      ensures r.Some? && this == Multiply ==> r.value == Product(values)
      ensures r.Some? && this == Subtract ==>
        r.value >= 0 && (r.value == values[0] - values[1] || r.value == values[1] - values[0])
      ensures r.Some? && this == NoOp ==> r.value == values[0]
    {
      if |values| == 0 then None
      else
        match this
        case Add => Some(Sum(values))
        case Subtract => if |values| != 2 then None else Some(Abs(values[0] - values[1]))
        case Multiply => Some(Product(values))
        case Divide =>
          if |values| != 2 then None
          else
            // values.sorted(by: >) of two elements
            var larger := if values[0] >= values[1] then values[0] else values[1];
            var smaller := if values[0] >= values[1] then values[1] else values[0];
            if smaller != 0 then Some(TruncDiv(larger, smaller)) else None
        case NoOp => Some(values[0])
    }
  }

  /** Divide sorts its two values first, so their order does not matter. */
  lemma DivideIgnoresOrder(a: int, b: int)
    ensures Divide.Calculate([a, b]) == Divide.Calculate([b, a])
    ensures Min(a, b) != 0 ==> Divide.Calculate([a, b]) == Some(TruncDiv(Max(a, b), Min(a, b)))
  {
  }

  /** On positive values Divide is the floor of the larger over the smaller, exact or not. */
  lemma DivideFloors(a: int, b: int)
    requires 0 < a && 0 < b
    ensures Divide.Calculate([a, b]) == Some(Max(a, b) / Min(a, b))
  {
  }

  lemma DivideExamples()
    ensures Divide.Calculate([6, 3]) == Some(2)
    ensures Divide.Calculate([3, 6]) == Some(2)
    ensures Divide.Calculate([5, 2]) == Some(2)
  {
    DivideFloors(6, 3);
    DivideFloors(3, 6);
    DivideFloors(5, 2);
  }

  /** Dropping the element at `k` takes `s[k]` out of the sum. */
  lemma {:induction false} SumRemoveAt(s: seq<int>, k: nat)
    requires k < |s|
    ensures Sum(s) == s[k] + Sum(s[..k] + s[k + 1..])
  {
    if k > 0 {
      SumRemoveAt(s[1..], k - 1);
      assert s[..k] + s[k + 1..] == [s[0]] + (s[1..][..k - 1] + s[1..][k..]);
    } else {
      assert s[..k] + s[k + 1..] == s[1..];
    }
  }

  lemma {:induction false} ProductRemoveAt(s: seq<int>, k: nat)
    requires k < |s|
    ensures Product(s) == s[k] * Product(s[..k] + s[k + 1..])
  {
    if k > 0 {
      ProductRemoveAt(s[1..], k - 1);
      var rest := s[1..][..k - 1] + s[1..][k..];
      assert s[..k] + s[k + 1..] == [s[0]] + rest;
      var first, picked, others := s[0], s[k], Product(rest);
      assert Product(s) == first * (picked * others);
      assert first * (picked * others) == picked * (first * others);
    } else {
      assert s[..k] + s[k + 1..] == s[1..];
    }
  }

  /** Removing `s[k]` from `s` removes one copy of it from the multiset. */
  lemma RemoveAtMultiset(s: seq<int>, k: nat)
    requires k < |s|
    ensures multiset(s[..k] + s[k + 1..]) == multiset(s) - multiset{s[k]}
  {
    assert s == s[..k] + [s[k]] + s[k + 1..];
    assert multiset(s) == multiset(s[..k]) + multiset{s[k]} + multiset(s[k + 1..]);
  }

  /** Index of some occurrence of `x` in `s`. */
  lemma IndexOf(s: seq<int>, x: int) returns (k: nat)
    requires x in multiset(s)
    ensures k < |s| && s[k] == x
  {
    assert x in s;
    k :| 0 <= k < |s| && s[k] == x;
  }

  lemma {:induction false} SumPermutation(a: seq<int>, b: seq<int>)
    requires multiset(a) == multiset(b)
    ensures Sum(a) == Sum(b)
    decreases |a|
  {
    if a == [] {
      assert |b| == |multiset(b)| == 0;
    } else {
      assert a == [a[0]] + a[1..];
      assert multiset(a) == multiset{a[0]} + multiset(a[1..]);
      var k := IndexOf(b, a[0]);
      RemoveAtMultiset(b, k);
      SumRemoveAt(b, k);
      SumPermutation(a[1..], b[..k] + b[k + 1..]);
    }
  }

  lemma {:induction false} ProductPermutation(a: seq<int>, b: seq<int>)
    requires multiset(a) == multiset(b)
    ensures Product(a) == Product(b)
    decreases |a|
  {
    if a == [] {
      assert |b| == |multiset(b)| == 0;
    } else {
      assert a == [a[0]] + a[1..];
      assert multiset(a) == multiset{a[0]} + multiset(a[1..]);
      var k := IndexOf(b, a[0]);
      RemoveAtMultiset(b, k);
      ProductRemoveAt(b, k);
      ProductPermutation(a[1..], b[..k] + b[k + 1..]);
    }
  }

  /**
   * The result does not depend on the order of the values, except for
   * `NoOp` over several values (it takes the first).  A cage's cells are a
   * `Set` in the source, whose iteration order is unspecified; this is why
   * listing them in a fixed order loses nothing.
   */
  lemma CalculateIgnoresOrder(op: Operation, a: seq<int>, b: seq<int>)
    requires multiset(a) == multiset(b)
    requires op == NoOp ==> |a| <= 1
    ensures op.Calculate(a) == op.Calculate(b)
  {
    assert |a| == |multiset(a)| == |multiset(b)| == |b|;
    match op
    case Add => SumPermutation(a, b);
    case Multiply => ProductPermutation(a, b);
    case NoOp =>
      if |a| == 1 {
        assert a == [a[0]] && b == [b[0]];
        assert multiset(a) == multiset{a[0]} && multiset(b) == multiset{b[0]};
      }
    case Subtract => TwoElementOrders(a, b);
    case Divide => TwoElementOrders(a, b);
  }

  lemma TwoElementOrders(a: seq<int>, b: seq<int>)
    requires multiset(a) == multiset(b) && |a| == |b|
    ensures |a| == 2 ==> b == a || b == [a[1], a[0]]
  {
    if |a| == 2 {
      assert a == [a[0], a[1]] && b == [b[0], b[1]];
      assert multiset(a) == multiset{a[0], a[1]};
      assert multiset(b) == multiset{b[0], b[1]};
      assert b[0] in multiset(a);
      if b[0] == a[0] {
        assert multiset{b[1]} == multiset(b) - multiset{b[0]} == multiset{a[1]};
        assert b[1] in multiset{a[1]};
      } else {
        assert b[0] == a[1];
        assert multiset{b[1]} == multiset(b) - multiset{b[0]} == multiset{a[0]};
        assert b[1] in multiset{a[0]};
      }
    }
  }
}
