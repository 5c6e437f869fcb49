/**
 * The hidden solution: the cyclic Latin square `((i + j) % n) + 1`
 * reindexed through a row and a column permutation
 * (`MathMazeGame.generateLatinSquare`).
 */
module LatinSquare {

  /** `Set(s)`: the set of values listed in `s`. */
  function ToSet(s: seq<int>): (values: set<int>)
    ensures forall x :: x in values <==> x in s
  {
    set x | x in s
  }

  /** No entry of `s` repeats. */
  predicate Distinct<T(==)>(s: seq<T>)
  {
    forall a, b :: 0 <= a < b < |s| ==> s[a] != s[b]
  }

  /** `{1, ..., n}`, the source's `Set(1...n)`. */
  function OneTo(n: nat): (values: set<int>)
    ensures forall x :: x in values <==> 1 <= x <= n
  {
    if n == 0 then {} else OneTo(n - 1) + {n}
  }

  /** A row or column of a Latin square of order `n`: a permutation of 1..n. */
  predicate IsLine(line: seq<int>, n: nat)
  {
    && |line| == n
    && (forall k :: 0 <= k < |line| ==> 1 <= line[k] <= n)
    && Distinct(line)
  }

  /** `n` rows of `n` entries each: the hidden solution, or the player's grid. */
  predicate IsSquare<T>(square: seq<seq<T>>, n: nat)
  {
    |square| == n && forall i :: 0 <= i < n ==> |square[i]| == n
  }

  /** `(0..<n).map { square[$0][j] }`: the `j`-th column, one entry per row. */
  function Column<T>(square: seq<seq<T>>, j: nat): (column: seq<T>)
    requires forall i :: 0 <= i < |square| ==> j < |square[i]|
    ensures |column| == |square|
  {
    seq(|square|, i requires 0 <= i < |square| => square[i][j])
  }

  predicate IsLatinSquare(square: seq<seq<int>>, n: nat)
  {
    && IsSquare(square, n)
    && (forall i :: 0 <= i < n ==> IsLine(square[i], n))
    && (forall j :: 0 <= j < n ==> IsLine(Column(square, j), n))
  }

  /** A permutation of the indices `0..<n`, as `(0..<n).shuffled()` yields. */
  predicate IsPermutation(p: seq<int>, n: nat)
  {
    && |p| == n
    && (forall k :: 0 <= k < |p| ==> 0 <= p[k] < n)
    && Distinct(p)
  }

  function CyclicSquare(n: nat): (square: seq<seq<int>>)
    ensures IsSquare(square, n)
  {
    seq(n, i requires 0 <= i < n => seq(n, j requires 0 <= j < n => (i + j) % n + 1))
  }

  /** `shuffled[i][j] == square[rowPermutation[i]][colPermutation[j]]` */
  function Reindexed(square: seq<seq<int>>, n: nat, rowPermutation: seq<int>, colPermutation: seq<int>): (shuffled: seq<seq<int>>)
    requires IsSquare(square, n) && IsPermutation(rowPermutation, n) && IsPermutation(colPermutation, n)
    ensures IsSquare(shuffled, n)
  {
    seq(n, i requires 0 <= i < n =>
      seq(n, j requires 0 <= j < n => square[rowPermutation[i]][colPermutation[j]]))
  }

  /** The identity permutation: `shuffled()` may return the indices in order. */
  lemma IdentityIsPermutation(n: nat)
    ensures IsPermutation(seq(n, k => k), n)
  {
  }

  /** The first loop nest of `generateLatinSquare`: writes `((i + j) % n) + 1` into every cell. */
  method FillCyclic(size: nat) returns (square: seq<seq<int>>)
    ensures square == CyclicSquare(size)
  {
    square := seq(size, _ => seq(size, _ => 0));
    ghost var target := CyclicSquare(size);
    for i := 0 to size
      invariant IsSquare(square, size)
      invariant forall r :: 0 <= r < i ==> square[r] == target[r]
    {
      for j := 0 to size
        invariant IsSquare(square, size)
        invariant forall r :: 0 <= r < i ==> square[r] == target[r]
        invariant forall c :: 0 <= c < j ==> square[i][c] == target[i][c]
      {
        assert target[i][j] == (i + j) % size + 1;
        square := square[i := square[i][j := (i + j) % size + 1]];
      }
    }
  }

  /** The second loop nest: copies `square[rowPermutation[i]][colPermutation[j]]` into every cell. */
  method FillReindexed(square: seq<seq<int>>, size: nat, rowPermutation: seq<int>, colPermutation: seq<int>)
    returns (shuffledSquare: seq<seq<int>>)
    requires IsSquare(square, size) && IsPermutation(rowPermutation, size) && IsPermutation(colPermutation, size)
    ensures shuffledSquare == Reindexed(square, size, rowPermutation, colPermutation)
  {
    shuffledSquare := seq(size, _ => seq(size, _ => 0));
    ghost var target := Reindexed(square, size, rowPermutation, colPermutation);
    for i := 0 to size
      invariant IsSquare(shuffledSquare, size)
      invariant forall r :: 0 <= r < i ==> shuffledSquare[r] == target[r]
    {
      for j := 0 to size
        invariant IsSquare(shuffledSquare, size)
        invariant forall r :: 0 <= r < i ==> shuffledSquare[r] == target[r]
        invariant forall c :: 0 <= c < j ==> shuffledSquare[i][c] == target[i][c]
      {
        shuffledSquare := shuffledSquare[i := shuffledSquare[i][j := square[rowPermutation[i]][colPermutation[j]]]];
      }
    }
  }

  /**
   * `generateLatinSquare`, with the two shuffled index lists passed in:
   * fills the cyclic square cell by cell, then the reindexed one.  Its
   * result is a Latin square.
   */
  method GenerateLatinSquare(size: nat, rowPermutation: seq<int>, colPermutation: seq<int>) returns (shuffledSquare: seq<seq<int>>)
    requires IsPermutation(rowPermutation, size) && IsPermutation(colPermutation, size)
    ensures shuffledSquare == Reindexed(CyclicSquare(size), size, rowPermutation, colPermutation)
    ensures IsLatinSquare(shuffledSquare, size)
  {
    var square := FillCyclic(size);
    shuffledSquare := FillReindexed(square, size, rowPermutation, colPermutation);
    CyclicIsLatin(size);
    ReindexedIsLatin(square, size, rowPermutation, colPermutation);
  }

  lemma MulAtLeast(k: int, n: int)
    requires n > 0
    ensures k >= 1 ==> k * n >= n
    ensures k <= -1 ==> k * n <= -n
  {
  }

  /** Adding the same offset to two residues modulo `n` keeps them apart. */
  lemma ModShiftInjective(r: nat, x: nat, y: nat, n: nat)
    requires x < n && y < n && (r + x) % n == (r + y) % n
    ensures x == y
  {
    var a, b := r + x, r + y;
    assert a == (a / n) * n + a % n;
    assert b == (b / n) * n + b % n;
    var k := b / n - a / n;
    assert k * n == (b / n) * n - (a / n) * n;
    assert k * n == y - x;
    MulAtLeast(k, n);
  }

  lemma CyclicIsLatin(n: nat)
    ensures IsLatinSquare(CyclicSquare(n), n)
  {
    var sq := CyclicSquare(n);
    forall i | 0 <= i < n
      ensures IsLine(sq[i], n)
    {
      forall a, b | 0 <= a < b < n
        ensures sq[i][a] != sq[i][b]
      {
        if sq[i][a] == sq[i][b] {
          ModShiftInjective(i, a, b, n);
        }
      }
    }
    forall j | 0 <= j < n
      ensures IsLine(Column(sq, j), n)
    {
      var col := Column(sq, j);
      forall a, b | 0 <= a < b < n
        ensures col[a] != col[b]
      {
        if col[a] == col[b] {
          assert (j + a) % n == (a + j) % n && (j + b) % n == (b + j) % n;
          ModShiftInjective(j, a, b, n);
        }
      }
    }
  }

  /** Permuting the rows and the columns of a Latin square gives a Latin square. */
  lemma ReindexedIsLatin(square: seq<seq<int>>, n: nat, rowPermutation: seq<int>, colPermutation: seq<int>)
    requires IsLatinSquare(square, n)
    requires IsPermutation(rowPermutation, n) && IsPermutation(colPermutation, n)
    ensures IsLatinSquare(Reindexed(square, n, rowPermutation, colPermutation), n)
  {
    var sh := Reindexed(square, n, rowPermutation, colPermutation);
    forall i | 0 <= i < n
      ensures IsLine(sh[i], n)
    {
      var source := square[rowPermutation[i]];
      assert IsLine(source, n);
      forall a, b | 0 <= a < b < n
        ensures sh[i][a] != sh[i][b]
      {
        assert colPermutation[a] != colPermutation[b];
        assert sh[i][a] == source[colPermutation[a]] && sh[i][b] == source[colPermutation[b]];
      }
    }
    forall j | 0 <= j < n
      ensures IsLine(Column(sh, j), n)
    {
      var source := Column(square, colPermutation[j]);
      assert IsLine(source, n);
      var col := Column(sh, j);
      forall a, b | 0 <= a < b < n
        ensures col[a] != col[b]
      {
        assert rowPermutation[a] != rowPermutation[b];
        assert col[a] == source[rowPermutation[a]] && col[b] == source[rowPermutation[b]];
      }
      forall k | 0 <= k < n
        ensures 1 <= col[k] <= n
      {
        assert col[k] == source[rowPermutation[k]];
      }
    }
  }

  lemma {:induction false} ToSetBound(s: seq<int>)
    ensures |ToSet(s)| <= |s|
    ensures |ToSet(s)| == |s| <==> Distinct(s)
  {
    if s != [] {
      var t := s[1..];
      ToSetBound(t);
      assert ToSet(s) == {s[0]} + ToSet(t) by {
        assert forall x :: x in s <==> x == s[0] || x in t;
      }
      if s[0] in t {
        assert ToSet(s) == ToSet(t);
        var k :| 0 <= k < |t| && t[k] == s[0];
        assert s[0] == s[k + 1];
      } else {
        assert Distinct(s) <==> Distinct(t) by {
          if Distinct(t) {
            forall a, b | 0 <= a < b < |s|
              ensures s[a] != s[b]
            {
              if a > 0 {
                assert s[a] == t[a - 1] && s[b] == t[b - 1];
              } else {
                assert s[b] == t[b - 1];
              }
            }
          }
          if Distinct(s) {
            forall a, b | 0 <= a < b < |t|
              ensures t[a] != t[b]
            {
              assert t[a] == s[a + 1] && t[b] == s[b + 1];
            }
          }
        }
      }
    }
  }

  lemma {:induction false} OneToSize(n: nat)
    ensures |OneTo(n)| == n
  {
    if n > 0 {
      OneToSize(n - 1);
      assert n !in OneTo(n - 1);
    }
  }

  lemma SubsetSize<T>(a: set<T>, b: set<T>)
    requires a <= b
    ensures |a| <= |b|
    ensures |a| == |b| ==> a == b
  {
    assert b == a + (b - a) && a * (b - a) == {};
    assert |b| == |a| + |b - a|;
    if |a| == |b| {
      assert |b - a| == 0;
    }
  }

  /**
   * A list of `n` values is a permutation of 1..n exactly when the set of
   * its values is `{1, ..., n}`: the completion check's set test and the
   * Latin-square property say the same thing of a full line.
   */
  lemma LineIffOneTo(line: seq<int>, n: nat)
    requires |line| == n
    ensures IsLine(line, n) <==> ToSet(line) == OneTo(n)
  {
    ToSetBound(line);
    OneToSize(n);
    if IsLine(line, n) {
      assert ToSet(line) <= OneTo(n);
      SubsetSize(ToSet(line), OneTo(n));
    }
    if ToSet(line) == OneTo(n) {
      forall k | 0 <= k < |line|
        ensures 1 <= line[k] <= n
      {
        assert line[k] in ToSet(line);
      }
    }
  }
}
