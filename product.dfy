/**
 * `cartesian_product`: the n-ary Cartesian product of one-dimensional index
 * sequences, in the order of `itertools.product` (lexicographic, the last
 * sequence varying fastest), with a `repeat` count that repeats the whole
 * argument list.
 */
module CartesianProduct {

  import opened Optional

  /** `tf.range(lo, hi)`: lo, lo + 1, ..., hi - 1 (empty when hi <= lo). */
  function Range(lo: int, hi: int): (r: seq<int>)
    ensures Increasing(r)
    ensures forall v :: v in r <==> lo <= v < hi
  {
    if hi <= lo then []
    else
      var r := seq(hi - lo, i => lo + i);
      assert forall v {:trigger v in r} :: lo <= v < hi ==> v == r[v - lo];
      r
  }

  /** The number of combinations: the product of the lengths. */
  function Count<T>(seqs: seq<seq<T>>): nat
  {
    if |seqs| == 0 then 1 else |seqs[0]| * Count(seqs[1..])
  }

  function Power(b: nat, e: nat): nat
  {
    if e == 0 then 1 else b * Power(b, e - 1)
  }

  /** Every row of `rows` with `x` put in front. */
  function Prefixed<T>(x: T, rows: seq<seq<T>>): seq<seq<T>>
  {
    seq(|rows|, i requires 0 <= i < |rows| => [x] + rows[i])
  }

  /** For each element of `head` in turn, all of `rows` prefixed with it. */
  function Expand<T>(head: seq<T>, rows: seq<seq<T>>): seq<seq<T>>
  {
    if |head| == 0 then [] else Prefixed(head[0], rows) + Expand(head[1..], rows)
  }

  /** The product of `seqs`, one row per combination, last sequence fastest. */
  function Product<T>(seqs: seq<seq<T>>): seq<seq<T>>
  {
    if |seqs| == 0 then [[]] else Expand(seqs[0], Product(seqs[1..]))
  }

  /** Python's `tensors * repeat`: the list concatenated `repeat` times. */
  function Repeated<T>(seqs: seq<seq<T>>, repeat: int): seq<seq<T>>
    decreases repeat
  {
    if repeat <= 0 then [] else seqs + Repeated(seqs, repeat - 1)
  }

  /**
   * `cartesian_product(*tensors, repeat=repeat)`. When the repeated argument
   * list is empty, the source stacks no grids and reshapes the empty stack to
   * `(-1, 0)`, where the `-1` cannot be inferred from zero elements. The model
   * takes that call to fail: `None`. The itertools product it imitates would
   * give one empty row instead (see `EmptyArguments`).
   */
  function CartesianProductOf<T>(tensors: seq<seq<T>>, repeat: int): (r: Option<seq<seq<T>>>)
    ensures r.Some? <==> |tensors| > 0 && repeat > 0
  {
    var all := Repeated(tensors, repeat);
    RepeatedLength(tensors, repeat);
    assert repeat > 0 ==> (|tensors| * repeat > 0 <==> |tensors| > 0);
    if |all| == 0 then None else Some(Product(all))
  }

  /**
   * The index into `seqs[j]` that row `n` uses: digit `j` of `n` written in
   * the mixed radix whose bases are the lengths, the last digit the least
   * significant.
   */
  function Digit<T>(seqs: seq<seq<T>>, n: nat, j: nat): (d: nat)
    requires n < Count(seqs) && j < |seqs|
    ensures d < |seqs[j]|
  {
    CountFactors(seqs, j);
    (n / Count(seqs[j + 1..])) % |seqs[j]|
  }

  predicate Increasing(s: seq<int>)
  {
    forall i, j :: 0 <= i < j < |s| ==> s[i] < s[j]
  }

  /** Strict lexicographic order on integer rows. */
  predicate LexLess(a: seq<int>, b: seq<int>)
  {
    exists k :: 0 <= k < |a| && k < |b| && a[..k] == b[..k] && a[k] < b[k]
  }

  // ---------------------------------------------------------------------
  // Arithmetic helpers

  lemma {:induction false} MulAtLeast(k: int, d: int)
    requires k >= 1 && d >= 0
    ensures k * d >= d
    decreases k
  {
    if k > 1 {
      MulAtLeast(k - 1, d);
      assert k * d == (k - 1) * d + d;
    }
  }

  /** A multiple of `d` below `d` has a non-positive factor. */
  lemma MulBelow(k: int, d: int)
    requires d > 0 && k * d < d
    ensures k <= 0
  {
    if k >= 1 {
      MulAtLeast(k, d);
    }
  }

  lemma DivModUnique(n: int, d: int, q: int, r: int)
    requires d > 0 && 0 <= r < d && n == q * d + r
    ensures n / d == q && n % d == r
  {
    var q0, r0 := n / d, n % d;
    assert n == q0 * d + r0;
    assert (q - q0) * d == r0 - r;
    MulBelow(q - q0, d);
    assert (q0 - q) * d == r - r0;
    MulBelow(q0 - q, d);
  }

  lemma DivStep(k: int, w: int)
    requires w > 0 && k >= w
    ensures k / w == (k - w) / w + 1 && k % w == (k - w) % w
  {
    DivModUnique(k, w, (k - w) / w + 1, (k - w) % w);
  }

  lemma DivMonotone(n: nat, m: nat, d: nat)
    requires d > 0 && n <= m
    ensures n / d <= m / d
  {
    var a, b := n / d, m / d;
    assert a * d + n % d == n && b * d + m % d == m;
    assert (a - b) * d == a * d - b * d;
    MulBelow(a - b, d);
  }

  /** A bound `n < a * c` bounds the quotient by `c`. */
  lemma DivBound(n: nat, a: nat, c: nat)
    requires n < a * c
    ensures c > 0 && 0 <= n / c < a && 0 <= n % c < c
  {
    if c > 0 {
      var q := n / c;
      assert q * c <= n;
      assert (q - a + 1) * c == q * c - a * c + c;
      MulBelow(q - a + 1, c);
      assert (-q) * c == n % c - n;
      MulBelow(-q, c);
    }
  }

  lemma PositiveFactors(a: nat, b: nat, c: nat)
    requires a * b * c > 0
    ensures a > 0 && b > 0 && c > 0
  {
  }

  /** Taking the remainder by a multiple of `m * s` does not change digit `n / s` modulo `m`. */
  lemma ModDivMod(n: nat, p: nat, m: nat, s: nat)
    requires p > 0 && m > 0 && s > 0
    ensures ((n % (p * m * s)) / s) % m == (n / s) % m
  {
    var N := p * m * s;
    var q, r := n / N, n % N;
    assert n == q * N + r;
    var a, b := r / s, r % s;
    assert r == a * s + b;
    assert n == (q * p * m + a) * s + b;
    DivModUnique(n, s, q * p * m + a, b);
    var e, f := a / m, a % m;
    assert a == e * m + f;
    assert q * p * m + a == (q * p + e) * m + f;
    DivModUnique(q * p * m + a, m, q * p + e, f);
  }

  // ---------------------------------------------------------------------
  // Size of the product

  lemma {:induction false} CountAppend<T>(a: seq<seq<T>>, b: seq<seq<T>>)
    ensures Count(a + b) == Count(a) * Count(b)
  {
    if |a| > 0 {
      assert (a + b)[1..] == a[1..] + b;
      CountAppend(a[1..], b);
    } else {
      assert a + b == b;
    }
  }

  lemma {:induction false} CountFactors<T>(seqs: seq<seq<T>>, j: nat)
    requires j < |seqs|
    ensures Count(seqs) == Count(seqs[..j]) * |seqs[j]| * Count(seqs[j + 1..])
  {
    assert seqs == seqs[..j] + ([seqs[j]] + seqs[j + 1..]);
    CountAppend(seqs[..j], [seqs[j]] + seqs[j + 1..]);
    CountAppend([seqs[j]], seqs[j + 1..]);
    assert Count([seqs[j]]) == |seqs[j]|;
  }

  /** The product is empty exactly when one of the sequences is. */
  lemma {:induction false} CountZero<T>(seqs: seq<seq<T>>)
    ensures Count(seqs) == 0 <==> exists j :: 0 <= j < |seqs| && |seqs[j]| == 0
  {
    if |seqs| > 0 {
      CountZero(seqs[1..]);
      if exists j :: 0 <= j < |seqs| && |seqs[j]| == 0 {
        var j :| 0 <= j < |seqs| && |seqs[j]| == 0;
        if j > 0 {
          assert |seqs[1..][j - 1]| == 0;
        }
      }
      if Count(seqs[1..]) == 0 {
        var j :| 0 <= j < |seqs[1..]| && |seqs[1..][j]| == 0;
        assert |seqs[j + 1]| == 0;
      }
    }
  }

  lemma {:induction false} ExpandLength<T>(head: seq<T>, rows: seq<seq<T>>)
    ensures |Expand(head, rows)| == |head| * |rows|
  {
    if |head| > 0 {
      ExpandLength(head[1..], rows);
    }
  }

  /** Row `n` of `Expand(head, rows)` is head element `n / |rows|` before row `n % |rows|`. */
  lemma {:induction false} ExpandAt<T>(head: seq<T>, rows: seq<seq<T>>, n: nat)
    requires n < |head| * |rows|
    ensures |rows| > 0 && 0 <= n / |rows| < |head| && 0 <= n % |rows| < |rows|
    ensures |Expand(head, rows)| == |head| * |rows|
    ensures Expand(head, rows)[n] == [head[n / |rows|]] + rows[n % |rows|]
  {
    ExpandLength(head, rows);
    var c := |rows|;
    DivBound(n, |head|, c);
    var tail := Expand(head[1..], rows);
    assert Expand(head, rows) == Prefixed(head[0], rows) + tail;
    if n < c {
      DivModUnique(n, c, 0, n);
    } else {
      assert |head| * c == |head[1..]| * c + c;
      ExpandAt(head[1..], rows, n - c);
      DivStep(n, c);
    }
  }

  /** There are exactly as many rows as combinations. */
  lemma {:induction false} ProductLength<T>(seqs: seq<seq<T>>)
    ensures |Product(seqs)| == Count(seqs)
  {
    if |seqs| > 0 {
      ProductLength(seqs[1..]);
      ExpandLength(seqs[0], Product(seqs[1..]));
    }
  }

  // ---------------------------------------------------------------------
  // Contents and order of the product

  /** Digit 0 of `n` is its quotient by the number of combinations of the other sequences. */
  lemma DigitHead<T>(seqs: seq<seq<T>>, n: nat)
    requires 0 < |seqs| && n < Count(seqs)
    ensures Count(seqs[1..]) > 0 && n / Count(seqs[1..]) < |seqs[0]|
    ensures Digit(seqs, n, 0) == n / Count(seqs[1..])
  {
    var c := Count(seqs[1..]);
    assert Count(seqs) == |seqs[0]| * c;
    DivBound(n, |seqs[0]|, c);
    var q := n / c;
    DivModUnique(q, |seqs[0]|, 0, q);
    assert Digit(seqs, n, 0) == q % |seqs[0]|;
  }

  /** Digit `j` of `n` is digit `j - 1` of `n` reduced modulo the size of the tail product. */
  lemma DigitTail<T>(seqs: seq<seq<T>>, n: nat, j: nat)
    requires 0 < j < |seqs| && n < Count(seqs)
    ensures Count(seqs[1..]) > 0 && n % Count(seqs[1..]) < Count(seqs[1..])
    ensures Digit(seqs[1..], n % Count(seqs[1..]), j - 1) == Digit(seqs, n, j)
  {
    var rest := seqs[1..];
    assert seqs[j + 1..] == rest[j..];
    var s := Count(rest[j..]);
    var c := Count(rest);
    DivBound(n, |seqs[0]|, c);
    CountFactors(rest, j - 1);
    var pp := Count(rest[..j - 1]);
    var m := |rest[j - 1]|;
    PositiveFactors(pp, m, s);
    ModDivMod(n, pp, m, s);
    assert Digit(seqs, n, j) == (n / s) % m;
    assert Digit(rest, n % c, j - 1) == ((n % c) / s) % m;
  }

  /**
   * Row `n` of the product has one column per sequence, and column `j` is
   * element `Digit(seqs, n, j)` of `seqs[j]`: the rows enumerate the
   * mixed-radix numbers 0, 1, ... in order, the last sequence fastest.
   */
  lemma {:induction false} ProductRow<T>(seqs: seq<seq<T>>, n: nat)
    requires n < Count(seqs)
    ensures |Product(seqs)| == Count(seqs)
    ensures |Product(seqs)[n]| == |seqs|
    ensures forall j :: 0 <= j < |seqs| ==> Product(seqs)[n][j] == seqs[j][Digit(seqs, n, j)]
  {
    ProductLength(seqs);
    if |seqs| > 0 {
      var head, rest := seqs[0], seqs[1..];
      var P := Product(rest);
      ProductLength(rest);
      var c := |P|;
      DigitHead(seqs, n);
      ExpandAt(head, P, n);
      var m := n % c;
      ProductRow(rest, m);
      assert Product(seqs)[n] == [head[n / c]] + P[m];
      forall j | 0 < j < |seqs|
        ensures Product(seqs)[n][j] == seqs[j][Digit(seqs, n, j)]
      {
        DigitTail(seqs, n, j);
      }
    }
  }

  lemma {:induction false} ExpandMember<T>(head: seq<T>, rows: seq<seq<T>>, r: seq<T>)
    ensures r in Expand(head, rows) <==> |r| > 0 && r[0] in head && r[1..] in rows
  {
    if |head| > 0 {
      ExpandMember(head[1..], rows, r);
      var pre := Prefixed(head[0], rows);
      if r in pre {
        var i :| 0 <= i < |pre| && pre[i] == r;
        assert r[1..] == rows[i];
      }
      if |r| > 0 && r[0] == head[0] && r[1..] in rows {
        var i :| 0 <= i < |rows| && rows[i] == r[1..];
        assert pre[i] == r;
      }
      assert head == [head[0]] + head[1..];
    }
  }

  /** A sequence is a row of the product exactly when it picks one element of each sequence. */
  lemma {:induction false} ProductMember<T>(seqs: seq<seq<T>>, r: seq<T>)
    ensures r in Product(seqs) <==> |r| == |seqs| && forall j :: 0 <= j < |seqs| ==> r[j] in seqs[j]
  {
    if |seqs| > 0 {
      var rest := seqs[1..];
      ExpandMember(seqs[0], Product(rest), r);
      if |r| > 0 {
        ProductMember(rest, r[1..]);
        if |r| == |seqs| && forall j :: 0 <= j < |seqs| ==> r[j] in seqs[j] {
          forall j | 0 <= j < |rest| ensures r[1..][j] in rest[j] {
            assert r[j + 1] in seqs[j + 1];
          }
        }
        if r in Product(seqs) {
          forall j | 0 <= j < |seqs| ensures r[j] in seqs[j] {
            if j > 0 {
              assert r[1..][j - 1] in rest[j - 1];
            }
          }
        }
      }
    }
  }

  /**
   * When every sequence is strictly increasing (as a `tf.range` is), the
   * rows are strictly increasing in lexicographic order.
   */
  lemma {:induction false} ProductSorted(seqs: seq<seq<int>>)
    requires forall j :: 0 <= j < |seqs| ==> Increasing(seqs[j])
    ensures forall n, n' :: 0 <= n < n' < |Product(seqs)| ==> LexLess(Product(seqs)[n], Product(seqs)[n'])
  {
    if |seqs| > 0 {
      var head, rest := seqs[0], seqs[1..];
      var P := Product(rest);
      ProductSorted(rest);
      ExpandLength(head, P);
      forall n, n' | 0 <= n < n' < |Product(seqs)|
        ensures LexLess(Product(seqs)[n], Product(seqs)[n'])
      {
        ExpandOrdered(head, P, n, n');
      }
    }
  }

  lemma ExpandOrdered(head: seq<int>, P: seq<seq<int>>, n: nat, n': nat)
    requires Increasing(head)
    requires forall i, i' :: 0 <= i < i' < |P| ==> LexLess(P[i], P[i'])
    requires n < n' < |head| * |P|
    ensures |Expand(head, P)| == |head| * |P|
    ensures LexLess(Expand(head, P)[n], Expand(head, P)[n'])
  {
    var c := |P|;
    ExpandAt(head, P, n);
    ExpandAt(head, P, n');
    DivMonotone(n, n', c);
    var q, q' := n / c, n' / c;
    if q == q' {
      SameQuotient(n, n', c);
    } else {
      assert head[q] < head[q'];
    }
    PrefixLexLess(head[q], head[q'], P[n % c], P[n' % c]);
  }

  lemma SameQuotient(n: nat, n': nat, c: nat)
    requires c > 0 && n < n' && n / c == n' / c
    ensures n % c < n' % c
  {
  }

  /** Putting a first column in front keeps rows ordered when that column does not decrease. */
  lemma PrefixLexLess(x: int, y: int, a: seq<int>, b: seq<int>)
    requires x < y || (x == y && LexLess(a, b))
    ensures LexLess([x] + a, [y] + b)
  {
    if x < y {
      assert ([x] + a)[..0] == ([y] + b)[..0];
    } else {
      var k :| 0 <= k < |a| && k < |b| && a[..k] == b[..k] && a[k] < b[k];
      assert ([x] + a)[..k + 1] == [x] + a[..k];
      assert ([y] + b)[..k + 1] == [y] + b[..k];
      assert ([x] + a)[k + 1] == a[k];
    }
  }

  /** Rows that are strictly ordered are distinct. */
  lemma LexLessDistinct(a: seq<int>, b: seq<int>)
    requires LexLess(a, b)
    ensures a != b
  {
  }

  // ---------------------------------------------------------------------
  // The repeat argument

  /** `tensors * repeat` holds `repeat` copies of the list, one after another. */
  lemma {:induction false} RepeatedShape<T>(seqs: seq<seq<T>>, repeat: int)
    ensures |Repeated(seqs, repeat)| == |seqs| * (if repeat <= 0 then 0 else repeat)
    ensures forall i :: 0 <= i < |Repeated(seqs, repeat)| ==> Repeated(seqs, repeat)[i] == seqs[i % |seqs|]
    ensures Count(Repeated(seqs, repeat)) == Power(Count(seqs), if repeat <= 0 then 0 else repeat)
  {
    RepeatedLength(seqs, repeat);
    RepeatedCount(seqs, repeat);
    forall i | 0 <= i < |Repeated(seqs, repeat)| ensures Repeated(seqs, repeat)[i] == seqs[i % |seqs|] {
      RepeatedAt(seqs, repeat, i);
    }
  }

  lemma {:induction false} RepeatedLength<T>(seqs: seq<seq<T>>, repeat: int)
    ensures |Repeated(seqs, repeat)| == |seqs| * (if repeat <= 0 then 0 else repeat)
    decreases repeat
  {
    if repeat > 0 {
      RepeatedLength(seqs, repeat - 1);
      assert |seqs| * repeat == |seqs| + |seqs| * (repeat - 1);
    }
  }

  lemma {:induction false} RepeatedAt<T>(seqs: seq<seq<T>>, repeat: int, i: int)
    requires 0 <= i < |Repeated(seqs, repeat)|
    ensures |seqs| > 0 && Repeated(seqs, repeat)[i] == seqs[i % |seqs|]
    decreases repeat
  {
    var R := Repeated(seqs, repeat - 1);
    assert Repeated(seqs, repeat) == seqs + R;
    if i < |seqs| {
      DivModUnique(i, |seqs|, 0, i);
    } else {
      var i' := i - |seqs|;
      RepeatedAt(seqs, repeat - 1, i');
      DivModUnique(i, |seqs|, i' / |seqs| + 1, i' % |seqs|);
    }
  }

  lemma {:induction false} RepeatedCount<T>(seqs: seq<seq<T>>, repeat: int)
    ensures Count(Repeated(seqs, repeat)) == Power(Count(seqs), if repeat <= 0 then 0 else repeat)
    decreases repeat
  {
    if repeat > 0 {
      RepeatedCount(seqs, repeat - 1);
      CountAppend(seqs, Repeated(seqs, repeat - 1));
    }
  }

  /**
   * When `cartesian_product` succeeds, it has the product of the lengths,
   * raised to `repeat`, rows of width `|tensors| * repeat`, and no rows when
   * a sequence is empty.
   */
  lemma CartesianProductShape<T>(tensors: seq<seq<T>>, repeat: int)
    ensures CartesianProductOf(tensors, repeat).Some? ==>
      && |CartesianProductOf(tensors, repeat).value| == Power(Count(tensors), repeat)
      && (forall row :: row in CartesianProductOf(tensors, repeat).value ==> |row| == |tensors| * repeat)
    ensures (exists j :: 0 <= j < |tensors| && |tensors[j]| == 0) ==>
      CartesianProductOf(tensors, repeat) == None || CartesianProductOf(tensors, repeat).value == []
  {
    var all := Repeated(tensors, repeat);
    RepeatedShape(tensors, repeat);
    ProductLength(all);
    CountZero(tensors);
    if repeat > 0 {
      assert |tensors| * repeat > 0 <==> |tensors| > 0;
      forall row | row in Product(all) ensures |row| == |tensors| * repeat {
        ProductMember(all, row);
      }
      if exists j :: 0 <= j < |tensors| && |tensors[j]| == 0 {
        PowerZero(repeat);
      }
    }
  }

  /**
   * With no tensors, or `repeat <= 0`, there is no result, where
   * `itertools.product` gives the single empty row that `Product` also gives.
   */
  lemma EmptyArguments<T>(tensors: seq<seq<T>>, repeat: int)
    requires |tensors| == 0 || repeat <= 0
    ensures CartesianProductOf(tensors, repeat) == None
    ensures Product(Repeated(tensors, repeat)) == [[]]
  {
    RepeatedLength(tensors, repeat);
    assert Repeated(tensors, repeat) == [];
  }

  lemma PowerZero(e: nat)
    requires e > 0
    ensures Power(0, e) == 0
  {
  }

  /**
   * The docstring's grid: `cartesian_product(range(a), range(b))` is the
   * product of the two ranges, and its row `n` is `[n / b, n % b]`.
   */
  lemma GridRow(a: nat, b: nat, n: nat)
    requires n < a * b
    ensures CartesianProductOf([Range(0, a), Range(0, b)], 1) == Some(Product([Range(0, a), Range(0, b)]))
    ensures |Product([Range(0, a), Range(0, b)])| == a * b
    ensures Product([Range(0, a), Range(0, b)])[n] == [n / b, n % b]
  {
    var seqs := [Range(0, a), Range(0, b)];
    assert Repeated(seqs, 0) == [] && Repeated(seqs, 1) == seqs + [] == seqs;
    assert seqs[1..] == [Range(0, b)] && seqs[2..] == [];
    assert Count(seqs[1..]) == b;
    assert Count(seqs) == a * b;
    DivBound(n, a, b);
    ProductRow(seqs, n);
    DigitHead(seqs, n);
    assert Digit(seqs, n, 1) == (n / 1) % b;
  }

  /** `cartesian_product([0, 1], [0, 1, 2])`: the six rows of the product, in order. */
  lemma SmallProduct()
    ensures CartesianProductOf([[0, 1], [0, 1, 2]], 1) == Some(Product([[0, 1], [0, 1, 2]]))
    ensures Product([[0, 1], [0, 1, 2]]) == [[0, 0], [0, 1], [0, 2], [1, 0], [1, 1], [1, 2]]
  {
    assert Repeated([[0, 1], [0, 1, 2]], 1) == [[0, 1], [0, 1, 2]] + [];
    var unit: seq<seq<int>> := [[]];
    var inner := [[0], [1], [2]];
    assert Product<int>([]) == unit;
    assert Expand([], unit) == [];
    assert Prefixed(2, unit) == [[2]] by {
      var p := Prefixed(2, unit);
      assert |p| == 1 && p[0] == [2];
    }
    assert Expand([2], unit) == [[2]] by {
      assert [2][1..] == [];
    }
    assert Prefixed(1, unit) == [[1]] by {
      var p := Prefixed(1, unit);
      assert |p| == 1 && p[0] == [1];
    }
    assert Expand([1, 2], unit) == [[1], [2]] by {
      assert [1, 2][1..] == [2];
    }
    assert Prefixed(0, unit) == [[0]] by {
      var p := Prefixed(0, unit);
      assert |p| == 1 && p[0] == [0];
    }
    assert Expand([0, 1, 2], unit) == inner by {
      assert [0, 1, 2][1..] == [1, 2];
    }
    assert Product([[0, 1, 2]]) == inner by {
      assert [[0, 1, 2]][1..] == [];
    }
    assert Expand([], inner) == [];
    assert Prefixed(1, inner) == [[1, 0], [1, 1], [1, 2]] by {
      var p := Prefixed(1, inner);
      assert |p| == 3 && p[0] == [1, 0] && p[1] == [1, 1] && p[2] == [1, 2];
    }
    assert Expand([1], inner) == [[1, 0], [1, 1], [1, 2]] by {
      assert [1][1..] == [];
    }
    assert Prefixed(0, inner) == [[0, 0], [0, 1], [0, 2]] by {
      var p := Prefixed(0, inner);
      assert |p| == 3 && p[0] == [0, 0] && p[1] == [0, 1] && p[2] == [0, 2];
    }
    assert Expand([0, 1], inner) == [[0, 0], [0, 1], [0, 2], [1, 0], [1, 1], [1, 2]] by {
      assert [0, 1][1..] == [1];
    }
    assert [[0, 1], [0, 1, 2]][1..] == [[0, 1, 2]];
  }
}
