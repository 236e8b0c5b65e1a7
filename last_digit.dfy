/**
 * last_digit_of_a_large_number.py: the last decimal digit of n1 ** n2, looked up in a table
 * of the cycles the last digits of powers run through, instead of computing the power.
 */
module LastDigit {

  /**
   * The `endings` dictionary: for each last digit d, the last digits of d^1, d^2, ... over
   * one period. (The comma missing after the row for 8 is restored.)
   */
  const Endings: map<int, seq<int>> := map[
    0 := [0],
    1 := [1],
    2 := [2, 4, 8, 6],
    3 := [3, 9, 7, 1],
    4 := [4, 6],
    5 := [5],
    6 := [6],
    7 := [7, 9, 3, 1],
    8 := [8, 4, 2, 6],
    9 := [9, 1]
  ]

  /** The table has a row for every decimal digit and for nothing else, and every row holds digits. */
  lemma EndingsShape()
    ensures forall d :: d in Endings <==> 0 <= d < 10
    ensures forall d :: d in Endings ==> 1 <= |Endings[d]| <= 4
    ensures forall d, i :: d in Endings && 0 <= i < |Endings[d]| ==> 0 <= Endings[d][i] < 10
  {
  }

  /** Python's `row[k]` for -|row| <= k < |row|: a negative index counts from the end. */
  function PyIndex(row: seq<int>, k: int): (e: int)
    requires -|row| <= k < |row|
  {
    if k < 0 then row[|row| + k] else row[k]
  }

  /**
   * `last_digit(n1, n2)`: 1 for a zero exponent; otherwise the row of n1's last digit (Python's
   * `%` by 10, never negative, which Dafny's `%` by a positive divisor agrees with), at index
   * `n2 % len(row) - 1`, where -1 is the last element.
   */
  function LastDigit(n1: int, n2: int): (d: int)
    ensures 0 <= d < 10
  {
    EndingsShape();
    if n2 == 0 then 1
    else
      var key := n1 % 10;
      var row := Endings[key];
      PyIndex(row, n2 % |row| - 1)
  }

  /** Python's `b ** e` for e >= 0. */
  function Pow(b: int, e: nat): (r: int) {
    if e == 0 then 1 else b * Pow(b, e - 1)
  }

  /** A zero exponent gives 1 for every base, 0 included, as 0 ** 0 == 1 in Python. */
  lemma LastDigitZeroExponent(n1: int)
    ensures LastDigit(n1, 0) == 1 == Pow(n1, 0) % 10
  {
  }

  /** The index `n % len - 1`, with -1 read as the last element, is `(n - 1) mod len`. */
  lemma PyIndexWrap(row: seq<int>, n: int)
    requires |row| >= 1
    ensures -|row| <= n % |row| - 1 < |row|
    ensures PyIndex(row, n % |row| - 1) == row[(n - 1) % |row|]
  {
    var len := |row|;
    var q, r := n / len, n % len;
    if r == 0 {
      assert n - 1 == (q - 1) * len + (len - 1);
      ModUnique(n - 1, len, q - 1, len - 1);
    } else {
      assert n - 1 == q * len + (r - 1);
      ModUnique(n - 1, len, q, r - 1);
    }
  }

  /** Multiplying by d steps each row to its next entry, the last wrapping round to the first. */
  lemma EndingsStep(d: int, i: int)
    requires 0 <= d < 10 && 0 <= i < |Endings[d]|
    ensures (d * Endings[d][i]) % 10 == Endings[d][(i + 1) % |Endings[d]|]
  {
  }

  /** The entries of a row are distinct: each row is one period of the cycle, not several. */
  lemma EndingsDistinct(d: int, i: int, j: int)
    requires 0 <= d < 10 && 0 <= i < j < |Endings[d]|
    ensures Endings[d][i] != Endings[d][j]
  {
  }

  /** The last digit of a product depends only on the last digits of its factors. */
  lemma MulLastDigit(x: int, y: int)
    ensures (x * y) % 10 == ((x % 10) * (y % 10)) % 10
  {
    var a, r := x / 10, x % 10;
    var b, s := y / 10, y % 10;
    assert x * y == 10 * a * y + r * y by {
      assert x == 10 * a + r;
    }
    assert r * y == 10 * r * b + r * s by {
      assert y == 10 * b + s;
    }
    assert x * y == (a * y + r * b) * 10 + r * s;
    ModAdd(a * y + r * b, r * s, 10);
  }

  /** The last digit of b^e depends only on the last digit of b. */
  lemma {:induction false} PowLastDigit(b: int, e: nat)
    ensures Pow(b, e) % 10 == Pow(b % 10, e) % 10
  {
    if e > 0 {
      var p, p' := Pow(b, e - 1), Pow(b % 10, e - 1);
      PowLastDigit(b, e - 1);
      assert p % 10 == p' % 10;
      MulLastDigit(b, p);
      MulLastDigit(b % 10, p');
      assert (b % 10) % 10 == b % 10;
      assert Pow(b, e) % 10 == ((b % 10) * (p % 10)) % 10;
      assert Pow(b % 10, e) % 10 == ((b % 10) * (p' % 10)) % 10;
    }
  }

  /** Row d of the table lists d^1, d^2, ... mod 10: entry (k - 1) mod len is d^k mod 10. */
  lemma {:induction false} EndingsCycle(d: int, k: nat)
    requires 0 <= d < 10 && k >= 1
    ensures Pow(d, k) % 10 == Endings[d][(k - 1) % |Endings[d]|]
  {
    var row := Endings[d];
    if k == 1 {
      assert Pow(d, 1) == d;
    } else {
      EndingsCycle(d, k - 1);
      var i := (k - 2) % |row|;
      MulLastDigit(d, Pow(d, k - 1));
      assert d % 10 == d;
      EndingsStep(d, i);
      assert (k - 1) % |row| == (i + 1) % |row| by {
        ModNext(k - 2, |row|);
      }
    }
  }

  /** (n + 1) mod len is the successor of n mod len, wrapped round. */
  lemma ModNext(n: int, len: int)
    requires len >= 1
    ensures (n + 1) % len == (n % len + 1) % len
  {
    var q, r := n / len, n % len;
    assert n + 1 == q * len + (r + 1);
    ModAdd(q, r + 1, len);
  }

  /** For a positive exponent, `last_digit(n1, n2)` is the last digit of n1 ** n2. */
  lemma LastDigitCorrect(n1: int, n2: int)
    requires n2 >= 1
    ensures LastDigit(n1, n2) == Pow(n1, n2) % 10
  {
    var key := n1 % 10;
    var row := Endings[key];
    PyIndexWrap(row, n2);
    EndingsCycle(key, n2);
    PowLastDigit(n1, n2);
  }

  /** `last_digit` looks at n1 only through its last digit, for every n1, negative ones included. */
  lemma LastDigitOfKey(n1: int, n2: int)
    ensures LastDigit(n1, n2) == LastDigit(n1 % 10, n2)
  {
    assert (n1 % 10) % 10 == n1 % 10;
  }

  /** For a positive exponent, adding the length of the row to it does not change the result. */
  lemma LastDigitPeriodic(n1: int, n2: int)
    requires n2 >= 1
    ensures LastDigit(n1, n2 + |Endings[n1 % 10]|) == LastDigit(n1, n2)
  {
    var row := Endings[n1 % 10];
    PyIndexWrap(row, n2);
    PyIndexWrap(row, n2 + |row|);
    assert (n2 + |row| - 1) % |row| == (n2 - 1) % |row| by {
      ModShift(n2 - 1, |row|);
    }
  }

  lemma ModShift(n: int, len: int)
    requires len >= 1
    ensures (n + len) % len == n % len
  {
    ModAdd(1, n, len);
  }

  /** Adding a multiple of len does not change the remainder. */
  lemma ModAdd(k: int, m: int, len: int)
    requires len >= 1
    ensures (k * len + m) % len == m % len
  {
    var q, r := m / len, m % len;
    assert k * len + m == (k + q) * len + r by {
      assert m == q * len + r;
      assert k * len + q * len == (k + q) * len;
    }
    ModUnique(k * len + m, len, k + q, r);
  }

  /** The quotient and remainder of Euclidean division are the only ones with 0 <= r < len. */
  lemma ModUnique(n: int, len: int, q: int, r: int)
    requires len >= 1 && 0 <= r < len && n == q * len + r
    ensures n % len == r && n / len == q
  {
    var q', r' := n / len, n % len;
    assert n == q' * len + r';
    if q > q' {
      assert (q - q') * len == r' - r by {
        assert q * len - q' * len == (q - q') * len;
      }
      AtLeastOnce(q - q', len);
    } else if q < q' {
      assert (q' - q) * len == r - r' by {
        assert q' * len - q * len == (q' - q) * len;
      }
      AtLeastOnce(q' - q, len);
    }
  }

  lemma {:induction false} AtLeastOnce(k: int, len: int)
    requires k >= 1 && len >= 1
    ensures k * len >= len
    decreases k
  {
    if k > 1 {
      AtLeastOnce(k - 1, len);
      assert k * len == (k - 1) * len + len;
    }
  }
}
