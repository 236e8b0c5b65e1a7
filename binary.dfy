/**
 * Binary renderings of non-negative integers: `dec2binary` of ip_calculator.py and
 * Python's `int(s, 2)`, with the two round trips between them.
 */
module Binary {
  import opened Text

  function Pow2(n: nat): (r: nat)
    ensures r >= 1
  {
    if n == 0 then 1 else 2 * Pow2(n - 1)
  }

  lemma {:induction false} Pow2Add(a: nat, b: nat)
    ensures Pow2(a + b) == Pow2(a) * Pow2(b)
  {
    if b > 0 {
      Pow2Add(a, b - 1);
      assert Pow2(a + b) == 2 * Pow2(a + b - 1);
    }
  }

  predicate IsBinary(s: string) {
    forall i :: 0 <= i < |s| ==> s[i] == '0' || s[i] == '1'
  }

  /** A binary string is also a string of decimal digits. */
  lemma BinaryDigits(s: string)
    requires IsBinary(s)
    ensures forall i :: 0 <= i < |s| ==> '0' <= s[i] <= '9'
  {
  }

  function BitChar(b: nat): (c: char)
    requires b < 2
  {
    if b == 0 then '0' else '1'
  }

  function BitValue(c: char): (b: nat) {
    if c == '1' then 1 else 0
  }

  /** Python's `int(s, 2)`: the value of a string of binary digits, most significant first. */
  function FromBinary(s: string): (v: nat)
    requires IsBinary(s)
  {
    if s == [] then 0 else 2 * FromBinary(s[..|s| - 1]) + BitValue(s[|s| - 1])
  }

  /** A binary string of w digits holds a value below 2^w. */
  lemma {:induction false} FromBinaryBound(s: string)
    requires IsBinary(s)
    ensures FromBinary(s) < Pow2(|s|)
  {
    if s != [] {
      FromBinaryBound(s[..|s| - 1]);
    }
  }

  function Repeat(c: char, n: nat): (s: string)
    ensures |s| == n
    ensures forall i :: 0 <= i < n ==> s[i] == c
  {
    if n == 0 then "" else Repeat(c, n - 1) + [c]
  }

  lemma {:induction false} CountRepeat(c: char, n: nat, d: char)
    ensures Count(Repeat(c, n), d) == if c == d then n else 0
  {
    if n > 0 {
      CountRepeat(c, n - 1, d);
      CountAppend(Repeat(c, n - 1), [c], d);
    }
  }

  /** Python's `f'{s:c>width}'`: pads on the left up to width, never truncates. */
  function PadLeft(s: string, width: nat, c: char): (r: string)
    ensures |r| == if |s| < width then width else |s|
  {
    if |s| < width then Repeat(c, width - |s|) + s else s
  }

  /** Python's `f'{s:c<width}'`: pads on the right up to width, never truncates. */
  function PadRight(s: string, width: nat, c: char): (r: string)
    ensures |r| == if |s| < width then width else |s|
    ensures forall i :: 0 <= i < |r| ==> r[i] == if i < |s| then s[i] else c
  {
    if |s| < width then s + Repeat(c, width - |s|) else s
  }

  /**
   * The digits the loop of `dec2binary` collects: n in binary, most significant
   * first, with no leading zero (and no digit at all for 0).
   */
  function Bits(n: nat): (s: string)
    ensures IsBinary(s)
  {
    if n == 0 then "" else Bits(n / 2) + [BitChar(n % 2)]
  }

  /** The digits of n read back as n, start with '1', and are empty only for 0. */
  lemma {:induction false} BitsValue(n: nat)
    ensures FromBinary(Bits(n)) == n
    ensures Bits(n) != [] ==> Bits(n)[0] == '1'
    ensures Bits(n) == [] <==> n == 0
  {
    if n > 0 {
      BitsValue(n / 2);
      var s := Bits(n);
      assert s[..|s| - 1] == Bits(n / 2);
    }
  }

  /** What `dec2binary(num, length)` returns: the binary digits of num, left-padded with '0' to length. */
  function ToBinary(num: nat, length: nat): (s: string)
    ensures IsBinary(s)
  {
    PadLeft(Bits(num), length, '0')
  }

  /** `dec2binary`: peel off the low bit until nothing is left, then left-pad with zeros. */
  method Dec2Binary(num: nat, length: nat) returns (s: string)
    ensures s == ToBinary(num, length)
    ensures IsBinary(s) && FromBinary(s) == num
    ensures num < Pow2(length) ==> |s| == length
    ensures num >= Pow2(length) ==> |s| > length
  {
    var queue: string := [];
    var n := num;
    while n != 0
      invariant Bits(n) + queue == Bits(num)
    {
      BitsStep(n, queue);
      queue := [BitChar(n % 2)] + queue;
      n := n / 2;
    }
    assert queue == Bits(num);
    s := PadLeft(queue, length, '0');
    ToBinaryValue(num, length);
  }

  lemma BitsStep(n: nat, queue: string)
    requires n != 0
    ensures Bits(n) + queue == Bits(n / 2) + ([BitChar(n % 2)] + queue)
  {
  }

  lemma {:induction false} FromBinaryAppend(a: string, b: string)
    requires IsBinary(a) && IsBinary(b)
    ensures IsBinary(a + b)
    ensures FromBinary(a + b) == FromBinary(a) * Pow2(|b|) + FromBinary(b)
  {
    if b == [] {
      assert a + b == a;
    } else {
      var b' := b[..|b| - 1];
      var bit := BitValue(b[|b| - 1]);
      FromBinaryAppend(a, b');
      LastBitOfAppend(a, b);
      assert FromBinary(b) == 2 * FromBinary(b') + bit;
      ShiftedSum(FromBinary(a), Pow2(|b'|), FromBinary(b'), bit);
    }
  }

  /** The last bit of a + b is the last bit of b, and what precedes it is a followed by the rest of b. */
  lemma LastBitOfAppend(a: string, b: string)
    requires IsBinary(a) && IsBinary(b) && b != []
    ensures IsBinary(a + b) && IsBinary(a + b[..|b| - 1])
    ensures FromBinary(a + b) == 2 * FromBinary(a + b[..|b| - 1]) + BitValue(b[|b| - 1])
  {
    var ab, b' := a + b, b[..|b| - 1];
    assert IsBinary(ab);
    assert FromBinary(ab) == 2 * FromBinary(ab[..|ab| - 1]) + BitValue(ab[|ab| - 1]);
    assert ab[..|ab| - 1] == a + b';
    assert ab[|ab| - 1] == b[|b| - 1];
  }

  lemma ShiftedSum(x: int, p: int, y: int, bit: int)
    ensures 2 * (x * p + y) + bit == x * (2 * p) + (2 * y + bit)
  {
  }

  lemma {:induction false} FromBinaryZeros(k: nat)
    ensures IsBinary(Repeat('0', k)) && FromBinary(Repeat('0', k)) == 0
  {
    var zeros := Repeat('0', k);
    assert IsBinary(zeros);
    if k > 0 {
      var shorter := Repeat('0', k - 1);
      FromBinaryZeros(k - 1);
      assert zeros == shorter + ['0'];
      assert zeros[..k - 1] == shorter;
      assert FromBinary(zeros) == 2 * FromBinary(shorter) + BitValue('0');
    }
  }

  lemma {:induction false} FromBinaryOnes(k: nat)
    ensures IsBinary(Repeat('1', k)) && FromBinary(Repeat('1', k)) == Pow2(k) - 1
  {
    var ones := Repeat('1', k);
    assert IsBinary(ones);
    if k > 0 {
      var shorter := Repeat('1', k - 1);
      FromBinaryOnes(k - 1);
      assert ones == shorter + ['1'];
      assert ones[..k - 1] == shorter;
      assert FromBinary(ones) == 2 * FromBinary(shorter) + BitValue('1');
    }
  }

  /** Leading zeros do not change the value of a binary string. */
  lemma FromBinaryLeadingZeros(k: nat, s: string)
    requires IsBinary(s)
    ensures IsBinary(Repeat('0', k) + s) && FromBinary(Repeat('0', k) + s) == FromBinary(s)
  {
    FromBinaryZeros(k);
    FromBinaryAppend(Repeat('0', k), s);
  }

  /** The digit string of n fits in w places exactly when n < 2^w. */
  lemma {:induction false} BitsLength(n: nat, w: nat)
    ensures |Bits(n)| <= w <==> n < Pow2(w)
  {
    if n > 0 && w > 0 {
      BitsLength(n / 2, w - 1);
    }
  }

  /**
   * `dec2binary(num, length)` for num >= 0 renders num in binary: it reads back as num,
   * it is exactly length characters when num < 2^length, longer (never truncated) otherwise,
   * and all zeros for num = 0.
   */
  lemma ToBinaryValue(num: nat, length: nat)
    ensures IsBinary(ToBinary(num, length))
    ensures FromBinary(ToBinary(num, length)) == num
    ensures num < Pow2(length) ==> |ToBinary(num, length)| == length
    ensures num >= Pow2(length) ==> |ToBinary(num, length)| > length
    ensures num == 0 ==> ToBinary(num, length) == Repeat('0', length)
  {
    var digits := Bits(num);
    BitsValue(num);
    BitsLength(num, length);
    if num == 0 {
      assert digits == [];
      FromBinaryZeros(length);
      assert ToBinary(num, length) == Repeat('0', length) by {
        if length > 0 {
          assert Repeat('0', length) + digits == Repeat('0', length);
        }
      }
    } else if |digits| < length {
      var k := length - |digits|;
      assert ToBinary(num, length) == Repeat('0', k) + digits;
      FromBinaryLeadingZeros(k, digits);
    }
  }

  lemma ToBinaryShift(m: nat, b: nat, w: nat)
    requires b < 2
    ensures ToBinary(2 * m + b, w + 1) == ToBinary(m, w) + [BitChar(b)]
  {
    var bit := [BitChar(b)];
    if 2 * m + b == 0 {
      assert Repeat('0', w + 1) == Repeat('0', w) + ['0'];
    } else {
      var digits := Bits(m);
      assert Bits(2 * m + b) == digits + bit by {
        assert (2 * m + b) / 2 == m && (2 * m + b) % 2 == b;
      }
      if |digits| < w {
        var zeros := Repeat('0', w - |digits|);
        calc {
          ToBinary(2 * m + b, w + 1);
          zeros + (digits + bit);
          (zeros + digits) + bit;
          ToBinary(m, w) + bit;
        }
      }
    }
  }

  /** A binary string is the `dec2binary` rendering of its own value at its own width. */
  lemma {:induction false} ToBinaryOfValue(s: string)
    requires IsBinary(s)
    ensures ToBinary(FromBinary(s), |s|) == s
  {
    if s != [] {
      var t, last := s[..|s| - 1], s[|s| - 1];
      assert s == t + [last];
      var m, b := FromBinary(t), BitValue(last);
      assert FromBinary(s) == 2 * m + b;
      ToBinaryOfValue(t);
      ToBinaryShift(m, b, |t|);
      assert BitChar(b) == last;
    }
  }

  /** Two binary strings of one width with one value are the same string. */
  lemma FromBinaryInjective(s: string, t: string)
    requires IsBinary(s) && IsBinary(t) && |s| == |t|
    requires FromBinary(s) == FromBinary(t)
    ensures s == t
  {
    ToBinaryOfValue(s);
    ToBinaryOfValue(t);
  }

  /** In base p, the block [x * p, (x + 1) * p) holding a * p + b (0 <= b < p) is the one with x = a. */
  lemma BlockUnique(v: int, a: int, b: int, p: int, x: int)
    requires p > 0 && 0 <= b < p && v == a * p + b
    ensures x == a <==> x * p <= v < (x + 1) * p
  {
    if x < a {
      MulMonotone(x + 1, a, p);
    } else if x > a {
      MulMonotone(a + 1, x, p);
    }
  }

  /** The quotient of a * p + b by p is a, when 0 <= b < p. */
  lemma DivOfBlock(v: int, a: int, b: int, p: int)
    requires p > 0 && 0 <= b < p && v == a * p + b
    ensures v / p == a
  {
    BlockUnique(v, a, b, p, v / p);
    MulMonotone(v / p, v / p, p);
  }

  /** A run of k copies of one bit reads as 0 (all '0') or 2^k - 1 (all '1'). */
  lemma FromBinaryFill(pad: char, k: nat)
    requires pad == '0' || pad == '1'
    ensures IsBinary(Repeat(pad, k))
    ensures FromBinary(Repeat(pad, k)) == if pad == '1' then Pow2(k) - 1 else 0
  {
    if pad == '1' {
      FromBinaryOnes(k);
    } else {
      FromBinaryZeros(k);
    }
  }

  /** Right-padding a bit string to width with pad shifts its value and fills the new low bits. */
  lemma PadRightValue(head: string, width: nat, pad: char)
    requires IsBinary(head) && |head| <= width && (pad == '0' || pad == '1')
    ensures IsBinary(PadRight(head, width, pad))
    ensures FromBinary(PadRight(head, width, pad)) ==
      FromBinary(head) * Pow2(width - |head|) + (if pad == '1' then Pow2(width - |head|) - 1 else 0)
  {
    var fill := Repeat(pad, width - |head|);
    FromBinaryFill(pad, width - |head|);
    assert PadRight(head, width, pad) == head + fill;
    FromBinaryAppend(head, fill);
  }

  /** Rounding v down to a multiple of p and filling that block stays below n * p. */
  lemma FilledBlockBound(v: int, p: int, n: int)
    requires p > 0 && 0 <= v < n * p
    ensures 0 <= (v / p) * p
    ensures (v / p) * p + p - 1 < n * p
  {
    var q := v / p;
    assert q >= 0;
    MulMonotone(0, q, p);
    if q >= n {
      MulMonotone(n, q, p);
      assert false;
    }
    MulMonotone(q + 1, n, p);
  }

  lemma MulMonotone(x: int, y: int, p: int)
    requires x <= y && p > 0
    ensures x * p <= y * p && (x + 1) * p == x * p + p
  {
    assert y * p - x * p == (y - x) * p;
  }

  /**
   * A binary string s begins with the binary string t exactly when its value lies in
   * the block [t * 2^r, (t + 1) * 2^r), where r counts the characters of s after t.
   */
  lemma BinaryPrefix(s: string, t: string)
    requires IsBinary(s) && IsBinary(t) && |t| <= |s|
    ensures s[..|t|] == t <==> InBlock(FromBinary(s), FromBinary(t), Pow2(|s| - |t|))
  {
    var head, tail := s[..|t|], s[|t|..];
    SplitValue(s, |t|);
    PrefixByValue(head, t);
    BlockIff(head == t, FromBinary(s), FromBinary(head), FromBinary(tail), Pow2(|s| - |t|), FromBinary(t));
  }

  /** v lies in the x-th block of width p: [x * p, (x + 1) * p). */
  predicate InBlock(v: int, x: int, p: int) {
    x * p <= v < (x + 1) * p
  }

  /** A condition that holds exactly when x == a holds exactly when v = a * p + b lies in x's block. */
  lemma BlockIff(e: bool, v: int, a: int, b: int, p: int, x: int)
    requires p > 0 && 0 <= b < p && v == a * p + b
    requires e <==> a == x
    ensures e <==> InBlock(v, x, p)
  {
    BlockUnique(v, a, b, p, x);
  }

  /** Two binary strings of one width are equal exactly when their values are. */
  lemma PrefixByValue(head: string, t: string)
    requires IsBinary(head) && IsBinary(t) && |head| == |t|
    ensures head == t <==> FromBinary(head) == FromBinary(t)
  {
    if FromBinary(head) == FromBinary(t) {
      FromBinaryInjective(head, t);
    }
  }

  /** Cutting a binary string in two: its value is the head's, shifted by the tail's width, plus the tail's. */
  lemma SplitValue(s: string, k: nat)
    requires IsBinary(s) && k <= |s|
    ensures IsBinary(s[..k]) && IsBinary(s[k..]) && |s[..k]| == k && |s[k..]| == |s| - k
    ensures FromBinary(s) == FromBinary(s[..k]) * Pow2(|s| - k) + FromBinary(s[k..])
    ensures FromBinary(s[k..]) < Pow2(|s| - k)
  {
    var head, tail := s[..k], s[k..];
    assert s == head + tail;
    FromBinaryAppend(head, tail);
    FromBinaryBound(tail);
  }
}
