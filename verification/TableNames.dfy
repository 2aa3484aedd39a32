/** File names of tables: `sstable-%08d.sst`, and how they sort. */
module TableNames {
  import opened Bytes

  const ZERO: int := 48
  const PREFIX: bytes := [115, 115, 116, 97, 98, 108, 101, 45]
  const SUFFIX: bytes := [46, 115, 115, 116]

  const WIDTH: nat := 8

  /** From here on eight digits no longer suffice. */
  const SEQ_LIMIT: nat := 100000000

  function Pow10(k: nat): nat {
    if k == 0 then 1 else 10 * Pow10(k - 1)
  }

  /** The low `k` decimal digits of `n`. */
  function Digits(k: nat, n: nat): (r: bytes)
    ensures |r| == k
  {
    if k == 0 then [] else Digits(k - 1, n / 10) + [ZERO + n % 10]
  }

  function Decimal(n: nat): bytes {
    if n < 10 then [ZERO + n] else Decimal(n / 10) + [ZERO + n % 10]
  }

  /** `%08d` of a non-negative number. */
  function Padded(n: nat): bytes {
    if n < SEQ_LIMIT then Digits(WIDTH, n) else Decimal(n)
  }

  function Name(n: nat): bytes {
    PREFIX + Padded(n) + SUFFIX
  }

  lemma {:induction false} DigitsOrder(k: nat, m: nat, n: nat)
    requires m < n < Pow10(k)
    ensures Less(Digits(k, m), Digits(k, n))
  {
    var x, y := Digits(k - 1, m / 10), Digits(k - 1, n / 10);
    if m / 10 < n / 10 {
      DigitsOrder(k - 1, m / 10, n / 10);
      LessExtends(x, y, [ZERO + m % 10], [ZERO + n % 10]);
    } else {
      LessCommonPrefix(x, [ZERO + m % 10], [ZERO + n % 10]);
    }
  }

  /** "sstable-", eight decimal digits, ".sst". */
  lemma NameBytes(n: nat)
    requires n < SEQ_LIMIT
    ensures SEQ_LIMIT == 100000000
    ensures Name(n) == [115, 115, 116, 97, 98, 108, 101, 45] + [
      48 + n / 10000 / 1000 % 10, 48 + n / 10000 / 100 % 10, 48 + n / 10000 / 10 % 10, 48 + n / 10000 % 10,
      48 + n / 1000 % 10, 48 + n / 100 % 10, 48 + n / 10 % 10, 48 + n % 10] + [46, 115, 115, 116]
  {
    hide Digits;
    EightDigits(n);
  }

  lemma EightDigits(n: nat)
    ensures Digits(8, n) == [
      48 + n / 10000 / 1000 % 10, 48 + n / 10000 / 100 % 10, 48 + n / 10000 / 10 % 10, 48 + n / 10000 % 10,
      48 + n / 1000 % 10, 48 + n / 100 % 10, 48 + n / 10 % 10, 48 + n % 10]
  {
    FourDigits(n / 10000);
    var x, y, z := n / 10, n / 100, n / 1000;
    assert x / 10 == y && y / 10 == z && z / 10 == n / 10000;
    assert Digits(5, z) == Digits(4, n / 10000) + [48 + z % 10];
    assert Digits(6, y) == Digits(5, z) + [48 + y % 10];
    assert Digits(7, x) == Digits(6, y) + [48 + x % 10];
    assert Digits(8, n) == Digits(7, x) + [48 + n % 10];
  }

  lemma FourDigits(n: nat)
    ensures Digits(4, n) == [48 + n / 1000 % 10, 48 + n / 100 % 10, 48 + n / 10 % 10, 48 + n % 10]
  {
    assert Digits(1, n / 1000) == [48 + n / 1000 % 10];
    assert Digits(2, n / 100) == Digits(1, n / 1000) + [48 + n / 100 % 10];
    assert Digits(3, n / 10) == Digits(2, n / 100) + [48 + n / 10 % 10];
  }

  /** What a digit string stands for. */
  function ValueOf(s: bytes): int {
    if s == [] then 0 else 10 * ValueOf(s[..|s| - 1]) + s[|s| - 1] as int - 48
  }

  /** Longer numbers are written in full: digits only, no leading zero. */
  lemma {:induction false} DecimalMeans(n: nat)
    ensures Decimal(n) != [] && ValueOf(Decimal(n)) == n && (n > 0 ==> Decimal(n)[0] != 48)
    ensures forall i :: 0 <= i < |Decimal(n)| ==> 48 <= Decimal(n)[i] <= 57
  {
    if n >= 10 {
      DecimalMeans(n / 10);
      assert Decimal(n)[..|Decimal(n)| - 1] == Decimal(n / 10);
    } else {
      assert Decimal(n)[..0] == [];
    }
  }

  lemma LongNameBytes(n: nat)
    requires n >= SEQ_LIMIT
    ensures Name(n) == [115, 115, 116, 97, 98, 108, 101, 45] + Decimal(n) + [46, 115, 115, 116]
  {
  }

  lemma LimitIsPower()
    ensures Pow10(WIDTH) == SEQ_LIMIT
  {
    assert Pow10(2) == 100;
    assert Pow10(4) == 10000;
    assert Pow10(6) == 1000000;
  }

  /** Below the limit, file names sort as the sequence numbers do. */
  lemma NameOrder(m: nat, n: nat)
    requires m < SEQ_LIMIT && n < SEQ_LIMIT
    ensures Less(Name(m), Name(n)) <==> m < n
    ensures Name(m) == Name(n) <==> m == n
  {
    LimitIsPower();
    LessIrreflexive(Name(m));
    if m < n {
      SmallerName(m, n);
    } else if n < m {
      SmallerName(n, m);
      LessAsymmetric(Name(n), Name(m));
    }
  }

  lemma SmallerName(m: nat, n: nat)
    requires m < n < SEQ_LIMIT
    ensures Less(Name(m), Name(n))
  {
    LimitIsPower();
    DigitsOrder(WIDTH, m, n);
    LessExtends(Padded(m), Padded(n), SUFFIX, SUFFIX);
    LessCommonPrefix(PREFIX, Padded(m) + SUFFIX, Padded(n) + SUFFIX);
    assert PREFIX + (Padded(m) + SUFFIX) == Name(m);
    assert PREFIX + (Padded(n) + SUFFIX) == Name(n);
  }

  /** At the limit they no longer do: the next file sorts in front of its predecessor. */
  lemma NameOrderBreaks()
    ensures Less(Name(SEQ_LIMIT), Name(SEQ_LIMIT - 1))
  {
    var a, b := Padded(SEQ_LIMIT), Padded(SEQ_LIMIT - 1);
    LimitIsPower();
    FirstDigit(SEQ_LIMIT, WIDTH);
    assert b[0] == ZERO + 9 by {
      LimitIsPower();
      assert Digits(1, 9) == [ZERO + 9];
      assert Digits(2, 99)[0] == ZERO + 9;
      assert Digits(3, 999)[0] == ZERO + 9;
      assert Digits(4, 9999)[0] == ZERO + 9;
      assert Digits(5, 99999)[0] == ZERO + 9;
      assert Digits(6, 999999)[0] == ZERO + 9;
      assert Digits(7, 9999999)[0] == ZERO + 9;
    }
    assert (a + SUFFIX)[0] == a[0] && (b + SUFFIX)[0] == b[0];
    LessCommonPrefix(PREFIX, a + SUFFIX, b + SUFFIX);
    assert PREFIX + (a + SUFFIX) == Name(SEQ_LIMIT);
    assert PREFIX + (b + SUFFIX) == Name(SEQ_LIMIT - 1);
  }

  /** All file names up to number `n` sort as their numbers do. */
  ghost predicate NamesSort(n: nat) {
    forall i: nat, j: nat :: i <= n && j <= n ==> (Less(Name(i), Name(j)) <==> i < j)
  }

  lemma NamesSortIff(n: nat)
    ensures NamesSort(n) <==> n < SEQ_LIMIT
  {
    hide Name;
    if n < SEQ_LIMIT {
      forall i: nat, j: nat | i <= n && j <= n
        ensures Less(Name(i), Name(j)) <==> i < j
      {
        NameOrder(i, j);
      }
    } else {
      NameOrderBreaks();
    }
  }

  lemma {:induction false} FirstDigit(n: nat, k: nat)
    requires n == Pow10(k)
    ensures |Decimal(n)| > 0 && Decimal(n)[0] == ZERO + 1
  {
    if k > 0 {
      FirstDigit(n / 10, k - 1);
    }
  }
}
