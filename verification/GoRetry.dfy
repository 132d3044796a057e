/** The review service's exponential backoff, in the signed 64-bit nanoseconds the code computes with. */
module GoRetry {
  import opened Powers

  const SECOND := 1_000_000_000
  const MAX_DELAY := 600 * SECOND
  const WORD := 0x1_0000_0000_0000_0000

  /** The value a signed 64-bit product is stored as. */
  function Wrap64(x: int): (w: int)
    ensures -(WORD / 2) <= w < WORD / 2 && (w - x) % WORD == 0
  {
    var r := x % WORD;
    if r >= WORD / 2 then r - WORD else r
  }

  /** The delay before attempt number `attempt`. Powers above 2^62 do not fit the conversion from
      floating point; what the platform then yields is the parameter `outOfRange`. */
  function Delay(attempt: nat, outOfRange: int): int {
    var whole := if attempt <= 62 then Pow2(attempt) else outOfRange;
    var delay := Wrap64(whole * SECOND);
    if delay > MAX_DELAY then MAX_DELAY else delay
  }

  /** The delay the name promises. */
  function Capped(attempt: nat): (d: int)
    ensures SECOND <= d <= MAX_DELAY
    ensures attempt >= 10 ==> d == MAX_DELAY
    ensures attempt < 10 ==> d == Pow2(attempt) * SECOND
  {
    assert attempt < 10 ==> Pow2(attempt) <= 512 by {
      assert Pow2(9) == 512;
      if attempt < 10 { Pow2Grows(attempt, 9); }
    }
    assert attempt >= 10 ==> Pow2(attempt) >= 1024 by {
      assert Pow2(10) == 1024;
      if attempt >= 10 { Pow2Grows(10, attempt); }
    }
    if Pow2(attempt) <= 600 then Pow2(attempt) * SECOND else MAX_DELAY
  }

  lemma LastThatFits()
    ensures Pow2(33) == 8589934592
  {
    SmallPow2(20);
    SmallPow2(13);
    Pow2Sum(20, 13);
  }

  lemma NoWrap(attempt: nat, outOfRange: int)
    requires attempt <= 33
    ensures Delay(attempt, outOfRange) == Capped(attempt)
  {
    Pow2Grows(attempt, 33);
    LastThatFits();
    assert Wrap64(Pow2(attempt) * SECOND) == Pow2(attempt) * SECOND;
    if attempt >= 10 {
      Pow2Grows(10, attempt);
      assert Pow2(10) == 1024;
    } else {
      Pow2Grows(attempt, 9);
      assert Pow2(9) == 512;
    }
  }

  /** The attempts, among those whose power still converts exactly, whose product wraps to a
      positive value above the cap. */
  predicate WrapsAboveCap(attempt: nat) {
    attempt in {37, 41, 42, 45, 47, 50, 51, 53}
  }

  /** The stored product for attempts 33 to 55. */
  const STORED: seq<int> := [
    8589934592000000000, -1266874889709551616, -2533749779419103232, -5067499558838206464,
    8311744956033138688, -1823254161643274240, -3646508323286548480, -7293016646573096960,
    3860710780563357696, 7721421561126715392, -3003900951456120832, -6007801902912241664,
    6431140267885068288, -5584463537939415040, 7277816997830721536, -3891110078048108544,
    -7782220156096217088, 2882303761517117440, 5764607523034234880, -6917529027641081856,
    4611686018427387904, -9223372036854775808, 0]

  lemma WrapDouble(x: int)
    ensures Wrap64(2 * x) == Wrap64(2 * Wrap64(x))
  {
    var k := (Wrap64(x) - x) / WORD;
    assert 2 * Wrap64(x) == 2 * x + (2 * k) * WORD;
    assert (2 * Wrap64(x)) % WORD == (2 * x) % WORD;
  }

  lemma StoredStep(i: nat)
    requires i < 22
    ensures Wrap64(2 * STORED[i]) == STORED[i + 1]
  {
  }

  lemma {:induction false} StoredProduct(attempt: nat)
    requires 33 <= attempt <= 55
    ensures Wrap64(Pow2(attempt) * SECOND) == STORED[attempt - 33]
  {
    if attempt == 33 {
      LastThatFits();
    } else {
      StoredProduct(attempt - 1);
      StoredStep(attempt - 34);
      WrapDouble(Pow2(attempt - 1) * SECOND);
      assert Pow2(attempt) * SECOND == 2 * (Pow2(attempt - 1) * SECOND);
    }
  }

  lemma Wraps(attempt: nat, outOfRange: int)
    requires 34 <= attempt <= 54
    ensures if WrapsAboveCap(attempt) then Delay(attempt, outOfRange) == MAX_DELAY else Delay(attempt, outOfRange) < 0
  {
    StoredProduct(attempt);
  }

  lemma SmallPow2(n: nat)
    requires n <= 20
    ensures Pow2(n) == [1, 2, 4, 8, 16, 32, 64, 128, 256, 512, 1024, 2048, 4096, 8192, 16384, 32768, 65536,
                        131072, 262144, 524288, 1048576][n]
  {
  }

  lemma {:induction false} WrapsToZero(attempt: nat, outOfRange: int)
    requires 55 <= attempt <= 62
    ensures Delay(attempt, outOfRange) == 0
  {
    if attempt == 55 {
      StoredProduct(55);
    } else {
      WrapsToZero(attempt - 1, outOfRange);
      WrapDouble(Pow2(attempt - 1) * SECOND);
      assert Pow2(attempt) * SECOND == 2 * (Pow2(attempt - 1) * SECOND);
    }
  }

  /** Exactly when the code's delay is the capped power of two it is named for; every other attempt
      up to 62 waits no time at all. */
  lemma DelayIsCappedExactlyWhen(attempt: nat, outOfRange: int)
    requires attempt <= 62
    ensures Delay(attempt, outOfRange) == Capped(attempt) <==> attempt <= 33 || WrapsAboveCap(attempt)
    ensures Delay(attempt, outOfRange) <= 0 <==> attempt >= 34 && !WrapsAboveCap(attempt)
  {
    if attempt <= 33 {
      NoWrap(attempt, outOfRange);
    } else if attempt <= 54 {
      Wraps(attempt, outOfRange);
    } else {
      WrapsToZero(attempt, outOfRange);
    }
  }

  /** Up to attempt 33 the delay is positive and never decreases; attempt 34 breaks both. */
  lemma DelayGrows(a: nat, b: nat, outOfRange: int)
    requires a <= b <= 33
    ensures 0 < Delay(a, outOfRange) <= Delay(b, outOfRange)
    ensures Delay(34, outOfRange) < 0
  {
    NoWrap(a, outOfRange);
    NoWrap(b, outOfRange);
    if b < 10 {
      Pow2Grows(a, b);
    }
    Wraps(34, outOfRange);
  }

  /** The time spent waiting before the first `n` attempts. */
  function TotalWait(n: nat, outOfRange: int): int {
    if n == 0 then 0 else TotalWait(n - 1, outOfRange) + Delay(n - 1, outOfRange)
  }

  lemma {:induction false} TotalWaitClosed(n: nat, outOfRange: int)
    requires n <= 34
    ensures n <= 10 ==> TotalWait(n, outOfRange) == (Pow2(n) - 1) * SECOND
    ensures n >= 10 ==> TotalWait(n, outOfRange) == (1023 + 600 * (n - 10)) * SECOND
  {
    if n > 0 {
      TotalWaitClosed(n - 1, outOfRange);
      NoWrap(n - 1, outOfRange);
      assert Pow2(10) == 1024;
    }
  }
}
