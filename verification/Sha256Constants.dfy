/** Where the constants of SHA-256 come from: the fractional parts of the cube roots of the
    first 64 primes (section 4.2.2 of FIPS 180-4), and of the square roots of the first eight
    (section 5.3.3). */
module Sha256Constants {
  import opened Sha256

  // ----- the first primes

  predicate IsPrime(n: nat) {
    n >= 2 && forall d :: 2 <= d < n ==> n % d != 0
  }

  function PrimeRow(r: nat): (p: seq<nat>)
    requires r < 8
    ensures |p| == 8
  {
    if r == 0 then [2, 3, 5, 7, 11, 13, 17, 19]
    else if r == 1 then [23, 29, 31, 37, 41, 43, 47, 53]
    else if r == 2 then [59, 61, 67, 71, 73, 79, 83, 89]
    else if r == 3 then [97, 101, 103, 107, 109, 113, 127, 131]
    else if r == 4 then [137, 139, 149, 151, 157, 163, 167, 173]
    else if r == 5 then [179, 181, 191, 193, 197, 199, 211, 223]
    else if r == 6 then [227, 229, 233, 239, 241, 251, 257, 263]
    else [269, 271, 277, 281, 283, 293, 307, 311]
  }

  function Primes(): (p: seq<nat>)
    ensures |p| == 64
  {
    PrimeRow(0) + PrimeRow(1) + PrimeRow(2) + PrimeRow(3) + PrimeRow(4) + PrimeRow(5) + PrimeRow(6) + PrimeRow(7)
  }

  /** Up to the last of them, no prime of at most 17 divides it but itself. */
  predicate Sieved(n: nat) {
    && (n % 2 != 0 || n == 2) && (n % 3 != 0 || n == 3) && (n % 5 != 0 || n == 5) && (n % 7 != 0 || n == 7)
    && (n % 11 != 0 || n == 11) && (n % 13 != 0 || n == 13) && (n % 17 != 0 || n == 17)
  }

  /** A number with a divisor of at most 18 has a prime divisor no larger. */
  lemma SmallDivisor(n: nat, d: nat, k: nat) returns (q: nat)
    requires 2 <= d <= 18 && n == d * k
    ensures q in {2, 3, 5, 7, 11, 13, 17} && q <= d && n % q == 0
  {
    if d in {2, 4, 6, 8, 10, 12, 14, 16, 18} {
      q := 2;
      MultipleOf(n, d / 2 * k, 2);
    } else if d in {3, 9, 15} {
      q := 3;
      MultipleOf(n, d / 3 * k, 3);
    } else {
      q := d;
      MultipleOf(n, k, d);
    }
  }

  lemma MultipleOf(n: nat, a: nat, q: nat)
    requires q in {2, 3, 5, 7, 11, 13, 17} && n == q * a
    ensures n % q == 0
  {
  }

  lemma LargeProduct(a: nat, b: nat)
    ensures a >= 19 && b >= 19 ==> a * b >= 361
  {
    if a >= 19 && b >= 19 {
      assert a * b >= 19 * b;
    }
  }

  lemma FactoredNotSieved(n: nat, e: nat, d: nat)
    requires n == e * d && e >= 2 && d >= 2 && n < 361
    ensures !Sieved(n)
  {
    LargeProduct(e, d);
    if d <= 18 {
      var q := SmallDivisor(n, d, e);
      assert n != q;
    } else {
      var q := SmallDivisor(n, e, d);
      assert n != q;
    }
  }

  lemma DividedNotSieved(n: nat, d: nat)
    requires 2 <= d < n < 361 && n % d == 0
    ensures !Sieved(n)
  {
    var e := n / d;
    assert n == e * d;
    assert e >= 2 by {
      Cofactor(n, e, d);
    }
    FactoredNotSieved(n, e, d);
  }

  lemma Cofactor(n: nat, e: nat, d: nat)
    requires n == e * d && d < n
    ensures e >= 2
  {
  }

  /** Below 19 * 19 the sieve decides. */
  lemma SieveDecides(n: nat)
    requires 2 <= n < 361
    ensures IsPrime(n) <==> Sieved(n)
  {
    if IsPrime(n) {
      PrimeSieved(n);
    }
    forall d | 2 <= d < n && n % d == 0
      ensures !Sieved(n)
    {
      DividedNotSieved(n, d);
    }
  }

  lemma PrimeSieved(n: nat)
    requires IsPrime(n)
    ensures Sieved(n)
  {
    Undivided(n, 2);
    Undivided(n, 3);
    Undivided(n, 5);
    Undivided(n, 7);
    Undivided(n, 11);
    Undivided(n, 13);
    Undivided(n, 17);
  }

  lemma Undivided(n: nat, q: nat)
    requires IsPrime(n) && q >= 2
    ensures n % q != 0 || n == q
  {
    if n < q {
      assert n % q == n;
    }
  }

  lemma PrimesOfRow0(n: nat)
    requires 2 <= n <= 19
    ensures n in PrimeRow(0) <==> Sieved(n)
  {
  }

  lemma PrimesOfRow1(n: nat)
    requires 20 <= n <= 53
    ensures n in PrimeRow(1) <==> Sieved(n)
  {
  }

  lemma PrimesOfRow2(n: nat)
    requires 54 <= n <= 89
    ensures n in PrimeRow(2) <==> Sieved(n)
  {
  }

  lemma PrimesOfRow3(n: nat)
    requires 90 <= n <= 131
    ensures n in PrimeRow(3) <==> Sieved(n)
  {
  }

  lemma PrimesOfRow4Begun(n: nat)
    requires 132 <= n <= 151
    ensures n in PrimeRow(4) <==> Sieved(n)
  {
  }

  lemma PrimesOfRow4(n: nat)
    requires 132 <= n <= 173
    ensures n in PrimeRow(4) <==> Sieved(n)
  {
    if n <= 151 {
      PrimesOfRow4Begun(n);
    }
  }

  lemma PrimesOfRow5(n: nat)
    requires 174 <= n <= 223
    ensures n in PrimeRow(5) <==> Sieved(n)
  {
  }

  lemma PrimesOfRow6(n: nat)
    requires 224 <= n <= 263
    ensures n in PrimeRow(6) <==> Sieved(n)
  {
  }

  lemma PrimesOfRow7Begun(n: nat)
    requires 264 <= n <= 293
    ensures n in PrimeRow(7) <==> Sieved(n)
  {
  }

  lemma PrimesOfRow7(n: nat)
    requires 264 <= n <= 311
    ensures n in PrimeRow(7) <==> Sieved(n)
  {
    if n <= 293 {
      PrimesOfRow7Begun(n);
    }
  }

  /** The table holds the primes up to 311, every one of them, in their order. */
  lemma PrimesAreThePrimes(n: nat)
    requires n <= 311
    ensures n in Primes() <==> IsPrime(n)
  {
    InRows(n);
    Bounds(n);
    if n >= 2 {
      SieveDecides(n);
      if n <= 19 {
        PrimesOfRow0(n);
      } else if n <= 53 {
        PrimesOfRow1(n);
      } else if n <= 89 {
        PrimesOfRow2(n);
      } else if n <= 131 {
        PrimesOfRow3(n);
      } else if n <= 173 {
        PrimesOfRow4(n);
      } else if n <= 223 {
        PrimesOfRow5(n);
      } else if n <= 263 {
        PrimesOfRow6(n);
      } else {
        PrimesOfRow7(n);
      }
    }
  }

  lemma InRows(n: nat)
    ensures n in Primes() <==> exists r :: 0 <= r < 8 && n in PrimeRow(r)
  {
    hide PrimeRow;
    assert n in Primes() <==> n in PrimeRow(0) || n in PrimeRow(1) || n in PrimeRow(2) || n in PrimeRow(3)
                              || n in PrimeRow(4) || n in PrimeRow(5) || n in PrimeRow(6) || n in PrimeRow(7);
  }

  lemma Bounds(n: nat)
    ensures n in PrimeRow(0) ==> 2 <= n <= 19
    ensures n in PrimeRow(1) ==> 20 <= n <= 53
    ensures n in PrimeRow(2) ==> 54 <= n <= 89
    ensures n in PrimeRow(3) ==> 90 <= n <= 131
    ensures n in PrimeRow(4) ==> 132 <= n <= 173
    ensures n in PrimeRow(5) ==> 174 <= n <= 223
    ensures n in PrimeRow(6) ==> 224 <= n <= 263
    ensures n in PrimeRow(7) ==> 264 <= n <= 311
  {
  }

  lemma RowAscends(r: nat, c: nat)
    requires r < 8 && c < 7
    ensures PrimeRow(r)[c] < PrimeRow(r)[c + 1]
  {
  }

  lemma RowsAscend(r: nat)
    requires r < 7
    ensures PrimeRow(r)[7] < PrimeRow(r + 1)[0]
  {
  }

  lemma PrimesAt(r: nat, c: nat)
    requires r < 8 && c < 8
    ensures 8 * r + c < 64 && Primes()[8 * r + c] == PrimeRow(r)[c]
  {
    hide PrimeRow;
  }

  lemma Ascends(t: nat)
    requires t < 63
    ensures Primes()[t] < Primes()[t + 1]
  {
    hide Primes, PrimeRow;
    var r, c := t / 8, t % 8;
    PrimesAt(r, c);
    if c < 7 {
      PrimesAt(r, c + 1);
      RowAscends(r, c);
    } else {
      PrimesAt(r + 1, 0);
      RowsAscend(r);
    }
  }

  lemma {:induction false} PrimesAscend(s: nat, t: nat)
    requires s < t < 64
    ensures Primes()[s] < Primes()[t]
  {
    hide Primes;
    Ascends(t - 1);
    if s < t - 1 {
      PrimesAscend(s, t - 1);
    }
  }

  // ----- the constants are the fractional parts of their roots

  /** k is the first 32 bits of the fractional part of the cube root of p, n its integer part. */
  predicate CubeRoot(k: word, p: nat, n: nat) {
    var x := n * 0x1_0000_0000 + (k as nat);
    x * x * x <= p * 0x1_0000_0000_0000_0000_0000_0000 < (x + 1) * (x + 1) * (x + 1)
  }

  /** The same of the square root. */
  predicate SquareRoot(k: word, p: nat, n: nat) {
    var x := n * 0x1_0000_0000 + (k as nat);
    x * x <= p * 0x1_0000_0000_0000_0000 < (x + 1) * (x + 1)
  }

  lemma CubeRootsOfRow0(c: nat)
    requires c < 4
    ensures exists n :: CubeRoot(KRow(0)[c], PrimeRow(0)[c], n)
  {
    assert CubeRoot(KRow(0)[0], PrimeRow(0)[0], 1);
    assert CubeRoot(KRow(0)[1], PrimeRow(0)[1], 1);
    assert CubeRoot(KRow(0)[2], PrimeRow(0)[2], 1);
    assert CubeRoot(KRow(0)[3], PrimeRow(0)[3], 1);
  }

  lemma CubeRootsOfRow0Rest(c: nat)
    requires 4 <= c < 8
    ensures exists n :: CubeRoot(KRow(0)[c], PrimeRow(0)[c], n)
  {
    assert CubeRoot(KRow(0)[4], PrimeRow(0)[4], 2);
    assert CubeRoot(KRow(0)[5], PrimeRow(0)[5], 2);
    assert CubeRoot(KRow(0)[6], PrimeRow(0)[6], 2);
    assert CubeRoot(KRow(0)[7], PrimeRow(0)[7], 2);
  }

  lemma CubeRootsOfRow1(c: nat)
    requires c < 4
    ensures exists n :: CubeRoot(KRow(1)[c], PrimeRow(1)[c], n)
  {
    assert CubeRoot(KRow(1)[0], PrimeRow(1)[0], 2);
    assert CubeRoot(KRow(1)[1], PrimeRow(1)[1], 3);
    assert CubeRoot(KRow(1)[2], PrimeRow(1)[2], 3);
    assert CubeRoot(KRow(1)[3], PrimeRow(1)[3], 3);
  }

  lemma CubeRootsOfRow1Rest(c: nat)
    requires 4 <= c < 8
    ensures exists n :: CubeRoot(KRow(1)[c], PrimeRow(1)[c], n)
  {
    assert CubeRoot(KRow(1)[4], PrimeRow(1)[4], 3);
    assert CubeRoot(KRow(1)[5], PrimeRow(1)[5], 3);
    assert CubeRoot(KRow(1)[6], PrimeRow(1)[6], 3);
    assert CubeRoot(KRow(1)[7], PrimeRow(1)[7], 3);
  }

  lemma CubeRootsOfRow2(c: nat)
    requires c < 4
    ensures exists n :: CubeRoot(KRow(2)[c], PrimeRow(2)[c], n)
  {
    assert CubeRoot(KRow(2)[0], PrimeRow(2)[0], 3);
    assert CubeRoot(KRow(2)[1], PrimeRow(2)[1], 3);
    assert CubeRoot(KRow(2)[2], PrimeRow(2)[2], 4);
    assert CubeRoot(KRow(2)[3], PrimeRow(2)[3], 4);
  }

  lemma CubeRootsOfRow2Rest(c: nat)
    requires 4 <= c < 8
    ensures exists n :: CubeRoot(KRow(2)[c], PrimeRow(2)[c], n)
  {
    assert CubeRoot(KRow(2)[4], PrimeRow(2)[4], 4);
    assert CubeRoot(KRow(2)[5], PrimeRow(2)[5], 4);
    assert CubeRoot(KRow(2)[6], PrimeRow(2)[6], 4);
    assert CubeRoot(KRow(2)[7], PrimeRow(2)[7], 4);
  }

  lemma CubeRootsOfRow3(c: nat)
    requires c < 4
    ensures exists n :: CubeRoot(KRow(3)[c], PrimeRow(3)[c], n)
  {
    assert CubeRoot(KRow(3)[0], PrimeRow(3)[0], 4);
    assert CubeRoot(KRow(3)[1], PrimeRow(3)[1], 4);
    assert CubeRoot(KRow(3)[2], PrimeRow(3)[2], 4);
    assert CubeRoot(KRow(3)[3], PrimeRow(3)[3], 4);
  }

  lemma CubeRootsOfRow3Rest(c: nat)
    requires 4 <= c < 8
    ensures exists n :: CubeRoot(KRow(3)[c], PrimeRow(3)[c], n)
  {
    assert CubeRoot(KRow(3)[4], PrimeRow(3)[4], 4);
    assert CubeRoot(KRow(3)[5], PrimeRow(3)[5], 4);
    assert CubeRoot(KRow(3)[6], PrimeRow(3)[6], 5);
    assert CubeRoot(KRow(3)[7], PrimeRow(3)[7], 5);
  }

  lemma CubeRootsOfRow4(c: nat)
    requires c < 4
    ensures exists n :: CubeRoot(KRow(4)[c], PrimeRow(4)[c], n)
  {
    assert CubeRoot(KRow(4)[0], PrimeRow(4)[0], 5);
    assert CubeRoot(KRow(4)[1], PrimeRow(4)[1], 5);
    assert CubeRoot(KRow(4)[2], PrimeRow(4)[2], 5);
    assert CubeRoot(KRow(4)[3], PrimeRow(4)[3], 5);
  }

  lemma CubeRootsOfRow4Rest(c: nat)
    requires 4 <= c < 8
    ensures exists n :: CubeRoot(KRow(4)[c], PrimeRow(4)[c], n)
  {
    assert CubeRoot(KRow(4)[4], PrimeRow(4)[4], 5);
    assert CubeRoot(KRow(4)[5], PrimeRow(4)[5], 5);
    assert CubeRoot(KRow(4)[6], PrimeRow(4)[6], 5);
    assert CubeRoot(KRow(4)[7], PrimeRow(4)[7], 5);
  }

  lemma CubeRootsOfRow5(c: nat)
    requires c < 4
    ensures exists n :: CubeRoot(KRow(5)[c], PrimeRow(5)[c], n)
  {
    assert CubeRoot(KRow(5)[0], PrimeRow(5)[0], 5);
    assert CubeRoot(KRow(5)[1], PrimeRow(5)[1], 5);
    assert CubeRoot(KRow(5)[2], PrimeRow(5)[2], 5);
    assert CubeRoot(KRow(5)[3], PrimeRow(5)[3], 5);
  }

  lemma CubeRootsOfRow5Rest(c: nat)
    requires 4 <= c < 8
    ensures exists n :: CubeRoot(KRow(5)[c], PrimeRow(5)[c], n)
  {
    assert CubeRoot(KRow(5)[4], PrimeRow(5)[4], 5);
    assert CubeRoot(KRow(5)[5], PrimeRow(5)[5], 5);
    assert CubeRoot(KRow(5)[6], PrimeRow(5)[6], 5);
    assert CubeRoot(KRow(5)[7], PrimeRow(5)[7], 6);
  }

  lemma CubeRootsOfRow6(c: nat)
    requires c < 4
    ensures exists n :: CubeRoot(KRow(6)[c], PrimeRow(6)[c], n)
  {
    assert CubeRoot(KRow(6)[0], PrimeRow(6)[0], 6);
    assert CubeRoot(KRow(6)[1], PrimeRow(6)[1], 6);
    assert CubeRoot(KRow(6)[2], PrimeRow(6)[2], 6);
    assert CubeRoot(KRow(6)[3], PrimeRow(6)[3], 6);
  }

  lemma CubeRootsOfRow6Rest(c: nat)
    requires 4 <= c < 8
    ensures exists n :: CubeRoot(KRow(6)[c], PrimeRow(6)[c], n)
  {
    assert CubeRoot(KRow(6)[4], PrimeRow(6)[4], 6);
    assert CubeRoot(KRow(6)[5], PrimeRow(6)[5], 6);
    assert CubeRoot(KRow(6)[6], PrimeRow(6)[6], 6);
    assert CubeRoot(KRow(6)[7], PrimeRow(6)[7], 6);
  }

  lemma CubeRootsOfRow7(c: nat)
    requires c < 4
    ensures exists n :: CubeRoot(KRow(7)[c], PrimeRow(7)[c], n)
  {
    assert CubeRoot(KRow(7)[0], PrimeRow(7)[0], 6);
    assert CubeRoot(KRow(7)[1], PrimeRow(7)[1], 6);
    assert CubeRoot(KRow(7)[2], PrimeRow(7)[2], 6);
    assert CubeRoot(KRow(7)[3], PrimeRow(7)[3], 6);
  }

  lemma CubeRootsOfRow7Rest(c: nat)
    requires 4 <= c < 8
    ensures exists n :: CubeRoot(KRow(7)[c], PrimeRow(7)[c], n)
  {
    assert CubeRoot(KRow(7)[4], PrimeRow(7)[4], 6);
    assert CubeRoot(KRow(7)[5], PrimeRow(7)[5], 6);
    assert CubeRoot(KRow(7)[6], PrimeRow(7)[6], 6);
    assert CubeRoot(KRow(7)[7], PrimeRow(7)[7], 6);
  }

  lemma KAt(r: nat, c: nat)
    requires r < 8 && c < 8
    ensures 8 * r + c < 64 && K()[8 * r + c] == KRow(r)[c]
  {
    hide KRow;
  }

  /** K is what section 4.2.2 says it is: word t holds the first 32 bits of the fractional part
      of the cube root of the prime number t, counted from 0. */
  lemma KFromCubeRoots(t: nat)
    requires t < 64
    ensures exists n :: CubeRoot(K()[t], Primes()[t], n)
  {
    hide K, KRow, Primes, PrimeRow, CubeRoot;
    var r, c := t / 8, t % 8;
    KAt(r, c);
    PrimesAt(r, c);
    if r == 0 {
      if c < 4 {
        CubeRootsOfRow0(c);
      } else {
        CubeRootsOfRow0Rest(c);
      }
    } else if r == 1 {
      if c < 4 {
        CubeRootsOfRow1(c);
      } else {
        CubeRootsOfRow1Rest(c);
      }
    } else if r == 2 {
      if c < 4 {
        CubeRootsOfRow2(c);
      } else {
        CubeRootsOfRow2Rest(c);
      }
    } else if r == 3 {
      if c < 4 {
        CubeRootsOfRow3(c);
      } else {
        CubeRootsOfRow3Rest(c);
      }
    } else if r == 4 {
      if c < 4 {
        CubeRootsOfRow4(c);
      } else {
        CubeRootsOfRow4Rest(c);
      }
    } else if r == 5 {
      if c < 4 {
        CubeRootsOfRow5(c);
      } else {
        CubeRootsOfRow5Rest(c);
      }
    } else if r == 6 {
      if c < 4 {
        CubeRootsOfRow6(c);
      } else {
        CubeRootsOfRow6Rest(c);
      }
    } else {
      if c < 4 {
        CubeRootsOfRow7(c);
      } else {
        CubeRootsOfRow7Rest(c);
      }
    }
  }

  /** And the initial hash value, as section 5.3.3 says, from the square roots of the first eight. */
  lemma IVFromSquareRoots(i: nat)
    requires i < 8
    ensures exists n :: SquareRoot(IV()[i], Primes()[i], n)
  {
    hide Primes;
    PrimesAt(0, i);
    assert SquareRoot(IV()[0], PrimeRow(0)[0], 1);
    assert SquareRoot(IV()[1], PrimeRow(0)[1], 1);
    assert SquareRoot(IV()[2], PrimeRow(0)[2], 2);
    assert SquareRoot(IV()[3], PrimeRow(0)[3], 2);
    assert SquareRoot(IV()[4], PrimeRow(0)[4], 3);
    assert SquareRoot(IV()[5], PrimeRow(0)[5], 3);
    assert SquareRoot(IV()[6], PrimeRow(0)[6], 4);
    assert SquareRoot(IV()[7], PrimeRow(0)[7], 4);
  }

}
