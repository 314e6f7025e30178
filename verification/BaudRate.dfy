/** The divisor that the UART is programmed with. */
module BaudRate {
  import opened Words
  import opened Arithmetic

  const SYSCLK_HZ := 16_000_000
  const UART_BAUD := 115_200

  /** A hundred times the divisor, rounded down. */
  function Hundredfold(clock: nat, baud: nat): nat
    requires baud > 0
  {
    Quotient(clock * 25, 4 * baud)
  }

  function Quotient(n: nat, d: nat): nat
    requires d > 0
  {
    n / d
  }

  /** Rounded to sixteenths, a larger hundredfold divisor would need a mantissa of more than twelve bits. */
  const LARGEST := 409_596

  /** What the 32-bit arithmetic needs, and what the register, a 12-bit mantissa over a 4-bit fraction, can hold. */
  predicate Programmable(clock: nat, baud: nat)
  {
    baud > 0 && clock * 25 < TWO_32 && 4 * baud < TWO_32 && Hundredfold(clock, baud) <= LARGEST
  }

  method ComputeDivisor(clock: nat, baud: nat) returns (mantissa: nat, fraction: nat, brr: nat)
    requires Programmable(clock, baud)
    ensures fraction < 16 && mantissa < 4096 && brr == 16 * mantissa + fraction
    ensures -50 < 100 * brr - 16 * Hundredfold(clock, baud) <= 50
  {
    mantissa, fraction := Split(Hundredfold(clock, baud));
    if fraction >= 16 {
      mantissa := mantissa + 1;
      fraction := fraction - 16;
    }
    brr := mantissa * 16 + fraction;
  }

  /** Before the carry: the fraction may still be sixteen sixteenths. */
  method Split(x100: nat) returns (mantissa: nat, fraction: nat)
    requires x100 <= LARGEST
    ensures mantissa <= 4095 && fraction <= 16 && (mantissa == 4095 ==> fraction < 16)
    ensures -50 < 100 * (16 * mantissa + fraction) - 16 * x100 <= 50
  {
    mantissa := x100 / 100;
    var rest := x100 - mantissa * 100;
    fraction := (rest * 16 + 50) / 100;
  }

  /** The bound is exact: beyond it the rounded divisor does not fit the register. */
  lemma LargestIsExact(x100: nat)
    ensures x100 <= LARGEST <==> (16 * x100 + 50) / 100 < 16 * 4096
  {
  }

  /** The register value is within 0.64 below and 0.50 above the exact quotient of clock and baud rate. */
  lemma DivisorIsClose(clock: nat, baud: nat, brr: nat)
    requires baud > 0 && -50 < 100 * brr - 16 * Hundredfold(clock, baud) <= 50
    ensures -64 * baud < 100 * (brr * baud - clock) <= 50 * baud
  {
    var x := Hundredfold(clock, baud);
    var e := 100 * brr - 16 * x;
    FourthsOnly(brr, x, e);
    FloorIsClose(clock * 25, 4 * baud, x);
    Distribute(brr, x, e, baud);
    Times(-48, e, baud);
    Times(e, 50, baud);
  }

  lemma FourthsOnly(brr: nat, x: nat, e: int)
    requires e == 100 * brr - 16 * x && -50 < e
    ensures -48 <= e
  {
    assert e == 4 * (25 * brr - 4 * x);
  }

  lemma FloorIsClose(n: nat, d: nat, q: nat)
    requires d > 0 && q == Quotient(n, d)
    ensures q * d <= n < q * d + d
  {
  }

  lemma Distribute(brr: nat, x: nat, e: int, baud: nat)
    requires 100 * brr == 16 * x + e
    ensures 100 * (brr * baud) == 4 * (x * (4 * baud)) + e * baud
  {
    assert 100 * (brr * baud) == (100 * brr) * baud == (16 * x + e) * baud == 16 * (x * baud) + e * baud;
    assert x * (4 * baud) == 4 * (x * baud);
  }

  /** At 16 MHz and 115200 baud the register holds 8 and 11 sixteenths. */
  method ShippedDivisor() returns (brr: nat)
    ensures brr == 0x8B
  {
    var mantissa, fraction;
    mantissa, fraction, brr := ComputeDivisor(SYSCLK_HZ, UART_BAUD);
  }
}
