/** Go's fixed-width integers, written out over unbounded ones. */
module GoInts {
  const TWO32: int := 0x1_0000_0000
  const TWO63: int := 0x8000_0000_0000_0000
  const TWO64: int := 0x1_0000_0000_0000_0000

  type uint32 = n: int | 0 <= n < TWO32
  type uint64 = n: int | 0 <= n < TWO64
  type int64 = n: int | -TWO63 <= n < TWO63
  type byte = n: int | 0 <= n < 256

  /** The result of uint64 arithmetic whose exact value is n. */
  function Uint64(n: int): uint64 {
    n % TWO64
  }

  /** The result of int64 arithmetic whose exact value is n; also the conversion of a uint64. */
  function Int64(n: int): int64 {
    var r := n % TWO64;
    if r < TWO63 then r else r - TWO64
  }

  lemma Widths()
    ensures TWO32 == 4_294_967_296 && TWO63 == 9_223_372_036_854_775_808 && TWO64 == 18_446_744_073_709_551_616
  {
  }

  /** A conversion keeps the value modulo 2^64, and there is only one value in range that does. */
  lemma Conversions(n: int)
    ensures 0 <= Uint64(n) < 18_446_744_073_709_551_616
    ensures -9_223_372_036_854_775_808 <= Int64(n) < 9_223_372_036_854_775_808
    ensures (n - Uint64(n)) % 18_446_744_073_709_551_616 == 0 && (n - Int64(n)) % 18_446_744_073_709_551_616 == 0
  {
  }

  lemma SameModulo(n: int, k: int)
    ensures (n + k * TWO64) % TWO64 == n % TWO64
  {
  }

  /** A wrapped product of an already wrapped factor is the wrapped exact product. */
  lemma WrappedProduct(n: int, c: int)
    ensures Int64(Int64(Uint64(n)) * c) == Int64(n * c)
  {
    var w := Int64(Uint64(n));
    var k := if w == n % TWO64 then -(n / TWO64) else -(n / TWO64) - 1;
    assert w == n + k * TWO64;
    assert w * c == n * c + (k * c) * TWO64 by {
      assert (n + k * TWO64) * c == n * c + k * TWO64 * c;
      assert k * TWO64 * c == (k * c) * TWO64;
    }
    SameModulo(n * c, k * c);
  }

  /** Exactly the values in range survive the conversion. */
  lemma Int64Exact(n: int)
    ensures Int64(n) == n <==> -TWO63 <= n < TWO63
  {
  }
}
