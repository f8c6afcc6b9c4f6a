/** Shared vocabulary of the model: bytes, the Option and Result wrappers,
    and decimal rendering of natural numbers (Rust's `{}`/`{:?}` of an
    unsigned integer). */
module Base {

  /** One octet, as held in a Rust `u8`, `Vec<u8>` or `BytesMut`. */
  type byte = x: int | 0 <= x < 256

  /** Rust's `u16`. */
  type u16 = x: int | 0 <= x < 0x1_0000

  /** Largest `usize` of the 32-bit WebAssembly target the guest crates
      are built for. */
  const USIZE_MAX: nat := 0xFFFF_FFFF

  datatype Option<T> = None | Some(value: T)

  datatype Result<T, E> = Ok(value: T) | Err(error: E)

  function Min(a: nat, b: nat): (m: nat)
    ensures m <= a && m <= b && (m == a || m == b)
  {
    if a <= b then a else b
  }

  /** The ASCII digit for a value below ten. */
  function DigitChar(d: nat): (c: char)
    requires d < 10
    ensures '0' <= c <= '9'
    ensures c as int - '0' as int == d
  {
    ('0' as int + d) as char
  }

  /** Decimal rendering without sign or leading zeros. */
  function Decimal(n: nat): (s: string)
    ensures |s| > 0
    ensures forall i :: 0 <= i < |s| ==> '0' <= s[i] <= '9'
    ensures s[0] == '0' ==> n == 0
    decreases n
  {
    if n < 10 then [DigitChar(n)] else Decimal(n / 10) + [DigitChar(n % 10)]
  }
}
