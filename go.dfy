/**
 * The Go language facts the models rely on: fixed-width integers, an
 * optional value, converting a byte to a rune, indexing a
 * string (which yields a UTF-8 byte), and bitwise or.
 */
module Go {

  newtype byte = x: int | 0 <= x < 256
  newtype uint16 = x: int | 0 <= x < 0x1_0000

  datatype Option<T> = None | Some(value: T)

  function Max(a: int, b: int): int { if a < b then b else a }

  /** Go's rune(b) for a byte b. */
  function ByteRune(b: byte): char
  {
    (b as int) as char
  }

  /** The first byte of the UTF-8 encoding of `c` (what indexing a Go string at 0 gives). */
  function Utf8LeadByte(c: char): (b: byte)
    ensures (c as int) < 0x80 ==> b as int == c as int
    ensures (c as int) >= 0x80 ==> b >= 0xC2
  {
    var n := c as int;
    if n < 0x80 then n as byte
    else if n < 0x800 then (0xC0 + n / 0x40) as byte
    else if n < 0x1_0000 then (0xE0 + n / 0x1000) as byte
    else (0xF0 + n / 0x4_0000) as byte
  }

  /** Go's bitwise `a | b` on non-negative integers, one binary digit at a time. */
  function BitOr(a: int, b: int): (r: int)
    requires 0 <= a && 0 <= b
    ensures Max(a, b) <= r <= a + b
    ensures r % 2 == 1 <==> a % 2 == 1 || b % 2 == 1
    ensures a == 0 ==> r == b
    ensures b == 0 ==> r == a
    ensures a == b ==> r == a
    decreases a + b
  {
    if a == 0 then b
    else if b == 0 then a
    else
      var high := BitOr(a / 2, b / 2);
      var low := if a % 2 == 1 || b % 2 == 1 then 1 else 0;
      assert a == 2 * (a / 2) + a % 2 && b == 2 * (b / 2) + b % 2;
      assert (2 * high + low) % 2 == low;
      2 * high + low
  }
}
