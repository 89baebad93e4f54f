/** The 32-bit integer conversions JavaScript applies to the operands of its
    bitwise operators (ECMAScript's ToInt32 and ToUint32), and the left shift
    `x << 8` built on them. JavaScript numbers are modelled as unbounded
    integers; every value that occurs here is an integer far below 2^53. */
module JsInt32 {
  import opened Octets

  const Two31: int := 0x8000_0000

  /** ToUint32: the residue modulo 2^32 (what `x >>> 0` gives). */
  function ToUint32(x: int): (r: int)
    ensures 0 <= r < Two32
    ensures 0 <= x < Two32 ==> r == x
  {
    x % Two32
  }

  /** ToInt32: the residue modulo 2^32 read as a two's-complement number. */
  function ToInt32(x: int): (r: int)
    ensures -Two31 <= r < Two31
    ensures -Two31 <= x < Two31 ==> r == x
  {
    var m := ToUint32(x);
    if m >= Two31 then m - Two32 else m
  }

  /** `x << 8`: the left operand goes through ToInt32 and the 32-bit shifted
      result is read as a signed number again. */
  function ShiftLeft8(x: int): int {
    ToInt32(ToInt32(x) * 256)
  }

  /** Adding a multiple of 2^32 does not change the residue. */
  lemma ModShift(a: int, k: int)
    ensures (a + Two32 * k) % Two32 == a % Two32
  {
  }

  /** ToInt32 of a signed 32-bit value back as unsigned: negative values
      move up by 2^32. */
  lemma ToUint32OfInt32(x: int)
    requires -Two31 <= x < Two31
    ensures ToUint32(x) == if x < 0 then x + Two32 else x
  {
  }

  /** Two values that agree modulo 2^32 have the same ToInt32. */
  lemma ToInt32OfShift(a: int, k: int)
    ensures ToInt32(a + Two32 * k) == ToInt32(a)
  {
  }

  /** `(x << 8) + o` for a byte o is the ToInt32 of the exact x * 256 + o:
      the shift clears the low byte, so adding o never carries out of it. */
  lemma {:induction false} ShiftLeft8Add(x: int, o: int)
    requires 0 <= o < 256
    ensures ShiftLeft8(x) + o == ToInt32(x * 256 + o)
  {
    // ToInt32(x) differs from x by a multiple of 2^32 ...
    var k := x / Two32 + (if x % Two32 >= Two31 then 1 else 0);
    assert ToInt32(x) * 256 == x * 256 + Two32 * (-256 * k);
    ToInt32OfShift(x * 256, -256 * k);
    // ... and the residue of x * 256 is a multiple of 256, so adding o
    // stays below 2^32 and on the same side of 2^31
    var c := (x * 256) / Two32;
    assert (x * 256) % Two32 == 256 * (x - 0x100_0000 * c);
    ModShift(x * 256 + o, -c);
  }
}
