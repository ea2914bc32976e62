// The machine words of the source: sg_size_t and unsigned long are 64 bits wide,
// the reference count of a file is 32 bits wide, and unsigned arithmetic wraps.
module Words {
  const TWO32: int := 0x1_0000_0000
  const TWO64: int := 0x1_0000_0000_0000_0000

  type u32 = x: int | 0 <= x < TWO32
  type u64 = x: int | 0 <= x < TWO64

  function Wrap32(x: int): (r: u32)
    ensures 0 <= x < TWO32 ==> r == x
    decreases if x < 0 then TWO32 - x else x
  {
    if x < 0 then Wrap32(x + TWO32) else if x < TWO32 then x else Wrap32(x - TWO32)
  }

  function Wrap64(x: int): (r: u64)
    ensures 0 <= x < TWO64 ==> r == x
    decreases if x < 0 then TWO64 - x else x
  {
    if x < 0 then Wrap64(x + TWO64) else if x < TWO64 then x else Wrap64(x - TWO64)
  }

  function Min(a: int, b: int): int {
    if a < b then a else b
  }

  function Max(a: int, b: int): int {
    if a < b then b else a
  }

  lemma {:induction false} WrapIsModulo(x: int)
    ensures Wrap64(x) == x % TWO64
    decreases if x < 0 then TWO64 - x else x
  {
    if x < 0 {
      WrapIsModulo(x + TWO64);
      OneTurnModulo(x);
    } else if x >= TWO64 {
      WrapIsModulo(x - TWO64);
      OneTurnModulo(x - TWO64);
    }
  }

  lemma OneTurnModulo(x: int)
    ensures (x + TWO64) % TWO64 == x % TWO64
  {
    var q, r := x / TWO64, x % TWO64;
    assert x + TWO64 == TWO64 * (q + 1) + r;
  }

  lemma WrapTurn(x: int)
    ensures Wrap64(x + TWO64) == Wrap64(x)
  {
  }

  // Wrapping early or late makes no difference.
  lemma {:induction false} WrapAdd(x: int, d: int)
    ensures Wrap64(Wrap64(x) + d) == Wrap64(x + d)
    decreases if x < 0 then TWO64 - x else x
  {
    if x < 0 {
      WrapAdd(x + TWO64, d);
      WrapTurn(x + d);
    } else if x >= TWO64 {
      WrapAdd(x - TWO64, d);
      WrapTurn(x - TWO64 + d);
    }
  }
}
