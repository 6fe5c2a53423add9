/** 64-bit words and saturating arithmetic. */
module Numbers {

  const TWO_64: nat := 0x1_0000_0000_0000_0000

  function Max(a: nat, b: nat): nat {
    if a >= b then a else b
  }

  function Minus(a: nat, b: nat): nat {
    if a >= b then a - b else 0
  }

  function Power(b: nat, k: nat): nat {
    if k == 0 then 1 else b * Power(b, k - 1)
  }
}
