/** Machine integers of the C wrapper: conversion of an unsigned count or size
    to the 32-bit `int` that the entry points return. */
module Ints {

  const TWO_31: int := 0x8000_0000
  const TWO_32: int := 0x1_0000_0000

  /** `(int)x` for an unsigned `x` on a platform with a 32-bit two's-complement
      `int`: the value modulo 2^32, read back as a signed number. */
  function Int32Of(x: nat): (r: int)
    ensures -TWO_31 <= r < TWO_31
    ensures (x - r) % TWO_32 == 0
    ensures x < TWO_31 ==> r == x
    ensures r >= 0 <==> x % TWO_32 < TWO_31
  {
    var m := x % TWO_32;
    if m < TWO_31 then m else m - TWO_32
  }
}
