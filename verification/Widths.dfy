/** Unsigned integers of the source's widths: conversion and arithmetic keep the low bits. */
module Widths {

  const UINT8 := 0x100
  const UINT16 := 0x1_0000
  const UINT32 := 0x1_0000_0000
  const UINT32_MAX := 0xFFFF_FFFF
  const INT32_MAX := 0x7FFF_FFFF

  function Wrap8(n: int): (r: nat)
    ensures r < UINT8
    ensures 0 <= n < UINT8 ==> r == n
  {
    n % 0x100
  }

  function Wrap16(n: int): (r: nat)
    ensures r < UINT16
    ensures 0 <= n < UINT16 ==> r == n
  {
    n % 0x1_0000
  }

  function Wrap32(n: int): (r: nat)
    ensures r < UINT32
    ensures 0 <= n < UINT32 ==> r == n
  {
    n % 0x1_0000_0000
  }
}
