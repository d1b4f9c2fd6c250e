/** Virtual addresses and page numbers (os/src/memory/address.rs). */
module Addresses {
  import opened Bits

  /** A `usize` as a `VirtAddr`: the low 39 bits. */
  function VirtAddr(v: nat): nat {
    And(v, Pow2(39) - 1)
  }

  function Floor(va: nat): nat {
    va / 4096
  }

  function Ceil(va: nat): nat
    requires va > 0
  {
    (va - 1 + 4096) / 4096
  }

  function PageOffset(va: nat): nat {
    And(va, 4095)
  }

  /** Masking keeps the address modulo 2^39, and its offset is the position in its page. */
  lemma AddressSplits(v: nat)
    ensures VirtAddr(v) == v % 0x80_0000_0000 && PageOffset(v) == v % 4096
  {
    hide And, Pow2;
    AddressWidths();
    AndMask(v, 39);
    AndMask(v, 12);
  }

  /** `floor` is the page an address lies in, `ceil` the first that begins no earlier. */
  lemma PageBounds(va: nat)
    ensures 4096 * Floor(va) <= va < 4096 * (Floor(va) + 1)
    ensures va > 0 ==> 4096 * (Ceil(va) - 1) < va <= 4096 * Ceil(va)
  {
  }

  lemma AddressWidths()
    ensures Pow2(12) == 4096 && Pow2(39) == 0x80_0000_0000
  {
    assert Pow2(6) == 64;
    assert Pow2(7) == 2 * Pow2(6);
    Pow2Add(6, 6);
    Pow2Add(6, 7);
    Pow2Add(13, 13);
    Pow2Add(26, 13);
  }
}
