/** Address translation as the hardware does it: Sv39, section 4.3.2 of the RISC-V Privileged Architecture. Entries are
    taken apart in plain numbers, by where section 4.4.1 says their fields lie. */
module Hardware {
  import opened Options
  import opened Frames

  /** VPN[level], which is 2 at the root and 0 at the leaf. */
  function VpnField(vpn: nat, level: nat): (i: nat)
    ensures i < 512
  {
    if level == 2 then vpn / 262144 % 512 else if level == 1 then vpn / 512 % 512 else vpn % 512
  }

  /** The frame number, in bits 53 to 10. */
  function EntryPpn(pte: nat): nat {
    pte / 1024 % 0x1000_0000_0000
  }

  predicate IsV(pte: nat) { pte % 2 == 1 }

  predicate IsR(pte: nat) { pte / 2 % 2 == 1 }

  predicate IsW(pte: nat) { pte / 4 % 2 == 1 }

  predicate IsX(pte: nat) { pte / 8 % 2 == 1 }

  predicate IsU(pte: nat) { pte / 16 % 2 == 1 }

  predicate IsA(pte: nat) { pte / 64 % 2 == 1 }

  predicate IsD(pte: nat) { pte / 128 % 2 == 1 }

  /** The walk up to the leaf: the page it yields and the leaf's entry, or a page fault. What the section then tests for
      the access is in `Granted`. */
  function HardwareWalk(mem: Memory, a: nat, vpn: nat, level: nat): Option<(nat, nat)>
    decreases level
  {
    if a !in mem then None else
    var pte := mem[a][VpnField(vpn, level)];
    if !IsV(pte) || (!IsR(pte) && IsW(pte)) then None
    else if IsR(pte) || IsX(pte) then
      var span := if level == 0 then 1 else if level == 1 then 512 else 262144;
      if EntryPpn(pte) % span != 0 then None else Some((EntryPpn(pte) + vpn % span, pte))
    else if level == 0 then None
    else HardwareWalk(mem, EntryPpn(pte), vpn, level - 1)
  }

  /** A leaf the hardware accepts: readable or executable, and not writable alone. */
  predicate HardwareLeaf(pte: nat) {
    (IsR(pte) || IsX(pte)) && (IsW(pte) ==> IsR(pte))
  }

  datatype Access = Execute | Load | Store

  /** The parts of the hart's state that matter to an access: `sum` lets the supervisor load and store in user pages,
      `mxr` lets loads read executable pages. */
  datatype Mode = Mode(user: bool, sum: bool, mxr: bool)

  /** The entry allows this kind of access in this mode. */
  predicate Permitted(pte: nat, access: Access, mode: Mode) {
    && (match access
        case Execute => IsX(pte)
        case Load => IsR(pte) || (mode.mxr && IsX(pte))
        case Store => IsW(pte))
    && (if mode.user then IsU(pte) else IsU(pte) ==> mode.sum && access != Execute)
  }

  /** The tests that end the translation: the permission, then the A bit, and D for a store. Hardware that does not
      update these two bits faults where it finds them clear. */
  predicate Granted(pte: nat, access: Access, mode: Mode, updates: bool) {
    Permitted(pte, access, mode) && (updates || (IsA(pte) && (access == Store ==> IsD(pte))))
  }

  function HardwareAccess(mem: Memory, root: nat, vpn: nat, access: Access, mode: Mode, updates: bool): Option<nat> {
    var walk := HardwareWalk(mem, root, vpn, 2);
    if walk.Some? && Granted(walk.value.1, access, mode, updates) then Some(walk.value.0) else None
  }
}
