// The x86 general registers and their partial accesses.

module X86Registers {
  import opened MachineTypes
  import opened Alu

  const RAX: nat := 0
  const RCX: nat := 1
  const RDX: nat := 2
  const RBX: nat := 3
  const RSP: nat := 4
  const RBP: nat := 5
  const RSI: nat := 6
  const RDI: nat := 7

  type Gprs = s: seq<u64> | |s| == 16 witness seq(16, _ => 0)

  function GetGpr(g: Gprs, i: nat, w: Width): u64
    requires i < 16
  {
    Masked(g[i], w)
  }

  // Narrow writes keep the rest of the register, except that 4-byte writes clear the upper half.
  function SetGpr(g: Gprs, i: nat, w: Width, v: u64): Gprs
    requires i < 16
  {
    g[i := if w >= 4 then Masked(v, w) else g[i] - Masked(g[i], w) + Masked(v, w)]
  }
}
