// Rounding addresses, with the 64-bit overflow the source guards against.

module Alignment {
  import opened MachineTypes
  import opened Division
  import opened Regions

  // Rounds up; 0 when the rounded value does not fit 64 bits.
  function AlignUp(value: u64, alignment: u64): u64 {
    if alignment == 0 then value
    else
      var remainder := value % alignment;
      if remainder == 0 then value
      else
        var delta := alignment - remainder;
        if value > U64_MAX - delta then 0 else value + delta
  }

  function AlignDown(value: u64, alignment: u64): u64 {
    if alignment == 0 then value
    else
      DivideBounds(value, alignment);
      (value / alignment) * alignment
  }

  lemma DivideBounds(value: nat, alignment: nat)
    requires alignment > 0
    ensures (value / alignment) * alignment == value - value % alignment
  {
    Euclid(value, alignment, value / alignment, value % alignment);
  }

  // AlignUp finds the least multiple at or above the value, and returns 0 exactly when that is 0 or
  // would need more than 64 bits. An alignment of 0 leaves the value as it is.
  lemma AlignUpLeast(value: u64, alignment: u64, x: int)
    ensures var r := AlignUp(value, alignment);
            if alignment == 0 then r == value
            else && r % alignment == 0
                 && (r != 0 ==> value <= r)
                 && (x % alignment == 0 && value <= x <= U64_MAX ==> r <= x && (r == 0 ==> value == 0))
  {
    if alignment != 0 {
      AlignUpIs(value, alignment);
      hide AlignUp;
      Quotient(0, alignment, 0, 0);
      if value % alignment != 0 {
        NextMultiple(value, alignment, x);
      }
    }
  }

  lemma AlignUpIs(value: u64, alignment: u64)
    requires alignment > 0
    ensures var r, next := AlignUp(value, alignment), value + (alignment - value % alignment);
            if value % alignment == 0 then r == value else r == if next > U64_MAX then 0 else next
  {
  }

  // Rounding up stays within 64 bits for every value in the lower half, whatever the alignment.
  lemma AlignUpFits(value: u64, alignment: u64)
    requires alignment > 0 && 0 < value <= U64_MAX / 2
    ensures AlignUp(value, alignment) >= value
  {
    if alignment > value {
      Quotient(value, alignment, 0, value);
    }
  }

  lemma NextMultiple(value: nat, alignment: nat, x: int)
    requires alignment > 0 && value % alignment != 0
    ensures (value + (alignment - value % alignment)) % alignment == 0
    ensures x % alignment == 0 && value <= x ==> value + (alignment - value % alignment) <= x
  {
    var p, rest := value / alignment, value % alignment;
    Euclid(value, alignment, p, rest);
    assert value + (alignment - rest) == (p + 1) * alignment;
    Quotient(value + (alignment - rest), alignment, p + 1, 0);
    if x % alignment == 0 && value <= x {
      var q := x / alignment;
      Euclid(x, alignment, q, 0);
      if q <= p {
        LessTimes(q, p, alignment);
      } else {
        LessTimes(p + 1, q, alignment);
      }
    }
  }

  function PageUp(x: int): int { (x + 0xFFF) / 0x1000 * 0x1000 }
  function PageDown(x: int): int { x / 0x1000 * 0x1000 }

  // The size of the whole pages touched by [address, address + size).
  function PageSpan(address: int, size: int): int { PageUp(address + size) - PageDown(address) }

  lemma PageAlign(value: u64)
    ensures AlignDown(value, PAGE_SIZE) == PageDown(value) <= value <= PageUp(value)
    ensures AlignUp(value, PAGE_SIZE) == if PageUp(value) <= U64_MAX then PageUp(value) else 0
  {
  }

  lemma PageBounds(address: nat, size: nat)
    ensures PageDown(address) % PAGE_SIZE == 0 && PageUp(address + size) % PAGE_SIZE == 0
    ensures 0 <= PageDown(address) && (size > 0 ==> PageDown(address) < PageUp(address + size))
  {
  }

  lemma PageUpTwice(x: int)
    ensures PageUp(PageUp(x)) == PageUp(x) && PageUp(x) % PAGE_SIZE == 0
  {
  }

  // The whole pages touched by [address, address + size), when they end at or below the limit.
  function NormalizePageRange(address: u64, size: u64, limit: u64): Option<(u64, u64)> {
    if size == 0 || address > U64_MAX - size then None
    else
      var start := AlignDown(address, PAGE_SIZE);
      var end := AlignUp(address + size, PAGE_SIZE);
      if end == 0 || end <= start || end > limit then None else Some((start, end))
  }

  lemma NormalizeExact(address: u64, size: u64, limit: u64)
    requires limit % PAGE_SIZE == 0
    ensures NormalizePageRange(address, size, limit) ==
            if size > 0 && PageUp(address + size) <= limit then Some((PageDown(address), PageUp(address + size)))
            else None
  {
    PageAlign(address);
    if address + size <= U64_MAX {
      PageAlign(address + size);
    }
  }
}
