// Typed guest accesses through the memory manager, seen as a flat map: a load that finds a byte missing delivers 0,
// and a store that does changes nothing.

module GuestMemory {
  import opened MachineTypes
  import opened FlatMemory

  class Guest {
    var bytes: Bytemap

    constructor (bytes: Bytemap)
      ensures this.bytes == bytes
    {
      this.bytes := bytes;
    }

    method ReadSized(a: u64, size: nat) returns (v: u64, ok: bool)
      requires size <= 8
      ensures ok <==> Has(bytes, a, size)
      ensures v == LoadOr0(bytes, a, size)
    {
      ok := true;
      for k := 0 to size
        invariant ok <==> Has(bytes, a, k)
      {
        if a + k !in bytes {
          ok := false;
        }
      }
      if !ok {
        return 0, false;
      }
      LoadBound(bytes, a, size);
      v := FromBytes(Fetch(bytes, a, size));
    }

    method WriteSized(a: u64, size: nat, v: u64) returns (ok: bool)
      requires size <= 8
      modifies this
      ensures ok <==> Has(old(bytes), a, size)
      ensures bytes == StoreIf(old(bytes), a, size, v)
    {
      var _, has := ReadSized(a, size);
      if has {
        bytes := Patch(bytes, a, ToBytes(v, size));
      }
      ok := has;
    }

    method IsCommitted(a: u64, size: u64) returns (yes: bool)
      ensures yes <==> Committed(bytes, a, size)
    {
      if size == 0 {
        return true;
      }
      if a > U64_MAX as int - size {
        return false;
      }
      var k := 0;
      while k < size
        invariant k <= size && Has(bytes, a, k)
      {
        if a + k !in bytes {
          return false;
        }
        k := k + 1;
      }
      yes := true;
    }

    // Writes raw bytes, all or none of them.
    method Write(a: u64, data: seq<byte>) returns (ok: bool)
      modifies this
      ensures ok <==> data == [] || (|data| <= MAX_TOTAL_COMMIT && Committed(old(bytes), a, |data|))
      ensures bytes == if ok then Patch(old(bytes), a, data) else old(bytes)
    {
      if data == [] {
        PatchNothing(bytes, a);
        return true;
      }
      ok := |data| <= MAX_TOTAL_COMMIT;
      if ok {
        ok := IsCommitted(a, |data|);
      }
      if ok {
        bytes := Patch(bytes, a, data);
      }
    }
  }

  // Every byte of the span is there, and it does not reach past the last address.
  ghost predicate Committed(m: Bytemap, a: u64, size: u64) {
    size == 0 || (a + size <= U64_MAX as int && Has(m, a, size))
  }
}
