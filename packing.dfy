/**
 * The Windows byte normalisation of src/irda.c: a 32-bit device address is
 * assembled big-endian from the four `irdaDeviceID` bytes during discovery
 * and split back into them when a peer address is built for `connect`; the
 * 16-bit hints word is assembled from two hint bytes on both platforms.
 * Shifts and masks are written as division and remainder by powers of two.
 */
module Packing {
  import opened Types

  /** The four bytes of a device identifier, most significant first. */
  datatype DeviceId = DeviceId(b0: byte, b1: byte, b2: byte, b3: byte)

  /** `(address >> 24) & 0xFF`, `(address >> 16) & 0xFF`, `(address >> 8) & 0xFF`, `address & 0xFF`. */
  function SplitAddress(address: u32): DeviceId
  {
    DeviceId((address / 0x100_0000) % 0x100, (address / 0x1_0000) % 0x100,
             (address / 0x100) % 0x100, address % 0x100)
  }

  /** `(id[0] << 24) + (id[1] << 16) + (id[2] << 8) + id[3]`, computed on naturals. */
  function AssembleAddress(id: DeviceId): u32
  {
    id.b0 * 0x100_0000 + id.b1 * 0x1_0000 + id.b2 * 0x100 + id.b3
  }

  /** Reassembling the four bytes of an address gives the address back. */
  lemma SplitThenAssemble(address: u32)
    ensures AssembleAddress(SplitAddress(address)) == address
  {
    var q1 := address / 0x100;
    var q2 := q1 / 0x100;
    assert address / 0x1_0000 == q2;
    assert address / 0x100_0000 == q2 / 0x100;
  }

  /** Splitting an assembled address gives back the four bytes it came from. */
  lemma AssembleThenSplit(id: DeviceId)
    ensures SplitAddress(AssembleAddress(id)) == id
  {
    var a := AssembleAddress(id);
    assert a / 0x100 == (id.b0 * 0x100 + id.b1) * 0x100 + id.b2;
    assert a / 0x1_0000 == id.b0 * 0x100 + id.b1;
    assert a / 0x100_0000 == id.b0;
  }

  /** Two distinct addresses never produce the same four bytes. */
  lemma SplitInjective(a1: u32, a2: u32)
    requires SplitAddress(a1) == SplitAddress(a2)
    ensures a1 == a2
  {
    SplitThenAssemble(a1);
    SplitThenAssemble(a2);
  }

  /** `(hints1 << 8) + hints2`: the hints word is below 2^16 and gives back both bytes. */
  function AssembleHints(hi: byte, lo: byte): (h: u16)
    ensures h / 0x100 == hi && h % 0x100 == lo
  {
    hi * 0x100 + lo
  }
}
