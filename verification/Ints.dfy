// Machine integers.

module Ints {
  type byte = x: int | 0 <= x < 0x100
  type u16 = x: int | 0 <= x < 0x1_0000
  type u32 = x: int | 0 <= x < 0x1_0000_0000
  type u64 = x: int | 0 <= x < 0x1_0000_0000_0000_0000

  lemma ByteBack(v: nat)
    requires v < 256
    ensures v as bv8 as nat == v
  {
    var n := v as bv8 as int;
    if n < v {
      assert false;
    } else if v < n {
      assert false;
    }
  }
}
