/** The unsigned integers of the machine. */
module Machine {
  type Byte = x: int | 0 <= x < 0x100
  type uint32 = x: int | 0 <= x < 0x1_0000_0000
  type uint64 = x: int | 0 <= x < TWO_TO_THE_64

  /** Arithmetic on `size_t` and `unsigned long long` wraps around here. */
  const TWO_TO_THE_64 := 0x1_0000_0000_0000_0000
}
