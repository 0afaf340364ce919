/*
 * The C types the model needs from the kernel interface and the C library.
 */
module CTypes {

  /** A C `int32_t` (also the kernel's `__s32`). */
  type int32 = x: int | -0x8000_0000 <= x < 0x8000_0000

  /** A pointer, as the 64-bit value it has once cast to `uintptr_t`; 0 is NULL. */
  type Ptr = bv64

  const Null: Ptr := 0

  /** A kernel `__u64` held as a number, used where values serve as map keys. */
  type u64 = x: int | 0 <= x < 0x1_0000_0000_0000_0000

  datatype Option<T> = None | Some(value: T)
}
