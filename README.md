# intel_gem.h in Dafny

A model of the inline helpers in `src/intel/common/intel_gem.h`, the layer the
Intel Mesa drivers use to talk to the i915 kernel driver:

- **Address conversion** (`address.dfy`, module `Address`):
  `intel_canonical_address` and `intel_48b_address` on 64-bit words. Both shift
  the address left by 16 bits and back. The first uses an arithmetic right
  shift, which copies bit 47 into bits [63:48]. The second uses a logical
  right shift, which clears those bits.
- **Retrying ioctl** (`ioctl.dfy`, module `Ioctl`): `intel_ioctl` repeats the
  call while it returns -1 with errno `EINTR` or `EAGAIN`. The kernel is a
  script of replies, one reply per attempt.
- **Query protocol** (`query.dfy`, module `Query`): `intel_i915_query_flags`,
  `intel_i915_query` and `intel_i915_query_alloc`.
  - A failed ioctl gives `-errno`.
  - A negative item length is a failure of that one item.
  - The allocating variant first probes the size with a NULL buffer and
    length 0. It then fetches into a buffer of exactly that size.
  - The buffer that calloc returns is a parameter; NULL means the
    allocation failed.
- **Extension chains** (`extension.dfy`, module `Extension`):
  `intel_gem_add_ext` appends an `i915_user_extension` record to a chain
  linked through `next_extension`.
  - The caller's memory is a class holding the head cell and a map from
    record addresses to record headers.
  - A ghost sequence of addresses names the chain, so the append can be
    stated exactly.
- **Shared C types** (`ctypes.dfy`, module `CTypes`): `int32_t`, pointers and
  `__u64`.

The methods return what the C code writes through its out-parameters.
`errno` becomes an explicit result.

## Model

| member | source | states |
|---|---|---|
| Address.CanonicalAddress | src/intel/common/intel_gem.h:44-58 | the result is bits [47:0] of `v`, with bits [63:48] all ones exactly when bit 47 of `v` is set |
| Address.Address48 | src/intel/common/intel_gem.h:65-70 | the result is bits [47:0] of `v`, with bits [63:48] zero |
| Address.CanonicalAddressIsArithmeticShift | src/intel/common/intel_gem.h:56-57 | the canonical form equals `(int64_t)(v << 16) >> 16` with C's sign-propagating right shift |
| Address.CanonicalAddressBits | src/intel/common/intel_gem.h:47-57 | bits [47:0] are kept, bits [63:48] equal bit 47 of `v`, and the result is canonical ("[63:48] == [47]") |
| Address.Address48Bits | src/intel/common/intel_gem.h:60-70 | bits [47:0] are kept, bits [63:48] are zero, and the result is below 2^48 |
| Address.CanonicalAddressUnique | src/intel/common/intel_gem.h:47-57 | any canonical word with the same bits [47:0] as `v` is the canonical form of `v` |
| Address.Address48Unique | src/intel/common/intel_gem.h:60-70 | any 48-bit word with the same bits [47:0] as `v` is the 48-bit form of `v` |
| Address.Address48OfCanonical | src/intel/common/intel_gem.h:60-70 | the 48-bit form of the canonical form is the 48-bit form ("the opposite") |
| Address.CanonicalOfAddress48 | src/intel/common/intel_gem.h:60-70 | the canonical form of the 48-bit form is the canonical form |
| Address.CanonicalAddressIdempotent | src/intel/common/intel_gem.h:44-58 | converting to canonical form twice changes nothing more |
| Address.Address48Idempotent | src/intel/common/intel_gem.h:65-70 | converting to 48-bit form twice changes nothing more |
| Address.RoundTrips | src/intel/common/intel_gem.h:44-70 | each conversion fixes `v` exactly when `v` is already of its form; canonical-of-48-bit gives `v` back exactly when `v` is canonical, and 48-bit-of-canonical exactly when `v` is 48-bit |
| Ioctl.Attempts | src/intel/common/intel_gem.h:80-82 | the attempt count is at least 1; the last attempt's reply is not (-1, EINTR/EAGAIN); every earlier reply is |
| Ioctl.AttemptsUnique | src/intel/common/intel_gem.h:80-82 | a count with those properties is the attempt count: the loop's stopping point is determined by the script |
| Ioctl.IntelIoctl | src/intel/common/intel_gem.h:75-84 | every attempt passes the same fd, request and argument; all attempts but the last were retryable failures; the result is the last attempt's ret and errno; there is exactly one attempt iff the first reply is not retryable |
| Query.QueryOutcomeCases | src/intel/common/intel_gem.h:109-116 | ioctl failure gives -errno with the length unchanged; else a negative item length is returned with the length unchanged; else 0 and the item length is written back |
| Query.QueryStatusSign | src/intel/common/intel_gem.h:109-116 | when a failed ioctl sets a positive errno, the status is never positive, it is 0 iff the query succeeded, and the length cell changes only on success |
| Query.QueryFlags | src/intel/common/intel_gem.h:92-117 | the attempts are intel_ioctl's, each passing `DRM_IOCTL_I915_QUERY` and an envelope with one item and no flags, whose item holds the caller's query id, length, flags and buffer (lines 96-107); the status and new length are those of the settled reply |
| Query.Query | src/intel/common/intel_gem.h:119-124 | the same outcome as intel_i915_query_flags with flags 0 |
| Query.QueryAlloc | src/intel/common/intel_gem.h:131-158 | the probe uses a NULL buffer of length 0; a failed probe or a failed calloc returns NULL with the length cell 0 and nothing allocated; the fetch uses the new buffer of the probed size; a failed fetch frees it and returns NULL with the cell 0; on success the caller owns the buffer and the cell holds the fetched length; a NULL length pointer is never written |
| Extension.ChainSuffix | src/intel/common/intel_gem.h:196-198 | following a record's link from inside a chain gives the rest of the chain |
| Extension.ChainUnique | src/intel/common/intel_gem.h:196-198 | memory determines the chain the walk follows from a link |
| Extension.ChainIsAcyclic | src/intel/common/intel_gem.h:196-198 | a chain that ends at a zero link visits no record twice |
| Extension.ExtNotInOwnChain | src/intel/common/intel_gem.h:190-203 | a record whose links end at zero is not on its own chain |
| Extension.AppendedChain | src/intel/common/intel_gem.h:190-203 | after the append, the chain from the head is the old chain, then `ext`, then whatever `ext` already led to; `ext` has the new name; no other record changes except the old last one, which now links to `ext` |
| Extension.ThreeAppends | src/intel/common/intel_gem.h:190-203 | linking R1, R2, R3 onto an empty head gives the chain R1, R2, R3; each has the name it was linked with, and R3's link is zero |
| Extension.RelinkMakesCycle | src/intel/common/intel_gem.h:190-203 | linking a record already on the chain leaves no zero-terminated chain from the head |
| Extension.Memory.AddExt | src/intel/common/intel_gem.h:190-203 | the walk stops at the chain's terminal link; the head becomes `ext` if the chain was empty; the records become the appended records; the new chain runs from the head |

## Left out

- Ioctl.IntelIoctl: requires that the script eventually gives a reply that is not retryable. The C loop has no such guard; a kernel that keeps interrupting makes it spin forever, and that run is not modelled.
- Query.QueryFlags: requires the same of its script, for the same reason.
- Query.Query: requires the same of its script, for the same reason.
- Query.QueryAlloc: requires the same of the probe's script and, when the fetch happens, of the rest of the script.
- The `ioctl` system call and the process-wide `errno` are not modelled as OS state. Each attempt's ret, errno and written-back item length is a scripted reply.
- The bytes the kernel writes into the query buffer are not modelled. Only the length it reports is.
- `calloc` and `free` are modelled only by their effect. The buffer calloc returns (or NULL) is a parameter, and a trace records allocation and release.
- The `assert`s at lines 143 and 148 compile away in release builds. They are not preconditions; the model follows the release-build branches after them.
- The functions declared at lines 160-188 have no bodies in this header, so there is nothing to model. These are syncobj-wait support, context create/destroy, engine sets, extended contexts, get/set param, protected-context support and the render timestamp.
- Every attempt of a query hands the kernel the same `&args` (lines 81 and 109). An attempt that fails with EINTR or EAGAIN is assumed to leave the query item unchanged, so a retry carries the caller's original `length`. A kernel that writes `item.length` and then reports EINTR or EAGAIN is not modelled.
- The i915 ABI layout (field offsets, `items_ptr` as an integer) is not modelled. Arguments are values, and the single query item is held in the envelope directly.
- Extension records hold only their `i915_user_extension` header (name and link). The head cell is assumed to be separate from every record, so a head pointer into a record's own link field is not modelled.
- Pointer-to-integer casts in the extension chain are modelled as record addresses, numbers below 2^64.
- `src/mesa/math/m_vector.h` and `src/mapi/glapi/gen/api_exec_decl_h.py` are not part of this model. They hold no logic of the query, ioctl, address or extension helpers.
- `intel_i915_query_alloc` does not compare the fetched length with the probed one; it checks only the second query's status (line 149). A fetch that succeeds with a different length returns the buffer, and the length cell holds the new length. The model does the same.
