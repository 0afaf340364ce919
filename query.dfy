/*
 * The DRM_IOCTL_I915_QUERY helpers of src/intel/common/intel_gem.h:
 * intel_i915_query_flags, intel_i915_query and intel_i915_query_alloc.
 *
 * A query carries one item; the kernel answers through two channels. The
 * ioctl itself can fail (the helper then returns -errno), or it can succeed
 * and write a negative `length` into the item to report that this item failed
 * (the helper returns that length). Otherwise the item's `length` is the size
 * of the answer, and it is passed back through the caller's length cell.
 */
module Query {
  import opened CTypes
  import opened Ioctl

  /** drm_i915_query_item: the query asked, the buffer offered and its size. */
  datatype QueryItem = QueryItem(queryId: bv64, length: int32, flags: bv32, dataPtr: Ptr)

  /** drm_i915_query: the envelope; `items_ptr` is modelled by the items it points at. */
  datatype QueryArgs = QueryArgs(numItems: bv32, flags: bv32, items: seq<QueryItem>)

  /**
   * DRM_IOCTL_I915_QUERY, DRM_IOWR(DRM_COMMAND_BASE + 0x39, struct drm_i915_query)
   * as drm-uapi/i915_drm.h defines it.
   */
  const I915QueryRequest: nat := 0xC010_6479

  /** The envelope intel_i915_query_flags builds around its one item. */
  function SingleItem(queryId: bv64, flags: bv32, buffer: Ptr, length: int32): (q: QueryArgs)
    ensures q.numItems == 1 && q.flags == 0 && |q.items| == 1
    ensures q.items[0] == QueryItem(queryId, length, flags, buffer)
  {
    QueryArgs(1, 0, [QueryItem(queryId, length, flags, buffer)])
  }

  /**
   * The value intel_i915_query_flags returns once the kernel's answer is `r`:
   * -errno when the ioctl failed, else the item length when the kernel wrote
   * a negative one, else 0.
   */
  function QueryStatus(r: Reply): int
  {
    if r.ret != 0 then -r.errno
    else if r.itemLength < 0 then r.itemLength
    else 0
  }

  /** `*buffer_len` afterwards: the written-back length when the query succeeded. */
  function QueryLength(r: Reply, bufferLen: int32): int32
  {
    if r.ret == 0 && r.itemLength >= 0 then r.itemLength else bufferLen
  }

  /**
   * What intel_i915_query_flags returns and leaves in `*buffer_len` when it
   * submits `queryId`, `flags`, `buffer` and `bufferLen` to a kernel scripted
   * by `replies`, and the ioctl attempts `calls` it makes: every attempt
   * carries the caller's one item in an envelope with one item and no flags,
   * and the attempts are those intel_ioctl makes.
   */
  ghost predicate QueryOutcome(fd: int, queryId: bv64, flags: bv32, buffer: Ptr, bufferLen: int32,
                               replies: seq<Reply>, status: int, newLen: int32, calls: seq<Call<QueryArgs>>)
    requires Answers(replies)
  {
    && |calls| == Attempts(replies)
    && (forall i :: 0 <= i < |calls| ==>
          calls[i] == Call(fd, I915QueryRequest, SingleItem(queryId, flags, buffer, bufferLen)))
    && status == QueryStatus(Settled(replies))
    && newLen == QueryLength(Settled(replies), bufferLen)
  }

  /**
   * The three outcomes of a query: if the ioctl fails, -errno and the length
   * unchanged; else if the item length is negative, that length and the
   * length unchanged; otherwise 0 and the item length.
   */
  lemma QueryOutcomeCases(r: Reply, bufferLen: int32)
    ensures r.ret != 0 ==> QueryStatus(r) == -r.errno && QueryLength(r, bufferLen) == bufferLen
    ensures r.ret == 0 && r.itemLength < 0 ==>
              QueryStatus(r) == r.itemLength && QueryLength(r, bufferLen) == bufferLen
    ensures r.ret == 0 && r.itemLength >= 0 ==> QueryStatus(r) == 0 && QueryLength(r, bufferLen) == r.itemLength
  {
  }

  /**
   * Both failure channels surface as a negative status when the failed ioctl
   * set errno, as a failing system call does: the status is 0 exactly when
   * the query succeeded, and the length cell changes only then.
   */
  lemma QueryStatusSign(r: Reply, bufferLen: int32)
    requires r.ret != 0 ==> r.errno > 0
    ensures QueryStatus(r) <= 0
    ensures QueryStatus(r) == 0 <==> r.ret == 0 && r.itemLength >= 0
    ensures QueryLength(r, bufferLen) != bufferLen ==> QueryStatus(r) == 0
  {
  }

  /** intel_i915_query_flags; `*buffer_len` is passed in and its new value returned. */
  method QueryFlags(fd: int, queryId: bv64, flags: bv32, buffer: Ptr, bufferLen: int32, replies: seq<Reply>)
    returns (status: int, newLen: int32, calls: seq<Call<QueryArgs>>)
    requires Answers(replies)
    ensures QueryOutcome(fd, queryId, flags, buffer, bufferLen, replies, status, newLen, calls)
  {
    var args := SingleItem(queryId, flags, buffer, bufferLen);
    var ret, errno;
    ret, errno, calls := IntelIoctl(fd, I915QueryRequest, args, replies);
    var written := replies[|calls| - 1].itemLength;
    newLen := bufferLen;
    if ret != 0 {
      status := -errno;
    } else if written < 0 {
      status := written;
    } else {
      newLen := written;
      status := 0;
    }
  }

  /** intel_i915_query: intel_i915_query_flags with no flags. */
  method Query(fd: int, queryId: bv64, buffer: Ptr, bufferLen: int32, replies: seq<Reply>)
    returns (status: int, newLen: int32, calls: seq<Call<QueryArgs>>)
    requires Answers(replies)
    ensures QueryOutcome(fd, queryId, 0, buffer, bufferLen, replies, status, newLen, calls)
  {
    status, newLen, calls := QueryFlags(fd, queryId, 0, buffer, bufferLen, replies);
  }

  /** What intel_i915_query_alloc does with memory: calloc that succeeded, and free. */
  datatype HeapOp = Calloc(addr: Ptr, size: int) | Free(addr: Ptr)

  /** The buffers a sequence of heap operations leaves allocated. */
  function Outstanding(ops: seq<HeapOp>): set<Ptr>
  {
    if ops == [] then {}
    else
      var before := Outstanding(ops[..|ops| - 1]);
      match ops[|ops| - 1]
      case Calloc(a, _) => before + {a}
      case Free(a) => before - {a}
  }

  /** The size probe of intel_i915_query_alloc succeeds and calloc returns a buffer. */
  ghost predicate FetchFollows(replies: seq<Reply>, allocation: Ptr)
    requires Answers(replies)
  {
    QueryStatus(Settled(replies)) >= 0 && allocation != Null
  }

  /**
   * intel_i915_query_alloc. The caller's `query_length` pointer is
   * `queryLength` (None for NULL, else the cell's value) and its new value is
   * `newQueryLength`; `allocation` is what calloc returns (Null when it
   * fails); `heap` records the allocation and release.
   */
  method QueryAlloc(fd: int, queryId: bv64, queryLength: Option<int32>, allocation: Ptr, replies: seq<Reply>)
    returns (data: Ptr, newQueryLength: Option<int32>, heap: seq<HeapOp>, calls: seq<Call<QueryArgs>>)
    requires Answers(replies)
    requires FetchFollows(replies, allocation) ==> Answers(replies[Attempts(replies)..])
    // a NULL query_length stays untouched; on failure the cell holds 0
    ensures newQueryLength.None? <==> queryLength.None?
    ensures data == Null ==> newQueryLength == if queryLength.None? then None else Some(0)
    // the caller owns the returned buffer and nothing else is left allocated
    ensures Outstanding(heap) == if data == Null then {} else {data}
    // the size probe: a NULL buffer of length 0
    ensures Attempts(replies) <= |calls|
    ensures forall i :: 0 <= i < Attempts(replies) ==>
              calls[i] == Call(fd, I915QueryRequest, SingleItem(queryId, 0, Null, 0))
    ensures !FetchFollows(replies, allocation) ==> data == Null && heap == [] && |calls| == Attempts(replies)
    // the fetch: the new buffer, of the probed size
    ensures FetchFollows(replies, allocation) ==>
              var n := Attempts(replies);
              var size := QueryLength(Settled(replies), 0);
              var fetch := Settled(replies[n..]);
              && |calls| == n + Attempts(replies[n..])
              && (forall i :: n <= i < |calls| ==>
                    calls[i] == Call(fd, I915QueryRequest, SingleItem(queryId, 0, allocation, size)))
              && (QueryStatus(fetch) < 0 ==> data == Null && heap == [Calloc(allocation, size), Free(allocation)])
              && (QueryStatus(fetch) >= 0 ==>
                    && data == allocation
                    && heap == [Calloc(allocation, size)]
                    && newQueryLength == if queryLength.None? then None else Some(QueryLength(fetch, size)))
  {
    newQueryLength := if queryLength.None? then None else Some(0);
    heap := [];
    data := Null;

    var length: int32 := 0;
    var ret;
    ret, length, calls := Query(fd, queryId, Null, length, replies);
    if ret < 0 {
      return;
    }

    data := allocation;
    if data == Null {
      return;
    }
    heap := heap + [Calloc(data, length)];

    var fetchCalls;
    ret, length, fetchCalls := Query(fd, queryId, data, length, replies[|calls|..]);
    calls := calls + fetchCalls;
    if ret < 0 {
      heap := heap + [Free(data)];
      assert heap[..1] == [Calloc(data, length)] && [Calloc(data, length)][..0] == [];
      assert Outstanding(heap[..1]) == {data};
      data := Null;
      return;
    }

    if queryLength.Some? {
      newQueryLength := Some(length);
    }
  }
}
