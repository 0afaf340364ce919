/*
 * intel_ioctl (src/intel/common/intel_gem.h): issue an ioctl, and issue it
 * again for as long as it fails with EINTR or EAGAIN.
 *
 * The kernel is a script: the replies it will give to the successive attempts,
 * each the value the ioctl returns together with the errno it leaves. A
 * retried attempt is one the kernel did not carry out, so every attempt hands
 * it the same request and argument. The process-wide errno becomes an explicit
 * result.
 */
module Ioctl {
  import opened CTypes

  /** Linux errno values. */
  const EINTR: int := 4
  const EAGAIN: int := 11

  /**
   * The kernel's answer to one attempt: what ioctl returns, the errno it
   * leaves, and, for a query, the `length` it writes back into the query item
   * (other requests ignore that field).
   */
  datatype Reply = Reply(ret: int, errno: int, itemLength: int32)

  /** One attempt as the kernel sees it. */
  datatype Call<A> = Call(fd: int, request: nat, arg: A)

  /** The answer intel_ioctl does not accept: -1 with errno EINTR or EAGAIN. */
  predicate Retryable(r: Reply)
  {
    r.ret == -1 && (r.errno == EINTR || r.errno == EAGAIN)
  }

  /** The script contains an answer the loop stops at. */
  predicate Answers(replies: seq<Reply>)
  {
    exists i :: 0 <= i < |replies| && !Retryable(replies[i])
  }

  lemma AnswersAfterRetry(replies: seq<Reply>)
    requires Answers(replies) && Retryable(replies[0])
    ensures Answers(replies[1..])
  {
    var i :| 0 <= i < |replies| && !Retryable(replies[i]);
    assert replies[1..][i - 1] == replies[i];
  }

  /**
   * The number of attempts intel_ioctl makes: up to and including the first
   * answer that is not retryable.
   */
  function Attempts(replies: seq<Reply>): (n: nat)
    requires Answers(replies)
    ensures 1 <= n <= |replies|
    ensures !Retryable(replies[n - 1])
    ensures forall i :: 0 <= i < n - 1 ==> Retryable(replies[i])
  {
    if !Retryable(replies[0]) then 1
    else
      AnswersAfterRetry(replies);
      1 + Attempts(replies[1..])
  }

  /** The answer intel_ioctl returns. */
  function Settled(replies: seq<Reply>): Reply
    requires Answers(replies)
  {
    replies[Attempts(replies) - 1]
  }

  /** The attempts are determined: any count with the properties of Attempts is it. */
  lemma AttemptsUnique(replies: seq<Reply>, n: nat)
    requires 1 <= n <= |replies|
    requires !Retryable(replies[n - 1])
    requires forall i :: 0 <= i < n - 1 ==> Retryable(replies[i])
    ensures Answers(replies) && Attempts(replies) == n
  {
  }

  /**
   * intel_ioctl: attempt the call until it returns something other than -1
   * with EINTR or EAGAIN, and return that attempt's value and errno.
   */
  method IntelIoctl<A>(fd: int, request: nat, arg: A, replies: seq<Reply>)
    returns (ret: int, errno: int, calls: seq<Call<A>>)
    requires Answers(replies)
    ensures 1 <= |calls| <= |replies|
    ensures forall i :: 0 <= i < |calls| ==> calls[i] == Call(fd, request, arg)
    ensures forall i :: 0 <= i < |calls| - 1 ==> Retryable(replies[i])
    ensures !Retryable(replies[|calls| - 1])
    ensures ret == replies[|calls| - 1].ret && errno == replies[|calls| - 1].errno
    ensures |calls| == 1 <==> !Retryable(replies[0])
    ensures |calls| == Attempts(replies)
  {
    var attempt := 0;
    calls := [];
    ret, errno := replies[attempt].ret, replies[attempt].errno;
    calls := calls + [Call(fd, request, arg)];
    attempt := attempt + 1;
    while ret == -1 && (errno == EINTR || errno == EAGAIN)
      invariant 1 <= attempt == |calls| <= |replies|
      invariant forall i :: 0 <= i < |calls| ==> calls[i] == Call(fd, request, arg)
      invariant ret == replies[attempt - 1].ret && errno == replies[attempt - 1].errno
      invariant forall i :: 0 <= i < attempt - 1 ==> Retryable(replies[i])
      invariant exists j :: attempt - 1 <= j < |replies| && !Retryable(replies[j])
      decreases |replies| - attempt
    {
      ret, errno := replies[attempt].ret, replies[attempt].errno;
      calls := calls + [Call(fd, request, arg)];
      attempt := attempt + 1;
    }
    AttemptsUnique(replies, attempt);
  }
}
