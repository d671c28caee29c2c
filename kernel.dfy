/** The kernel event queue (`kqueue`/`kevent`) as the listener sees it: the
    answers it can give, with nothing about how it produces them. */
module Kernel {

  /** A value `errno` can hold after a failed call. */
  type Errno = e: int | 0 < e witness 4

  /** "Interrupted system call". */
  const EINTR: Errno := 4

  /** One change list entry on the EVFILT_SIGNAL filter. */
  datatype Change =
    | Add(signo: int)     // EV_ADD
    | Delete(signo: int)  // EV_DELETE

  /** The kernel's answer to a one-entry change list: 0 when `kevent`
      succeeds, otherwise the `errno` it leaves. */
  type Registrar = Change -> nat

  /** The outcome of `kqueue()`. */
  datatype OpenReply =
    | Opened(fd: nat)
    | OpenFailed(errno: Errno)

  /** The outcome of one zero-timeout `kevent` that asks for at most one event. */
  datatype PollReply =
    | NoEvent               // returned 0
    | OtherEvent            // returned 1, filter other than EVFILT_SIGNAL
    | Fired(signo: int)     // returned 1, EVFILT_SIGNAL with ident signo
    | Failed(errno: Errno)  // returned -1

  predicate Interrupted(reply: PollReply) {
    reply.Failed? && reply.errno == EINTR
  }

  /** Some reply in the sequence is not an interruption, so the retry loop
      that reads them in order ends. */
  predicate Answers(replies: seq<PollReply>) {
    exists i :: 0 <= i < |replies| && !Interrupted(replies[i])
  }

  /** Index of the reply the retry loop stops at. */
  ghost function FirstAnswer(replies: seq<PollReply>): (k: nat)
    requires Answers(replies)
    ensures k < |replies| && !Interrupted(replies[k])
    ensures forall j :: 0 <= j < k ==> Interrupted(replies[j])
  {
    if !Interrupted(replies[0]) then 0
    else
      var i :| 0 <= i < |replies| && !Interrupted(replies[i]);
      assert !Interrupted(replies[1..][i - 1]);
      1 + FirstAnswer(replies[1..])
  }
}
