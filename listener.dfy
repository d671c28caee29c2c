/** The signal listener (`struct signalfd` and the routines over it): three
    signal sets kept in step with a kernel event queue. */
module SignalListener {
  import opened SigSet
  import opened Kernel
  import opened Reconcile

  datatype Option<T> = None | Some(value: T)

  /** The three sets of `struct signalfd`: the signals asked for, those
      registered with the kernel queue, and those fired but not yet taken. */
  datatype SignalSets = SignalSets(desired: set<int>, polling: set<int>, pending: set<int>)

  predicate SetsWellFormed(sets: SignalSets) {
    WellFormed(sets.desired) && WellFormed(sets.polling) && WellFormed(sets.pending)
  }

  /** The sets after `sfd_query`, and what it returns. */
  datatype QueryOutcome = QueryOutcome(sets: SignalSets, err: nat)

  /** What `lsl_wait` hands back to its caller. */
  datatype WaitResult =
    | Got(signo: int)     // the signal number taken from the pending set
    | NoSignal            // no value: nothing is pending
    | Raised(errno: nat)  // the error raised when the query failed

  /** The sets after `lsl_wait`, and its result. */
  datatype WaitOutcome = WaitOutcome(sets: SignalSets, result: WaitResult)

  /** The signal a poll reply adds to the pending set, if any. */
  function Delivered(reply: PollReply): set<int> {
    if reply.Fired? && IsSignal(reply.signo) then {reply.signo} else {}
  }

  /** `sfd_query`: read replies while they are EINTR; on another failure
      return its errno; otherwise move a fired signal from polling to
      pending and reconcile, which registers it again. */
  ghost function Queried(sets: SignalSets, kernel: Registrar, replies: seq<PollReply>): QueryOutcome
    requires Answers(replies)
  {
    var reply := replies[FirstAnswer(replies)];
    if reply.Failed? then QueryOutcome(sets, reply.errno)
    else
      var pending := if reply.Fired? then Added(sets.pending, reply.signo) else sets.pending;
      var polling := if reply.Fired? then Removed(sets.polling, reply.signo) else sets.polling;
      var update := Reconciled(sets.desired, polling, kernel);
      QueryOutcome(SignalSets(sets.desired, update.polling, pending), update.err)
  }

  /** `lsl_wait`: query, then take the lowest pending signal. */
  ghost function Waited(sets: SignalSets, kernel: Registrar, replies: seq<PollReply>): WaitOutcome
    requires Answers(replies)
  {
    var query := Queried(sets, kernel, replies);
    if query.err != 0 then WaitOutcome(query.sets, Raised(query.err))
    else
      var signo := Lowest(query.sets.pending);
      if signo == 0 then WaitOutcome(query.sets, NoSignal)
      else WaitOutcome(query.sets.(pending := Removed(query.sets.pending, signo)), Got(signo))
  }

  /** A query keeps the desired set. A failed poll (never EINTR, which is
      retried) returns its errno and touches nothing. Otherwise the fired
      signal joins the pending set, and on success the polling set equals
      the desired one again: the fired signal is registered anew. When the
      trailing reconcile fails, its errno is the kernel's answer to the
      change for the lowest signal still out of step. */
  lemma QueryDelivers(sets: SignalSets, kernel: Registrar, replies: seq<PollReply>)
    requires SetsWellFormed(sets) && Answers(replies)
    ensures var reply := replies[FirstAnswer(replies)];
      var query := Queried(sets, kernel, replies);
      SetsWellFormed(query.sets) && query.sets.desired == sets.desired &&
      (reply.Failed? ==> query.err == reply.errno && query.err != EINTR && query.sets == sets) &&
      (!reply.Failed? ==> query.sets.pending == sets.pending + Delivered(reply)) &&
      (!reply.Failed? && query.err == 0 ==> query.sets.polling == sets.desired) &&
      (!reply.Failed? && query.err != 0 ==>
        var fail := LowestDiff(sets.desired, query.sets.polling);
        IsSignal(fail) && query.err == kernel(ChangeFor(sets.desired, fail)))
  {
    var reply := replies[FirstAnswer(replies)];
    if !reply.Failed? {
      var polling := if reply.Fired? then Removed(sets.polling, reply.signo) else sets.polling;
      ReconciledEqualsDesired(sets.desired, polling, kernel);
      ReconciledFails(sets.desired, polling, kernel);
      LowestDiffSpec(sets.desired, Reconciled(sets.desired, polling, kernel).polling);
    }
  }

  /** A signal delivered again before it is taken stays pending once:
      the second delivery leaves the pending set as the first made it, and
      still re-registers the signal. */
  lemma DeliveriesCollapse(sets: SignalSets, kernel: Registrar,
                           first: seq<PollReply>, second: seq<PollReply>, signo: int)
    requires SetsWellFormed(sets) && IsSignal(signo)
    requires Answers(first) && first[FirstAnswer(first)] == Fired(signo)
    requires Answers(second) && second[FirstAnswer(second)] == Fired(signo)
    ensures var once := Queried(sets, kernel, first);
      var twice := Queried(once.sets, kernel, second);
      signo in once.sets.pending &&
      twice.sets.pending == once.sets.pending &&
      (twice.err == 0 ==> twice.sets.polling == sets.desired)
  {
    QueryDelivers(sets, kernel, first);
    var once := Queried(sets, kernel, first);
    QueryDelivers(once.sets, kernel, second);
  }

  /** When the query succeeds, a wait takes the lowest pending signal and
      removes that one only, or, with none pending, returns no value and
      changes nothing; when the query fails, the wait raises its errno. */
  lemma WaitTakesLowest(sets: SignalSets, kernel: Registrar, replies: seq<PollReply>)
    requires Answers(replies)
    ensures var query := Queried(sets, kernel, replies);
      var wait := Waited(sets, kernel, replies);
      (query.err != 0 ==> wait == WaitOutcome(query.sets, Raised(query.err))) &&
      (query.err == 0 ==>
        wait.sets.desired == query.sets.desired && wait.sets.polling == query.sets.polling &&
        match wait.result
        case Got(signo) =>
          signo in query.sets.pending && IsSignal(signo) &&
          (forall other :: other in query.sets.pending && IsSignal(other) ==> signo <= other) &&
          wait.sets.pending == query.sets.pending - {signo}
        case NoSignal =>
          (forall other :: other in query.sets.pending ==> !IsSignal(other)) &&
          wait.sets == query.sets
        case Raised(_) => false)
  {
    var query := Queried(sets, kernel, replies);
    LowestSpec(query.sets.pending);
  }

  /** The order in which repeated waits hand out the pending signals when
      nothing else arrives: lowest first, one per wait. */
  function Drained(pending: set<int>): seq<int>
    decreases |pending|
  {
    var signo := Lowest(pending);
    if signo == 0 then []
    else
      LowestSpec(pending);
      [signo] + Drained(pending - {signo})
  }

  /** Draining hands out every pending signal exactly once, in increasing order. */
  lemma {:induction false} DrainedInOrder(pending: set<int>)
    ensures var order := Drained(pending);
      (forall i, j :: 0 <= i < j < |order| ==> order[i] < order[j]) &&
      (forall signo :: signo in order <==> signo in pending && IsSignal(signo))
    decreases |pending|
  {
    var signo := Lowest(pending);
    LowestSpec(pending);
    if signo != 0 {
      DrainedInOrder(pending - {signo});
      var order := Drained(pending);
      assert order == [signo] + Drained(pending - {signo});
      forall i, j | 0 <= i < j < |order| ensures order[i] < order[j] {
        if i == 0 {
          assert order[j] in Drained(pending - {signo});
        }
      }
    }
  }

  /** With the polling set in step and a poll that delivers no signal, a
      wait makes no kernel call and hands out the head of the drain order,
      leaving the rest of it; with nothing pending it returns no value. */
  lemma QuietWaitDrains(sets: SignalSets, kernel: Registrar, replies: seq<PollReply>)
    requires SetsWellFormed(sets) && sets.polling == sets.desired
    requires Answers(replies) && !replies[FirstAnswer(replies)].Failed?
    requires !replies[FirstAnswer(replies)].Fired?
    ensures var wait := Waited(sets, kernel, replies);
      var order := Drained(sets.pending);
      wait.sets.desired == sets.desired && wait.sets.polling == sets.desired &&
      (order == [] ==> wait.result == NoSignal && wait.sets.pending == sets.pending) &&
      (order != [] ==> wait.result == Got(order[0]) && Drained(wait.sets.pending) == order[1..])
  {
    LowestDiffSpec(sets.desired, sets.polling);
    LowestSpec(sets.pending);
  }

  /** A listener: `struct signalfd`. */
  class Listener {
    var fd: int
    var desired: set<int>
    var polling: set<int>
    var pending: set<int>

    ghost predicate Valid()
      reads this
    {
      SetsWellFormed(Sets())
    }

    ghost function Sets(): SignalSets
      reads this
    {
      SignalSets(desired, polling, pending)
    }

    /** The state `sfd_preinit` leaves: no queue handle, all sets empty. */
    ghost predicate IsReset()
      reads this
    {
      fd == -1 && desired == {} && polling == {} && pending == {}
    }

    /** Fresh storage reset by `sfd_preinit`. */
    constructor ()
      ensures Valid() && IsReset()
    {
      new;
      Preinit();
    }

    /** `sfd_preinit`. */
    method Preinit()
      modifies this
      ensures Valid() && IsReset()
    {
      fd := -1;
      desired := {};
      polling := {};
      pending := {};
    }

    /** `sfd_init`: the handle `kqueue()` gave, or -1 and its errno. */
    method Init(created: OpenReply) returns (err: nat)
      modifies this`fd
      ensures created.Opened? ==> fd == created.fd && err == 0
      ensures created.OpenFailed? ==> fd == -1 && err == created.errno
    {
      match created
      case Opened(handle) =>
        fd := handle;
        err := 0;
      case OpenFailed(errno) =>
        fd := -1;
        err := errno;
    }

    /** `sfd_destroy`: close the handle, whose result is ignored (so closing
        -1 twice is harmless), and reset; calling it again is a no-op. */
    method Destroy()
      modifies this
      ensures Valid() && IsReset()
    {
      Preinit();
    }

    /** `sfd_update`: the reconcile loop over the polling set. */
    method Update(kernel: Registrar) returns (err: nat)
      requires Valid()
      modifies this`polling
      ensures Valid()
      ensures Reconciliation(polling, err) == Reconciled(desired, old(polling), kernel)
      ensures err == 0 ==> polling == desired
      ensures err != 0 ==>
                var fail := LowestDiff(desired, polling);
                IsSignal(fail) && err == kernel(ChangeFor(desired, fail)) &&
                forall other :: !(1 <= other < fail) ==> (other in polling <==> other in old(polling))
    {
      ReconciledEqualsDesired(desired, polling, kernel);
      ReconciledFails(desired, polling, kernel);
      var signo := Diff(desired, polling);
      while signo != 0
        invariant WellFormed(polling)
        invariant signo == LowestDiff(desired, polling) && (signo != 0 ==> IsSignal(signo))
        invariant Reconciled(desired, polling, kernel) == Reconciled(desired, old(polling), kernel)
        decreases |DiffSet(desired, polling)|
      {
        if signo in desired {
          err := kernel(Add(signo));
          if err != 0 {
            return;
          }
          polling := Added(polling, signo);
        } else {
          err := kernel(Delete(signo));
          if err != 0 {
            return;
          }
          polling := Removed(polling, signo);
        }
        signo := Diff(desired, polling);
      }
      err := 0;
    }

    /** `sfd_query`: one zero-timeout poll, retried on EINTR, then reconcile. */
    method Query(kernel: Registrar, replies: seq<PollReply>) returns (err: nat)
      requires Valid() && Answers(replies)
      modifies this`polling, this`pending
      ensures Valid()
      ensures QueryOutcome(Sets(), err) == Queried(old(Sets()), kernel, replies)
    {
      var i := 0;
      while Interrupted(replies[i])
        invariant 0 <= i <= FirstAnswer(replies)
        decreases FirstAnswer(replies) - i
      {
        i := i + 1;
      }
      match replies[i] {
        case Failed(errno) =>
          return errno;
        case Fired(signo) =>
          pending := Added(pending, signo);
          polling := Removed(polling, signo);
        case _ =>
      }
      err := Update(kernel);
    }

    /** `lsl_wait`: query, then take the lowest pending signal, if any. */
    method Wait(kernel: Registrar, replies: seq<PollReply>) returns (result: WaitResult)
      requires Valid() && Answers(replies)
      modifies this`polling, this`pending
      ensures Valid()
      ensures WaitOutcome(Sets(), result) == Waited(old(Sets()), kernel, replies)
    {
      var err := Query(kernel, replies);
      if err != 0 {
        return Raised(err);
      }
      var signo := Diff(pending, {});
      if signo != 0 {
        pending := Removed(pending, signo);
        return Got(signo);
      }
      return NoSignal;
    }

    /** `lsl_timeout`: a zero deadline while a signal is pending, none otherwise. */
    function Timeout(): (deadline: Option<real>)
      reads this
      ensures deadline.Some? <==> exists signo :: signo in pending && IsSignal(signo)
      ensures deadline.Some? ==> deadline.value == 0.0
    {
      LowestSpec(pending);
      if Lowest(pending) != 0 then Some(0.0) else None
    }

    /** `lsl_listen`: a reset listener whose desired set holds the given
        signal numbers, a kernel queue, and a first reconcile. The listener
        exists whichever step fails, so it can still be destroyed. */
    static method Listen(signals: seq<int>, created: OpenReply, kernel: Registrar)
      returns (listener: Listener, err: nat)
      ensures fresh(listener) && listener.Valid() && listener.pending == {}
      ensures listener.desired == set signo | signo in signals && IsSignal(signo)
      ensures created.OpenFailed? ==>
                err == created.errno && listener.fd == -1 && listener.polling == {}
      ensures created.Opened? ==>
                listener.fd == created.fd &&
                Reconciliation(listener.polling, err) == Reconciled(listener.desired, {}, kernel)
      ensures err == 0 ==> listener.polling == listener.desired
    {
      listener := new Listener();
      for index := 0 to |signals|
        invariant listener.Valid() && listener.fd == -1
        invariant listener.polling == {} && listener.pending == {}
        invariant listener.desired == set signo | signo in signals[..index] && IsSignal(signo)
      {
        listener.desired := Added(listener.desired, signals[index]);
      }
      err := listener.Init(created);
      if err == 0 {
        err := listener.Update(kernel);
      }
    }
  }
}
