/** What the reconcile loop of `sfd_update` computes: starting from a polling
    set, register or deregister the lowest signal on which it differs from the
    desired set, one at a time, until they agree or the kernel refuses. */
module Reconcile {
  import opened SigSet
  import opened Kernel

  /** The polling set after the reconcile loop stops, and what it returns:
      0 on success, otherwise the failing call's errno. */
  datatype Reconciliation = Reconciliation(polling: set<int>, err: nat)

  /** The change sent for a differing signal: EV_ADD when it is desired,
      EV_DELETE when it is not. */
  function ChangeFor(desired: set<int>, signo: int): Change {
    if signo in desired then Add(signo) else Delete(signo)
  }

  /** The polling set once the change for a differing `signo` succeeded:
      that one signal now agrees with `desired`, every other is as before. */
  function Step(desired: set<int>, polling: set<int>, signo: int): (r: set<int>)
    requires IsSignal(signo) && Differ(desired, polling, signo)
    ensures !Differ(desired, r, signo)
    ensures forall other :: other != signo ==> (other in r <==> other in polling)
    ensures |DiffSet(desired, r)| == |DiffSet(desired, polling)| - 1
  {
    var r := if signo in desired then Added(polling, signo) else Removed(polling, signo);
    FixOneShrinks(desired, polling, r, signo);
    r
  }

  /** The reconcile loop of `sfd_update`, one iteration per recursive call. */
  function Reconciled(desired: set<int>, polling: set<int>, kernel: Registrar): Reconciliation
    decreases |DiffSet(desired, polling)|
  {
    var signo := LowestDiff(desired, polling);
    if signo == 0 then Reconciliation(polling, 0)
    else
      LowestDiffSpec(desired, polling);
      var err := kernel(ChangeFor(desired, signo));
      if err != 0 then Reconciliation(polling, err)
      else Reconciled(desired, Step(desired, polling, signo), kernel)
  }

  /** On success the polling set agrees with the desired one on every signal,
      and numbers outside the scanned range are left as they were. */
  lemma {:induction false} ReconciledSucceeds(desired: set<int>, polling: set<int>, kernel: Registrar)
    ensures var r := Reconciled(desired, polling, kernel);
      r.err == 0 ==>
        (forall signo :: IsSignal(signo) ==> (signo in r.polling <==> signo in desired)) &&
        (forall other :: !IsSignal(other) ==> (other in r.polling <==> other in polling))
    decreases |DiffSet(desired, polling)|
  {
    var signo := LowestDiff(desired, polling);
    LowestDiffSpec(desired, polling);
    if signo != 0 && kernel(ChangeFor(desired, signo)) == 0 {
      ReconciledSucceeds(desired, Step(desired, polling, signo), kernel);
    }
  }

  /** With both sets well formed, success means the sets are equal. */
  lemma ReconciledEqualsDesired(desired: set<int>, polling: set<int>, kernel: Registrar)
    requires WellFormed(desired) && WellFormed(polling)
    ensures var r := Reconciled(desired, polling, kernel);
      WellFormed(r.polling) && (r.err == 0 ==> r.polling == desired)
  {
    ReconciledSucceeds(desired, polling, kernel);
    ReconciledFails(desired, polling, kernel);
    var r := Reconciled(desired, polling, kernel);
    if r.err != 0 {
      var fail := LowestDiff(desired, r.polling);
      LowestDiffSpec(desired, r.polling);
      forall other | other in r.polling ensures IsSignal(other) {
        if !(1 <= other < fail) {
          assert other in polling;
        }
      }
    } else {
      forall other ensures other in r.polling <==> other in desired {
        if !IsSignal(other) {
          assert other !in desired && (other in r.polling <==> other in polling);
        }
      }
    }
  }

  /** On failure nothing is rolled back: the failing signal is the lowest one
      on which the polling set still differs (so every signal below it
      agrees with `desired`), the errno is the kernel's answer to its
      change, and from that signal on, as outside the scanned range, the
      polling set is what it was. */
  lemma {:induction false} ReconciledFails(desired: set<int>, polling: set<int>, kernel: Registrar)
    ensures var r := Reconciled(desired, polling, kernel);
      r.err != 0 ==>
        var fail := LowestDiff(desired, r.polling);
        fail != 0 && r.err == kernel(ChangeFor(desired, fail)) &&
        forall other :: !(1 <= other < fail) ==> (other in r.polling <==> other in polling)
    decreases |DiffSet(desired, polling)|
  {
    var signo := LowestDiff(desired, polling);
    LowestDiffSpec(desired, polling);
    if signo != 0 && kernel(ChangeFor(desired, signo)) == 0 {
      var next := Step(desired, polling, signo);
      var r := Reconciled(desired, next, kernel);
      assert r == Reconciled(desired, polling, kernel);
      ReconciledFails(desired, next, kernel);
      if r.err != 0 {
        var fail := LowestDiff(desired, r.polling);
        LowestDiffSpec(desired, r.polling);
        // every signal up to `signo` agrees in `next` and is untouched
        // after, so the failing signal lies above `signo`
        forall other | 1 <= other <= signo ensures !Differ(desired, r.polling, other) {
          if other < signo {
            assert !Differ(desired, polling, other);
          }
          assert !Differ(desired, next, other);
        }
        assert signo < fail;
      }
    }
  }
}
