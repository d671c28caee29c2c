/** Signal sets as the listener keeps them: a `sigset_t` seen through the
    numbers 1..31 that its scan visits. */
module SigSet {

  /** One past the highest signal number a set holds and the scan visits. */
  const NSIG: int := 32

  predicate IsSignal(signo: int) {
    1 <= signo < NSIG
  }

  /** Every member is a signal number the set can hold. */
  predicate WellFormed(s: set<int>) {
    forall signo :: signo in s ==> IsSignal(signo)
  }

  /** `sigaddset`: a number the set cannot hold is refused and the set is left
      as it was (the listener ignores that error). */
  function Added(s: set<int>, signo: int): (r: set<int>)
    ensures WellFormed(s) ==> WellFormed(r)
    ensures signo in r <==> signo in s || IsSignal(signo)
    ensures forall other :: other != signo ==> (other in r <==> other in s)
  {
    if IsSignal(signo) then s + {signo} else s
  }

  /** `sigdelset`: a number the set cannot hold is refused likewise. */
  function Removed(s: set<int>, signo: int): (r: set<int>)
    ensures WellFormed(s) ==> WellFormed(r) && signo !in r
    ensures forall other :: other != signo ==> (other in r <==> other in s)
  {
    if IsSignal(signo) then s - {signo} else s
  }

  /** `!!sigismember(a, signo) ^ !!sigismember(b, signo)` */
  predicate Differ(a: set<int>, b: set<int>, signo: int) {
    (signo in a) != (signo in b)
  }

  /** The scan of `sfd_diff` from `signo` on: the first number below NSIG
      on which the sets differ, or 0. */
  function DiffFrom(a: set<int>, b: set<int>, signo: int): int
    requires 1 <= signo <= NSIG
    decreases NSIG - signo
  {
    if signo == NSIG then 0
    else if Differ(a, b, signo) then signo
    else DiffFrom(a, b, signo + 1)
  }

  /** What `sfd_diff(a, b)` returns. */
  function LowestDiff(a: set<int>, b: set<int>): int {
    DiffFrom(a, b, 1)
  }

  lemma {:induction false} DiffFromSpec(a: set<int>, b: set<int>, from: int)
    requires 1 <= from <= NSIG
    ensures var r := DiffFrom(a, b, from);
      (r == 0 <==> forall signo :: from <= signo < NSIG ==> !Differ(a, b, signo)) &&
      (r != 0 ==> from <= r < NSIG && Differ(a, b, r) &&
                  forall signo :: from <= signo < r ==> !Differ(a, b, signo))
    decreases NSIG - from
  {
    if from < NSIG && !Differ(a, b, from) {
      DiffFromSpec(a, b, from + 1);
    }
  }

  /** `sfd_diff` returns 0 exactly when the sets agree on every signal, and
      otherwise the smallest signal on which they differ. */
  lemma LowestDiffSpec(a: set<int>, b: set<int>)
    ensures var r := LowestDiff(a, b);
      (r == 0 <==> forall signo :: IsSignal(signo) ==> !Differ(a, b, signo)) &&
      (r != 0 ==> IsSignal(r) && Differ(a, b, r) &&
                  forall signo :: 1 <= signo < r ==> !Differ(a, b, signo))
  {
    DiffFromSpec(a, b, 1);
  }

  /** `sfd_diff`: scan 1..31 and return the first signal on which the sets
      differ, 0 when there is none. */
  method Diff(a: set<int>, b: set<int>) returns (signo: int)
    ensures signo == LowestDiff(a, b)
    ensures signo == 0 <==> forall s :: IsSignal(s) ==> !Differ(a, b, s)
    ensures signo != 0 ==> IsSignal(signo) && Differ(a, b, signo) &&
                           forall s :: 1 <= s < signo ==> !Differ(a, b, s)
  {
    LowestDiffSpec(a, b);
    signo := 1;
    while signo < NSIG
      invariant 1 <= signo <= NSIG
      invariant DiffFrom(a, b, signo) == LowestDiff(a, b)
    {
      if Differ(a, b, signo) {
        return;
      }
      signo := signo + 1;
    }
    return 0;
  }

  /** `sfd_diff(s, none)` with `none` empty: the lowest signal in `s`, or 0. */
  function Lowest(s: set<int>): int {
    LowestDiff(s, {})
  }

  lemma LowestSpec(s: set<int>)
    ensures var r := Lowest(s);
      (r == 0 <==> forall signo :: signo in s ==> !IsSignal(signo)) &&
      (r != 0 ==> r in s && IsSignal(r) &&
                  forall signo :: signo in s && IsSignal(signo) ==> r <= signo)
  {
    LowestDiffSpec(s, {});
    var r := Lowest(s);
    forall signo | signo in s && IsSignal(signo)
      ensures r != 0 && r <= signo
    {
      assert Differ(s, {}, signo);
    }
  }

  /** The signals in 1..31 on which the sets differ. */
  function DiffSet(a: set<int>, b: set<int>): set<int> {
    set signo | 1 <= signo < NSIG && Differ(a, b, signo)
  }

  /** A set that changes only at `signo`, and there comes to agree with `a`,
      differs from `a` at one signal fewer. */
  lemma FixOneShrinks(a: set<int>, b: set<int>, b': set<int>, signo: int)
    requires IsSignal(signo) && Differ(a, b, signo) && !Differ(a, b', signo)
    requires forall other :: other != signo ==> (other in b' <==> other in b)
    ensures DiffSet(a, b') == DiffSet(a, b) - {signo}
    ensures |DiffSet(a, b')| == |DiffSet(a, b)| - 1
  {
  }
}
