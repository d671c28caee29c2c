# Signal listener of cqueues, modelled in Dafny

This project models the signal listener of `src/signal.c`. The listener is
`struct signalfd`: a kernel event-queue handle `fd` and three signal sets.

- `desired` holds the signals the caller asked for.
- `polling` holds the signals registered with the kernel queue.
- `pending` holds the signals that fired and have not been taken yet.

The model covers these operations:

- `sfd_diff` scans 1..31 for the lowest signal on which two sets differ.
- `sfd_update` is the reconcile loop. It registers (`EV_ADD`) or
  deregisters (`EV_DELETE`) the lowest differing signal, one per iteration,
  until `polling` equals `desired`.
- `sfd_query` makes one zero-timeout poll and retries it on `EINTR`. It moves
  a fired signal from `polling` to `pending`, then reconciles, which
  registers that signal again.
- `lsl_wait` queries, then removes and returns the lowest pending signal.
- `lsl_timeout` gives a zero deadline while a signal is pending.
- `lsl_listen`, `sfd_preinit`, `sfd_init` and `sfd_destroy` build and reset
  the listener.

Modules:

- `SigSet` (`sigset.dfy`): signal sets seen through 1..31. It holds
  `sigaddset`/`sigdelset`, the `sfd_diff` scan as the `LowestDiff` function,
  the `Diff` method that runs the scan as a loop, and the measure
  (`DiffSet`) that the reconcile loop decreases.
- `Kernel` (`kernel.dfy`): the kernel as an oracle. A `Registrar` maps each
  one-entry change list to 0 or an errno. A sequence of `PollReply` values
  gives the answers to successive zero-timeout polls: nothing, a signal
  event, an event of another filter, or a failure with an errno. An
  `OpenReply` is the outcome of `kqueue()`.
- `Reconcile` (`reconcile.dfy`): the reconcile loop as the recursive
  function `Reconciled`, with lemmas for success, failure and termination.
- `SignalListener` (`listener.dfy`): the `Listener` class, whose fields are
  those of `struct signalfd` and whose methods change them in place. Beside
  it are the specification functions `Queried` and `Waited`, which the
  `Query` and `Wait` methods are proved equal to, and the lemmas about them.

The sets are `set<int>`. A set holds only numbers in 1..31: `NSIG` is 32, as
in the scan of `sfd_diff`. The model assumes a platform where `sigset_t`
holds exactly the signals 1..31 and where `sigaddset` and `sigdelset` fail
for any other number. The source ignores that failure, so the model leaves
the set unchanged for such a number.

Two behaviours of the code worth noting:

- `lsl_listen` adds a signal number to `desired` only when it is in 1..31.
  Other numbers are dropped.
- `sfd_query` reads at most one event from the kernel queue per call, because
  it asks `kevent` for a single event (src/signal.c:142). A wait therefore
  does not drain the queue.

## Model

| member | source | states |
|---|---|---|
| SigSet.Added | src/signal.c:170 | `sigaddset` puts a number in 1..31 into the set, leaves every other member as it was, and keeps the set within 1..31 |
| SigSet.Removed | src/signal.c:125 | `sigdelset` takes the number out of a well-formed set and leaves every other member as it was |
| SigSet.DiffFromSpec | src/signal.c:96-101 | from any start, the scan returns 0 exactly when the sets agree on every remaining signal. Otherwise it returns the first signal from the start on which they differ |
| SigSet.LowestDiffSpec | src/signal.c:95-102 | `sfd_diff(a, b)` is 0 exactly when `a` and `b` agree on every signal in 1..31. Otherwise it is the smallest signal in 1..31 on which they differ |
| SigSet.Diff | src/signal.c:95-102 | the loop returns the lowest differing signal in 1..31, or 0 when the sets agree on all of them. The result equals `LowestDiff` |
| SigSet.LowestSpec | src/signal.c:199-201 | `sfd_diff(pending, none)` is 0 exactly when no signal in 1..31 is pending. Otherwise it is the smallest pending signal |
| SigSet.FixOneShrinks | src/signal.c:109-127 | changing one differing signal so that it agrees removes exactly that signal from the set of differing signals, so the count drops by one |
| Kernel.FirstAnswer | src/signal.c:141-152 | the retry loop stops at the first reply that is not `EINTR`. Every reply before it was `EINTR` |
| Reconcile.Step | src/signal.c:112-126 | a successful change flips exactly the differing signal so that it matches `desired`, and the number of differing signals strictly decreases. This is the termination measure of the loop |
| Reconcile.ReconciledSucceeds | src/signal.c:109-129 | when the loop returns 0, `polling` agrees with `desired` on every signal in 1..31, and numbers outside the range are unchanged |
| Reconcile.ReconciledEqualsDesired | src/signal.c:105-130 | for well-formed sets, success leaves `polling == desired`, and the result stays within 1..31 whether the loop succeeds or fails |
| Reconcile.ReconciledFails | src/signal.c:112-126 | on a failed change there is no rollback. The errno returned is the kernel's answer for the lowest signal still out of step, so every signal below it agrees with `desired`. That signal, everything above it, and every number outside the range are as they were before the loop |
| SignalListener.QueryDelivers | src/signal.c:141-154 | a query keeps `desired`. A failed poll (never `EINTR`) returns its errno and changes no set. Otherwise the fired signal is added to `pending`. On success `polling == desired` again, so the fired signal is registered anew. On a reconcile failure the errno belongs to the lowest signal still out of step |
| SignalListener.DeliveriesCollapse | src/signal.c:143-145 | a second delivery of a signal that is already pending leaves `pending` as the first delivery made it, and on success it still re-registers the signal |
| SignalListener.WaitTakesLowest | src/signal.c:196-208 | after a successful query, a wait returns the lowest pending signal in 1..31 and removes only that one. With nothing pending it returns no value and changes nothing. A failed query is raised with its errno |
| SignalListener.DrainedInOrder | src/signal.c:201-205 | taking the lowest pending signal over and over hands out every pending signal exactly once, in strictly increasing order |
| SignalListener.QuietWaitDrains | src/signal.c:196-208 | when `polling` already equals `desired` and no signal arrives, a wait makes no registration call. It returns the head of the drain order and leaves the rest, or returns no value when nothing is pending |
| SignalListener.Listener.constructor | src/signal.c:165-167 | a new listener is reset: `fd == -1` and all three sets empty |
| SignalListener.Listener.Preinit | src/signal.c:71-77 | afterwards `fd == -1` and `desired`, `polling` and `pending` are empty |
| SignalListener.Listener.Init | src/signal.c:80-85 | `fd` is the handle `kqueue()` gave and the result is 0. If `kqueue()` fails, `fd == -1` and the result is its errno |
| SignalListener.Listener.Destroy | src/signal.c:88-92 | afterwards `fd == -1` and all sets are empty. It has no precondition, so a second call is allowed and leaves the same state |
| SignalListener.Listener.Update | src/signal.c:105-133 | the new `polling` and the result are those of `Reconciled` on the old `polling`. On 0, `polling == desired`. On failure, the errno belongs to the lowest differing signal, and that signal, everything above it, and every number outside the range are unchanged. `desired`, `pending` and `fd` are not touched |
| SignalListener.Listener.Query | src/signal.c:136-158 | the new sets and the result equal `Queried` of the old sets. `desired` and `fd` are not touched |
| SignalListener.Listener.Wait | src/signal.c:191-209 | the new sets and the result equal `Waited` of the old sets |
| SignalListener.Listener.Timeout | src/signal.c:230-243 | the result is a zero deadline exactly when some signal in 1..31 is pending, and no deadline otherwise. It reads the state and changes nothing |
| SignalListener.Listener.Listen | src/signal.c:161-179 | the listener is new, `pending` is empty, and `desired` is the set of given numbers in 1..31. If `kqueue()` fails, its errno is returned with `fd == -1` and `polling` empty. Otherwise `polling` and the result come from reconciling from the empty set. On 0, `polling == desired` |

## Left out

- The Lua binding is not modelled: `lua_newuserdata`, metatables, method tables, `luaL_checkint` argument errors, `lsl__gc` (which only calls `sfd_destroy`, modelled as `Destroy`), `lsl_interpose`, `lsl_pollfd`, `lsl_events` and the constant table of `luaopen__cqueues_signal`. It is host-runtime plumbing.
- The disposition routines `ls_ignore`, `ls_default`, `ls_block`, `ls_unblock`, `ls_raise` and `ls_strsignal` are not modelled. Their effect is on OS-global handler tables and signal masks, outside the listener's state.
- The real behaviour of `kqueue()`, `kevent()` and `close()` is not modelled. They are oracles. The handle passed to `kevent` is not used by the model, so a call on an invalid handle is just one of the errno answers the oracle can give. The result of `close` is ignored, as in the source.
- The epoll and Solaris ports branches are not modelled. They only stop compilation.
- Asynchronous delivery and timing are not modelled. Each poll reply is given in advance.
- Kernel.Registrar: the registration oracle gives the same answer to the same change every time it is asked. A kernel that accepts a change once and refuses it later is not modelled.
- SignalListener.Listener.Query: it requires some poll reply other than `EINTR`. A kernel that keeps interrupting the poll makes the source retry forever, and the model does not cover that.
- Platforms whose `sigset_t` holds numbers of 32 and above are not modelled. There `sigaddset` would accept such a number into `desired`, but `sfd_diff` never scans it, so it would never be registered.
