/**
 The wait structure two threads share: one sleeps on it, the other notifies.
 A thread asleep goes on when it has been signalled; `pthread_cond_wait` is
 taken to return for no other reason.
 */
module SynchWait {
  datatype Wait = Wait(notified: bool, sleep: bool, signalled: bool)

  const Calm := Wait(false, false, false)

  function WakeUp(w: Wait): Wait {
    if w.notified then w else Wait(true, w.sleep, w.signalled || w.sleep)
  }

  /** The first half of `sleep_on`, and whether the thread blocks. */
  function SleepOn(w: Wait): (Wait, bool) {
    if w.notified then (w.(notified := false, sleep := false), false) else (w.(sleep := true), true)
  }

  /** The second half, after the signal. */
  function Resume(w: Wait): Wait {
    Calm
  }

  /** Who sleeps is signalled exactly when the notification has been set. */
  predicate Consistent(w: Wait, asleep: bool) {
    && (w.sleep <==> asleep)
    && (w.signalled <==> asleep && w.notified)
  }

  /** Every operation keeps the flags consistent with the one sleeper. */
  lemma OperationsKeep(w: Wait, asleep: bool)
    requires Consistent(w, asleep)
    ensures Consistent(WakeUp(w), asleep) && WakeUp(w).notified
    ensures !asleep ==> Consistent(SleepOn(w).0, SleepOn(w).1) && !SleepOn(w).0.notified
    ensures !asleep ==> (SleepOn(w).1 <==> !w.notified)
    ensures Consistent(Resume(w), false)
  {
  }
}
