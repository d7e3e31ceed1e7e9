/**
 * `force_delete_directory(path)`, written identically in backend/main.py and
 * backend/local_llama.py: delete a directory tree, retrying with a doubling
 * back-off while Windows reports the files as locked by another process.
 *
 * The filesystem is an oracle: `pathExists` is the answer of `os.path.exists`
 * and `fs[i]` is what the i-th call of `shutil.rmtree` does. `time.sleep` is
 * recorded in the returned trace instead of being performed, in whole
 * milliseconds.
 */
module ForceDelete {
  import opened PyStr

  /** Number of `rmtree` attempts (`retries = 5`). */
  const Retries: nat := 5

  /** The first back-off, 0.5 s. */
  const InitialDelayMs: nat := 500

  /** The text that marks a PermissionError as a transient sharing violation. */
  const LockMarker: string := "WinError 32"

  /** What one `shutil.rmtree(path)` call does; the message is `str(e)`. */
  datatype Rmtree =
    | Removed
    | PermissionError(message: string)
    | OtherError(message: string)

  /** The only failure that is retried: a PermissionError naming WinError 32. */
  predicate IsLockError(e: Rmtree) {
    e.PermissionError? && Contains(e.message, LockMarker)
  }

  /** The observable steps of one call: `rmtree` attempts and sleeps. */
  datatype Event = Attempt(index: nat) | Sleep(ms: nat)

  /** The call returns None, or raises the exception of its last attempt. */
  datatype Outcome = Returned | Raised(error: Rmtree)

  function Pow2(k: nat): (r: nat)
    ensures r >= 1
  {
    if k == 0 then 1 else 2 * Pow2(k - 1)
  }

  /** The k-th sleep, counting from 0: 0.5 s doubled k times. */
  function DelayMs(k: nat): nat {
    InitialDelayMs * Pow2(k)
  }

  /** The steps of k attempts that each failed with a lock error and were
      followed by their back-off sleep. */
  function Retried(k: nat): seq<Event> {
    if k == 0 then [] else Retried(k - 1) + [Attempt(k - 1), Sleep(DelayMs(k - 1))]
  }

  /** The index of the last attempt, searching from `from`: the first attempt
      that does not fail with a lock error, or the final one. */
  function LastAttempt(fs: seq<Rmtree>, from: nat): (k: nat)
    requires |fs| == Retries && from < Retries
    ensures from <= k < Retries
    ensures forall j :: from <= j < k ==> IsLockError(fs[j])
    ensures k < Retries - 1 ==> !IsLockError(fs[k])
    decreases Retries - from
  {
    if from == Retries - 1 || !IsLockError(fs[from]) then from else LastAttempt(fs, from + 1)
  }

  /** The last attempt is the one index whose predecessors all met a lock error
      and which either did not or was the final attempt. */
  lemma LastAttemptIs(fs: seq<Rmtree>, k: nat)
    requires |fs| == Retries && k < Retries
    requires forall j :: 0 <= j < k ==> IsLockError(fs[j])
    requires k == Retries - 1 || !IsLockError(fs[k])
    ensures LastAttempt(fs, 0) == k
  {
  }

  /** What the call returns or raises and the steps it takes, in closed form. */
  function Expected(pathExists: bool, fs: seq<Rmtree>): (Outcome, seq<Event>)
    requires |fs| == Retries
  {
    if !pathExists then (Returned, [])
    else
      var k := LastAttempt(fs, 0);
      (if fs[k] == Removed then Returned else Raised(fs[k]), Retried(k) + [Attempt(k)])
  }

  /** The retry loop itself: one `rmtree` per iteration, a sleep of `delay`
      and a doubling of `delay` after each lock error but the last. */
  method ForceDeleteDirectory(pathExists: bool, fs: seq<Rmtree>)
    returns (outcome: Outcome, trace: seq<Event>)
    requires |fs| == Retries
    ensures (outcome, trace) == Expected(pathExists, fs)
    ensures !pathExists ==> outcome == Returned && trace == []
  {
    if !pathExists {
      return Returned, [];
    }
    trace := [];
    var delay := InitialDelayMs;
    for i := 0 to Retries
      invariant i < Retries
      invariant delay == DelayMs(i)
      invariant forall j :: 0 <= j < i ==> IsLockError(fs[j])
      invariant trace == Retried(i)
    {
      trace := trace + [Attempt(i)];
      var result := fs[i];
      match result {
        case Removed =>
          LastAttemptIs(fs, i);
          return Returned, trace;
        case PermissionError(message) =>
          if Contains(message, LockMarker) && i < Retries - 1 {
            trace := trace + [Sleep(delay)];
            delay := delay * 2;
          } else {
            LastAttemptIs(fs, i);
            return Raised(result), trace;
          }
        case OtherError(_) =>
          LastAttemptIs(fs, i);
          return Raised(result), trace;
      }
    }
    assert false;
  }

  /** Total time slept in a trace. */
  function TotalSleepMs(t: seq<Event>): nat {
    if t == [] then 0
    else
      TotalSleepMs(t[..|t| - 1]) + match t[|t| - 1] { case Sleep(ms) => ms case Attempt(_) => 0 }
  }

  /** k retried attempts: attempt j at position 2j, followed by a sleep of
      0.5 s doubled j times. */
  lemma {:induction false} RetriedLayout(k: nat)
    ensures |Retried(k)| == 2 * k
    ensures forall p :: 0 <= p < |Retried(k)| ==>
              Retried(k)[p] == if p % 2 == 0 then Attempt(p / 2) else Sleep(DelayMs(p / 2))
  {
    if k > 0 {
      RetriedLayout(k - 1);
    }
  }

  /** k retried attempts sleep 0.5 s * (2^k - 1) in all. */
  lemma {:induction false} RetriedSleepTotal(k: nat)
    ensures TotalSleepMs(Retried(k)) == InitialDelayMs * (Pow2(k) - 1)
  {
    if k > 0 {
      RetriedSleepTotal(k - 1);
      var r := Retried(k - 1);
      var t := Retried(k);
      assert t[..|t| - 1] == r + [Attempt(k - 1)];
      assert (r + [Attempt(k - 1)])[..|r|] == r;
    }
  }

  /** Every call that finds the path makes attempts 0, 1, ... in order, sleeps
      0.5 s, 1 s, 2 s, 4 s between them, stops right after an attempt and makes
      at most five attempts. */
  lemma StepsOfACall(pathExists: bool, fs: seq<Rmtree>)
    requires |fs| == Retries
    ensures var t := Expected(pathExists, fs).1;
            && (pathExists <==> t != [])
            && |t| <= 2 * Retries - 1
            && (t != [] ==> t[|t| - 1].Attempt?)
            && forall p :: 0 <= p < |t| ==>
                 t[p] == if p % 2 == 0 then Attempt(p / 2) else Sleep(DelayMs(p / 2))
  {
    if pathExists {
      var k := LastAttempt(fs, 0);
      assert Expected(pathExists, fs).1 == Retried(k) + [Attempt(k)];
      CallLayout(k);
    }
  }

  /** The steps of a call whose last attempt is k: the k retried attempts,
      then attempt k. */
  lemma CallLayout(k: nat)
    ensures |Retried(k) + [Attempt(k)]| == 2 * k + 1
    ensures forall p :: 0 <= p < 2 * k + 1 ==>
              (Retried(k) + [Attempt(k)])[p]
              == if p % 2 == 0 then Attempt(p / 2) else Sleep(DelayMs(p / 2))
  {
    RetriedLayout(k);
    var t := Retried(k) + [Attempt(k)];
    forall p | 0 <= p < 2 * k + 1
      ensures t[p] == if p % 2 == 0 then Attempt(p / 2) else Sleep(DelayMs(p / 2))
    {
      if p < 2 * k {
        assert t[p] == Retried(k)[p];
      }
    }
  }

  /** At most 7.5 s are slept, and exactly that when the first four attempts
      all meet a lock error. */
  lemma SleepBudget(pathExists: bool, fs: seq<Rmtree>)
    requires |fs| == Retries
    ensures TotalSleepMs(Expected(pathExists, fs).1) <= 7500
    ensures TotalSleepMs(Expected(pathExists, fs).1) == 7500
            <==> pathExists && forall j :: 0 <= j < Retries - 1 ==> IsLockError(fs[j])
  {
    if pathExists {
      var k := LastAttempt(fs, 0);
      var r := Retried(k);
      var t := r + [Attempt(k)];
      assert t[..|t| - 1] == r;
      RetriedSleepTotal(k);
      assert k == 0 || k == 1 || k == 2 || k == 3 || k == 4;
      if forall j :: 0 <= j < Retries - 1 ==> IsLockError(fs[j]) {
        LastAttemptIs(fs, Retries - 1);
      }
    }
  }

  /** The call returns normally exactly when the path is missing or some
      attempt removes it after nothing but lock errors. */
  lemma ReturnsIff(pathExists: bool, fs: seq<Rmtree>)
    requires |fs| == Retries
    ensures Expected(pathExists, fs).0 == Returned
            <==> || !pathExists
                 || exists j :: 0 <= j < Retries && fs[j] == Removed
                                && forall i :: 0 <= i < j ==> IsLockError(fs[i])
  {
    if pathExists {
      if exists j :: 0 <= j < Retries && fs[j] == Removed
                     && forall i :: 0 <= i < j ==> IsLockError(fs[i]) {
        var j :| 0 <= j < Retries && fs[j] == Removed
                 && forall i :: 0 <= i < j ==> IsLockError(fs[i]);
        LastAttemptIs(fs, j);
      }
    }
  }

  /** A successful attempt ends the call at once: no further attempt, no sleep. */
  lemma SuccessEndsTheCall(fs: seq<Rmtree>, j: nat)
    requires |fs| == Retries && j < Retries
    requires forall i :: 0 <= i < j ==> IsLockError(fs[i])
    requires fs[j] == Removed
    ensures Expected(true, fs) == (Returned, Retried(j) + [Attempt(j)])
  {
    LastAttemptIs(fs, j);
  }

  /** Any failure other than a lock error, at any attempt, is raised at once:
      no sleep after it and no further attempt. */
  lemma OtherFailureRaisedAtOnce(fs: seq<Rmtree>, j: nat)
    requires |fs| == Retries && j < Retries
    requires forall i :: 0 <= i < j ==> IsLockError(fs[i])
    requires fs[j] != Removed && !IsLockError(fs[j])
    ensures Expected(true, fs) == (Raised(fs[j]), Retried(j) + [Attempt(j)])
  {
    LastAttemptIs(fs, j);
  }

  /** A lock error on the fifth attempt is raised, not retried. */
  lemma LockErrorOnFinalAttemptRaised(fs: seq<Rmtree>)
    requires |fs| == Retries
    requires forall i :: 0 <= i < Retries ==> IsLockError(fs[i])
    ensures Expected(true, fs)
            == (Raised(fs[Retries - 1]), Retried(Retries - 1) + [Attempt(Retries - 1)])
  {
    LastAttemptIs(fs, Retries - 1);
  }
}
