/**
 The transaction manager.  Every database step may fail; the store changes only when a
 commit succeeds.  The failures of an attempt are given by its number.
 */
module TransactionManager {
  import opened Wrappers
  import opened TransactionErrors

  datatype Step = Done | Fails(error: Thrown)

  /** What the query runner of one attempt does when asked. */
  datatype Faults = Faults(connect: Step, start: Step, readOnly: Step, commit: Step, rollback: Step, release: Step)

  /** The work done inside a transaction: attempt number and store to new store and result. */
  type Operation<!S, !T> = (nat, S) -> (S, Result<T, Thrown>)

  /** `executeTransaction`, `executeReadOnlyTransaction`, `executeTransactionWithIsolationLevel`. */
  datatype Form = Plain | ReadOnly | Isolated

  /** Where a call ends: `Err(None)` is the `null` thrown when no attempt is made at all. */
  datatype Run<!S, !T> = Run(store: S, outcome: Result<T, Option<Thrown>>, attempts: nat, waited: nat, commits: nat)
  {
    /** The same end, reached after more waiting and more commits. */
    function Later(wait: nat, done: nat): Run<S, T> {
      Run(store, outcome, attempts, wait + waited, done + commits)
    }
  }

  // ---- one attempt ----

  /** Connect, start, run the operation, commit.  Nothing is published before the commit succeeds. */
  function TryBlock<S, T>(form: Form, s: S, n: nat, op: Operation<S, T>, f: Faults): (S, Result<T, Thrown>) {
    if f.connect.Fails? then (s, Err(f.connect.error))
    else if f.start.Fails? then (s, Err(f.start.error))
    else if form.ReadOnly? && f.readOnly.Fails? then (s, Err(f.readOnly.error))
    else
      var (staged, r) := op(n, s);
      if r.Err? then (s, r)
      else if f.commit.Fails? then (s, Err(f.commit.error))
      else (staged, r)
  }

  /**
   The attempt with its rollback and release.  The plain form lets their errors through and
   converts the error of the try block; the other two forms log them and rethrow it unchanged.
   */
  function Attempt<S, T>(form: Form, s: S, n: nat, op: Operation<S, T>, f: Faults): (S, Result<T, Thrown>) {
    var (s1, r) := TryBlock(form, s, n, op, f);
    if !form.Plain? then (s1, r)
    else if f.release.Fails? then (s1, Err(f.release.error))
    else if r.Ok? then (s1, r)
    else if f.rollback.Fails? then (s1, Err(f.rollback.error))
    else if IsHttpException(r.error) then (s1, r)
    else (s1, Err(HandleDatabaseError(r.error).e))
  }

  function Commits<S, T>(form: Form, s: S, n: nat, op: Operation<S, T>, f: Faults): nat {
    if TryBlock(form, s, n, op, f).1.Ok? then 1 else 0
  }

  /** The calls made on the query runner; `Operate` is the work in between. */
  datatype Call = Connect | Start | SetReadOnly | Operate | Commit | Rollback | Release

  function TryCalls<S, T>(form: Form, s: S, n: nat, op: Operation<S, T>, f: Faults): seq<Call> {
    if f.connect.Fails? then [Connect]
    else if f.start.Fails? then [Connect, Start]
    else
      var begun := if form.ReadOnly? then [Connect, Start, SetReadOnly] else [Connect, Start];
      if form.ReadOnly? && f.readOnly.Fails? then begun
      else if op(n, s).1.Err? then begun + [Operate]
      else begun + [Operate, Commit]
  }

  function Calls<S, T>(form: Form, s: S, n: nat, op: Operation<S, T>, f: Faults): seq<Call> {
    TryCalls(form, s, n, op, f)
    + (if TryBlock(form, s, n, op, f).1.Err? then [Rollback] else [])
    + [Release]
  }

  /**
   The runner is released once, as the last call.  It is rolled back exactly if the try block
   failed, right before; a commit is asked for exactly if all steps before it worked.
   */
  lemma CallOrder<S, T>(form: Form, s: S, n: nat, op: Operation<S, T>, f: Faults)
    ensures var calls := Calls(form, s, n, op, f);
            var last := |calls| - 1;
            && last >= 1 && calls[last] == Release && Release !in calls[..last]
            && (Rollback in calls <==> !StepsWork(form, s, n, op, f))
            && (Rollback in calls ==> calls[last - 1] == Rollback && Rollback !in calls[..last - 1])
            && (Commit in calls <==> StepsWork(form, s, n, op, f.(commit := Done)))
            && (Commit in calls ==> calls[if Rollback in calls then last - 2 else last - 1] == Commit)
  {
    TryCallsInOrder(form, s, n, op, f);
    EndsWithRelease(TryCalls(form, s, n, op, f), TryBlock(form, s, n, op, f).1.Err?);
  }

  lemma TryCallsInOrder<S, T>(form: Form, s: S, n: nat, op: Operation<S, T>, f: Faults)
    ensures var body := TryCalls(form, s, n, op, f);
            && body != [] && Release !in body && Rollback !in body
            && (Commit in body <==> StepsWork(form, s, n, op, f.(commit := Done)))
            && (Commit in body ==> body[|body| - 1] == Commit)
    ensures TryBlock(form, s, n, op, f).1.Ok? <==> StepsWork(form, s, n, op, f)
  {
  }

  lemma EndsWithRelease(body: seq<Call>, failed: bool)
    requires body != [] && Release !in body && Rollback !in body
    ensures var calls := body + (if failed then [Rollback] else []) + [Release];
            var last := |calls| - 1;
            && last >= 1 && calls[last] == Release && Release !in calls[..last]
            && (Rollback in calls <==> failed)
            && (failed ==> last >= 2 && calls[last - 1] == Rollback && Rollback !in calls[..last - 1])
            && (Commit in calls <==> Commit in body)
            && calls[if failed then last - 2 else last - 1] == body[|body| - 1]
  {
  }

  /** Every step of the attempt works, the operation included. */
  predicate StepsWork<S, T>(form: Form, s: S, n: nat, op: Operation<S, T>, f: Faults) {
    && f.connect.Done? && f.start.Done? && (form.ReadOnly? ==> f.readOnly.Done?)
    && op(n, s).1.Ok? && f.commit.Done?
  }

  // ---- the retry loop ----

  function Pow2(n: nat): nat {
    if n == 0 then 1 else 2 * Pow2(n - 1)
  }

  function Delay(n: nat): nat
    requires n >= 1
  {
    var d := 1000 * Pow2(n - 1);
    if d < 5000 then d else 5000
  }

  /** Attempts `n`, `n + 1`, ... up to `max`. */
  function RetryFrom<S, T>(form: Form, s: S, op: Operation<S, T>, faults: nat -> Faults,
                           n: nat, max: int, last: Option<Thrown>): Run<S, T>
    requires n >= 1
    decreases max - n
  {
    if n > max then Run(s, Err(last), n - 1, 0, 0)
    else
      var (s1, r) := Attempt(form, s, n, op, faults(n));
      var c := Commits(form, s, n, op, faults(n));
      if r.Ok? then Run(s1, Ok(r.value), n, 0, c)
      else
        var v := Judge(r.error);
        if v.GiveUp? || n == max then Run(s1, Err(Some(v.e)), n, 0, c)
        else
          var rest := RetryFrom(form, s1, op, faults, n + 1, max, Some(v.e));
          rest.Later(Delay(n), c)
  }

  function Execute<S, T>(form: Form, s: S, op: Operation<S, T>, faults: nat -> Faults, max: int): Run<S, T> {
    RetryFrom(form, s, op, faults, 1, max, None)
  }

  /** The store before attempt `k`, when the attempts before it were all made. */
  function StoreBefore<S, T>(form: Form, s: S, op: Operation<S, T>, faults: nat -> Faults, n: nat, k: nat): S
    requires n <= k
    decreases k - n
  {
    if n == k then s
    else StoreBefore(form, Attempt(form, s, n, op, faults(n)).0, op, faults, n + 1, k)
  }

  /** Attempt `n` is the last one, however many are allowed. */
  predicate Stops<S, T>(form: Form, s: S, n: nat, op: Operation<S, T>, f: Faults) {
    var r := Attempt(form, s, n, op, f).1;
    r.Ok? || Judge(r.error).GiveUp?
  }

  /** What the caller gets from the result of the last attempt. */
  function Surfaced<T>(r: Result<T, Thrown>): Result<T, Option<Thrown>> {
    if r.Ok? then Ok(r.value) else Err(Some(Judge(r.error).e))
  }

  /** One turn of the loop: it ends with the result of attempt `n`, or goes on from the store left by it. */
  lemma RetryTurn<S, T>(form: Form, s: S, op: Operation<S, T>, faults: nat -> Faults,
                        n: nat, max: int, last: Option<Thrown>)
    requires 1 <= n <= max
    ensures var (s1, r) := Attempt(form, s, n, op, faults(n));
            var run := RetryFrom(form, s, op, faults, n, max, last);
            var c := Commits(form, s, n, op, faults(n));
            if Stops(form, s, n, op, faults(n)) || n == max then run == Run(s1, Surfaced(r), n, 0, c)
            else
              var rest := RetryFrom(form, s1, op, faults, n + 1, max, Surfaced(r).error);
              run == rest.Later(Delay(n), c)
  {
  }

  /** Attempt `k` is the first from `n` on that stops, or the last that is allowed. */
  ghost predicate LastAttempt<S, T>(form: Form, s: S, op: Operation<S, T>, faults: nat -> Faults, n: nat, max: int,
      k: nat) {
    && n <= k <= max
    && (forall j :: n <= j < k ==> !Stops(form, StoreBefore(form, s, op, faults, n, j), j, op, faults(j)))
    && (Stops(form, StoreBefore(form, s, op, faults, n, k), k, op, faults(k)) || k == max)
  }

  lemma LastAttemptUnfolds<S, T>(form: Form, s: S, op: Operation<S, T>, faults: nat -> Faults, n: nat, max: int, k: nat)
    requires n < max && !Stops(form, s, n, op, faults(n))
    requires LastAttempt(form, Attempt(form, s, n, op, faults(n)).0, op, faults, n + 1, max, k)
    ensures LastAttempt(form, s, op, faults, n, max, k)
    ensures StoreBefore(form, s, op, faults, n, k)
            == StoreBefore(form, Attempt(form, s, n, op, faults(n)).0, op, faults, n + 1, k)
  {
    var s1 := Attempt(form, s, n, op, faults(n)).0;
    forall j | n <= j < k ensures !Stops(form, StoreBefore(form, s, op, faults, n, j), j, op, faults(j)) {
      if j > n {
        assert StoreBefore(form, s, op, faults, n, j) == StoreBefore(form, s1, op, faults, n + 1, j);
      }
    }
  }

  lemma {:induction false} AttemptLawFrom<S, T>(form: Form, s: S, op: Operation<S, T>, faults: nat -> Faults,
                                                n: nat, max: int, last: Option<Thrown>)
    requires 1 <= n <= max
    ensures var run := RetryFrom(form, s, op, faults, n, max, last);
            && LastAttempt(form, s, op, faults, n, max, run.attempts)
            && var (s1, r) := Attempt(form, StoreBefore(form, s, op, faults, n, run.attempts), run.attempts, op,
                faults(run.attempts));
               run.store == s1 && run.outcome == Surfaced(r)
    decreases max - n
  {
    RetryTurn(form, s, op, faults, n, max, last);
    if !Stops(form, s, n, op, faults(n)) && n < max {
      var (s1, r) := Attempt(form, s, n, op, faults(n));
      AttemptLawFrom(form, s1, op, faults, n + 1, max, Surfaced(r).error);
      LastAttemptUnfolds(form, s, op, faults, n, max, RetryFrom(form, s, op, faults, n, max, last).attempts);
    } else {
      assert StoreBefore(form, s, op, faults, n, n) == s;
    }
  }

  /**
   In every form: attempts are made up to the first that stops or to number `max`, each from
   the store its predecessors left; the call ends with the store and the result of the last.
   */
  lemma AttemptLaw<S, T>(form: Form, s: S, op: Operation<S, T>, faults: nat -> Faults, max: int)
    requires max >= 1
    ensures var run := Execute(form, s, op, faults, max);
            && LastAttempt(form, s, op, faults, 1, max, run.attempts)
            && var (s1, r) := Attempt(form, StoreBefore(form, s, op, faults, 1, run.attempts), run.attempts, op,
                faults(run.attempts));
               run.store == s1 && run.outcome == Surfaced(r)
  {
    AttemptLawFrom(form, s, op, faults, 1, max, None);
  }

  // ---- which error surfaces ----

  /** The error of a try block is that of its first failing step. */
  lemma FirstFailingStep<S, T>(form: Form, s: S, n: nat, op: Operation<S, T>, f: Faults, e: Thrown)
    ensures TryBlock(form, s, n, op, f).1 == Err(e) <==>
            || f.connect == Fails(e)
            || (f.connect.Done? && f.start == Fails(e))
            || (f.connect.Done? && f.start.Done? && form.ReadOnly? && f.readOnly == Fails(e))
            || (&& f.connect.Done? && f.start.Done? && (form.ReadOnly? ==> f.readOnly.Done?)
                && (op(n, s).1 == Err(e) || (op(n, s).1.Ok? && f.commit == Fails(e))))
    ensures TryBlock(form, s, n, op, f).1.Err? ==> TryBlock(form, s, n, op, f).0 == s
    ensures TryBlock(form, s, n, op, f).1.Ok? ==> TryBlock(form, s, n, op, f) == op(n, s)
  {
  }

  /** An error of release hides the others in the plain form, then one of rollback; the other forms hide both. */
  lemma AttemptErrors<S, T>(form: Form, s: S, n: nat, op: Operation<S, T>, f: Faults)
    ensures form.Plain? && f.release.Fails? ==> Attempt(form, s, n, op, f).1 == Err(f.release.error)
    ensures form.Plain? && f.release.Done? && TryBlock(form, s, n, op, f).1.Err? && f.rollback.Fails? ==>
              Attempt(form, s, n, op, f).1 == Err(f.rollback.error)
    ensures !form.Plain? || (f.release.Done? && TryBlock(form, s, n, op, f).1.Ok?) ==>
              Attempt(form, s, n, op, f) == TryBlock(form, s, n, op, f)
    ensures Attempt(form, s, n, op, f).0 == TryBlock(form, s, n, op, f).0
  {
  }

  /** The attempt gets as far as the operation, and nothing that follows hides its error. */
  predicate Undisturbed(form: Form, f: Faults) {
    && f.connect.Done? && f.start.Done? && (form.ReadOnly? ==> f.readOnly.Done?)
    && (form.Plain? ==> f.rollback.Done? && f.release.Done?)
  }

  /** A business error thrown by the operation ends the call and comes out as it is. */
  lemma BusinessErrorStops<S, T>(form: Form, s: S, n: nat, op: Operation<S, T>, f: Faults, e: Thrown)
    requires IsBusinessError(e) && op(n, s).1 == Err(e) && Undisturbed(form, f)
    ensures Stops(form, s, n, op, f) && Attempt(form, s, n, op, f).0 == s
    ensures Surfaced(Attempt(form, s, n, op, f).1) == Err(Some(e))
  {
  }

  lemma BusinessErrorPassesThrough<S, T>(form: Form, s: S, op: Operation<S, T>, faults: nat -> Faults, max: int,
                                         e: Thrown)
    requires max >= 1 && IsBusinessError(e) && op(1, s).1 == Err(e) && Undisturbed(form, faults(1))
    ensures Execute(form, s, op, faults, max) == Run(s, Err(Some(e)), 1, 0, 0)
  {
    BusinessErrorStops(form, s, 1, op, faults(1), e);
    RetryTurn(form, s, op, faults, 1, max, None);
  }

  /** Any other raw error comes out converted. */
  lemma OtherRawErrorsAreConverted<S, T>(form: Form, s: S, op: Operation<S, T>, faults: nat -> Faults, max: int,
                                         e: Thrown)
    requires Execute(form, s, op, faults, max).outcome == Err(Some(e))
    ensures e.Raw? ==> IsBusinessError(e)
  {
    if max >= 1 {
      AttemptLaw(form, s, op, faults, max);
    }
  }

  // ---- the forms that rethrow the raw error ----

  /** A failed attempt leaves the store alone. */
  lemma FailedAttemptChangesNothing<S, T>(form: Form, s: S, n: nat, op: Operation<S, T>, f: Faults)
    requires !form.Plain? && Attempt(form, s, n, op, f).1.Err?
    ensures Attempt(form, s, n, op, f).0 == s
  {
  }

  ghost predicate LastOf<S, T>(form: Form, s: S, op: Operation<S, T>, faults: nat -> Faults, n: nat, max: int, k: nat) {
    && n <= k <= max
    && (forall j :: n <= j < k ==> !Stops(form, s, j, op, faults(j)))
    && (Stops(form, s, k, op, faults(k)) || k == max)
  }

  lemma {:induction false} RetryLawFrom<S, T>(form: Form, s: S, op: Operation<S, T>, faults: nat -> Faults,
                                              n: nat, max: int, last: Option<Thrown>)
    requires !form.Plain? && 1 <= n <= max
    ensures var run := RetryFrom(form, s, op, faults, n, max, last);
            && LastOf(form, s, op, faults, n, max, run.attempts)
            && run.outcome == Surfaced(Attempt(form, s, run.attempts, op, faults(run.attempts)).1)
            && run.store == (if run.outcome.Ok? then op(run.attempts, s).0 else s)
            && run.commits == (if run.outcome.Ok? then 1 else 0)
    decreases max - n
  {
    var (s1, r) := Attempt(form, s, n, op, faults(n));
    var run := RetryFrom(form, s, op, faults, n, max, last);
    if r.Err? {
      FailedAttemptChangesNothing(form, s, n, op, faults(n));
      if Judge(r.error).TryAgain? && n < max {
        var next := Some(Judge(r.error).e);
        RetryLawFrom(form, s, op, faults, n + 1, max, next);
        var rest := RetryFrom(form, s, op, faults, n + 1, max, next);
        assert run.attempts == rest.attempts && run.outcome == rest.outcome && run.store == rest.store;
      }
    }
  }

  /**
   Retry and commit law of the read-only and isolation-level forms: attempts are made up to
   the first that stops or to number `max`; its result is returned; the store holds the
   effects of that attempt alone if the call returns normally, and is untouched if it throws;
   it returns normally exactly if every step of that attempt works.
   */
  lemma RetryLaw<S, T>(form: Form, s: S, op: Operation<S, T>, faults: nat -> Faults, max: int)
    requires !form.Plain? && max >= 1
    ensures var run := Execute(form, s, op, faults, max);
            && LastOf(form, s, op, faults, 1, max, run.attempts)
            && run.outcome == Surfaced(Attempt(form, s, run.attempts, op, faults(run.attempts)).1)
            && run.store == (if run.outcome.Ok? then op(run.attempts, s).0 else s)
            && run.commits == (if run.outcome.Ok? then 1 else 0)
            && (run.outcome.Ok? <==> StepsWork(form, s, run.attempts, op, faults(run.attempts)))
  {
    RetryLawFrom(form, s, op, faults, 1, max, None);
  }

  /** Within these forms an attempt is repeated exactly for the retryable codes of its own error. */
  lemma RawFormsRetry<S, T>(form: Form, s: S, n: nat, op: Operation<S, T>, f: Faults)
    requires !form.Plain?
    ensures !Stops(form, s, n, op, f) <==>
            var r := TryBlock(form, s, n, op, f).1;
            && r.Err? && r.error.Raw? && !IsHttpException(r.error)
            && r.error.code.Known? && IsRetryableError(r.error.code.kind)
  {
    if TryBlock(form, s, n, op, f).1.Err? {
      RetriedErrors(TryBlock(form, s, n, op, f).1.error);
    }
  }

  /** The statement after the loop is reached exactly when no attempt is allowed. */
  lemma NullIsThrownWithoutAttempts<S, T>(form: Form, s: S, op: Operation<S, T>, faults: nat -> Faults, max: int)
    ensures Execute(form, s, op, faults, max).outcome == Err(None) <==> max < 1
    ensures max < 1 ==> Execute(form, s, op, faults, max).store == s && Execute(form, s, op, faults, max).attempts == 0
  {
    ErrorIsNamed(form, s, op, faults, 1, max, None);
  }

  lemma {:induction false} ErrorIsNamed<S, T>(form: Form, s: S, op: Operation<S, T>, faults: nat -> Faults,
                                              n: nat, max: int, last: Option<Thrown>)
    requires n >= 1
    ensures RetryFrom(form, s, op, faults, n, max, last).outcome == Err(None) <==> n > max && last.None?
    decreases max - n
  {
    if n <= max {
      var (s1, r) := Attempt(form, s, n, op, faults(n));
      if r.Err? && Judge(r.error).TryAgain? && n < max {
        ErrorIsNamed(form, s1, op, faults, n + 1, max, Some(Judge(r.error).e));
      }
    }
  }

  // ---- the plain form ----

  /** The commit of this attempt went through but its release failed, so the caller sees an error. */
  predicate LosesCommit<S, T>(form: Form, s: S, n: nat, op: Operation<S, T>, f: Faults) {
    form.Plain? && TryBlock(form, s, n, op, f).1.Ok? && f.release.Fails?
  }

  ghost predicate NoCommitLost<S, T>(form: Form, s: S, op: Operation<S, T>, faults: nat -> Faults, n: nat, upTo: nat) {
    forall k :: n <= k <= upTo ==> !LosesCommit(form, StoreBefore(form, s, op, faults, n, k), k, op, faults(k))
  }

  function Count<T>(outcome: Result<T, Option<Thrown>>): nat {
    if outcome.Ok? then 1 else 0
  }

  lemma {:induction false} CommitCountFrom<S, T>(form: Form, s: S, op: Operation<S, T>, faults: nat -> Faults,
                                                 n: nat, max: int, last: Option<Thrown>)
    requires 1 <= n <= max
    ensures var run := RetryFrom(form, s, op, faults, n, max, last);
            && n <= run.attempts && Count(run.outcome) <= run.commits
            && (run.commits == Count(run.outcome) <==> NoCommitLost(form, s, op, faults, n, run.attempts))
    decreases max - n
  {
    var (s1, r) := Attempt(form, s, n, op, faults(n));
    var run := RetryFrom(form, s, op, faults, n, max, last);
    if r.Err? && Judge(r.error).TryAgain? && n < max {
      var next := Some(Judge(r.error).e);
      var rest := RetryFrom(form, s1, op, faults, n + 1, max, next);
      CommitCountFrom(form, s1, op, faults, n + 1, max, next);
      assert run.attempts == rest.attempts && run.outcome == rest.outcome;
      NoCommitLostUnfolds(form, s, op, faults, n, run.attempts);
    } else {
      assert run.attempts == n && StoreBefore(form, s, op, faults, n, n) == s;
    }
  }

  lemma {:induction false} CommitStoreFrom<S, T>(form: Form, s: S, op: Operation<S, T>, faults: nat -> Faults,
                                                 n: nat, max: int, last: Option<Thrown>)
    requires 1 <= n <= max
    requires NoCommitLost(form, s, op, faults, n, RetryFrom(form, s, op, faults, n, max, last).attempts)
    ensures var run := RetryFrom(form, s, op, faults, n, max, last);
            match run.outcome
            case Err(_) => run.store == s
            case Ok(value) => op(run.attempts, s) == (run.store, Ok(value))
    decreases max - n
  {
    var (s1, r) := Attempt(form, s, n, op, faults(n));
    var run := RetryFrom(form, s, op, faults, n, max, last);
    if r.Err? && Judge(r.error).TryAgain? && n < max {
      var next := Some(Judge(r.error).e);
      var rest := RetryFrom(form, s1, op, faults, n + 1, max, next);
      CommitCountFrom(form, s1, op, faults, n + 1, max, next);
      assert run.attempts == rest.attempts && run.outcome == rest.outcome && run.store == rest.store;
      NoCommitLostUnfolds(form, s, op, faults, n, run.attempts);
      CommitStoreFrom(form, s1, op, faults, n + 1, max, next);
    } else {
      assert run.attempts == n && StoreBefore(form, s, op, faults, n, n) == s;
      assert !LosesCommit(form, StoreBefore(form, s, op, faults, n, n), n, op, faults(n));
    }
  }

  lemma NoCommitLostUnfolds<S, T>(form: Form, s: S, op: Operation<S, T>, faults: nat -> Faults, n: nat, upTo: nat)
    requires n < upTo
    ensures NoCommitLost(form, s, op, faults, n, upTo) <==>
            && !LosesCommit(form, s, n, op, faults(n))
            && NoCommitLost(form, Attempt(form, s, n, op, faults(n)).0, op, faults, n + 1, upTo)
  {
    var s1 := Attempt(form, s, n, op, faults(n)).0;
    assert StoreBefore(form, s, op, faults, n, n) == s;
    assert forall k :: n + 1 <= k ==>
      StoreBefore(form, s, op, faults, n, k) == StoreBefore(form, s1, op, faults, n + 1, k);
    if NoCommitLost(form, s, op, faults, n, upTo) {
      assert !LosesCommit(form, StoreBefore(form, s, op, faults, n, n), n, op, faults(n));
      forall k | n + 1 <= k <= upTo
        ensures !LosesCommit(form, StoreBefore(form, s1, op, faults, n + 1, k), k, op, faults(k))
      {
        assert !LosesCommit(form, StoreBefore(form, s, op, faults, n, k), k, op, faults(k));
      }
    }
  }

  /** Attempt `k` is allowed, and no attempt before it stops. */
  ghost predicate Reached<S, T>(form: Form, s: S, op: Operation<S, T>, faults: nat -> Faults, max: int, k: nat) {
    1 <= k <= max && forall j :: 1 <= j < k ==> !Stops(form, StoreBefore(form, s, op, faults, 1, j), j, op, faults(j))
  }

  /** No attempt that is reached commits and then fails to release its runner. */
  ghost predicate NeverLosesCommit<S, T>(form: Form, s: S, op: Operation<S, T>, faults: nat -> Faults, max: int) {
    forall k :: Reached(form, s, op, faults, max, k) ==>
      !LosesCommit(form, StoreBefore(form, s, op, faults, 1, k), k, op, faults(k))
  }

  /** The attempts that are reached are those that the call makes. */
  lemma ReachedAreMade<S, T>(form: Form, s: S, op: Operation<S, T>, faults: nat -> Faults, max: int)
    requires max >= 1
    ensures NeverLosesCommit(form, s, op, faults, max) <==>
            NoCommitLost(form, s, op, faults, 1, Execute(form, s, op, faults, max).attempts)
  {
    AttemptLaw(form, s, op, faults, max);
    var last := Execute(form, s, op, faults, max).attempts;
    assert Stops(form, StoreBefore(form, s, op, faults, 1, last), last, op, faults(last)) || last == max;
    assert forall k: nat :: Reached(form, s, op, faults, max, k) <==> 1 <= k <= last;
  }

  /**
   Commit law of all forms: exactly one commit when the call returns and none when it throws,
   if and only if no attempt that is reached commits and then fails to release its runner.
   The store then is the effect of the last attempt on the original store, or the original store.
   */
  lemma CommitLaw<S, T>(form: Form, s: S, op: Operation<S, T>, faults: nat -> Faults, max: int)
    requires max >= 1
    ensures var run := Execute(form, s, op, faults, max);
            && (run.commits == Count(run.outcome) <==> NeverLosesCommit(form, s, op, faults, max))
            && (NeverLosesCommit(form, s, op, faults, max) ==>
                  match run.outcome
                  case Err(_) => run.store == s
                  case Ok(value) => op(run.attempts, s) == (run.store, Ok(value)))
  {
    ReachedAreMade(form, s, op, faults, max);
    CommitCountFrom(form, s, op, faults, 1, max, None);
    if NeverLosesCommit(form, s, op, faults, max) {
      CommitStoreFrom(form, s, op, faults, 1, max, None);
    }
  }

  /**
   When the plain form tries again: only for a raw retryable error of the release, or of the
   rollback.  An error of the transaction itself is converted twice and never retried.
   */
  lemma PlainRetries<S, T>(s: S, n: nat, op: Operation<S, T>, f: Faults)
    ensures !Stops(Plain, s, n, op, f) <==>
            if f.release.Fails? then Judge(f.release.error).TryAgain?
            else TryBlock(Plain, s, n, op, f).1.Err? && f.rollback.Fails? && Judge(f.rollback.error).TryAgain?
  {
    var r := TryBlock(Plain, s, n, op, f).1;
    if r.Err? && !IsHttpException(r.error) {
      SecondConversionGivesUp(r.error);
    }
  }

  /** With working rollback and release the plain form makes exactly one attempt. */
  lemma PlainMakesOneAttempt<S, T>(s: S, op: Operation<S, T>, faults: nat -> Faults, max: int)
    requires max >= 1 && faults(1).rollback.Done? && faults(1).release.Done?
    ensures var run := Execute(Plain, s, op, faults, max);
            var r := TryBlock(Plain, s, 1, op, faults(1)).1;
            && run.attempts == 1 && run.waited == 0
            && run.store == TryBlock(Plain, s, 1, op, faults(1)).0
            && run.outcome == if r.Ok? then Ok(r.value)
                              else if IsHttpException(r.error) then Err(Some(r.error))
                              else match HandleDatabaseError(r.error)
                                   case Throws(x) => Err(Some(x))
                                   case Returns(x) => Err(Some(DatabaseException(UnknownError, x)))
  {
    PlainRetries(s, 1, op, faults(1));
    var r := TryBlock(Plain, s, 1, op, faults(1)).1;
    if r.Err? && !IsHttpException(r.error) {
      SecondConversionGivesUp(r.error);
    }
  }

  function DriverError(kind: DatabaseErrorType): Thrown {
    Raw("", false, false, None, false, false, Known(kind), true)
  }

  const Smooth := Faults(Done, Done, Done, Done, Done, Done)

  function NoFaults(): nat -> Faults {
    n => Smooth
  }

  /** A deadlock that would pass on the second attempt: the isolation form recovers, the plain form does not. */
  lemma PlainFormDoesNotRetryDeadlocks()
    ensures exists op: Operation<int, int> ::
              && Execute(Isolated, 0, op, NoFaults(), 3) == Run(1, Ok(7), 2, 1000, 1)
              && Execute(Plain, 0, op, NoFaults(), 3).outcome.Err?
              && Execute(Plain, 0, op, NoFaults(), 3).attempts == 1
  {
    var op: Operation<int, int> := (n, s) => if n == 1 then (s, Err(DriverError(Deadlock))) else (s + 1, Ok(7));
    var e := DriverError(Deadlock);
    assert !IsHttpException(e);
    RetriedErrors(e);
    PlainMakesOneAttempt(0, op, NoFaults(), 3);
    var second := RetryFrom(Isolated, 0, op, NoFaults(), 2, 3, Some(Judge(e).e));
    assert second == Run(1, Ok(7), 2, 0, 1);
    assert Delay(1) == 1000;
    assert Execute(Isolated, 0, op, NoFaults(), 3) == Run(1, Ok(7), 2, 1000, 1);
  }

  /** A release that fails once after the commit: the plain form applies the operation twice. */
  lemma LostCommitIsRepeated()
    ensures exists op: Operation<int, int>, faults: nat -> Faults ::
              && (forall n, s :: op(n, s) == (s + 1, Ok(7)))
              && Execute(Plain, 0, op, faults, 3) == Run(2, Ok(7), 2, 1000, 2)
  {
    var op: Operation<int, int> := (n, s) => (s + 1, Ok(7));
    var e := DriverError(ConnectionError);
    var faults := (n: nat) => if n == 1 then Smooth.(release := Fails(e)) else Smooth;
    assert !IsHttpException(e);
    RetriedErrors(e);
    var second := RetryFrom(Plain, 1, op, faults, 2, 3, Some(Judge(e).e));
    assert second == Run(2, Ok(7), 2, 0, 1);
    assert Delay(1) == 1000;
    assert Execute(Plain, 0, op, faults, 3) == Run(2, Ok(7), 2, 1000, 2);
  }

  // ---- back-off ----

  function TotalDelay(k: nat): nat {
    if k == 0 then 0 else TotalDelay(k - 1) + Delay(k)
  }

  lemma {:induction false} Pow2Grows(n: nat)
    ensures n >= 3 ==> Pow2(n) >= 8
  {
    if n > 3 {
      Pow2Grows(n - 1);
    }
  }

  /** After `k` retried failures the call has waited this long. */
  lemma {:induction false} BackoffClosedForm(k: nat)
    ensures TotalDelay(k) == if k <= 3 then 1000 * (Pow2(k) - 1) else 7000 + 5000 * (k - 3)
  {
    if k > 0 {
      BackoffClosedForm(k - 1);
      if k > 3 {
        Pow2Grows(k - 1);
      }
    }
    assert Pow2(0) == 1 && Pow2(1) == 2 && Pow2(2) == 4 && Pow2(3) == 8;
  }

  lemma {:induction false} AttemptsFrom<S, T>(form: Form, s: S, op: Operation<S, T>, faults: nat -> Faults,
                                              n: nat, max: int, last: Option<Thrown>)
    requires 1 <= n <= max
    ensures n <= RetryFrom(form, s, op, faults, n, max, last).attempts <= max
    decreases max - n
  {
    RetryTurn(form, s, op, faults, n, max, last);
    if !Stops(form, s, n, op, faults(n)) && n < max {
      var (s1, r) := Attempt(form, s, n, op, faults(n));
      AttemptsFrom(form, s1, op, faults, n + 1, max, Surfaced(r).error);
    }
  }

  function DelaysBetween(n: nat, k: nat): nat
    requires n >= 1
    decreases k - n
  {
    if n >= k then 0 else Delay(n) + DelaysBetween(n + 1, k)
  }

  lemma {:induction false} DelaysAddUp(n: nat, k: nat)
    requires 1 <= n <= k
    ensures TotalDelay(n - 1) + DelaysBetween(n, k) == TotalDelay(k - 1)
    decreases k - n
  {
    if n < k {
      DelaysAddUp(n + 1, k);
    }
  }

  lemma {:induction false} WaitedFrom<S, T>(form: Form, s: S, op: Operation<S, T>, faults: nat -> Faults,
                                            n: nat, max: int, last: Option<Thrown>)
    requires 1 <= n <= max
    ensures var run := RetryFrom(form, s, op, faults, n, max, last);
            run.waited == DelaysBetween(n, run.attempts)
    decreases max - n
  {
    RetryTurn(form, s, op, faults, n, max, last);
    if !Stops(form, s, n, op, faults(n)) && n < max {
      var (s1, r) := Attempt(form, s, n, op, faults(n));
      AttemptsFrom(form, s1, op, faults, n + 1, max, Surfaced(r).error);
      WaitedFrom(form, s1, op, faults, n + 1, max, Surfaced(r).error);
    }
  }

  /** The wait depends only on the number of attempts and never exceeds five seconds per retry allowed. */
  lemma BackoffBound<S, T>(form: Form, s: S, op: Operation<S, T>, faults: nat -> Faults, max: int)
    requires max >= 1
    ensures var run := Execute(form, s, op, faults, max);
            && 1 <= run.attempts <= max
            && run.waited == TotalDelay(run.attempts - 1)
            && run.waited <= 5000 * (max - 1)
  {
    AttemptsFrom(form, s, op, faults, 1, max, None);
    WaitedFrom(form, s, op, faults, 1, max, None);
    DelaysAddUp(1, Execute(form, s, op, faults, max).attempts);
    BackoffClosedForm(Execute(form, s, op, faults, max).attempts - 1);
    assert Pow2(0) == 1 && Pow2(1) == 2 && Pow2(2) == 4 && Pow2(3) == 8;
  }

  // ---- batches ----

  /** The operations one after another on the same transaction; the first error ends the batch. */
  function RunAll<S, T>(ops: seq<Operation<S, T>>, n: nat, s: S): (S, Result<seq<T>, Thrown>)
    decreases |ops|
  {
    if ops == [] then (s, Ok([]))
    else
      var (s1, r) := RunAll(ops[..|ops| - 1], n, s);
      if r.Err? then (s1, r)
      else
        var (s2, q) := ops[|ops| - 1](n, s1);
        if q.Err? then (s2, Err(q.error)) else (s2, Ok(r.value + [q.value]))
  }

  function BatchOperation<S, T>(ops: seq<Operation<S, T>>): Operation<S, seq<T>> {
    (n: nat, s: S) => RunAll(ops, n, s)
  }

  /** The store after the first `i` operations. */
  function StoreAfter<S, T>(ops: seq<Operation<S, T>>, n: nat, s: S, i: nat): S
    requires i <= |ops|
  {
    if i == 0 then s else ops[i - 1](n, StoreAfter(ops, n, s, i - 1)).0
  }

  lemma {:induction false} StoreAfterPrefix<S, T>(ops: seq<Operation<S, T>>, n: nat, s: S, i: nat, j: nat)
    requires i <= j <= |ops|
    ensures StoreAfter(ops[..j], n, s, i) == StoreAfter(ops, n, s, i)
  {
    if i > 0 {
      StoreAfterPrefix(ops, n, s, i - 1, j);
    }
  }

  ghost predicate FailsAt<S, T>(ops: seq<Operation<S, T>>, n: nat, s: S, i: nat, e: Thrown) {
    && i < |ops|
    && ops[i](n, StoreAfter(ops, n, s, i)).1 == Err(e)
    && forall j :: 0 <= j < i ==> ops[j](n, StoreAfter(ops, n, s, j)).1.Ok?
  }

  /** The results come in order, each from the store its predecessor left; an error is the first one. */
  lemma {:induction false} BatchResults<S, T>(ops: seq<Operation<S, T>>, n: nat, s: S)
    ensures var (s1, r) := RunAll(ops, n, s);
            match r
            case Ok(values) =>
              && |values| == |ops| && s1 == StoreAfter(ops, n, s, |ops|)
              && forall i :: 0 <= i < |ops| ==> ops[i](n, StoreAfter(ops, n, s, i)).1 == Ok(values[i])
            case Err(e) => exists i :: FailsAt(ops, n, s, i, e)
    decreases |ops|
  {
    if ops != [] {
      var k := |ops| - 1;
      var front := ops[..k];
      BatchResults(front, n, s);
      forall i | 0 <= i <= k ensures StoreAfter(front, n, s, i) == StoreAfter(ops, n, s, i) {
        StoreAfterPrefix(ops, n, s, i, k);
      }
      var (s1, r) := RunAll(front, n, s);
      if r.Err? {
        var i :| FailsAt(front, n, s, i, r.error);
        assert FailsAt(ops, n, s, i, r.error);
      } else {
        forall i | 0 <= i < k ensures ops[i](n, StoreAfter(ops, n, s, i)).1 == Ok(r.value[i]) {
          assert front[i] == ops[i];
        }
        var (s2, q) := ops[k](n, s1);
        if q.Err? {
          assert FailsAt(ops, n, s, k, q.error);
        }
      }
    }
  }

  /**
   A batch is all or nothing, with its results in order, as long as no attempt that is reached
   commits and then fails to release.
   */
  lemma {:induction false} BatchIsAllOrNothing<S, T>(s: S, ops: seq<Operation<S, T>>, faults: nat -> Faults)
    requires NeverLosesCommit(Plain, s, BatchOperation(ops), faults, 3)
    ensures var run := Execute(Plain, s, BatchOperation(ops), faults, 3);
            match run.outcome
            case Err(_) => run.store == s
            case Ok(values) =>
              && |values| == |ops|
              && run.store == StoreAfter(ops, run.attempts, s, |ops|)
              && forall i :: 0 <= i < |ops| ==>
                   ops[i](run.attempts, StoreAfter(ops, run.attempts, s, i)).1 == Ok(values[i])
  {
    var op := BatchOperation(ops);
    var run := Execute(Plain, s, op, faults, 3);
    CommitLaw(Plain, s, op, faults, 3);
    BatchResults(ops, run.attempts, s);
  }
}
