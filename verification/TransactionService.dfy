/**
 The transaction manager as it runs: it drives a query runner step by step and changes the
 store, the count of runners and the time waited in place.
 */
module TransactionService {
  import opened Wrappers
  import opened TransactionErrors
  import opened TransactionManager

  /** Commits that went through, query runners created, release calls made, milliseconds of back-off. */
  datatype Ledger = Ledger(commits: nat, acquired: nat, released: nat, waited: nat)
  {
    function Plus(attempts: nat, wait: nat, done: nat): Ledger {
      Ledger(commits + done, acquired + attempts, released + attempts, waited + wait)
    }
  }

  /** The first operation is reached, throws a business error, and nothing that follows hides it. */
  ghost predicate ThrowsBusinessError<S, T>(form: Form, s: S, op: Operation<S, T>, faults: nat -> Faults, e: Thrown) {
    IsBusinessError(e) && op(1, s).1 == Err(e) && Undisturbed(form, faults(1))
  }

  lemma ErrorsSurface<S, T>(form: Form, s: S, op: Operation<S, T>, faults: nat -> Faults, max: int)
    ensures forall e: Thrown :: max >= 1 && ThrowsBusinessError(form, s, op, faults, e) ==>
              Execute(form, s, op, faults, max) == Run(s, Err(Some(e)), 1, 0, 0)
    ensures forall e: Thrown :: Execute(form, s, op, faults, max).outcome == Err(Some(e)) && e.Raw? ==>
              IsBusinessError(e)
  {
    forall e: Thrown | max >= 1 && ThrowsBusinessError(form, s, op, faults, e)
      ensures Execute(form, s, op, faults, max) == Run(s, Err(Some(e)), 1, 0, 0)
    {
      BusinessErrorPassesThrough(form, s, op, faults, max, e);
    }
    forall e: Thrown | Execute(form, s, op, faults, max).outcome == Err(Some(e)) && e.Raw? ensures IsBusinessError(e) {
      OtherRawErrorsAreConverted(form, s, op, faults, max, e);
    }
  }

  class TransactionManagerService<S(!new)> {
    var store: S          // what is committed
    var ledger: Ledger

    constructor (initial: S)
      ensures store == initial && ledger == Ledger(0, 0, 0, 0)
    {
      store, ledger := initial, Ledger(0, 0, 0, 0);
    }

    method RunTryBlock<T>(form: Form, n: nat, op: Operation<S, T>, f: Faults)
      returns (r: Result<T, Thrown>, calls: seq<Call>)
      modifies this
      ensures (store, r) == TryBlock(form, old(store), n, op, f)
      ensures calls == TryCalls(form, old(store), n, op, f)
      ensures ledger == old(ledger).Plus(0, 0, Commits(form, old(store), n, op, f))
    {
      calls := [Connect];
      if f.connect.Fails? {
        r := Err(f.connect.error);
        return;
      }
      calls := calls + [Start];
      if f.start.Fails? {
        r := Err(f.start.error);
        return;
      }
      if form.ReadOnly? {
        calls := calls + [SetReadOnly];
        if f.readOnly.Fails? {
          r := Err(f.readOnly.error);
          return;
        }
      }
      calls := calls + [Operate];
      var (staged, result) := op(n, store);
      r := result;
      if result.Err? {
        return;
      }
      calls := calls + [Call.Commit];
      if f.commit.Fails? {
        r := Err(f.commit.error);
        return;
      }
      store, ledger := staged, ledger.(commits := ledger.commits + 1);
    }

    /** One attempt: whatever happens, the runner gets exactly one release call, at the end. */
    method RunAttempt<T>(form: Form, n: nat, op: Operation<S, T>, f: Faults)
      returns (r: Result<T, Thrown>, calls: seq<Call>)
      modifies this
      ensures (store, r) == Attempt(form, old(store), n, op, f)
      ensures calls == Calls(form, old(store), n, op, f)
      ensures ledger == old(ledger).Plus(1, 0, Commits(form, old(store), n, op, f))
    {
      ledger := ledger.(acquired := ledger.acquired + 1);
      r, calls := RunTryBlock(form, n, op, f);
      if r.Err? {
        calls := calls + [Rollback];
        if form.Plain? {
          if f.rollback.Fails? {
            r := Err(f.rollback.error);
          } else if !IsHttpException(r.error) {
            var conversion := HandleDatabaseError(r.error);
            r := Err(conversion.e);
          }
        }
      }
      calls, ledger := calls + [Release], ledger.(released := ledger.released + 1);
      if form.Plain? && f.release.Fails? {
        r := Err(f.release.error);
      }
    }

    /** The checks that the retry loop makes on a caught error. */
    static method Classify(error: Thrown) returns (v: Verdict)
      ensures v == Judge(error)
    {
      if IsHttpException(error) {
        return GiveUp(error);
      }
      var conversion := HandleDatabaseError(error);
      if conversion.Throws? {
        return GiveUp(conversion.e);
      }
      v := if IsRetryableError(conversion.e.kind) then TryAgain(conversion.e) else GiveUp(conversion.e);
    }

    /**
     One turn of the retry loop, with the wait after a failure.  `ended` unless the loop goes
     on, remembering the error in `r`.  `run` is what is still to come before the turn, `rest`
     what is still to come after it.
     */
    method RunTurn<T>(form: Form, n: nat, op: Operation<S, T>, faults: nat -> Faults, maxRetries: int,
                      ghost last: Option<Thrown>, ghost run: Run<S, T>)
      returns (ended: bool, r: Result<T, Option<Thrown>>, ghost rest: Run<S, T>, ghost delay: nat, ghost done: nat)
      requires 1 <= n <= maxRetries && run == RetryFrom(form, store, op, faults, n, maxRetries, last)
      modifies this
      ensures ledger == old(ledger).Plus(1, delay, done) && (ended || r.Err?)
      ensures ended <==> Stops(form, old(store), n, op, faults(n)) || n == maxRetries
      ensures ended ==> run == Run(store, r, n, delay, done)
      ensures !ended ==> rest == RetryFrom(form, store, op, faults, n + 1, maxRetries, r.error)
      ensures !ended ==> run == rest.Later(delay, done)
    {
      delay, done, rest := 0, Commits(form, store, n, op, faults(n)), run;
      RetryTurn(form, store, op, faults, n, maxRetries, last);
      var result, _ := RunAttempt(form, n, op, faults(n));
      if result.Ok? {
        ended, r := true, Ok(result.value);
        return;
      }
      var verdict := Classify(result.error);
      ended := verdict.GiveUp? || n == maxRetries;
      r := Err(Some(verdict.e));
      if !ended {
        delay, rest := Delay(n), RetryFrom(form, store, op, faults, n + 1, maxRetries, r.error);
        ledger := ledger.(waited := ledger.waited + Delay(n));
      }
    }

    method ExecuteWithRetry<T>(form: Form, op: Operation<S, T>, faults: nat -> Faults, maxRetries: int)
      returns (r: Result<T, Option<Thrown>>)
      modifies this
      ensures var run := Execute(form, old(store), op, faults, maxRetries);
              && store == run.store && r == run.outcome
              && ledger == old(ledger).Plus(run.attempts, run.waited, run.commits)
    {
      hide RetryFrom;    // the loop needs the contract of a turn, not what is inside
      ghost var run := Execute(form, store, op, faults, maxRetries);
      ghost var rest, delay, done := run, 0, 0;
      r := Err(None);
      var attempt := 1;
      while attempt <= maxRetries
        invariant attempt >= 1 && r.Err?
        invariant ledger == old(ledger).Plus(attempt - 1, delay, done)
        invariant rest == RetryFrom(form, store, op, faults, attempt, maxRetries, r.error)
        invariant run == rest.Later(delay, done)
      {
        ghost var next, d, c;
        var ended;
        ended, r, next, d, c := RunTurn(form, attempt, op, faults, maxRetries, r.error, rest);
        if ended {
          return;
        }
        LaterTwice(next, d, c, delay, done);
        rest, delay, done := next, delay + d, done + c;
        attempt := attempt + 1;
      }
      NoAttemptLeft(form, store, op, faults, attempt, maxRetries, r.error);
    }

    method ExecuteTransaction<T>(op: Operation<S, T>, faults: nat -> Faults, maxRetries: int)
      returns (r: Result<T, Option<Thrown>>)
      modifies this
      ensures var run := Execute(Plain, old(store), op, faults, maxRetries);
              && store == run.store && r == run.outcome
              && ledger == old(ledger).Plus(run.attempts, run.waited, run.commits)
      ensures maxRetries >= 1 && NeverLosesCommit(Plain, old(store), op, faults, maxRetries) && r.Err? ==>
                store == old(store)
      ensures forall e: Thrown :: maxRetries >= 1 && ThrowsBusinessError(Plain, old(store), op, faults, e) ==>
                r == Err(Some(e)) && store == old(store) && ledger == old(ledger).Plus(1, 0, 0)
      ensures r.Err? && r.error.Some? && r.error.value.Raw? ==> IsBusinessError(r.error.value)
    {
      ErrorsSurface(Plain, store, op, faults, maxRetries);
      r := ExecuteWithRetry(Plain, op, faults, maxRetries);
      if maxRetries >= 1 {
        CommitLaw(Plain, old(store), op, faults, maxRetries);
      }
    }

    /** The two raw forms: the store changes only if the call returns normally. */
    method ExecuteReadOnlyTransaction<T>(op: Operation<S, T>, faults: nat -> Faults, maxRetries: int)
      returns (r: Result<T, Option<Thrown>>)
      modifies this
      ensures ledger.acquired >= old(ledger).acquired
      ensures r == Execute(ReadOnly, old(store), op, faults, maxRetries).outcome
      ensures store == if r.Ok? then op(ledger.acquired - old(ledger).acquired, old(store)).0 else old(store)
      ensures ledger.released - old(ledger).released == ledger.acquired - old(ledger).acquired
      ensures forall e: Thrown :: maxRetries >= 1 && ThrowsBusinessError(ReadOnly, old(store), op, faults, e) ==>
                r == Err(Some(e)) && ledger == old(ledger).Plus(1, 0, 0)
      ensures r.Err? && r.error.Some? && r.error.value.Raw? ==> IsBusinessError(r.error.value)
    {
      ErrorsSurface(ReadOnly, store, op, faults, maxRetries);
      r := ExecuteWithRetry(ReadOnly, op, faults, maxRetries);
      if maxRetries >= 1 {
        RetryLaw(ReadOnly, old(store), op, faults, maxRetries);
      }
    }

    method ExecuteTransactionWithIsolationLevel<T>(op: Operation<S, T>, faults: nat -> Faults, maxRetries: int)
      returns (r: Result<T, Option<Thrown>>)
      modifies this
      ensures ledger.acquired >= old(ledger).acquired
      ensures r == Execute(Isolated, old(store), op, faults, maxRetries).outcome
      ensures store == if r.Ok? then op(ledger.acquired - old(ledger).acquired, old(store)).0 else old(store)
      ensures ledger.released - old(ledger).released == ledger.acquired - old(ledger).acquired
      ensures forall e: Thrown :: maxRetries >= 1 && ThrowsBusinessError(Isolated, old(store), op, faults, e) ==>
                r == Err(Some(e)) && ledger == old(ledger).Plus(1, 0, 0)
      ensures r.Err? && r.error.Some? && r.error.value.Raw? ==> IsBusinessError(r.error.value)
    {
      ErrorsSurface(Isolated, store, op, faults, maxRetries);
      r := ExecuteWithRetry(Isolated, op, faults, maxRetries);
      if maxRetries >= 1 {
        RetryLaw(Isolated, old(store), op, faults, maxRetries);
      }
    }

    /** The loop over the operations of a batch, inside its transaction. */
    static method RunOperations<T>(ops: seq<Operation<S, T>>, n: nat, s: S)
      returns (staged: S, r: Result<seq<T>, Thrown>)
      ensures (staged, r) == RunAll(ops, n, s)
    {
      staged := s;
      var results: seq<T> := [];
      for i := 0 to |ops|
        invariant RunAll(ops[..i], n, s) == (staged, Ok(results))
      {
        assert ops[..i + 1][..i] == ops[..i];
        var (next, result) := ops[i](n, staged);
        staged := next;
        if result.Err? {
          RunAllStopsEarly(ops, n, s, i + 1);
          return staged, Err(result.error);
        }
        results := results + [result.value];
      }
      assert ops[..|ops|] == ops;
      r := Ok(results);
    }

    method ExecuteBatchTransaction<T>(ops: seq<Operation<S, T>>, faults: nat -> Faults)
      returns (r: Result<seq<T>, Option<Thrown>>)
      modifies this
      ensures var run := Execute(Plain, old(store), BatchOperation(ops), faults, 3);
              && store == run.store && r == run.outcome
              && ledger == old(ledger).Plus(run.attempts, run.waited, run.commits)
      ensures NeverLosesCommit(Plain, old(store), BatchOperation(ops), faults, 3) ==>
                if r.Err? then store == old(store)
                else
                  && |r.value| == |ops|
                  && store == StoreAfter(ops, ledger.acquired - old(ledger).acquired, old(store), |ops|)
    {
      r := ExecuteTransaction(BatchOperation(ops), faults, 3);
      if NeverLosesCommit(Plain, old(store), BatchOperation(ops), faults, 3) {
        BatchIsAllOrNothing(old(store), ops, faults);
      }
    }
  }

  lemma LaterTwice<S, T>(rest: Run<S, T>, d: nat, c: nat, delay: nat, done: nat)
    ensures rest.Later(d, c).Later(delay, done) == rest.Later(delay + d, done + c)
  {
  }

  lemma NoAttemptLeft<S, T>(form: Form, s: S, op: Operation<S, T>, faults: nat -> Faults, n: nat, max: int,
                            last: Option<Thrown>)
    requires n >= 1 && n > max
    ensures RetryFrom(form, s, op, faults, n, max, last) == Run(s, Err(last), n - 1, 0, 0)
  {
  }

  /** Once an operation has failed the rest of the batch does not matter. */
  lemma {:induction false} RunAllStopsEarly<S, T>(ops: seq<Operation<S, T>>, n: nat, s: S, i: nat)
    requires i <= |ops| && RunAll(ops[..i], n, s).1.Err?
    ensures RunAll(ops, n, s) == RunAll(ops[..i], n, s)
    decreases |ops|
  {
    if i == |ops| {
      assert ops[..i] == ops;
    } else {
      var front := ops[..|ops| - 1];
      assert front[..i] == ops[..i];
      RunAllStopsEarly(front, n, s, i);
    }
  }
}
