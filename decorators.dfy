/** The decorators of `utils/decorator_utils.py` (and `retry_decorator` of
    `utils.py`). The wrapped function is given by what each call of it does;
    delays are abstract natural numbers. */
module Decorators {
  import opened Wrappers

  /** What one call of the wrapped function does. */
  datatype Outcome<R, E> = Returned(value: R) | Raised(exc: E)

  /** How a retry wrapper ends: with the outcome of one of the calls, or with
      an error of its own when it made no call at all. */
  datatype RetryResult<R, E> = Passed(outcome: Outcome<R, E>) | Internal(kind: ErrorKind)

  function Pow(b: nat, n: nat): nat {
    if n == 0 then 1 else b * Pow(b, n - 1)
  }

  /** A call that raised one of the exceptions the wrapper catches. */
  predicate CaughtFailure<R, E>(o: Outcome<R, E>, catches: E -> bool) {
    o.Raised? && catches(o.exc)
  }

  /** The retry wrapper: call `k` (from 0) behaves as `call(k)`. It stops at
      the first call that returns or raises an exception it does not catch,
      and after `max_retries + 1` caught failures re-raises the last one.
      After each caught failure but the last attempt it sleeps, the delay
      growing by `backoff` each time. With `max_retries < 0` no call is made
      and the wrapper raises `noAttempt`: `RuntimeError` in
      `utils/decorator_utils.py`, `TypeError` (raising `None`) in `utils.py`. */
  method Retry<R, E>(call: nat -> Outcome<R, E>, maxRetries: int, delay: nat, backoff: nat,
                     catches: E -> bool, noAttempt: ErrorKind)
    returns (r: RetryResult<R, E>, calls: nat, sleeps: seq<nat>)
    ensures maxRetries < 0 ==> calls == 0 && sleeps == [] && r == Internal(noAttempt)
    ensures maxRetries >= 0 ==> 1 <= calls <= maxRetries + 1 && r == Passed(call(calls - 1))
    ensures forall j :: 0 <= j < calls - 1 ==> CaughtFailure(call(j), catches)
    ensures 0 < calls <= maxRetries ==> !CaughtFailure(call(calls - 1), catches)
    ensures |sleeps| == if calls == 0 then 0 else calls - 1
    ensures forall j :: 0 <= j < |sleeps| ==> sleeps[j] == delay * Pow(backoff, j)
  {
    var currentDelay := delay;
    var last: Option<E> := Option.None;
    calls, sleeps := 0, [];
    var attempt := 0;
    while attempt < maxRetries + 1
      invariant 0 <= attempt && (maxRetries >= 0 ==> attempt <= maxRetries + 1)
      invariant calls == attempt
      invariant forall j :: 0 <= j < attempt ==> CaughtFailure(call(j), catches)
      invariant |sleeps| == if attempt <= maxRetries || attempt == 0 then attempt else maxRetries
      invariant forall j :: 0 <= j < |sleeps| ==> sleeps[j] == Backoff(delay, backoff, j)
      invariant currentDelay == Backoff(delay, backoff, |sleeps|)
      invariant last == if attempt == 0 then Option.None else Option.Some(call(attempt - 1).exc)
    {
      var o := call(attempt);
      calls := calls + 1;
      if !CaughtFailure(o, catches) {
        r := Passed(o);
        BackoffsPow(sleeps, delay, backoff);
        return;
      }
      last := Option.Some(o.exc);
      if attempt < maxRetries {
        sleeps := sleeps + [currentDelay];
        currentDelay := currentDelay * backoff;
      }
      attempt := attempt + 1;
    }
    if last.Some? {
      r := Passed(Raised(last.value));
    } else {
      r := Internal(noAttempt);
    }
    BackoffsPow(sleeps, delay, backoff);
  }

  /** The delay slept after the `n`-th caught failure, by repeated
      multiplication as the wrapper computes it. */
  function Backoff(delay: nat, backoff: nat, n: nat): nat {
    if n == 0 then delay else Backoff(delay, backoff, n - 1) * backoff
  }

  lemma {:induction false} BackoffPow(delay: nat, backoff: nat, n: nat)
    ensures Backoff(delay, backoff, n) == delay * Pow(backoff, n)
  {
    if n > 0 {
      BackoffPow(delay, backoff, n - 1);
      MulRotate(delay, backoff, Pow(backoff, n - 1));
    }
  }

  lemma BackoffsPow(sleeps: seq<nat>, delay: nat, backoff: nat)
    requires forall j :: 0 <= j < |sleeps| ==> sleeps[j] == Backoff(delay, backoff, j)
    ensures forall j :: 0 <= j < |sleeps| ==> sleeps[j] == delay * Pow(backoff, j)
  {
    forall j | 0 <= j < |sleeps| ensures sleeps[j] == delay * Pow(backoff, j) {
      BackoffPow(delay, backoff, j);
    }
  }

  lemma MulRotate(a: int, b: int, c: int)
    ensures a * (b * c) == a * c * b
  {
  }

  /** `catch_exceptions`: a caught exception becomes `default_return` unless
      `reraise` is set; anything else passes through. */
  function Catch<R, E>(o: Outcome<R, E>, default: R, catches: E -> bool, reraise: bool): (r: Outcome<R, E>)
    ensures r.Raised? <==> o.Raised? && (!catches(o.exc) || reraise)
    ensures r.Raised? ==> r == o
    ensures r.Returned? ==> r.value == if o.Returned? then o.value else default
  {
    match o
    case Returned(_) => o
    case Raised(e) => if catches(e) && !reraise then Returned(default) else o
  }

  /** With `reraise` on, `catch_exceptions` only observes. */
  lemma CatchReraise<R, E>(o: Outcome<R, E>, default: R, catches: E -> bool)
    ensures Catch(o, default, catches, true) == o
  {
  }

  /** The `singleton` decorator on a class: the closure dict `instances`
      holds at most the one instance. */
  class Singleton<A, T> {
    var instance: Option<T>
    /** How many times the class has been constructed. */
    var constructions: nat

    ghost predicate Valid()
      reads this
    {
      constructions <= 1 && (instance.Some? <==> constructions == 1)
    }

    constructor ()
      ensures Valid() && instance == Option.None
    {
      instance := Option.None;
      constructions := 0;
    }

    /** Calling the decorated class with `args`: it is constructed on the
        first call only, and every call returns that one instance. */
    method Call(build: A -> T, args: A) returns (t: T)
      requires Valid()
      modifies this
      ensures Valid() && instance == Option.Some(t)
      ensures old(instance).Some? ==> t == old(instance).value && constructions == old(constructions)
      ensures old(instance).None? ==> t == build(args) && constructions == 1
    {
      if instance.None? {
        instance := Option.Some(build(args));
        constructions := constructions + 1;
      }
      t := instance.value;
    }
  }
}
