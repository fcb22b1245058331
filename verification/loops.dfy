/** A `for` loop over an index range whose body may raise, and the two
    facts the record extraction needs about such loops: a part of the state
    that every step updates on its own follows a plain fold, and a part
    that steps only overwrite ends with the last value written. */
module Loops {
  import opened Wrappers

  /** The loop over `i..n`: the state after the last index, or the error of
      the first step that raises. */
  function Run<S, E>(step: (S, nat) -> Result<S, E>, s: S, i: nat, n: nat): Result<S, E>
    requires i <= n
    decreases n - i
  {
    if i == n then Success(s)
    else
      match step(s, i)
      case Failure(e) => Failure(e)
      case Success(t) => Run(step, t, i + 1, n)
  }

  /** The same loop on a value that no step can fail on. */
  function Iterate<T>(upd: (T, nat) -> T, x: T, i: nat, n: nat): T
    requires i <= n
    decreases n - i
  {
    if i == n then x else Iterate(upd, upd(x, i), i + 1, n)
  }

  /** When every step moves the part `get` of the state by `upd`, whatever
      else it does, a loop that finishes has moved it by `Iterate`. */
  lemma {:induction false} RunProjects<S, E, T>(
    step: (S, nat) -> Result<S, E>, get: S -> T, upd: (T, nat) -> T, s: S, i: nat, n: nat)
    requires i <= n
    requires forall t, k | i <= k < n && step(t, k).Success? :: get(step(t, k).value) == upd(get(t), k)
    ensures Run(step, s, i, n).Success? ==> get(Run(step, s, i, n).value) == Iterate(upd, get(s), i, n)
    decreases n - i
  {
    if i < n && step(s, i).Success? {
      RunProjects(step, get, upd, step(s, i).value, i + 1, n);
    }
  }

  /** An update that overwrites the value at the indices `sets` picks and
      keeps it elsewhere leaves the start value when no index picks. */
  lemma {:induction false} NoWrite<T>(sets: nat -> bool, val: nat -> T, upd: (T, nat) -> T, x: T, i: nat, n: nat)
    requires i <= n
    requires forall y, k :: upd(y, k) == if sets(k) then val(k) else y
    requires forall k | i <= k < n :: !sets(k)
    ensures Iterate(upd, x, i, n) == x
    decreases n - i
  {
    if i < n {
      NoWrite(sets, val, upd, upd(x, i), i + 1, n);
    }
  }

  /** ... and the value of the last index that picks, when one does. */
  lemma {:induction false} LastWrite<T>(sets: nat -> bool, val: nat -> T, upd: (T, nat) -> T, x: T, i: nat, n: nat, j: nat)
    requires i <= j < n && sets(j)
    requires forall y, k :: upd(y, k) == if sets(k) then val(k) else y
    requires forall k | j < k < n :: !sets(k)
    ensures Iterate(upd, x, i, n) == val(j)
    decreases n - i
  {
    if i < j {
      LastWrite(sets, val, upd, upd(x, i), i + 1, n, j);
    } else {
      NoWrite(sets, val, upd, upd(x, i), i + 1, n);
    }
  }

  /** What every successful step guarantees about its index holds of every
      index of a loop that finishes. */
  lemma {:induction false} RunOk<S, E>(step: (S, nat) -> Result<S, E>, ok: nat -> bool, s: S, i: nat, n: nat)
    requires i <= n
    requires forall t, k | i <= k < n && step(t, k).Success? :: ok(k)
    ensures Run(step, s, i, n).Success? ==> forall k | i <= k < n :: ok(k)
    decreases n - i
  {
    if i < n && step(s, i).Success? {
      RunOk(step, ok, step(s, i).value, i + 1, n);
    }
  }

  /** A loop raises only errors that some step raises: when every failing
      step's error satisfies `bad`, so does the loop's. */
  lemma {:induction false} RunFails<S, E>(step: (S, nat) -> Result<S, E>, bad: E -> bool, s: S, i: nat, n: nat)
    requires i <= n
    requires forall t, k | i <= k < n && step(t, k).Failure? :: bad(step(t, k).error)
    ensures Run(step, s, i, n).Failure? ==> bad(Run(step, s, i, n).error)
    decreases n - i
  {
    if i < n && step(s, i).Success? {
      RunFails(step, bad, step(s, i).value, i + 1, n);
    }
  }

  /** A property of the state that every successful step keeps holds after
      a loop that finishes from a state that has it. */
  lemma {:induction false} RunKeeps<S, E>(step: (S, nat) -> Result<S, E>, inv: S -> bool, s: S, i: nat, n: nat)
    requires i <= n && inv(s)
    requires forall t, k | i <= k < n && inv(t) && step(t, k).Success? :: inv(step(t, k).value)
    ensures Run(step, s, i, n).Success? ==> inv(Run(step, s, i, n).value)
    decreases n - i
  {
    if i < n && step(s, i).Success? {
      RunKeeps(step, inv, step(s, i).value, i + 1, n);
    }
  }

  /** A measure `inv` that every step leaves alone, on states where `ok`
      holds and keeps holding, is the same before and after the loop. */
  lemma {:induction false} IterateKeeps<T, R>(upd: (T, nat) -> T, inv: (T, nat) -> R, ok: T -> bool, x: T, i: nat, n: nat)
    requires i <= n && ok(x)
    requires forall y, k | i <= k < n && ok(y) :: ok(upd(y, k)) && inv(upd(y, k), k + 1) == inv(y, k)
    ensures inv(Iterate(upd, x, i, n), n) == inv(x, i)
    decreases n - i
  {
    if i < n {
      IterateKeeps(upd, inv, ok, upd(x, i), i + 1, n);
    }
  }

  /** A loop over a list that turns each element into one result and
      threads a state from each element into the next; the first error
      stops it. */
  function Thread<A, B, S, E>(f: (A, S) -> Result<(B, S), E>, xs: seq<A>, s: S): (r: Result<seq<B>, E>)
    ensures r.Success? ==> |r.value| == |xs|
  {
    if xs == [] then Success([])
    else
      match f(xs[0], s)
      case Failure(e) => Failure(e)
      case Success(first) =>
        match Thread(f, xs[1..], first.1)
        case Failure(e) => Failure(e)
        case Success(rest) => Success([first.0] + rest)
  }

  /** The state element `k` of `Thread` starts from. */
  function StateBefore<A, B, S, E>(f: (A, S) -> Result<(B, S), E>, xs: seq<A>, s: S, k: nat): S
    requires k <= |xs|
    decreases k
  {
    if k == 0 then s
    else
      match f(xs[0], s)
      case Failure(_) => s
      case Success(first) => StateBefore(f, xs[1..], first.1, k - 1)
  }

  /** Result `k` of a `Thread` that finishes is what `f` makes of element
      `k` and the state before it, and the state after it is the one `f`
      hands on. */
  lemma {:induction false} ThreadAt<A, B, S, E>(f: (A, S) -> Result<(B, S), E>, xs: seq<A>, s: S, k: nat)
    requires Thread(f, xs, s).Success? && k < |xs|
    ensures var p := StateBefore(f, xs, s, k);
      && f(xs[k], p).Success?
      && Thread(f, xs, s).value[k] == f(xs[k], p).value.0
      && StateBefore(f, xs, s, k + 1) == f(xs[k], p).value.1
    decreases k
  {
    var first := f(xs[0], s).value;
    if k > 0 {
      ThreadAt(f, xs[1..], first.1, k - 1);
      assert xs[1..][k - 1] == xs[k];
    }
  }

  /** When every result records the state its step hands on, and element
      `k` hands on whatever state it was given, result `k` records the same
      as result `k - 1`. */
  lemma ThreadCarries<A, B, S, E>(f: (A, S) -> Result<(B, S), E>, get: B -> S, xs: seq<A>, s: S, k: nat)
    requires Thread(f, xs, s).Success? && 0 < k < |xs|
    requires forall x, p | f(x, p).Success? :: get(f(x, p).value.0) == f(x, p).value.1
    requires forall p | f(xs[k], p).Success? :: f(xs[k], p).value.1 == p
    ensures get(Thread(f, xs, s).value[k]) == get(Thread(f, xs, s).value[k - 1])
  {
    ThreadAt(f, xs, s, k - 1);
    ThreadAt(f, xs, s, k);
  }
}
