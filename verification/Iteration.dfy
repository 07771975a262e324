/** Repeated steps over any kind of state, and what they keep of a single step. */
module Iteration {
  function Iterate<T>(step: T -> T, s: T, n: nat): T {
    if n == 0 then s else step(Iterate(step, s, n - 1))
  }

  function Fold<T, A>(step: (T, A) -> T, s: T, data: seq<A>): T {
    if data == [] then s else step(Fold(step, s, data[..|data| - 1]), data[|data| - 1])
  }

  ghost predicate IsLinear<T(!new)>(step: T -> T, plus: (T, T) -> T) {
    forall x, y :: step(plus(x, y)) == plus(step(x), step(y))
  }

  ghost predicate IsInjective<T(!new)>(step: T -> T) {
    forall x, y :: step(x) == step(y) ==> x == y
  }

  ghost predicate IsInjectiveInState<T(!new), A(!new)>(step: (T, A) -> T) {
    forall x, y, a :: step(x, a) == step(y, a) ==> x == y
  }

  lemma {:induction false} IterateIsLinear<T(!new)>(step: T -> T, plus: (T, T) -> T, a: T, b: T, n: nat)
    requires IsLinear(step, plus)
    ensures Iterate(step, plus(a, b), n) == plus(Iterate(step, a, n), Iterate(step, b, n))
  {
    if n > 0 {
      IterateIsLinear(step, plus, a, b, n - 1);
    }
  }

  lemma {:induction false} IterateIsInjective<T(!new)>(step: T -> T, a: T, b: T, n: nat)
    requires IsInjective(step)
    requires Iterate(step, a, n) == Iterate(step, b, n)
    ensures a == b
  {
    if n > 0 {
      IterateIsInjective(step, a, b, n - 1);
    }
  }

  lemma {:induction false} IterateAdds<T>(step: T -> T, s: T, m: nat, n: nat)
    ensures Iterate(step, s, m + n) == Iterate(step, Iterate(step, s, m), n)
  {
    if n > 0 {
      IterateAdds(step, s, m, n - 1);
    }
  }

  /** A view of the state that every step carries along is carried along by any number of steps. */
  ghost predicate Commutes<T(!new), U>(step: T -> T, other: U -> U, view: T -> U) {
    forall x :: other(view(x)) == view(step(x))
  }

  lemma {:induction false} IterateCommutes<T(!new), U>(step: T -> T, other: U -> U, view: T -> U, s: T, n: nat)
    requires Commutes(step, other, view)
    ensures Iterate(other, view(s), n) == view(Iterate(step, s, n))
  {
    if n > 0 {
      IterateCommutes(step, other, view, s, n - 1);
    }
  }

  lemma IterateSeven<T>(step: T -> T, s: T)
    ensures Iterate(step, s, 7) == step(step(step(step(step(step(step(s)))))))
  {
  }

  /** One big step is eight steps. */
  ghost predicate IsEight<T(!new)>(step: T -> T, big: T -> T) {
    forall x :: step(step(step(step(step(step(step(step(x)))))))) == big(x)
  }

  lemma {:induction false} IterateByEight<T(!new)>(step: T -> T, big: T -> T, s: T, k: nat)
    requires IsEight(step, big)
    ensures Iterate(step, s, 8 * k) == Iterate(big, s, k)
  {
    if k > 0 {
      var before := Iterate(step, s, 8 * (k - 1));
      IterateByEight(step, big, s, k - 1);
      IterateAdds(step, s, 8 * (k - 1), 8);
      IterateSeven(step, before);
    }
  }

  ghost predicate Keeps<T(!new)>(step: T -> T, inv: T -> bool) {
    forall x :: inv(x) ==> inv(step(x))
  }

  lemma {:induction false} IterateKeeps<T(!new)>(step: T -> T, inv: T -> bool, s: T, n: nat)
    requires Keeps(step, inv) && inv(s)
    ensures inv(Iterate(step, s, n))
  {
    if n > 0 {
      IterateKeeps(step, inv, s, n - 1);
    }
  }

  lemma {:induction false} FoldIsInjective<T(!new), A(!new)>(step: (T, A) -> T, s: T, t: T, data: seq<A>)
    requires IsInjectiveInState(step)
    requires Fold(step, s, data) == Fold(step, t, data)
    ensures s == t
  {
    if data != [] {
      FoldIsInjective(step, s, t, data[..|data| - 1]);
    }
  }

  lemma {:induction false} FoldConcat<T, A>(step: (T, A) -> T, s: T, a: seq<A>, b: seq<A>)
    ensures Fold(step, s, a + b) == Fold(step, Fold(step, s, a), b)
  {
    if b == [] {
      assert a + b == a;
    } else {
      assert (a + b)[..|a + b| - 1] == a + b[..|b| - 1];
      FoldConcat(step, s, a, b[..|b| - 1]);
    }
  }

  lemma FoldNext<T, A>(step: (T, A) -> T, s: T, data: seq<A>, pos: nat)
    requires pos < |data|
    ensures Fold(step, s, data[..pos + 1]) == step(Fold(step, s, data[..pos]), data[pos])
  {
    assert data[..pos + 1][..pos] == data[..pos];
  }

  /** The states after two inputs add up like the states before and the inputs. */
  ghost predicate AddsUp<T(!new), A(!new)>(feed: (T, A) -> T, plus: (T, T) -> T, plusInput: (A, A) -> A) {
    forall s, t, a, b :: plus(feed(s, a), feed(t, b)) == feed(plus(s, t), plusInput(a, b))
  }

  function PlusAll<A>(plusInput: (A, A) -> A, a: seq<A>, b: seq<A>): (r: seq<A>)
    requires |a| == |b|
    ensures |r| == |a|
    ensures forall i | 0 <= i < |a| :: r[i] == plusInput(a[i], b[i])
  {
    seq(|a|, i requires 0 <= i < |a| => plusInput(a[i], b[i]))
  }

  /** The difference of two runs of a linear machine is its run over the difference of their inputs. */
  lemma {:induction false} DifferenceOfRuns<T(!new), A(!new)>(
      feed: (T, A) -> T, plus: (T, T) -> T, plusInput: (A, A) -> A, s: T, t: T, a: seq<A>, b: seq<A>)
    requires AddsUp(feed, plus, plusInput)
    requires |a| == |b|
    ensures plus(Fold(feed, s, a), Fold(feed, t, b)) == Fold(feed, plus(s, t), PlusAll(plusInput, a, b))
  {
    if a != [] {
      var n := |a| - 1;
      DifferenceOfRuns(feed, plus, plusInput, s, t, a[..n], b[..n]);
      assert PlusAll(plusInput, a, b)[..n] == PlusAll(plusInput, a[..n], b[..n]);
    }
  }

  /** A machine whose state holds the inputs still to come, as `view` shows them, up to `room` of them. */
  ghost predicate HoldsInputs<T(!new), U, A(!new)>(feed: (T, A) -> T, wide: U -> U, view: (T, seq<A>) -> U, room: nat) {
    forall s, a, rest | |rest| < room :: wide(view(s, [a] + rest)) == view(feed(s, a), rest)
  }

  lemma {:induction false} WideRun<T(!new), U, A(!new)>(
      feed: (T, A) -> T, wide: U -> U, view: (T, seq<A>) -> U, room: nat, s: T, data: seq<A>)
    requires HoldsInputs(feed, wide, view, room)
    requires |data| <= room
    ensures Iterate(wide, view(s, data), |data|) == view(Fold(feed, s, data), [])
    decreases |data|
  {
    if data == [] {
    } else {
      var first, rest := data[0], data[1..];
      assert data == [first] + rest;
      assert Fold(feed, s, [first]) == feed(s, first);
      FoldConcat(feed, s, [first], rest);
      WideRun(feed, wide, view, room, feed(s, first), rest);
      IterateAdds(wide, view(s, data), 1, |rest|);
      assert Iterate(wide, view(s, data), 1) == wide(view(s, data));
    }
  }
}
