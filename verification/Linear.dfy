/**
 Shift registers over an abstract XOR.

 Both checksums of the storage layer are linear shift registers: a register is moved by
 a function that distributes over XOR, and an input is mixed in.  What follows from that
 alone is proved here once, for any such function, and used for src/storage_complete.cpp
 and src/storage_engine_production.cpp.
 */
module Linear {

  /** add behaves like XOR: associative, commutative, with unit zero, every element its own inverse. */
  ghost predicate IsXor<T(!new)>(add: (T, T) -> T, zero: T) {
    && (forall x, y, z :: add(add(x, y), z) == add(x, add(y, z)))
    && (forall x, y :: add(x, y) == add(y, x))
    && (forall x :: add(x, zero) == x)
    && (forall x :: add(x, x) == zero)
  }

  /** f distributes over add. */
  ghost predicate IsLinear<T(!new)>(add: (T, T) -> T, f: T -> T) {
    forall x, y :: f(add(x, y)) == add(f(x), f(y))
  }

  function Iterate<T>(f: T -> T, c: T, n: nat): T
    decreases n, c
  {
    if n == 0 then c else Iterate(f, f(c), n - 1)
  }

  /** The register after the inputs: move it, then mix the next input in. */
  function Run<T>(add: (T, T) -> T, f: T -> T, c: T, inputs: seq<T>): T
    decreases |inputs|
  {
    if inputs == [] then c else Run(add, f, add(f(c), inputs[0]), inputs[1..])
  }

  // ----- XOR algebra -----

  lemma Interchange<T(!new)>(add: (T, T) -> T, zero: T, a: T, b: T, c: T, d: T)
    requires IsXor(add, zero)
    ensures add(add(a, b), add(c, d)) == add(add(a, c), add(b, d))
  {
    calc {
      add(add(a, b), add(c, d));
      add(a, add(b, add(c, d)));
      add(a, add(add(b, c), d));
      add(a, add(add(c, b), d));
      add(a, add(c, add(b, d)));
      add(add(a, c), add(b, d));
    }
  }

  lemma EqualIffNoDifference<T(!new)>(add: (T, T) -> T, zero: T, x: T, y: T)
    requires IsXor(add, zero)
    ensures add(x, y) == zero <==> x == y
  {
    assert add(add(x, y), y) == add(x, add(y, y)) == x;
    assert add(zero, y) == add(y, zero) == y;
  }

  // ----- Iterating -----

  lemma {:induction false} IterateAdd<T>(f: T -> T, c: T, m: nat, n: nat)
    ensures Iterate(f, c, m + n) == Iterate(f, Iterate(f, c, m), n)
    decreases m
  {
    if m != 0 {
      IterateAdd(f, f(c), m - 1, n);
    }
  }

  lemma {:induction false} IterateLinear<T(!new)>(add: (T, T) -> T, f: T -> T, a: T, b: T, n: nat)
    requires IsLinear(add, f)
    ensures Iterate(f, add(a, b), n) == add(Iterate(f, a, n), Iterate(f, b, n))
    decreases n
  {
    if n != 0 {
      IterateLinear(add, f, f(a), f(b), n - 1);
    }
  }

  // ----- Running -----

  lemma {:induction false} RunSplit<T>(add: (T, T) -> T, f: T -> T, c: T, a: seq<T>, b: seq<T>)
    ensures Run(add, f, c, a + b) == Run(add, f, Run(add, f, c, a), b)
    decreases |a|
  {
    if a == [] {
      assert a + b == b;
    } else {
      assert (a + b)[1..] == a[1..] + b;
      RunSplit(add, f, add(f(c), a[0]), a[1..], b);
    }
  }

  /** Element-wise XOR of two input sequences. */
  function Mix<T>(add: (T, T) -> T, a: seq<T>, b: seq<T>): (r: seq<T>)
    requires |a| == |b|
    ensures |r| == |a| && forall i :: 0 <= i < |r| ==> r[i] == add(a[i], b[i])
  {
    seq(|a|, i requires 0 <= i < |a| => add(a[i], b[i]))
  }

  /** A register is linear in its start and its inputs together. */
  lemma {:induction false} RunLinear<T(!new)>(add: (T, T) -> T, zero: T, f: T -> T, c: T, d: T, a: seq<T>, b: seq<T>)
    requires IsXor(add, zero) && IsLinear(add, f) && |a| == |b|
    ensures Run(add, f, add(c, d), Mix(add, a, b)) == add(Run(add, f, c, a), Run(add, f, d, b))
    decreases |a|
  {
    if a != [] {
      var m := Mix(add, a, b);
      assert m[1..] == Mix(add, a[1..], b[1..]);
      Interchange(add, zero, f(c), f(d), a[0], b[0]);
      RunLinear(add, zero, f, add(f(c), a[0]), add(f(d), b[0]), a[1..], b[1..]);
    }
  }

  /** Inputs that are all zero leave just the moves. */
  lemma {:induction false} RunZeros<T(!new)>(add: (T, T) -> T, zero: T, f: T -> T, c: T, zeros: seq<T>)
    requires (forall x :: add(x, zero) == x) && forall i :: 0 <= i < |zeros| ==> zeros[i] == zero
    ensures Run(add, f, c, zeros) == Iterate(f, c, |zeros|)
    decreases |zeros|
  {
    if zeros != [] { RunZeros(add, zero, f, f(c), zeros[1..]); }
  }

  /** Two registers fed the same inputs drift apart by their difference, moved along. */
  lemma RunDifference<T(!new)>(add: (T, T) -> T, zero: T, f: T -> T, c: T, d: T, inputs: seq<T>)
    requires IsXor(add, zero) && IsLinear(add, f)
    ensures add(Run(add, f, c, inputs), Run(add, f, d, inputs)) == Iterate(f, add(c, d), |inputs|)
  {
    RunLinear(add, zero, f, c, d, inputs, inputs);
    RunZeros(add, zero, f, add(c, d), Mix(add, inputs, inputs));
  }

  lemma RunEqualIff<T(!new)>(add: (T, T) -> T, zero: T, f: T -> T, c: T, d: T, inputs: seq<T>)
    requires IsXor(add, zero) && IsLinear(add, f)
    ensures Run(add, f, c, inputs) == Run(add, f, d, inputs) <==> Iterate(f, add(c, d), |inputs|) == zero
  {
    RunDifference(add, zero, f, c, d, inputs);
    EqualIffNoDifference(add, zero, Run(add, f, c, inputs), Run(add, f, d, inputs));
  }

  /** Two registers with different inputs end up equal exactly when the register that starts from
      their difference and is fed the differences of the inputs ends at zero. */
  lemma RunsEqualIff<T(!new)>(add: (T, T) -> T, zero: T, f: T -> T, c: T, d: T, a: seq<T>, b: seq<T>)
    requires IsXor(add, zero) && IsLinear(add, f) && |a| == |b|
    ensures Run(add, f, c, a) == Run(add, f, d, b) <==> Run(add, f, add(c, d), Mix(add, a, b)) == zero
  {
    RunLinear(add, zero, f, c, d, a, b);
    EqualIffNoDifference(add, zero, Run(add, f, c, a), Run(add, f, d, b));
  }
}
