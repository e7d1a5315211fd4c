/** An optional value, and a value or an error. */
module Wrappers {

  datatype Option<T> = None | Some(value: T)

  /** A value, or the exception the JSON library throws when a field has the wrong type. */
  datatype Result<T> = Ok(value: T) | TypeError {
    predicate IsFailure() {
      TypeError?
    }

    function PropagateFailure<U>(): Result<U>
      requires IsFailure()
    {
      TypeError
    }

    function Extract(): T
      requires !IsFailure()
    {
      value
    }
  }
}

/** Tasks and merge requests are named by strings. */
module Identifiers {

  type Id = string
}

/** Integer arithmetic as C++ does it, and the units of time. */
module Arithmetic {

  const NANOS_PER_SECOND := 1_000_000_000
  const NANOS_PER_MILLI := 1_000_000

  /** Division rounding toward zero, as std::chrono::duration_cast does to a coarser unit. */
  function TruncDiv(a: int, b: int): int
    requires b > 0
  {
    if a >= 0 then a / b else -((-a) / b)
  }

  /** q is a divided by b without the fraction, on both sides of zero. */
  ghost predicate Truncates(q: int, a: int, b: int) {
    if a >= 0 then q >= 0 && q * b <= a < q * b + b else q <= 0 && q * b - b < a <= q * b
  }

  lemma TruncDivDropsTheFraction(a: int)
    ensures Truncates(TruncDiv(a, NANOS_PER_SECOND), a, NANOS_PER_SECOND)
    ensures Truncates(TruncDiv(a, NANOS_PER_MILLI), a, NANOS_PER_MILLI)
  {
  }

  /** A JSON number read as an integer drops its fraction. */
  function TruncReal(r: real): int {
    if r >= 0.0 then r.Floor else -((-r).Floor)
  }

  lemma TruncRealDropsTheFraction(r: real)
    ensures var n := TruncReal(r) as real;
            if r >= 0.0 then 0.0 <= n <= r < n + 1.0 else n - 1.0 < r <= n <= 0.0
  {
  }
}

/** What several modules say about sequences. */
module Sequences {

  ghost predicate NoDuplicates<T>(s: seq<T>) {
    forall i, j :: 0 <= i < j < |s| ==> s[i] != s[j]
  }

  ghost predicate InRange(idx: seq<nat>, n: int) {
    forall k :: 0 <= k < |idx| ==> idx[k] < n
  }

  ghost predicate Increasing(idx: seq<nat>) {
    forall j, k :: 0 <= j < k < |idx| ==> idx[j] < idx[k]
  }

  /** A choice among the first n numbers, in order. */
  ghost predicate Selection(idx: seq<nat>, n: int) {
    InRange(idx, n) && Increasing(idx)
  }

  /** The elements at the given positions. */
  ghost function At<T>(s: seq<T>, idx: seq<nat>): seq<T>
    requires InRange(idx, |s|)
  {
    seq(|idx|, k requires 0 <= k < |idx| => s[idx[k]])
  }

  /** The last n elements, or all when there are fewer. */
  function Last<T>(s: seq<T>, n: nat): seq<T> {
    if n <= |s| then s[|s| - n..] else s
  }

  /** Keeping the last n one element at a time is keeping the last n of everything. */
  lemma LastSnoc<T>(s: seq<T>, x: T, n: nat)
    ensures Last(Last(s, n) + [x], n) == Last(s + [x], n)
  {
  }

  lemma Associate<T>(a: seq<T>, b: seq<T>, c: seq<T>)
    ensures (a + b) + c == a + (b + c)
  {
  }
}

/** Sizes of finite sets. */
module Sets {

  lemma SizeWithout<T>(a: set<T>, x: T)
    requires x in a
    ensures |a - {x}| == |a| - 1
  {
  }

  lemma {:induction false} SubsetSize<T>(a: set<T>, b: set<T>)
    requires a <= b
    ensures |a| <= |b|
  {
    if a == {} {
    } else {
      var x :| x in a;
      SubsetSize(a - {x}, b - {x});
    }
  }

  lemma SizeOfRest<T>(a: set<T>, b: set<T>)
    requires a <= b
    ensures |b - a| == |b| - |a|
  {
    assert b == a + (b - a);
  }
}
