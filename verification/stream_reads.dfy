/**
 * The shape of the reader's table loops: `for _ in range(n)` around one read
 * that returns an item and the stream position after it.  Repeat is that
 * loop as a function; a chain is what an imperative loop knows after doing
 * some of its iterations, one fact per item read.
 */
module StreamReads {
  import opened Wrappers

  /** n reads one after another from pos, stopping at the first that fails. */
  function Repeat<T, E>(read: nat -> Result<(T, nat), E>, pos: nat, n: nat): (r: Result<(seq<T>, nat), E>)
    ensures r.Success? ==> |r.value.0| == n
    decreases n
  {
    if n == 0 then Success(([], pos))
    else
      var prefix :- Repeat(read, pos, n - 1);
      var item :- read(prefix.1);
      Success((prefix.0 + [item.0], item.1))
  }

  /** Every successful read moves forward and stays at or before bound. */
  ghost predicate Advances<T, E>(read: nat -> Result<(T, nat), E>, bound: nat) {
    forall p: nat {:trigger read(p)} :: p <= bound && read(p).Success? ==> p <= read(p).value.1 <= bound
  }

  /** A run of reads that each advance ends between its start and the bound. */
  lemma {:induction false} RepeatAdvances<T, E>(read: nat -> Result<(T, nat), E>, bound: nat, pos: nat, n: nat)
    requires Advances(read, bound) && pos <= bound
    ensures Repeat(read, pos, n).Success? ==> pos <= Repeat(read, pos, n).value.1 <= bound
    decreases n
  {
    if n > 0 {
      RepeatAdvances(read, bound, pos, n - 1);
    }
  }

  /** When every successful read yields an item with property P, so does every item of a run. */
  lemma {:induction false} RepeatKeeps<T, E>(read: nat -> Result<(T, nat), E>, P: T -> bool, pos: nat, n: nat)
    requires forall p: nat {:trigger read(p)} :: read(p).Success? ==> P(read(p).value.0)
    ensures Repeat(read, pos, n).Success? ==> forall i :: 0 <= i < n ==> P(Repeat(read, pos, n).value.0[i])
    decreases n
  {
    if n > 0 && Repeat(read, pos, n).Success? {
      RepeatKeeps(read, P, pos, n - 1);
      var prefix := Repeat(read, pos, n - 1).value;
      assert read(prefix.1).Success?;
    }
  }

  /** One more iteration: the read after the first n. */
  lemma RepeatStep<T, E>(read: nat -> Result<(T, nat), E>, pos: nat, n: nat)
    requires Repeat(read, pos, n).Success?
    ensures var prefix := Repeat(read, pos, n).value;
      var item := read(prefix.1);
      Repeat(read, pos, n + 1) ==
        if item.Failure? then Failure(item.error) else Success((prefix.0 + [item.value.0], item.value.1))
  {
  }

  /** Once n iterations fail, every longer run fails too. */
  lemma {:induction false} RepeatFailurePersists<T, E>(read: nat -> Result<(T, nat), E>, pos: nat, k: nat, n: nat)
    requires k <= n && Repeat(read, pos, k).Failure?
    ensures Repeat(read, pos, n).Failure?
  {
    var m := k;
    while m < n
      invariant k <= m <= n && Repeat(read, pos, m).Failure?
    {
      m := m + 1;
    }
  }

  /** Item j was read at starts[j] and the read ended at starts[j + 1]. */
  ghost predicate Chain<T, E>(read: nat -> Result<(T, nat), E>, starts: seq<nat>, items: seq<T>) {
    && |starts| == |items| + 1
    && forall j {:trigger read(starts[j])} :: 0 <= j < |items| ==>
         read(starts[j]) == Success((items[j], starts[j + 1]))
  }

  /** A chain grows by the read at its end. */
  lemma ChainExtend<T, E>(read: nat -> Result<(T, nat), E>, starts: seq<nat>, items: seq<T>, item: T, end: nat)
    requires Chain(read, starts, items)
    requires read(starts[|items|]) == Success((item, end))
    ensures Chain(read, starts + [end], items + [item])
  {
    forall j | 0 <= j < |items| + 1
      ensures read((starts + [end])[j]) == Success(((items + [item])[j], (starts + [end])[j + 1]))
    {
      if j < |items| {
        assert read(starts[j]) == Success((items[j], starts[j + 1]));
      }
    }
  }

  /** The items of a chain are what Repeat reads for its length, ending where the chain ends. */
  lemma {:induction false} ChainRepeat<T, E>(read: nat -> Result<(T, nat), E>, starts: seq<nat>, items: seq<T>)
    requires Chain(read, starts, items)
    ensures Repeat(read, starts[0], |items|) == Success((items, starts[|items|]))
  {
    var k := 0;
    while k < |items|
      invariant k <= |items| && Repeat(read, starts[0], k) == Success((items[..k], starts[k]))
    {
      assert read(starts[k]) == Success((items[k], starts[k + 1]));
      assert items[..k] + [items[k]] == items[..k + 1];
      k := k + 1;
    }
    assert items[..k] == items;
  }

  /** A chain followed by a read that fails: the loop fails there and on every longer run. */
  lemma ChainStops<T, E>(read: nat -> Result<(T, nat), E>, starts: seq<nat>, items: seq<T>, n: nat)
    requires Chain(read, starts, items) && |items| < n
    requires read(starts[|items|]).Failure?
    ensures Repeat(read, starts[0], |items| + 1).Failure?
    ensures Repeat(read, starts[0], n).Failure?
  {
    ChainRepeat(read, starts, items);
    RepeatFailurePersists(read, starts[0], |items| + 1, n);
  }
}
