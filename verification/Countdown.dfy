/** The specification of the timing wheel: a plain map from a key to the number of ticks it has
    left, and what every run of that map does. Nothing here knows about buckets or pointers. */
module Countdown {

  datatype Op<K> =
    | Set(key: K, ticks: nat)   // add, or refresh, with the number of ticks the timeout asks for
    | Cancel(key: K)
    | Tick

  /** The keys that fire when the clock ticks now. */
  ghost function Due<K>(left: map<K, nat>): set<K> {
    set k | k in left && left[k] <= 1
  }

  ghost function Step<K>(left: map<K, nat>, op: Op<K>): map<K, nat> {
    match op
    case Set(k, n) => left[k := n]
    case Cancel(k) => left - {k}
    case Tick => map k | k in left && left[k] > 1 :: left[k] - 1
  }

  ghost function Run<K>(left: map<K, nat>, ops: seq<Op<K>>): map<K, nat> {
    if ops == [] then left else Step(Run(left, ops[..|ops| - 1]), ops[|ops| - 1])
  }

  /** `key` fires at the operation with index `i` of the run. */
  ghost predicate FiresAt<K>(left: map<K, nat>, ops: seq<Op<K>>, key: K, i: nat)
    requires i < |ops|
  {
    ops[i] == Tick && key in Due(Run(left, ops[..i]))
  }

  ghost function Ticks<K>(ops: seq<Op<K>>): nat {
    if ops == [] then 0 else Ticks(ops[..|ops| - 1]) + if ops[|ops| - 1] == Tick then 1 else 0
  }

  /** No operation of `ops` sets or cancels `key`. */
  ghost predicate Untouched<K>(ops: seq<Op<K>>, key: K) {
    forall i :: 0 <= i < |ops| ==> ops[i] == Tick || ops[i].key != key
  }

  /** While a key is left alone it loses one tick per tick, and disappears when none is left. */
  lemma {:induction false} LeftAfter<K>(left: map<K, nat>, ops: seq<Op<K>>, key: K)
    requires key in left && left[key] >= 1
    requires Untouched(ops, key)
    ensures key in Run(left, ops) <==> Ticks(ops) < left[key]
    ensures key in Run(left, ops) ==> Run(left, ops)[key] == left[key] - Ticks(ops)
  {
    if ops != [] {
      var front := ops[..|ops| - 1];
      assert forall i :: 0 <= i < |front| ==> front[i] == ops[i];
      LeftAfter(left, front, key);
    }
  }

  /** The exact firing time. A key set to `left[key]` ticks fires at precisely that tick of every
      run that does not set or cancel it meanwhile: not earlier, not later, and not a second time. */
  lemma {:induction false} FiresExactly<K>(left: map<K, nat>, ops: seq<Op<K>>, key: K, i: nat)
    requires key in left && left[key] >= 1
    requires Untouched(ops, key)
    requires i < |ops|
    ensures FiresAt(left, ops, key, i) <==> ops[i] == Tick && Ticks(ops[..i]) == left[key] - 1
  {
    assert forall j :: 0 <= j < i ==> ops[..i][j] == ops[j];
    LeftAfter(left, ops[..i], key);
    if ops[i] == Tick && Ticks(ops[..i]) < left[key] - 1 {
      assert Run(left, ops[..i])[key] > 1;
    }
  }

  lemma {:induction false} RunConcat<K>(left: map<K, nat>, a: seq<Op<K>>, b: seq<Op<K>>)
    ensures Run(left, a + b) == Run(Run(left, a), b)
  {
    if b == [] {
      assert a + b == a;
    } else {
      assert (a + b)[..|a + b| - 1] == a + b[..|b| - 1];
      RunConcat(left, a, b[..|b| - 1]);
    }
  }

  /** The same over a whole history: once operation `s` has set `key` to `n` ticks, and as long as
      nothing later touches it, operation `i` fires it exactly when `i` is the n-th tick after `s`.
      What happened before `s`, to this key or any other, does not matter. */
  lemma {:induction false} FiresAtTickAfterSet<K>(left: map<K, nat>, ops: seq<Op<K>>, key: K, s: nat, i: nat)
    requires s < i < |ops|
    requires ops[s].Set? && ops[s].key == key && ops[s].ticks >= 1
    requires Untouched(ops[s + 1..], key)
    ensures FiresAt(left, ops, key, i)
            <==> ops[i] == Tick && Ticks(ops[s + 1..i]) == ops[s].ticks - 1
  {
    var before := Run(left, ops[..s + 1]);
    var later := ops[s + 1..];
    assert ops[..s + 1][..s] == ops[..s];
    assert key in before && before[key] == ops[s].ticks;
    FiresExactly(before, later, key, i - s - 1);
    assert later[..i - s - 1] == ops[s + 1..i];
    assert ops[..i] == ops[..s + 1] + ops[s + 1..i];
    RunConcat(left, ops[..s + 1], ops[s + 1..i]);
  }

  /** A cancelled key never fires again until it is set again. */
  lemma {:induction false} CancelledNeverFires<K>(left: map<K, nat>, ops: seq<Op<K>>, key: K, i: nat)
    requires i < |ops|
    requires key !in left && Untouched(ops[..i], key)
    ensures key !in Run(left, ops[..i]) && !FiresAt(left, ops, key, i)
  {
    if i > 0 {
      assert ops[..i][..i - 1] == ops[..i - 1];
      assert forall j :: 0 <= j < i - 1 ==> ops[..i - 1][j] == ops[..i][j];
      CancelledNeverFires(left, ops, key, i - 1);
    }
  }
}
