/** The search that `kmalloc` and `paging_find_free` share in intent: the lowest start of a
    run of free slots. The C code keeps one running counter; this module says what the
    counter is supposed to find by trying every start in turn. */
module FirstFit {

  datatype Option<+T> = None | Some(value: T)

  /** The C macro `HOW_MANY`: how many units of size `unit` cover `amount`. */
  function HowMany(amount: nat, unit: nat): (n: nat)
    requires unit > 0
    ensures n * unit >= amount
    ensures n > 0 ==> (n - 1) * unit < amount
  {
    amount / unit + (if amount % unit != 0 then 1 else 0)
  }

  /** Slots `[start, start + n)` exist and are all free. */
  predicate FreeRun(free: seq<bool>, start: nat, n: nat) {
    start + n <= |free| && forall j | start <= j < start + n :: free[j]
  }

  /** `start` begins a run of `n` free slots and no lower slot does. */
  ghost predicate IsLowestRun(free: seq<bool>, start: nat, n: nat) {
    FreeRun(free, start, n) && forall lower: nat | lower < start :: !FreeRun(free, lower, n)
  }

  function LowestRunFrom(free: seq<bool>, from: nat, n: nat): (r: Option<nat>)
    requires from <= |free|
    ensures r.Some? ==> from <= r.value && FreeRun(free, r.value, n)
    ensures r.Some? ==> forall s: nat | from <= s < r.value :: !FreeRun(free, s, n)
    ensures r.None? ==> forall s: nat | from <= s :: !FreeRun(free, s, n)
    decreases |free| - from
  {
    if |free| < from + n then None
    else if FreeRun(free, from, n) then Some(from)
    else if from == |free| then None
    else LowestRunFrom(free, from + 1, n)
  }

  function LowestRun(free: seq<bool>, n: nat): (r: Option<nat>)
    ensures r.Some? ==> IsLowestRun(free, r.value, n)
    ensures r.None? ==> forall s: nat :: !FreeRun(free, s, n)
  {
    LowestRunFrom(free, 0, n)
  }

  /** A start found by any means is the one `LowestRun` finds. */
  lemma LowestRunIsUnique(free: seq<bool>, start: nat, n: nat)
    requires IsLowestRun(free, start, n)
    ensures LowestRun(free, n) == Some(start)
  {
    assert LowestRun(free, n).Some?;
  }

  /** First fit leaves no gap below it: the slot just before the lowest run is taken. */
  lemma SlotBeforeLowestRunIsTaken(free: seq<bool>, start: nat, n: nat)
    requires IsLowestRun(free, start, n)
    requires 0 < start && 0 < n
    ensures !free[start - 1]
  {
    assert !FreeRun(free, start - 1, n);
  }
}
