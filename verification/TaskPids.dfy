/** Process identifiers (core/exec/task.c): one static byte, incremented on every call. */
module TaskPids {

  const PID_KERNEL: nat := 0
  const PID_RESV: nat := 0xFF

  /** The static `pid` after the `n`th call. */
  function NthPid(n: nat): nat {
    if n == 0 then PID_KERNEL
    else if NthPid(n - 1) == PID_RESV then PID_KERNEL + 1
    else (NthPid(n - 1) + 1) % 256
  }

  class PidSource {
    var pid: nat
    ghost var calls: nat

    ghost predicate Valid()
      reads this
    {
      pid == NthPid(calls)
    }

    constructor ()
      ensures Valid() && calls == 0
    {
      pid, calls := PID_KERNEL, 0;
    }

    method NewPid() returns (r: nat)
      requires Valid()
      modifies this
      ensures Valid() && calls == old(calls) + 1
      ensures r == 1 + (calls - 1) % 255
    {
      ghost var n := calls;
      PidCycle(calls + 1);
      var before := pid;
      pid := (pid + 1) % 256;
      if before == PID_RESV {
        pid := PID_KERNEL + 1;
      }
      calls := calls + 1;
      return pid;
    }
  }

  /** The `n`th identifier runs through 1..255, and is the marker for a free page exactly on
      every 255th call; it is never the kernel's. */
  lemma {:induction false} PidCycle(n: nat)
    ensures n > 0 ==> NthPid(n) == 1 + (n - 1) % 255
    ensures n > 0 ==> (NthPid(n) == PID_RESV <==> n % 255 == 0)
    ensures n > 0 ==> NthPid(n) != PID_KERNEL
  {
    if n <= 1 {
    } else {
      PidCycle(n - 1);
      NextRemainder(n - 2);
      NextRemainder(n - 1);
    }
  }

  lemma NextRemainder(a: nat)
    ensures (a + 1) % 255 == if a % 255 == 254 then 0 else a % 255 + 1
  {
  }
}
