// What sched/inc/env.h defines for everyone: the number of slots, the statuses, and the slot part of
// an id.
module EnvTypes {

  const NENV := 1024

  datatype Status = Free | Dying | Runnable | Running | NotRunnable

  // ENVX, for any 32-bit id: the low ten bits of its two's complement form.
  function EnvX(id: int): (e: nat)
    ensures e < NENV
  {
    id % NENV
  }
}
