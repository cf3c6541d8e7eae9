/** The shared region as the processes see it: the fields of shm_t
    (3coloring/3color.h) updated in place, with the values of the three named
    semaphores kept beside them as counters. `State()` reads it back as the value
    the Ring module reasons about. */
module SharedMemory {
  import opened ThreeColor
  import Ring

  class Shm {
    /** solutions[MAX_DATA] */
    var slots: array<Solution>
    var quit: int
    var write: int
    var readPos: int
    var shmTracker: int
    /** current values of /sem_free, /sem_used and /sem_write */
    var freeSem: int
    var usedSem: int
    var writeSem: int

    ghost function State(): Ring.Shared
      reads this, slots
    {
      Ring.Shared(slots[..], quit, write, readPos, shmTracker, freeSem, usedSem, writeSem)
    }

    /** The supervisor's set-up (supervisor.c:134-146) for a region and semaphores
        created fresh: the new region is truncated (so every slot reads as zeros),
        the four control fields are zeroed, and the semaphores are created with
        MAX_DATA, 0 and 1. A region or semaphore left over under the same name keeps
        its slots or its value (no O_EXCL); that case is not modelled. */
    constructor Create()
      ensures fresh(slots)
      ensures State() == Ring.Initial()
    {
      slots := new Solution[MAX_DATA](_ => ZeroSolution());
      quit, write, readPos, shmTracker := 0, 0, 0, 0;
      freeSem, usedSem, writeSem := MAX_DATA, 0, 1;
      new;
      assert slots[..] == seq(MAX_DATA, _ => ZeroSolution());
    }
  }
}
