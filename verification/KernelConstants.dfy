/** Constants shared by the process table, the scheduler and the devices. */
module KernelConstants {

  const MAX_PROCESS_NUM: nat := 32

  /** The error codes of inc/errno.h, negated as devices return them. */
  const AGAIN: int := -11

  const INVALID: int := -22
}
