/** Sizes that several parts of the kernel share. */
module Limits {
  const TERMINALS: nat := 3
}
