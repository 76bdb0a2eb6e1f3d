/** Sizes that several parts of kernel/shell.c share. */
module Limits {

  const MAX_INPUT := 128
}
