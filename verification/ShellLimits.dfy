/** The limits of shell/include/shell.h. */
module ShellLimits {
  const MAX_LINE_LENGTH: nat := 4096
  const MAX_ARGS: nat := 256
  const MAX_PIPE_SEGMENTS: nat := 16
}
