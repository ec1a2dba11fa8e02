/** The exit codes of every plugin. */
module Plugin {
  datatype ExitCode = OK | WARNING | CRITICAL | UNKNOWN
}
