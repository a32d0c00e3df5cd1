/** Lint findings of `src/linter/diagnostic.rs`. */
module Diagnostics {
  import opened Common
  import opened Fixes

  datatype Severity = Error | Warning | Info | Hint

  datatype Diagnostic = Diagnostic(
    rule: string, severity: Severity, range: Range, message: string, fix: Option<Fix>)
}
