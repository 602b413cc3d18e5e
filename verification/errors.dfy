/**
 Validation findings as every rule module reports them
 (`validation/errors.py`).
 */
module Errors {
  import opened Wrappers

  /** The three severities, mapped later onto the editor's diagnostic levels. */
  datatype Severity = Error | Warning | Info

  /**
   A human-readable message, kept as the name of its wording and the values
   interpolated into it. Two messages are equal exactly when both agree.
   */
  datatype Message = Message(template: string, args: seq<string>)

  /**
   One finding: dotted rule id, YAML key path, message, severity, 1-based
   line and 0-based column (`None` when unknown).
   */
  datatype ValidationError = ValidationError(
    ruleId: string,
    path: string,
    message: Message,
    severity: Severity,
    line: Option<int>,
    column: Option<int>)

  /** A finding without a column, the form every rule module builds. */
  function Finding(ruleId: string, path: string, message: Message, severity: Severity, line: Option<int>): ValidationError
  {
    ValidationError(ruleId, path, message, severity, line, None)
  }
}
