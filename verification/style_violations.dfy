/**
  The violation record every rule reports. The record belongs to SwiftLint's
  framework (its definition is not part of this model); only the fields the
  modelled rules fill in are kept.
*/
module StyleViolations {
  import opened Wrappers

  datatype Severity = Warning | Error

  /** A position in a file: its path, 1-based line and 1-based column, each optional. */
  datatype Location = Location(file: Option<string>, line: Option<int>, character: Option<int>)

  datatype StyleViolation = StyleViolation(ruleIdentifier: string, severity: Severity, location: Location, reason: string)

  /** `$0.ruleIdentifier`, as a function value for grouping. */
  function RuleIdentifierOf(v: StyleViolation): string {
    v.ruleIdentifier
  }
}
