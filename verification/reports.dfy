/** What one run of the check hands to the monitoring host. */
module Reports {

  /** The severities the check reports (the host's WARNING is never used). */
  datatype Severity = Ok | Critical | Unknown

  /** A severity with its one line of text, as passed to ok/critical/unknown. */
  datatype Report = Report(severity: Severity, message: string)

  /** A run either reports, or an exception escapes it unrescued. */
  datatype RunResult = Reported(report: Report) | Raised(error: string)
}
