/**
 * The parsed request record the analyzer consumes. Only the three fields the
 * analyzer reads (through its getters) are modelled.
 */
module LogEntries {

  /** One parsed access-log line: client address, response status and user agent. */
  datatype LogEntry = LogEntry(ipAddress: string, statusCode: int, userAgent: string)
}
