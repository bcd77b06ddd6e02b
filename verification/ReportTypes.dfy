/** What the modules about reports share: row ids and what a receiver did with the mail. */
module ReportTypes {
  datatype ReportId = ReportId(uuid: int)

  datatype RecordId = RecordId(uuid: int)

  datatype Disposition = Accept | Quarantine | Reject
}
