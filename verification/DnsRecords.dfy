/** Resolved DNS records and a resolver's answer to one query. */
module DnsRecords {
  import opened Options

  datatype Record = Record(rtype: nat, name: string, value: string, ttl: nat)

  datatype Truncation = TruncationUnknown | TruncationOK | Truncated

  datatype Answer = Records(records: seq<Record>, trunc: Truncation) | Failure(trunc: Truncation)

  const TYPE_CNAME := 5
}
