/** Row types of the console's database (src/hookguard_console/store/models.py). */
module Models {

  /** One gateway verdict, before it has a row id. `receivedAt` is unix milliseconds. */
  datatype Event = Event(
    receivedAt: int, path: string, provider: string, verdict: string, reason: string,
    upstreamStatus: int, latencyMs: int, bodyBytes: int, bodySha256: string, remoteIp: string)

  /** The verdicts the events table's CHECK constraint admits. */
  predicate KnownVerdict(verdict: string) {
    verdict == "accepted" || verdict == "rejected"
  }

  /** The key of one rollup row. */
  datatype Bucket = Bucket(hour: int, provider: string, verdict: string)

  /** One rollup row, or one increment for a rollup row. */
  datatype Delta = Delta(bucket: Bucket, n: int)

  /** The unix hour of a millisecond timestamp, floored. */
  function HourBucket(unixMs: int): int {
    unixMs / 1000 / 3600
  }

  function BucketOf(e: Event): Bucket {
    Bucket(HourBucket(e.receivedAt), e.provider, e.verdict)
  }
}
