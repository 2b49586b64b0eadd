/** Per-connection bounds and the admission policy. */
module HttpLimits {
  import opened Decimal

  datatype Limits = Limits(
    maxHeaderBytes: nat,
    maxBodyBytes: nat,
    maxConnections: nat,
    maxRequests: nat)
  {
    /** `validate()` accepts; every field is a 64-bit size. */
    predicate Valid() {
      && 4 <= maxHeaderBytes
      && maxHeaderBytes + maxBodyBytes < SIZE_LIMIT
      && 0 < maxConnections < SIZE_LIMIT
      && 0 < maxRequests < SIZE_LIMIT
    }
  }

  const DEFAULT_LIMITS: Limits := Limits(16 * 1024, 1024 * 1024, 4096, 1000)
}
