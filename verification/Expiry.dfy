/** When a written tuple expires (pkg/api/helpers.go). */
module Expiry {
  import opened Wrappers
  import opened Tuples
  import opened StoreSpec
  import Text

  const MAX_TUPLE_TTL_SECONDS := 86400
  const SECOND: Time := 1_000_000_000

  datatype ExpiryError = MutuallyExclusive | TtlNotPositive | TtlTooLong | NotRfc3339

  // `parse` stands for RFC 3339 parsing.
  function TupleExpiry(ttlSeconds: Option<int>, expiresAt: string, now: Time, parse: string -> Option<Time>): Result<Option<Time>, ExpiryError> {
    var expiresRaw := Text.TrimSpace(expiresAt);
    if ttlSeconds.Some? && expiresRaw != "" then Err(MutuallyExclusive)
    else if ttlSeconds.Some? then
      if ttlSeconds.value <= 0 then Err(TtlNotPositive)
      else if ttlSeconds.value > MAX_TUPLE_TTL_SECONDS then Err(TtlTooLong)
      else Ok(Some(now + ttlSeconds.value * SECOND))
    else if expiresRaw == "" then Ok(None)
    else
      match parse(expiresRaw)
      case None => Err(NotRfc3339)
      case Some(t) => Ok(Some(t))
  }

  /**
   A request is refused exactly when it gives both a time to live and an expiry time, or a time to live that
   is not from 1 to 86400 seconds, or an expiry time that does not parse; each case has its error.
   */
  lemma {:induction false} ExpiryRefused(ttl: Option<int>, expiresAt: string, now: Time, parse: string -> Option<Time>)
    ensures var (r, raw) := (TupleExpiry(ttl, expiresAt, now, parse), Text.TrimSpace(expiresAt));
            && (r == Err(MutuallyExclusive) <==> ttl.Some? && raw != "")
            && (r == Err(TtlNotPositive) <==> ttl.Some? && raw == "" && ttl.value <= 0)
            && (r == Err(TtlTooLong) <==> ttl.Some? && raw == "" && ttl.value > 86400)
            && (r == Err(NotRfc3339) <==> ttl.None? && raw != "" && parse(raw).None?)
            && (r.Ok? <==> if ttl.Some? then raw == "" && 1 <= ttl.value <= 86400 else raw == "" || parse(raw).Some?)
  {
  }

  /**
   Each grant of a batch, its expiry computed at the handler's clock reading and the batch written at the
   store's own: with a time to live of s seconds it is visible exactly before s seconds after the handler's
   reading, s never exceeding a day; with an expiry time exactly before that time; with neither always. This
   holds until the next log entry for its identity.
   */
  lemma {:induction false} WrittenGrantVisible(b: Bucket, b1: Bucket, b2: Bucket, tenantId: string, batch: seq<Tuple>, i: nat,
                            ttl: Option<int>, expiresAt: string, parse: string -> Option<Time>,
                            handled: Time, written: Time, more: seq<Entry>, now: Time)
    requires i < |batch| && TupleExpiry(ttl, expiresAt, handled, parse) == Ok(batch[i].expiresAt)
    requires Replayed(b2)
    requires WriteBatch(b, tenantId, batch, written) == Ok(b1)
    requires b2.changelog == b1.changelog + more && forall e :: e in more ==> Key(e.tuple) != Key(batch[i])
    ensures var visible := batch[i].id in LiveIds(b2.tuples, now); var raw := Text.TrimSpace(expiresAt);
            match ttl
            case Some(s) => raw == "" && 0 < s <= 86400 && (visible <==> now < handled + s * 1_000_000_000)
            case None => if raw == "" then visible else parse(raw).Some? && (visible <==> now < parse(raw).value)
  {
    GrantVisibleUntilExpiry(b, b1, b2, tenantId, batch, i, more, written, now);
  }
}
