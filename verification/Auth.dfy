/**
 Authorisation of one signed request: the nonce is recorded in the cache for an hour, then the
 timestamp must lie within thirty minutes of the clock. One check reads the clock once.
 */
module Auth {
  import opened GoTypes
  import opened MemCache

  const HOUR: Duration := 3_600_000_000_000
  const WINDOW: Duration := 1_800_000_000_000
  const MIN_DURATION: Duration := -0x8000_0000_0000_0000
  const MAX_DURATION: Duration := 0x7FFF_FFFF_FFFF_FFFF

  /** The `ts` parameter: absent, not a number, or the time it stands for. */
  datatype Stamp = Absent | Malformed | At(time: int)

  /** `signed`: the header parses and its signature verifies; `nonceLength`: bytes after Base62 decoding. */
  datatype Credentials = Credentials(signed: bool, nonce: string, nonceLength: Maybe<nat>, ts: Stamp)

  datatype Verdict =
    | Accepted | BadSignature | NonceMissing | NonceMalformed | NonceCollision
    | TsMissing | TsMalformed | TsOutOfRange

  /** The difference of two times, saturating at the ends of Duration. */
  function Sub(t: Instant, u: int): Duration {
    if t - u < MIN_DURATION then MIN_DURATION
    else if t - u > MAX_DURATION then MAX_DURATION
    else t - u
  }

  /** Negation in 64 bits leaves the least Duration as it is. */
  function Negate(d: Duration): Duration {
    if d == MIN_DURATION then d else -d
  }

  predicate InWindow(now: Instant, tm: int) {
    var td := Sub(now, tm);
    (if td < 0 then Negate(td) else td) <= WINDOW
  }

  /** The window is thirty minutes on both sides, and everything at least 2^63 nanoseconds ahead. */
  lemma {:induction false} WindowIff(now: Instant, tm: int)
    ensures InWindow(now, tm) <==>
              (-1_800_000_000_000 <= now - tm <= 1_800_000_000_000) || tm - now >= 0x8000_0000_0000_0000
  {
  }

  /** The year 1970, in nanoseconds since year 1. */
  const EPOCH := 62_135_596_800_000_000_000

  /** A timestamp that is kept in 64-bit nanoseconds around 1970 is never that far ahead of a clock after 1970. */
  lemma {:induction false} WindowIffNear(now: Instant, tm: int)
    requires now >= EPOCH && MIN_DURATION <= tm - EPOCH <= MAX_DURATION
    ensures InWindow(now, tm) <==> -1_800_000_000_000 <= now - tm <= 1_800_000_000_000
  {
    hide InWindow;
    WindowIff(now, tm);
  }

  function NonceKey(nonce: string): string { "auth-" + nonce }

  predicate Usable(cr: Credentials) {
    cr.signed && cr.nonce != "" && cr.nonceLength == Just(32)
  }

  predicate Seen(c: Snapshot, cr: Credentials, now: Instant) {
    Stored(c, NonceKey(cr.nonce), now) != ""
  }

  function Judge(c: Snapshot, cr: Credentials, now: Instant): Verdict {
    if !cr.signed then BadSignature
    else if cr.nonce == "" then NonceMissing
    else if cr.nonceLength != Just(32) then NonceMalformed
    else if Seen(c, cr, now) then NonceCollision
    else match cr.ts
      case Absent => TsMissing
      case Malformed => TsMalformed
      case At(tm) => if InWindow(now, tm) then Accepted else TsOutOfRange
  }

  /** A fresh nonce is recorded, whatever becomes of the timestamp. */
  function AfterCheck(c: Snapshot, cr: Credentials, now: Instant): (c': Snapshot)
    ensures forall k :: k != NonceKey(cr.nonce) ==> (k in c' <==> k in c) && (k in c ==> c'[k] == c[k])
  {
    var key := NonceKey(cr.nonce);
    if Usable(cr) && !Seen(c, cr, now) then WithDeadline(With(c, key, "1"), key, HOUR, now) else c
  }

  /** The nonce has been seen: its entry is there, not empty, and its deadline, if any, has not come. */
  lemma SeenIff(c: Snapshot, cr: Credentials, now: Instant)
    ensures Seen(c, cr, now) <==>
              var key := "auth-" + cr.nonce;
              key in c && c[key].value != "" && (c[key].deadline == 0 || now < c[key].deadline)
  {
  }

  /** Exactly when each verdict is given; the checks are made in this order. */
  lemma JudgeIff(c: Snapshot, cr: Credentials, now: Instant)
    ensures var v := Judge(c, cr, now);
            var usable := cr.signed && cr.nonce != "" && cr.nonceLength == Just(32);
            && (v == BadSignature <==> !cr.signed)
            && (v == NonceMissing <==> cr.signed && cr.nonce == "")
            && (v == NonceMalformed <==> cr.signed && cr.nonce != "" && cr.nonceLength != Just(32))
            && (v == NonceCollision <==> usable && Seen(c, cr, now))
            && (v == TsMissing <==> usable && !Seen(c, cr, now) && cr.ts.Absent?)
            && (v == TsMalformed <==> usable && !Seen(c, cr, now) && cr.ts.Malformed?)
            && (v == Accepted <==> usable && !Seen(c, cr, now) && cr.ts.At? && InWindow(now, cr.ts.time))
            && (v == TsOutOfRange <==> usable && !Seen(c, cr, now) && cr.ts.At? && !InWindow(now, cr.ts.time))
  {
  }

  lemma LiveAfterSet(c: Snapshot, k: string, v: string, now: Instant)
    ensures Live(With(c, k, v), k, now)
  {
  }

  method CheckAuthorization(mc: Cache, cr: Credentials, now: Instant) returns (v: Verdict)
    requires mc.Valid()
    modifies mc, mc.Entries()
    ensures mc.Valid() && fresh(mc.Entries() - old(mc.Entries()))
    ensures v == Judge(old(mc.Contents()), cr, now)
    ensures mc.Contents() == AfterCheck(old(mc.Contents()), cr, now)
  {
    hide With, WithDeadline, Stored, Live;
    if !cr.signed {
      return BadSignature;
    }
    if cr.nonce == "" {
      return NonceMissing;
    }
    if cr.nonceLength != Just(32) {
      return NonceMalformed;
    }
    var nonce := NonceKey(cr.nonce);
    var val := mc.Get(nonce, now);
    if val != "" {
      return NonceCollision;
    }
    mc.Set(nonce, "1");
    LiveAfterSet(old(mc.Contents()), nonce, "1", now);
    mc.Expire(nonce, HOUR, now);
    match cr.ts {
      case Absent => return TsMissing;
      case Malformed => return TsMalformed;
      case At(tm) =>
        var td := Sub(now, tm);
        if td < 0 {
          td := Negate(td);
        }
        if td > WINDOW {
          return TsOutOfRange;
        }
        return Accepted;
    }
  }
}
