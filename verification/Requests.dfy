/**
 Whole runs of authorised requests: when a signed request can be accepted again, and what the
 mailbox returns.
 */
module Requests {
  import opened GoTypes
  import opened MemCache
  import opened Auth
  import opened Disco

  datatype Event = Event(now: Instant, request: Request)

  /** The cache before event n, starting empty. */
  function CacheAt(run: seq<Event>, n: nat): Snapshot
    requires n <= |run|
  {
    if n == 0 then map[] else Serve(CacheAt(run, n - 1), run[n - 1].request, run[n - 1].now).cache
  }

  function ResponseAt(run: seq<Event>, i: nat): Response
    requires i < |run|
  {
    Serve(CacheAt(run, i), run[i].request, run[i].now).response
  }

  predicate Clocked(run: seq<Event>) {
    forall i, j :: 0 <= i < j < |run| ==> run[i].now <= run[j].now
  }

  // ---------- nonces ----------

  function Creds(run: seq<Event>, i: nat): Credentials
    requires i < |run|
  {
    run[i].request.credentials
  }

  function VerdictAt(run: seq<Event>, i: nat): Verdict
    requires i < |run|
  {
    Judge(CacheAt(run, i), Creds(run, i), run[i].now)
  }

  predicate AcceptedAt(run: seq<Event>, i: nat)
    requires i < |run|
  {
    VerdictAt(run, i) == Accepted
  }

  /** Event i recorded this nonce: it got past the nonce check, whatever became of its timestamp. */
  predicate RecordedAt(run: seq<Event>, i: nat, nonce: string)
    requires i < |run|
  {
    Usable(Creds(run, i)) && Creds(run, i).nonce == nonce && VerdictAt(run, i) != NonceCollision
  }

  /** The last event before n that recorded the nonce, or -1. */
  function LastRecorded(run: seq<Event>, n: nat, nonce: string): (l: int)
    requires n <= |run|
    ensures -1 <= l < n && (l >= 0 ==> RecordedAt(run, l, nonce))
    ensures forall i :: l < i < n ==> !RecordedAt(run, i, nonce)
  {
    if n == 0 then -1
    else if RecordedAt(run, n - 1, nonce) then n - 1
    else LastRecorded(run, n - 1, nonce)
  }

  predicate NonceEntry(c: Snapshot, run: seq<Event>, l: int, nonce: string)
    requires l < |run|
  {
    if l < 0 then NonceKey(nonce) !in c
    else NonceKey(nonce) in c && c[NonceKey(nonce)] == Entry("1", run[l].now + HOUR)
  }

  predicate SameAt(c: Snapshot, c': Snapshot, k: string) {
    (k in c' <==> k in c) && (k in c ==> c'[k] == c[k])
  }

  /** No handler touches a nonce key. */
  lemma ActKeepsNonces(c: Snapshot, a: Action, now: Instant, nonce: string)
    ensures SameAt(c, Act(c, a, now).cache, NonceKey(nonce))
  {
    hide DiscoKey, NonceKey, InviteKey, GoodPut;
    match a {
      case PutDisco(addr, typ, _, _) =>
        if GoodPut(a) {
          KeysApart(addr.value, typ, addr.value, typ, nonce, "");
        }
      case GetDisco(addr, typ) =>
        if addr.Just? && ValidType(typ) {
          KeysApart(addr.value, typ, addr.value, typ, nonce, "");
        }
      case DeleteDisco(addr) =>
        if addr.Just? {
          KeysApart(addr.value, "offer", addr.value, "answer", nonce, "");
          KeysApart(addr.value, "answer", addr.value, "offer", nonce, "");
        }
      case PostInvite(code, _) => KeysApart("", "offer", "", "offer", nonce, code);
      case OtherAction =>
    }
  }

  lemma NonceKeysApart(m: string, n: string)
    ensures NonceKey(m) == NonceKey(n) <==> m == n
  {
    assert NonceKey(m)[5..] == m && NonceKey(n)[5..] == n;
  }

  lemma CheckNonce(c: Snapshot, cr: Credentials, now: Instant, nonce: string)
    ensures var c' := AfterCheck(c, cr, now);
            var records := Usable(cr) && cr.nonce == nonce && Judge(c, cr, now) != NonceCollision;
            && (records ==> NonceKey(nonce) in c' && c'[NonceKey(nonce)] == Entry("1", now + HOUR))
            && (!records ==> SameAt(c, c', NonceKey(nonce)))
  {
    hide NonceKey, Stored, InWindow;
    NonceKeysApart(nonce, cr.nonce);
  }

  lemma {:induction false} NonceStored(run: seq<Event>, n: nat, nonce: string)
    requires n <= |run|
    ensures NonceEntry(CacheAt(run, n), run, LastRecorded(run, n, nonce), nonce)
    decreases n
  {
    hide Judge, AfterCheck, Act, NonceKey, Usable;
    if n > 0 {
      NonceStored(run, n - 1, nonce);
      var c, e := CacheAt(run, n - 1), run[n - 1];
      CheckNonce(c, e.request.credentials, e.now, nonce);
      ActKeepsNonces(AfterCheck(c, e.request.credentials, e.now), e.request.action, e.now, nonce);
    }
  }

  /**
   Exactly when a request is accepted: it is well signed, its timestamp is in the window, and every
   earlier request that recorded its nonce did so at least an hour before.
   */
  lemma {:induction false} AcceptedIff(run: seq<Event>, j: nat)
    requires j < |run| && Clocked(run)
    ensures AcceptedAt(run, j) <==>
            && Creds(run, j).signed && Creds(run, j).nonce != "" && Creds(run, j).nonceLength == Just(32)
            && Creds(run, j).ts.At? && InWindow(run[j].now, Creds(run, j).ts.time)
            && forall i :: 0 <= i < j && RecordedAt(run, i, Creds(run, j).nonce) ==>
                 run[i].now + 3_600_000_000_000 <= run[j].now
  {
    hide InWindow, NonceKey;
    var nonce := Creds(run, j).nonce;
    NonceStored(run, j, nonce);
    var l := LastRecorded(run, j, nonce);
    assert Seen(CacheAt(run, j), Creds(run, j), run[j].now) <==> l >= 0 && run[j].now < run[l].now + HOUR;
  }

  /**
   Exactly when a request records its nonce: it is well signed with a nonce of 32 bytes, and every earlier
   request that recorded the same one did so at least an hour before. The timestamp plays no part.
   */
  lemma {:induction false} RecordedIff(run: seq<Event>, j: nat, nonce: string)
    requires j < |run| && Clocked(run)
    ensures RecordedAt(run, j, nonce) <==>
            && Creds(run, j).signed && nonce != "" && Creds(run, j).nonce == nonce && Creds(run, j).nonceLength == Just(32)
            && forall i :: 0 <= i < j && RecordedAt(run, i, nonce) ==> run[i].now + 3_600_000_000_000 <= run[j].now
  {
    hide InWindow, NonceKey;
    NonceStored(run, j, nonce);
    var l := LastRecorded(run, j, nonce);
    if Creds(run, j).nonce == nonce {
      assert Seen(CacheAt(run, j), Creds(run, j), run[j].now) <==> l >= 0 && run[j].now < run[l].now + HOUR;
    }
  }

  /**
   One signed request accepted twice: then the two times are exactly an hour apart and the timestamp
   is the midpoint, unless at the first time the timestamp was at least 2^63 nanoseconds (292 years)
   ahead of the clock.
   */
  lemma {:induction false} ReplayAtMidpoint(run: seq<Event>, i: nat, j: nat)
    requires Clocked(run) && i < j < |run| && Creds(run, i) == Creds(run, j)
    requires AcceptedAt(run, i) && AcceptedAt(run, j)
    requires Creds(run, i).ts.At? ==> Creds(run, i).ts.time - run[i].now < 0x8000_0000_0000_0000
    ensures run[j].now - run[i].now == 3_600_000_000_000
    ensures Creds(run, i).ts == At(run[i].now + 1_800_000_000_000)
  {
    hide InWindow;
    AcceptedIff(run, i);
    AcceptedIff(run, j);
    assert RecordedAt(run, i, Creds(run, j).nonce);
    WindowIff(run[i].now, Creds(run, i).ts.time);
    WindowIff(run[j].now, Creds(run, i).ts.time);
  }

  /** The bound is reached: the same request exactly thirty minutes before and after its timestamp passes twice. */
  lemma {:induction false} MidpointReplayPasses(r: Request, before: Instant)
    requires Usable(r.credentials) && r.credentials.ts == At(before + WINDOW)
    ensures var run := [Event(before, r), Event(before + HOUR, r)];
            AcceptedAt(run, 0) && AcceptedAt(run, 1)
  {
    hide InWindow, Judge;
    var run := [Event(before, r), Event(before + HOUR, r)];
    assert Creds(run, 0) == Creds(run, 1) == r.credentials;
    WindowIff(before, before + WINDOW);
    WindowIff(before + HOUR, before + WINDOW);
    AcceptedIff(run, 0);
    AcceptedIff(run, 1);
  }

  /** Without the guard of ReplayAtMidpoint the spacing is not fixed: a timestamp far enough ahead passes again after any hour. */
  lemma FarFutureReplayPasses(r: Request, first: Instant, second: Instant)
    requires Usable(r.credentials) && r.credentials.ts.At?
    requires r.credentials.ts.time - second >= 0x8000_0000_0000_0000 && second - first >= HOUR
    ensures var run := [Event(first, r), Event(second, r)];
            AcceptedAt(run, 0) && AcceptedAt(run, 1)
  {
    hide InWindow, Judge;
    var run := [Event(first, r), Event(second, r)];
    assert Creds(run, 0) == Creds(run, 1) == r.credentials;
    WindowIff(first, r.credentials.ts.time);
    WindowIff(second, r.credentials.ts.time);
    AcceptedIff(run, 0);
    AcceptedIff(run, 1);
  }

  // ---------- the mailbox ----------

  function ActionAt(run: seq<Event>, i: nat): Action
    requires i < |run|
  {
    run[i].request.action
  }

  /** Event i ran its handler. */
  predicate Reached(run: seq<Event>, i: nat)
    requires i < |run|
  {
    AcceptedAt(run, i) && run[i].request.owner.Matches?
  }

  predicate Puts(run: seq<Event>, i: nat, addr: string, typ: string)
    requires i < |run|
  {
    var a := ActionAt(run, i);
    Reached(run, i) && GoodPut(a) && a.addr.value == addr && a.typ == typ
  }

  /** A put: authorised for the owner, with a known type, an expiry of at most a minute and at most 256 bytes. */
  lemma PutsIff(run: seq<Event>, i: nat, addr: string, typ: string)
    requires i < |run|
    ensures Puts(run, i, addr, typ) <==>
            && AcceptedAt(run, i) && run[i].request.owner == Matches
            && var a := run[i].request.action;
               && a.PutDisco? && a.addr == Just(addr) && a.typ == typ && (typ == "offer" || typ == "answer")
               && (a.expire.Default? || (a.expire.Given? && a.expire.d <= 60_000_000_000)) && |a.body| <= 256
  {
  }

  predicate Removes(run: seq<Event>, i: nat, addr: string)
    requires i < |run|
  {
    Reached(run, i) && ActionAt(run, i) == DeleteDisco(Just(addr))
  }

  predicate Takes(run: seq<Event>, i: nat, addr: string, typ: string)
    requires i < |run|
  {
    ActionAt(run, i) == GetDisco(Just(addr), typ) && ResponseAt(run, i).Blob?
  }

  predicate Touches(run: seq<Event>, i: nat, addr: string, typ: string)
    requires i < |run|
  {
    Puts(run, i, addr, typ) || Removes(run, i, addr) || Takes(run, i, addr, typ)
  }

  /** The put whose body is in the mailbox before event n, expired or not, or -1. */
  function Pending(run: seq<Event>, n: nat, addr: string, typ: string): (p: int)
    requires n <= |run|
    ensures -1 <= p < n && (p >= 0 ==> Puts(run, p, addr, typ) && ActionAt(run, p).PutDisco?)
    ensures p >= 0 ==> forall i :: p < i < n ==> !Touches(run, i, addr, typ)
    ensures p < 0 ==> forall i :: 0 <= i < n && Puts(run, i, addr, typ) ==>
              exists m :: i < m < n && Touches(run, m, addr, typ)
  {
    if n == 0 then -1
    else if Puts(run, n - 1, addr, typ) then n - 1
    else if Touches(run, n - 1, addr, typ) then -1
    else Pending(run, n - 1, addr, typ)
  }

  function Until(run: seq<Event>, i: nat): int
    requires i < |run| && ActionAt(run, i).PutDisco?
  {
    run[i].now + Lifetime(ActionAt(run, i).expire)
  }

  /** Until when a put can be fetched: the duration given with it, or else fifteen seconds. */
  lemma UntilIs(run: seq<Event>, i: nat)
    requires i < |run| && ActionAt(run, i).PutDisco?
    ensures var e := ActionAt(run, i).expire;
            Until(run, i) == run[i].now + if e.Given? then e.d else 15_000_000_000
  {
  }

  predicate MailEntry(c: Snapshot, run: seq<Event>, p: int, key: string)
    requires p < |run| && (p >= 0 ==> ActionAt(run, p).PutDisco?)
  {
    if p < 0 then key !in c
    else key in c && c[key].value == ActionAt(run, p).body && c[key].deadline == Until(run, p)
  }

  /** What the handlers do to one mailbox. */
  lemma ActOnMailbox(c: Snapshot, a: Action, now: Instant, addr: string, typ: string)
    requires ValidType(typ)
    ensures var c', k := Act(c, a, now).cache, DiscoKey(addr, typ);
            if GoodPut(a) && a.addr.value == addr && a.typ == typ then
              k in c' && c'[k].value == a.body && c'[k].deadline == now + Lifetime(a.expire)
            else if a == DeleteDisco(Just(addr)) then k !in c'
            else if a == GetDisco(Just(addr), typ) && Act(c, a, now).response.Blob? then k !in c'
            else SameAt(c, c', k)
  {
    hide DiscoKey, NonceKey, InviteKey, GoodPut, Lifetime, Stored;
    match a {
      case PutDisco(other, t, _, _) =>
        if GoodPut(a) {
          KeysApart(addr, typ, other.value, t, "", "");
        }
      case GetDisco(other, t) =>
        if other.Just? && ValidType(t) {
          KeysApart(addr, typ, other.value, t, "", "");
        }
      case DeleteDisco(other) =>
        if other.Just? {
          KeysApart(addr, typ, other.value, "offer", "", "");
          KeysApart(addr, typ, other.value, "answer", "", "");
        }
      case PostInvite(code, _) => KeysApart(addr, typ, addr, typ, "", code);
      case OtherAction =>
    }
  }

  lemma CheckKeepsMail(c: Snapshot, cr: Credentials, now: Instant, addr: string, typ: string)
    requires ValidType(typ)
    ensures SameAt(c, AfterCheck(c, cr, now), DiscoKey(addr, typ))
  {
    hide DiscoKey, NonceKey, InviteKey;
    KeysApart(addr, typ, addr, typ, cr.nonce, "");
  }

  /** What one event does to one mailbox. */
  lemma EventOnMailbox(run: seq<Event>, m: nat, addr: string, typ: string)
    requires m < |run| && ValidType(typ)
    ensures var c, c', k := CacheAt(run, m), CacheAt(run, m + 1), DiscoKey(addr, typ);
            if Puts(run, m, addr, typ) then MailEntry(c', run, m, k)
            else if Touches(run, m, addr, typ) then k !in c'
            else SameAt(c, c', k)
  {
    hide Judge, AfterCheck, Act, DiscoKey, GoodPut, Lifetime;
    var c, e := CacheAt(run, m), run[m];
    CheckKeepsMail(c, e.request.credentials, e.now, addr, typ);
    ActOnMailbox(AfterCheck(c, e.request.credentials, e.now), e.request.action, e.now, addr, typ);
  }

  lemma {:induction false} MailStored(run: seq<Event>, n: nat, addr: string, typ: string)
    requires n <= |run| && ValidType(typ)
    ensures MailEntry(CacheAt(run, n), run, Pending(run, n, addr, typ), DiscoKey(addr, typ))
    decreases n
  {
    hide CacheAt, DiscoKey, ValidType, Touches, Puts, Until;
    if n == 0 {
      NoMail(run, addr, typ);
    } else {
      MailStored(run, n - 1, addr, typ);
      EventOnMailbox(run, n - 1, addr, typ);
    }
  }

  lemma NoMail(run: seq<Event>, addr: string, typ: string)
    requires ValidType(typ)
    ensures DiscoKey(addr, typ) !in CacheAt(run, 0) && Pending(run, 0, addr, typ) == -1
  {
  }

  /** Put p is the latest under its key at get i: unexpired, not empty, and not replaced, deleted or taken since. */
  predicate Delivers(run: seq<Event>, p: nat, i: nat, addr: string, typ: string)
    requires p < i < |run|
  {
    && Puts(run, p, addr, typ) && run[i].now < Until(run, p) && ActionAt(run, p).body != ""
    && forall m :: p < m < i ==> !Touches(run, m, addr, typ)
  }

  lemma GetReturnsPending(run: seq<Event>, i: nat, addr: string, typ: string)
    requires i < |run| && ValidType(typ)
    requires Reached(run, i) && ActionAt(run, i) == GetDisco(Just(addr), typ)
    ensures var p := Pending(run, i, addr, typ);
            ResponseAt(run, i) ==
              if p >= 0 && run[i].now < Until(run, p) && ActionAt(run, p).body != "" then Blob(ActionAt(run, p).body)
              else NotFound
  {
    hide Judge, AfterCheck, DiscoKey, GoodPut, Lifetime, CacheAt;
    MailStored(run, i, addr, typ);
    CheckKeepsMail(CacheAt(run, i), Creds(run, i), run[i].now, addr, typ);
  }

  /** An authorised get returns exactly the body of the put that delivers to it; without one, not found. */
  lemma {:induction false} GetReturnsLatestPut(run: seq<Event>, i: nat, addr: string, typ: string, body: string)
    requires i < |run| && ValidType(typ)
    requires Reached(run, i) && ActionAt(run, i) == GetDisco(Just(addr), typ)
    ensures ResponseAt(run, i).Blob? || ResponseAt(run, i).NotFound?
    ensures ResponseAt(run, i) == Blob(body) <==>
              exists p :: 0 <= p < i && Delivers(run, p, i, addr, typ) && ActionAt(run, p).body == body
  {
    hide ResponseAt, Puts, Touches, Until, Reached;
    GetReturnsPending(run, i, addr, typ);
    var q := Pending(run, i, addr, typ);
    if q >= 0 && run[i].now < Until(run, q) && ActionAt(run, q).body != "" {
      assert Delivers(run, q, i, addr, typ);
    }
    forall p | 0 <= p < i && Delivers(run, p, i, addr, typ)
      ensures p == q
    {
      if q < p {
        assert q >= 0 ==> !Touches(run, p, addr, typ);
        PutTouches(run, p, addr, typ);
      } else if p < q {
        PutTouches(run, q, addr, typ);
      }
    }
  }

  lemma PutTouches(run: seq<Event>, p: nat, addr: string, typ: string)
    requires p < |run| && Puts(run, p, addr, typ)
    ensures Touches(run, p, addr, typ)
  {
  }

  /** Each put is returned by at most one get, less than a minute later. */
  lemma DeliveredOnce(run: seq<Event>, p: nat, i: nat, j: nat, addr: string, typ: string)
    requires p < i <= j < |run| && Takes(run, i, addr, typ) && Takes(run, j, addr, typ)
    requires Delivers(run, p, i, addr, typ) && Delivers(run, p, j, addr, typ)
    ensures i == j && run[i].now - run[p].now < 60_000_000_000
  {
    if i < j {
      assert Touches(run, i, addr, typ);
    }
  }
}
