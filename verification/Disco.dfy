/**
 The handlers that use the cache: the read-once offer/answer mailbox and invites, each behind the
 authorisation check. One request is one step with one reading of the clock.
 */
module Disco {
  import opened GoTypes
  import opened MemCache
  import opened Auth

  const MINUTE: Duration := 60_000_000_000
  const DEFAULT_EXPIRE: Duration := 15_000_000_000

  datatype ExpireParam = Default | Unparsable | Given(d: Duration)

  /** The owner parameter in the path, compared with the authenticated key. */
  datatype Owner = Matches | Unparsed | Differs

  /** `addr` stands for the address that two key ids make; Nothing when the other id is missing or malformed. */
  datatype Action =
    | PutDisco(addr: Maybe<string>, typ: string, expire: ExpireParam, body: string)
    | GetDisco(addr: Maybe<string>, typ: string)
    | DeleteDisco(addr: Maybe<string>)
    | PostInvite(code: string, invite: string)
    | OtherAction

  datatype Request = Request(credentials: Credentials, owner: Owner, action: Action)

  datatype Response = Refused(verdict: Verdict) | Forbidden | BadRequest | NotFound | Done | Blob(body: string)

  datatype Outcome = Outcome(response: Response, cache: Snapshot)

  function ShortType(typ: string): char
    requires typ == "offer" || typ == "answer"
  {
    if typ == "offer" then 'o' else 'a'
  }

  function DiscoKey(addr: string, typ: string): string
    requires typ == "offer" || typ == "answer"
  {
    "d-" + addr + "-" + [ShortType(typ)]
  }

  predicate ValidType(typ: string) { typ == "offer" || typ == "answer" }

  lemma KeysBegin(addr: string, typ: string, nonce: string, code: string)
    requires ValidType(typ)
    ensures DiscoKey(addr, typ)[0] == 'd' && NonceKey(nonce)[0] == 'a' && InviteKey(code)[0] == 'c'
  {
  }

  /** Different mailboxes have different keys, none of them a nonce key or an invite key. */
  lemma KeysApart(addr: string, typ: string, addr': string, typ': string, nonce: string, code: string)
    requires ValidType(typ) && ValidType(typ')
    ensures DiscoKey(addr, typ) == DiscoKey(addr', typ') <==> addr == addr' && typ == typ'
    ensures DiscoKey(addr, typ) != NonceKey(nonce) && DiscoKey(addr, typ) != InviteKey(code)
    ensures InviteKey(code) != NonceKey(nonce)
    ensures DiscoKey(addr, "offer") == "d-" + addr + "-o" && DiscoKey(addr, "answer") == "d-" + addr + "-a"
    ensures InviteKey(code) == "code " + code
  {
    var k, k' := DiscoKey(addr, typ), DiscoKey(addr', typ');
    assert k[2..|k| - 2] == addr && k'[2..|k'| - 2] == addr';
    assert k[|k| - 1] == ShortType(typ) && k'[|k'| - 1] == ShortType(typ');
    KeysBegin(addr, typ, nonce, code);
  }

  function InviteKey(code: string): string { "code " + code }

  function Lifetime(e: ExpireParam): Duration {
    match e
    case Given(d) => d
    case _ => DEFAULT_EXPIRE
  }

  predicate GoodPut(a: Action): (good: bool)
    ensures good ==> a.PutDisco? && a.addr.Just? && ValidType(a.typ) && Lifetime(a.expire) <= MINUTE
  {
    && a.PutDisco? && a.addr.Just? && ValidType(a.typ)
    && !a.expire.Unparsable? && Lifetime(a.expire) <= MINUTE && |a.body| <= 256
  }

  /** What the handlers do once the request is authorised. */
  function Act(c: Snapshot, a: Action, now: Instant): Outcome {
    match a
    case PutDisco(addr, typ, expire, body) =>
      if GoodPut(a) then
        var key := DiscoKey(addr.value, typ);
        Outcome(Done, WithDeadline(With(c, key, body), key, Lifetime(expire), now))
      else Outcome(BadRequest, c)
    case GetDisco(addr, typ) =>
      if addr.Nothing? || !ValidType(typ) then Outcome(BadRequest, c)
      else
        var key := DiscoKey(addr.value, typ);
        var out := Stored(c, key, now);
        if out == "" then Outcome(NotFound, c) else Outcome(Blob(out), Without(c, key))
    case DeleteDisco(addr) =>
      if addr.Nothing? then Outcome(BadRequest, c)
      else Outcome(Done, Without(Without(c, DiscoKey(addr.value, "offer")), DiscoKey(addr.value, "answer")))
    case PostInvite(code, invite) =>
      var key := InviteKey(code);
      Outcome(Done, WithDeadline(With(c, key, invite), key, HOUR, now))
    case OtherAction => Outcome(Done, c)
  }

  function Serve(c: Snapshot, r: Request, now: Instant): Outcome {
    var verdict, c' := Judge(c, r.credentials, now), AfterCheck(c, r.credentials, now);
    if verdict != Accepted then Outcome(Refused(verdict), c')
    else if r.owner.Unparsed? then Outcome(BadRequest, c')
    else if r.owner.Differs? then Outcome(Forbidden, c')
    else Act(c', r.action, now)
  }

  /** What the mailbox handlers answer, with the authorisation and the checks of their parameters in this order. */
  lemma ServeReplies(c: Snapshot, r: Request, now: Instant)
    ensures var verdict, reply, a := Judge(c, r.credentials, now), Serve(c, r, now).response, r.action;
            && (verdict != Accepted <==> reply == Refused(verdict))
            && (verdict == Accepted && r.owner == Differs <==> reply == Forbidden)
            && (verdict == Accepted && r.owner == Unparsed ==> reply == BadRequest)
            && (verdict == Accepted && r.owner == Matches ==>
                  var typed := a.PutDisco? || a.GetDisco? ==> a.typ == "offer" || a.typ == "answer";
                  var addressed := a.PutDisco? || a.GetDisco? || a.DeleteDisco? ==> a.addr.Just?;
                  var fits := a.PutDisco? ==>
                                !a.expire.Unparsable? && (a.expire.Given? ==> a.expire.d <= 60_000_000_000) && |a.body| <= 256;
                  && (reply == BadRequest <==> !(typed && addressed && fits))
                  && (typed && addressed && fits && !a.GetDisco? ==> reply == Done)
                  && (typed && addressed && a.GetDisco? ==> reply.NotFound? || reply.Blob?))
  {
    hide Judge, AfterCheck, DiscoKey, Stored;
  }

  class Server {
    const mc: Cache

    constructor (mc: Cache)
      ensures this.mc == mc
    {
      this.mc := mc;
    }

    method Authorize(cr: Credentials, owner: Owner, now: Instant) returns (ok: bool, r: Response)
      requires mc.Valid()
      modifies mc, mc.Entries()
      ensures mc.Valid() && fresh(mc.Entries() - old(mc.Entries()))
      ensures mc.Contents() == AfterCheck(old(mc.Contents()), cr, now)
      ensures ok <==> Judge(old(mc.Contents()), cr, now) == Accepted && owner.Matches?
      ensures !ok ==> r == Serve(old(mc.Contents()), Request(cr, owner, OtherAction), now).response
    {
      var v := CheckAuthorization(mc, cr, now);
      if v != Accepted {
        return false, Refused(v);
      }
      match owner {
        case Unparsed => return false, BadRequest;
        case Differs => return false, Forbidden;
        case Matches => return true, Done;
      }
    }

    method PutDisco(cr: Credentials, owner: Owner, addr: Maybe<string>, typ: string, expire: ExpireParam,
                    body: string, now: Instant)
      returns (r: Response)
      requires mc.Valid()
      modifies mc, mc.Entries()
      ensures mc.Valid()
      ensures Outcome(r, mc.Contents()) ==
              Serve(old(mc.Contents()), Request(cr, owner, Action.PutDisco(addr, typ, expire, body)), now)
    {
      hide Judge, AfterCheck;
      var ok, refused := Authorize(cr, owner, now);
      if !ok {
        return refused;
      }
      if addr.Nothing? {
        return BadRequest;
      }
      if typ != "offer" && typ != "answer" {
        return BadRequest;
      }
      var lifetime := DEFAULT_EXPIRE;
      match expire {
        case Default =>
        case Unparsable => return BadRequest;
        case Given(d) => lifetime := d;
      }
      if lifetime > MINUTE {
        return BadRequest;
      }
      if |body| > 256 {
        return BadRequest;
      }
      var key := DiscoKey(addr.value, typ);
      mc.Set(key, body);
      mc.Expire(key, lifetime, now);
      r := Done;
    }

    method GetDisco(cr: Credentials, owner: Owner, addr: Maybe<string>, typ: string, now: Instant)
      returns (r: Response)
      requires mc.Valid()
      modifies mc, mc.Entries()
      ensures mc.Valid()
      ensures Outcome(r, mc.Contents()) ==
              Serve(old(mc.Contents()), Request(cr, owner, Action.GetDisco(addr, typ)), now)
    {
      hide Judge, AfterCheck, Stored, Without;
      var ok, refused := Authorize(cr, owner, now);
      if !ok {
        return refused;
      }
      if addr.Nothing? {
        return BadRequest;
      }
      if typ != "offer" && typ != "answer" {
        return BadRequest;
      }
      var key := DiscoKey(addr.value, typ);
      var out := mc.Get(key, now);
      if out == "" {
        return NotFound;
      }
      mc.Delete(key);
      r := Blob(out);
    }

    method DeleteDisco(cr: Credentials, owner: Owner, addr: Maybe<string>, now: Instant) returns (r: Response)
      requires mc.Valid()
      modifies mc, mc.Entries()
      ensures mc.Valid()
      ensures Outcome(r, mc.Contents()) ==
              Serve(old(mc.Contents()), Request(cr, owner, Action.DeleteDisco(addr)), now)
    {
      hide Judge, AfterCheck, Without;
      var ok, refused := Authorize(cr, owner, now);
      if !ok {
        return refused;
      }
      if addr.Nothing? {
        return BadRequest;
      }
      mc.Delete(DiscoKey(addr.value, "offer"));
      mc.Delete(DiscoKey(addr.value, "answer"));
      r := Done;
    }
  }
}
