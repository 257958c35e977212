/**
 The message documents and change logs on the server: what posting a message adds to the logs that
 Pull reads, and the deletion of expired documents, which leaves the changes. The service's clock, which
 also dates the expiry, never runs backwards.
 */
module Firestore {
  import opened Decimal
  import opened GoTypes
  import opened Pull

  const DAY := 86_400_000_000_000
  const MAX_MESSAGE := 16 * 1024

  datatype MessageDoc = MessageDoc(id: string, data: seq<byte>, expire: Maybe<int>, created: Nanos)

  datatype Change = Change(id: string, path: string, ts: Nanos)

  datatype Status = OK | Invalid | PathExists

  const MESSAGES := "/msgs/"

  function MessagePath(id: string): string { MESSAGES + id }

  function LogName(kid: string, rid: string): string { "msgs-" + kid + "-" + rid }

  /** Key ids are Bech32 text: no dash. */
  predicate IsID(kid: string) { '-' !in kid }

  /** Every ordered pair of keys has a log of its own. */
  lemma LogNamesApart(kid: string, rid: string, kid': string, rid': string)
    requires IsID(kid) && IsID(rid) && IsID(kid') && IsID(rid')
    ensures LogName(kid, rid) == LogName(kid', rid') <==> kid == kid' && rid == rid'
  {
    assert LogName(kid, rid) == "msgs-" + (kid + "-" + rid);
    assert LogName(kid', rid') == "msgs-" + (kid' + "-" + rid');
    PairsApart("msgs-", kid, rid, kid', rid');
  }

  /** Every message has a document of its own. */
  lemma MessagePathsApart(id: string, id': string)
    ensures MessagePath(id) == MessagePath(id') <==> id == id'
    ensures "/msgs/" <= MessagePath(id)
  {
    assert MessagePath(id)[6..] == id && MessagePath(id')[6..] == id';
  }

  function Joined(change: Change, doc: MessageDoc): Entry {
    Entry(change.ts, doc.id, doc.data, doc.created, doc.expire)
  }

  predicate DocExpired(doc: MessageDoc, now: Nanos) {
    doc.expire.Just? && now - doc.created > doc.expire.value
  }

  type Docs = map<string, MessageDoc>

  /** A collection of changes: in time order, one for each id. */
  predicate InOrder(log: seq<Change>, clock: Nanos) {
    && (forall i, j :: 0 <= i < j < |log| ==> log[i].ts <= log[j].ts && log[i].id != log[j].id)
    && (forall i :: 0 <= i < |log| ==> log[i].ts <= clock)
  }

  /** The change refers to a message that was posted. */
  predicate OfMessage(change: Change, posted: Docs) {
    change.path == MessagePath(change.id) && change.path in posted && posted[change.path].id == change.id
  }

  predicate MessageLog(log: seq<Change>, posted: Docs) {
    forall i :: 0 <= i < |log| ==> OfMessage(log[i], posted)
  }

  /** The log that pulls are about: each change with the message that it was made for. */
  function Join(log: seq<Change>, posted: Docs): (es: seq<Entry>)
    requires MessageLog(log, posted)
    ensures |es| == |log| && forall i :: 0 <= i < |log| ==> es[i] == Joined(log[i], posted[log[i].path])
  {
    if log == [] then [] else
    var last := log[|log| - 1];
    assert OfMessage(last, posted);
    Join(log[..|log| - 1], posted) + [Joined(last, posted[last.path])]
  }

  /** The ids of the messages whose documents have been deleted. */
  function Deleted(posted: Docs, docs: Docs): set<string> {
    set p | p in posted && p !in docs && p == MessagePath(posted[p].id) :: posted[p].id
  }

  /** Only what has expired is deleted. */
  predicate ExpiredOnly(posted: Docs, docs: Docs, now: Nanos) {
    forall p :: p in posted && p !in docs ==> DocExpired(posted[p], now)
  }

  /** A fetch finds the document of a change exactly when its id is not among the deleted ones. */
  lemma DeletedIff(change: Change, posted: Docs, docs: Docs)
    requires OfMessage(change, posted) && forall p :: p in docs ==> p in posted
    ensures Joined(change, posted[change.path]).id in Deleted(posted, docs) <==> change.path !in docs
  {
  }

  /** The order, uniqueness and expiry that the pull relies on. */
  lemma {:induction false} JoinIsLog(log: seq<Change>, posted: Docs, docs: Docs, clock: Nanos)
    requires InOrder(log, clock) && MessageLog(log, posted)
    requires (forall p :: p in docs ==> p in posted) && ExpiredOnly(posted, docs, clock)
    ensures IsLog(Join(log, posted))
    ensures forall e :: e in Join(log, posted) && e.id in Deleted(posted, docs) ==>
              Expired(e, clock) && e.expire.Just? && clock - e.created > e.expire.value
  {
    var es := Join(log, posted);
    forall i, j | 0 <= i < j < |es|
      ensures es[i].ts <= es[j].ts && es[i].id != es[j].id
    {
      assert OfMessage(log[i], posted) && OfMessage(log[j], posted);
    }
    forall e | e in es && e.id in Deleted(posted, docs)
      ensures Expired(e, clock)
    {
      var i :| 0 <= i < |es| && es[i] == e;
      assert OfMessage(log[i], posted);
      DeletedIff(log[i], posted, docs);
    }
  }

  /** What has expired stays expired. */
  lemma ExpiredLater(posted: Docs, docs: Docs, now: Nanos, later: Nanos)
    requires ExpiredOnly(posted, docs, now) && now <= later
    ensures ExpiredOnly(posted, docs, later)
  {
  }

  lemma ExpiredMore(posted: Docs, docs: Docs, path: string, doc: MessageDoc, now: Nanos)
    requires ExpiredOnly(posted, docs, now)
    ensures ExpiredOnly(posted[path := doc], docs[path := doc], now)
  {
  }

  lemma JoinGrows(log: seq<Change>, posted: Docs, posted': Docs)
    requires MessageLog(log, posted)
    requires forall p :: p in posted ==> p in posted' && posted'[p] == posted[p]
    ensures MessageLog(log, posted') && Join(log, posted') == Join(log, posted)
  {
    hide MessagePath;
    assert forall i :: 0 <= i < |log| ==> OfMessage(log[i], posted);
  }

  /** What the server deletes and what a listing prunes is decided by one condition on the message. */
  lemma ExpiredIff(change: Change, doc: MessageDoc, now: Nanos)
    ensures DocExpired(doc, now) <==> doc.expire.Just? && now - doc.created > doc.expire.value
    ensures Expired(Joined(change, doc), now) <==> doc.expire.Just? && now - doc.created > doc.expire.value
  {
  }

  /** Once the task has run, the documents deleted are exactly those of the log's messages that have expired. */
  lemma {:induction false} SweptIff(log: seq<Change>, posted: Docs, docs: Docs, now: Nanos)
    requires MessageLog(log, posted) && forall p :: p in docs ==> p in posted
    requires forall p :: p in posted && "/msgs/" <= p ==>
               (p !in docs <==> posted[p].expire.Just? && now - posted[p].created > posted[p].expire.value)
    ensures forall e :: e in Join(log, posted) ==>
              (e.id in Deleted(posted, docs) <==> e.expire.Just? && now - e.created > e.expire.value)
  {
    hide MessagePath, Deleted;
    var es := Join(log, posted);
    forall e | e in es
      ensures e.id in Deleted(posted, docs) <==> e.expire.Just? && now - e.created > e.expire.value
    {
      var i :| 0 <= i < |es| && es[i] == e;
      assert OfMessage(log[i], posted);
      DeletedIff(log[i], posted, docs);
      MessagePathsApart(log[i].id, log[i].id);
    }
  }

  lemma JoinMore(log: seq<Change>, posted: Docs, change: Change)
    requires MessageLog(log, posted) && OfMessage(change, posted)
    ensures MessageLog(log + [change], posted)
    ensures Join(log + [change], posted) == Join(log, posted) + [Joined(change, posted[change.path])]
  {
    hide MessagePath;
  }

  class Firestore {
    var docs: Docs
    var changes: map<string, seq<Change>>
    var clock: Nanos

    /** Every document that was ever created, as it was last created. */
    ghost var posted: Docs

    ghost predicate Valid()
      reads this
    {
      && (forall name :: name in changes ==> InOrder(changes[name], clock))
      && (forall p :: p in docs ==> p in posted && posted[p] == docs[p])
    }

    /** All changes are for messages, and only expired documents have been deleted. */
    ghost predicate Mail()
      reads this
    {
      (forall name :: name in changes ==> MessageLog(changes[name], posted)) && ExpiredOnly(posted, docs, clock)
    }

    function Changelog(name: string): seq<Change>
      reads `changes
    {
      if name in changes then changes[name] else []
    }

    ghost function LogOf(name: string): (log: seq<Entry>)
      requires Mail()
      reads this
    {
      Join(Changelog(name), posted)
    }

    /** The log from which `kid` reads its messages with `rid`. */
    ghost function PairLog(kid: string, rid: string): (log: seq<Entry>)
      requires Mail()
      reads this
    {
      LogOf(LogName(kid, rid))
    }

    ghost function Gone(): set<string>
      reads this
    {
      Deleted(posted, docs)
    }

    constructor ()
      ensures Valid() && Mail() && changes == map[] && docs == map[]
    {
      docs, changes, clock, posted := map[], map[], 0, map[];
    }

    method Create(path: string, doc: MessageDoc) returns (r: Status)
      requires Valid() && doc.created >= clock
      modifies `docs, `posted, `clock
      ensures Valid() && clock == doc.created && (r == OK <==> path !in old(docs)) && (r == OK || r == PathExists)
      ensures docs == if r == OK then old(docs)[path := doc] else old(docs)
      ensures posted == if r == OK then old(posted)[path := doc] else old(posted)
    {
      clock := doc.created;
      if path in docs {
        return PathExists;
      }
      docs, posted := docs[path := doc], posted[path := doc];
      r := OK;
    }

    method ChangeAdd(name: string, id: string, ref: string, at: Nanos) returns (r: Status)
      requires Valid() && at >= clock
      modifies `changes, `clock
      ensures Valid() && clock == at && (r == OK || r == PathExists)
      ensures r == OK <==> forall i :: 0 <= i < |old(Changelog(name))| ==> old(Changelog(name))[i].id != id
      ensures changes == if r == OK then old(changes)[name := old(Changelog(name)) + [Change(id, ref, at)]]
                         else old(changes)
    {
      var log := Changelog(name);
      clock := at;
      if i :| 0 <= i < |log| && log[i].id == id {
        return PathExists;
      }
      changes := changes[name := log + [Change(id, ref, at)]];
      r := OK;
    }

    method DeleteAll(paths: seq<string>)
      requires Valid()
      modifies `docs
      ensures Valid() && docs == old(docs) - (set p | p in paths)
    {
      for i := 0 to |paths|
        invariant docs == old(docs) - (set p | p in paths[..i])
      {
        assert paths[..i + 1] == paths[..i] + [paths[i]];
        docs := docs - {paths[i]};
      }
      assert paths[..|paths|] == paths;
    }

    /** The paths of the message documents that have expired. */
    method CollectExpired(now: Nanos) returns (paths: seq<string>)
      ensures forall p :: p in paths <==> p in docs && MESSAGES <= p && DocExpired(docs[p], now)
    {
      var left := docs.Keys;
      paths := [];
      while left != {}
        invariant left <= docs.Keys
        invariant forall p :: p in paths <==> p in docs && p !in left && MESSAGES <= p && DocExpired(docs[p], now)
        decreases left
      {
        var p :| p in left;
        left := left - {p};
        if MESSAGES <= p && DocExpired(docs[p], now) {
          paths := paths + [p];
        }
      }
    }

    /** Deletes the message documents that have expired; no log changes. */
    method TaskExpired(now: Nanos)
      requires Valid() && Mail() && now >= clock
      modifies `docs, `clock
      ensures Valid() && Mail() && clock == now
      ensures docs == map p | p in old(docs) && !(MESSAGES <= p && DocExpired(old(docs)[p], now)) :: old(docs)[p]
      ensures posted == old(posted) && forall p :: p in posted && "/msgs/" <= p ==>
                (p !in docs <==> posted[p].expire.Just? && now - posted[p].created > posted[p].expire.value)
      ensures old(Gone()) <= Gone() && forall name :: LogOf(name) == old(LogOf(name))
    {
      hide Join, MessageLog;
      var paths := CollectExpired(now);
      ExpiredLater(posted, docs, clock, now);
      clock := now;
      DeleteAll(paths);
    }

    lemma FreshId(name: string, id: string)
      requires Mail() && MessagePath(id) !in posted
      ensures forall i :: 0 <= i < |Changelog(name)| ==> Changelog(name)[i].id != id
    {
      hide MessagePath;
      assert forall i :: 0 <= i < |Changelog(name)| ==> OfMessage(Changelog(name)[i], posted);
    }

    /** Creating a message's document touches no log. */
    method CreateMessage(doc: MessageDoc)
      requires Valid() && Mail() && doc.created >= clock && MessagePath(doc.id) !in posted
      modifies `docs, `posted, `clock
      ensures Valid() && Mail() && clock == doc.created
      ensures posted == old(posted)[MessagePath(doc.id) := doc]
      ensures Gone() == old(Gone()) && forall name :: LogOf(name) == old(LogOf(name))
    {
      hide Join, MessagePath, InOrder, MessageLog, ExpiredOnly;
      ghost var before := posted;
      ExpiredLater(posted, docs, clock, doc.created);
      ExpiredMore(posted, docs, MessagePath(doc.id), doc, doc.created);
      var r := Create(MessagePath(doc.id), doc);
      forall name
        ensures MessageLog(old(Changelog(name)), posted)
        ensures Join(old(Changelog(name)), posted) == old(LogOf(name))
      {
        Logged(name, before);
        JoinGrows(old(Changelog(name)), before, posted);
      }
      forall name | name in changes
        ensures MessageLog(changes[name], posted)
      {
        assert changes[name] == old(Changelog(name));
      }
      assert forall p :: p in docs <==> p in old(docs) || p == MessagePath(doc.id);
    }

    lemma Logged(name: string, posted': Docs)
      requires forall n :: n in changes ==> MessageLog(changes[n], posted')
      ensures MessageLog(Changelog(name), posted')
    {
    }

    /** A change for a posted message, in a log that has none for it yet. */
    method AddMessage(name: string, id: string, at: Nanos)
      requires Valid() && Mail() && at >= clock
      requires MessagePath(id) in posted && posted[MessagePath(id)].id == id
      requires forall i :: 0 <= i < |Changelog(name)| ==> Changelog(name)[i].id != id
      modifies `changes, `clock
      ensures Valid() && Mail() && clock == at
      ensures changes == old(changes)[name := old(Changelog(name)) + [Change(id, MessagePath(id), at)]]
      ensures LogOf(name) == old(LogOf(name)) + [Joined(Change(id, MessagePath(id), at), posted[MessagePath(id)])]
      ensures forall n :: n != name ==> LogOf(n) == old(LogOf(n))
    {
      hide Join, MessagePath, InOrder, MessageLog, ExpiredOnly;
      ExpiredLater(posted, docs, clock, at);
      Logged(name, posted);
      JoinMore(Changelog(name), posted, Change(id, MessagePath(id), at));
      var r := ChangeAdd(name, id, MessagePath(id), at);
    }

    /**
     A message that is accepted comes last in the two logs between sender and recipient, once in each.
     Its document and its changes are dated by the server one after the other; its id was never drawn before.
     */
    method PostMessage(kid: string, rid: string, id: string, data: seq<byte>, expire: int,
                       created: Nanos, sent: Nanos, received: Nanos)
      returns (r: Status)
      requires Valid() && Mail() && clock <= created <= sent <= received
      requires IsID(kid) && IsID(rid) && MessagePath(id) !in posted
      modifies this
      ensures Valid() && Mail()
      ensures r == if expire > 86_400_000_000_000 || |data| > 16384 then Invalid else OK
      ensures r != OK ==> docs == old(docs) && changes == old(changes) && posted == old(posted)
      ensures r == OK ==> Gone() == old(Gone())
      ensures r == OK ==>
                var e := Entry(sent, id, data, created, if expire == 0 then Nothing else Just(expire));
                && PairLog(kid, rid) == old(PairLog(kid, rid)) + [e]
                && (kid != rid ==> PairLog(rid, kid) == old(PairLog(rid, kid)) + [e.(ts := received)])
                && (forall k, r | IsID(k) && IsID(r) && !(k == kid && r == rid) && !(k == rid && r == kid) ::
                      PairLog(k, r) == old(PairLog(k, r)))
                && (forall name | name != LogName(kid, rid) && name != LogName(rid, kid) :: LogOf(name) == old(LogOf(name)))
    {
      hide LogName, MessagePath, Join, InOrder, MessageLog, ExpiredOnly, Deleted;
      if expire > DAY {
        return Invalid;
      }
      if |data| > MAX_MESSAGE {
        return Invalid;
      }
      FreshId(LogName(kid, rid), id);
      FreshId(LogName(rid, kid), id);
      CreateMessage(MessageDoc(id, data, if expire == 0 then Nothing else Just(expire), created));
      AddMessage(LogName(kid, rid), id, sent);
      if kid != rid {
        LogNamesApart(kid, rid, rid, kid);
        assert Changelog(LogName(rid, kid)) == old(Changelog(LogName(rid, kid)));
        AddMessage(LogName(rid, kid), id, received);
      }
      forall k, r | IsID(k) && IsID(r) && !(k == kid && r == rid) && !(k == rid && r == kid)
        ensures LogName(k, r) != LogName(kid, rid) && LogName(k, r) != LogName(rid, kid)
      {
        LogNamesApart(k, r, kid, rid);
        LogNamesApart(k, r, rid, kid);
      }
      r := OK;
    }
  }
}
