/**
 Pulling messages by version cursor from an append-only log of changes. For one pair of keys the log is
 in non-decreasing time order; the cursor is a millisecond, a page at most a hundred changes. Changes
 stay for ever; the message documents they refer to are deleted some time after they have expired.
 */
module Pull {
  import opened GoTypes
  import opened Decimal

  /** Nanoseconds since 1970. */
  type Nanos = t: int | 0 <= t <= MAX_INT

  const MS := 1_000_000
  const LIMIT := 100

  /** A change together with the message document that was posted with it; `expire` is Nothing when unset. */
  datatype Entry = Entry(ts: Nanos, id: string, data: seq<byte>, created: Nanos, expire: Maybe<int>)

  predicate Ordered(log: seq<Entry>) {
    forall i, j :: 0 <= i < j < |log| ==> log[i].ts <= log[j].ts
  }

  /** Message ids are random and never drawn twice. */
  predicate Unique(log: seq<Entry>) {
    forall i, j :: 0 <= i < j < |log| ==> log[i].id != log[j].id
  }

  predicate IsLog(log: seq<Entry>) { Ordered(log) && Unique(log) }

  function Millis(t: Nanos): nat { t / MS }

  /** Where the changes from millisecond v on begin. */
  function From(log: seq<Entry>, v: int): (i: nat)
    ensures i <= |log|
    ensures i < |log| ==> Millis(log[i].ts) >= v
    ensures Ordered(log) ==> forall k :: 0 <= k < |log| ==> (k < i <==> Millis(log[k].ts) < v)
    decreases |log|
  {
    if log == [] then 0
    else if Millis(log[|log| - 1].ts) < v then |log|
    else
      var i := From(log[..|log| - 1], v);
      assert forall k :: 0 <= k < |log| - 1 ==> log[..|log| - 1][k] == log[k];
      i
  }

  function Min(a: int, b: int): int { if a < b then a else b }

  function Page(log: seq<Entry>, v: int): seq<Entry> {
    log[From(log, v)..Min(|log|, From(log, v) + LIMIT)]
  }

  /** The millisecond of the last change on the page. */
  function PageEnd(log: seq<Entry>, v: int): int {
    var page := Page(log, v);
    if page == [] then v else Millis(page[|page| - 1].ts)
  }

  predicate Expired(e: Entry, now: Nanos) {
    e.expire.Just? && now - e.created > e.expire.value
  }

  // ---------- server ----------

  /** The ascending change query, cut at the limit; `to` is the last timestamp, or the one asked for. */
  method Changes(log: seq<Entry>, ts: int, limit: nat) returns (out: seq<Entry>, to: int)
    requires Ordered(log) && ts % MS == 0
    ensures var from, most := From(log, ts / MS), if limit == 0 then 100 else limit;
            out == log[from..if |log| < from + most then |log| else from + most]
    ensures to == if out == [] then ts else out[|out| - 1].ts
  {
    hide From;
    var start := From(log, ts / MS);
    var query := log[start..];
    var most := if limit == 0 then LIMIT else limit;
    out := [];
    while |out| < |query|
      invariant |out| <= |query| && |out| < most
      invariant out == log[start..start + |out|]
      decreases |query| - |out|
    {
      assert query[|out|] == log[start + |out|];
      out := out + [query[|out|]];
      if |out| >= most {
        break;
      }
    }
    assert start + |out| == Min(|log|, start + most);
    to := ts;
    if |out| != 0 {
      to := out[|out| - 1].ts;
    }
  }

  datatype Reply = BadRequest | NotFound | Messages(entries: seq<Entry>, version: string)

  /** The entries whose documents have not been deleted; `gone` are the ids of the others. */
  function Left(page: seq<Entry>, gone: set<string>): seq<Entry> {
    if page == [] then [] else
    var last := page[|page| - 1];
    Left(page[..|page| - 1], gone) + if last.id in gone then [] else [last]
  }

  function Fresh(page: seq<Entry>, now: Nanos): seq<Entry> {
    if page == [] then [] else
    var last := page[|page| - 1];
    Fresh(page[..|page| - 1], now) + if Expired(last, now) then [] else [last]
  }

  /** Nothing is left of the page from the beginning: the server knows no messages, whatever comes later in the log. */
  predicate Stalls(log: seq<Entry>, gone: set<string>, v: int) {
    v == 0 && Left(Page(log, v), gone) == []
  }

  /** The cursor after a pull from v. */
  function NextVersion(log: seq<Entry>, gone: set<string>, v: int): int {
    if Stalls(log, gone, v) then 0 else PageEnd(log, v)
  }

  /** The messages in the reply. */
  function Served(log: seq<Entry>, gone: set<string>, v: int, now: Nanos): seq<Entry> {
    Fresh(Left(Page(log, v), gone), now)
  }

  /** Fetching the documents of a page: the ones that do not exist are passed over. */
  method GetAll(page: seq<Entry>, gone: set<string>) returns (docs: seq<Entry>)
    ensures docs == Left(page, gone)
  {
    docs := [];
    for i := 0 to |page|
      invariant docs == Left(page[..i], gone)
    {
      assert page[..i + 1][..i] == page[..i];
      if page[i].id !in gone {
        docs := docs + [page[i]];
      }
    }
    assert page[..|page|] == page;
  }

  method Prune(docs: seq<Entry>, now: Nanos) returns (messages: seq<Entry>)
    ensures messages == Fresh(docs, now)
  {
    hide Expired;
    messages := [];
    for i := 0 to |docs|
      invariant messages == Fresh(docs[..i], now)
    {
      assert docs[..i + 1][..i] == docs[..i];
      if !Expired(docs[i], now) {
        messages := messages + [docs[i]];
      }
    }
    assert docs[..|docs|] == docs;
  }

  /** The cursor in a request: an empty text is the beginning. */
  function Cursor(version: string): Maybe<int> {
    if version == "" then Just(0) else ParseInt(version)
  }

  /** Not found is decided on the documents that are left, not on the changes. */
  method ListMessages(log: seq<Entry>, gone: set<string>, version: string, now: Nanos) returns (r: Reply)
    requires Ordered(log)
    ensures r == BadRequest <==> version != "" && ParseInt(version).Nothing?
    ensures version == "" || ParseInt(version).Just? ==>
              var v := if version == "" then 0 else ParseInt(version).value;
              r == if Stalls(log, gone, v) then NotFound
                   else Messages(Served(log, gone, v, now), FormatInt(PageEnd(log, v)))
  {
    hide ParseInt, FormatInt, From, Left, Fresh;
    var v := 0;
    if version != "" {
      var i := ParseInt(version);
      if i.Nothing? {
        return BadRequest;
      }
      v := i.value;
    }
    var chngs, to := Changes(log, v * MS, LIMIT);
    var docs := GetAll(chngs, gone);
    var versionNext := to / MS;
    if docs == [] && v == 0 {
      return NotFound;
    }
    var messages := Prune(docs, now);
    r := Messages(messages, FormatInt(versionNext));
  }

  // ---------- client ----------

  datatype Path = Path(collection: string, name: string)

  function Collection(kid: string, rid: string): string { "messages-" + kid + "-" + rid }

  /** Newest first in path order: the time counts down from the largest 64-bit number. */
  function PathOf(c: string, e: Entry): Path {
    Path(c, Digits(MAX_INT - Millis(e.created)) + "-" + e.id)
  }

  type Docs = map<Path, seq<byte>>

  function Saved(docs: Docs, c: string, es: seq<Entry>): Docs {
    if es == [] then docs else
    var last := es[|es| - 1];
    Saved(docs, c, es[..|es| - 1])[PathOf(c, last) := last.data]
  }

  /** The cursor text that a pull saves. */
  function NextText(log: seq<Entry>, gone: set<string>, v: int): string {
    if Stalls(log, gone, v) then "" else FormatInt(PageEnd(log, v))
  }

  class Service {
    var docs: Docs
    var versions: map<string, string>

    constructor ()
      ensures docs == map[] && versions == map[]
    {
      docs, versions := map[], map[];
    }

    /**
     One cursor per kid: it is saved under the kid alone, whoever the recipient is. `writes` tells how
     many writes to the local database succeed; the cursor is written last.
     */
    method PullMessages(kid: string, rid: string, log: seq<Entry>, gone: set<string>, now: Nanos, writes: nat)
      returns (ok: bool)
      requires Ordered(log)
      modifies this
      ensures var v := Cursor(if kid in old(versions) then old(versions)[kid] else "");
              if v.Nothing? then !ok && docs == old(docs) && versions == old(versions)
              else
                var es := Served(log, gone, v.value, now);
                && (ok <==> |es| < writes)
                && docs == Saved(old(docs), Collection(kid, rid), es[..Min(writes, |es|)])
                && versions == if ok then old(versions)[kid := NextText(log, gone, v.value)] else old(versions)
    {
      hide ParseInt, Page, Left, FormatInt, PageEnd, PathOf;
      var version := "";
      if kid in versions {
        version := versions[kid];
      }
      var reply := ListMessages(log, gone, version, now);
      var msgs := [];
      match reply {
        case BadRequest => return false;
        case NotFound =>
          version := "";
          EmptyFresh(now);
        case Messages(entries, next) => msgs, version := entries, next;
      }
      var c := Collection(kid, rid);
      for i := 0 to |msgs|
        invariant i <= writes
        invariant docs == Saved(old(docs), c, msgs[..i]) && versions == old(versions)
      {
        if i == writes {
          return false;
        }
        assert msgs[..i + 1][..i] == msgs[..i];
        docs := docs[PathOf(c, msgs[i]) := msgs[i].data];
      }
      if |msgs| == writes {
        return false;
      }
      versions := versions[kid := version];
      ok := true;
    }
  }

  lemma EmptyFresh(now: Nanos)
    ensures Fresh([], now) == []
  {
  }

  /** The text that was saved is read back as the cursor. */
  lemma CursorReadsBack(log: seq<Entry>, gone: set<string>, v: int)
    requires 0 <= v <= MAX_INT
    ensures Cursor(NextText(log, gone, v)) == Just(NextVersion(log, gone, v))
  {
    hide From, ParseInt, FormatInt, Left;
    FormatParse(PageEnd(log, v));
    FormatNotEmpty(PageEnd(log, v));
  }

  lemma FormatNotEmpty(n: int)
    ensures FormatInt(n) != ""
  {
  }
}
