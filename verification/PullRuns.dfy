/** What repeated pulls leave on the client: nothing missing behind the cursor, and when all is reached. */
module PullRuns {
  import opened GoTypes
  import opened Decimal
  import opened KeyOrder
  import opened Pull

  // ---------- one pull ----------

  lemma PathsApart(c: string, e: Entry, c': string, e': Entry)
    ensures PathOf(c, e) == PathOf(c', e') ==> c == c' && e.id == e'.id
  {
    DashSplits(MAX_INT - Millis(e.created), e.id, MAX_INT - Millis(e'.created), e'.id);
  }

  lemma {:induction false} SavedElsewhere(docs: Docs, c: string, es: seq<Entry>, p: Path)
    requires forall i :: 0 <= i < |es| ==> PathOf(c, es[i]) != p
    ensures p in Saved(docs, c, es) <==> p in docs
    ensures p in docs ==> Saved(docs, c, es)[p] == docs[p]
    decreases |es|
  {
    hide PathOf;
    if es != [] {
      SavedElsewhere(docs, c, es[..|es| - 1], p);
    }
  }

  predicate Holds(docs: Docs, c: string, e: Entry) {
    PathOf(c, e) in docs && docs[PathOf(c, e)] == e.data
  }

  /** Ids tell the entries apart, as they do in a log. */
  predicate ById(es: seq<Entry>, e: Entry) {
    forall i :: 0 <= i < |es| && es[i].id == e.id ==> es[i] == e
  }

  lemma {:induction false} SavedHolds(docs: Docs, c: string, es: seq<Entry>, e: Entry)
    requires ById(es, e)
    ensures Holds(docs, c, e) || e in es ==> Holds(Saved(docs, c, es), c, e)
    ensures Holds(Saved(docs, c, es), c, e) ==> Holds(docs, c, e) || e in es
    decreases |es|
  {
    hide PathOf;
    if es != [] {
      var last := es[|es| - 1];
      SavedHolds(docs, c, es[..|es| - 1], e);
      PathsApart(c, last, c, e);
    }
  }

  lemma {:induction false} FreshIn(page: seq<Entry>, now: Nanos, e: Entry)
    ensures e in Fresh(page, now) <==> e in page && !Expired(e, now)
    decreases |page|
  {
    hide Expired;
    if page != [] {
      FreshIn(page[..|page| - 1], now, e);
    }
  }

  lemma {:induction false} LeftIn(page: seq<Entry>, gone: set<string>, e: Entry)
    ensures e in Left(page, gone) <==> e in page && e.id !in gone
    decreases |page|
  {
    if page != [] {
      LeftIn(page[..|page| - 1], gone, e);
    }
  }

  lemma ServedIn(log: seq<Entry>, gone: set<string>, v: int, now: Nanos, e: Entry)
    ensures e in Served(log, gone, v, now) <==> e in Page(log, v) && e.id !in gone && !Expired(e, now)
  {
    hide Page, Left, Fresh, Expired;
    LeftIn(Page(log, v), gone, e);
    FreshIn(Left(Page(log, v), gone), now, e);
  }

  /** A message on the page is served exactly when its document is left and its expiry, if any, has not passed. */
  lemma ServedIff(log: seq<Entry>, gone: set<string>, v: int, now: Nanos, e: Entry)
    ensures e in Served(log, gone, v, now) <==>
              e in Page(log, v) && e.id !in gone && (e.expire.Nothing? || now - e.created <= e.expire.value)
  {
    hide Served, Page;
    ServedIn(log, gone, v, now, e);
  }

  /** Messages are served in the order of the page, each as often as it is there. */
  lemma ServedMore(page: seq<Entry>, e: Entry, gone: set<string>, now: Nanos)
    ensures Fresh(Left([], gone), now) == []
    ensures Fresh(Left(page + [e], gone), now) == Fresh(Left(page, gone), now) +
              if e.id !in gone && (e.expire.Nothing? || now - e.created <= e.expire.value) then [e] else []
  {
    assert (page + [e])[..|page|] == page && (page + [e])[|page|] == e;
    var left := Left(page, gone);
    assert left + [] == left && Fresh(left, now) + [] == Fresh(left, now);
    if e.id !in gone {
      assert (left + [e])[..|left|] == left && (left + [e])[|left|] == e;
    }
  }

  /** The page: the first hundred changes from the millisecond v on. */
  lemma PageIs(log: seq<Entry>, v: int) returns (i: nat)
    requires Ordered(log)
    ensures i <= |log| && forall k :: 0 <= k < |log| ==> (k < i <==> log[k].ts < v * 1_000_000)
    ensures Page(log, v) == log[i..if |log| < i + 100 then |log| else i + 100]
  {
    i := From(log, v);
    forall k | 0 <= k < |log|
      ensures k < i <==> log[k].ts < v * 1_000_000
    {
      BelowMillis(log[k].ts, v);
    }
  }

  lemma BelowMillis(t: Nanos, v: int)
    ensures Millis(t) < v <==> t < v * 1_000_000
  {
  }

  /** The next cursor: still the beginning when nothing is left of the page from there, else the millisecond of the last change. */
  lemma NextIs(log: seq<Entry>, gone: set<string>, v: int)
    ensures var page, next := Page(log, v), NextVersion(log, gone, v);
            && (v == 0 && (forall e :: e in page ==> e.id in gone) ==> next == 0)
            && (v != 0 || (exists e :: e in page && e.id !in gone) ==>
                  next == if page == [] then v else page[|page| - 1].ts / 1_000_000)
    ensures NextText(log, gone, v) == "" <==> v == 0 && forall e :: e in Page(log, v) ==> e.id in gone
  {
    hide Page, Left, FormatInt;
    var page := Page(log, v);
    FormatNotEmpty(PageEnd(log, v));
    if Left(page, gone) != [] {
      LeftIn(page, gone, Left(page, gone)[0]);
    } else {
      forall e | e in page
        ensures e.id in gone
      {
        LeftIn(page, gone, e);
      }
    }
  }

  /** Saved messages of different pairs of keys never share a place. */
  lemma CollectionsApart(kid: string, rid: string, kid': string, rid': string)
    requires '-' !in kid && '-' !in rid && '-' !in kid' && '-' !in rid'
    ensures Collection(kid, rid) == Collection(kid', rid') <==> kid == kid' && rid == rid'
  {
    assert Collection(kid, rid) == "messages-" + (kid + "-" + rid);
    assert Collection(kid', rid') == "messages-" + (kid' + "-" + rid');
    PairsApart("messages-", kid, rid, kid', rid');
  }

  lemma InLog(log: seq<Entry>, v: int, e: Entry)
    requires e in Page(log, v)
    ensures e in log
  {
  }

  lemma ServedIds(log: seq<Entry>, gone: set<string>, v: int, now: Nanos, e: Entry)
    requires IsLog(log) && e in log
    ensures ById(Served(log, gone, v, now), e)
  {
    hide Page, Served, IsLog;
    var es := Served(log, gone, v, now);
    forall i | 0 <= i < |es| && es[i].id == e.id
      ensures es[i] == e
    {
      assert es[i] in es;
      ServedIn(log, gone, v, now, es[i]);
      InLog(log, v, es[i]);
      SameEntry(log, es[i], e);
    }
  }

  lemma SameEntry(log: seq<Entry>, e: Entry, e': Entry)
    requires IsLog(log) && e in log && e' in log && e.id == e'.id
    ensures e == e'
  {
  }

  datatype State = State(docs: Docs, v: int)

  /** Service.PullMessages for one pair of keys, read off its contract: all writes succeed, or only some. */
  function PullOnce(s: State, c: string, log: seq<Entry>, gone: set<string>, now: Nanos): State {
    State(Saved(s.docs, c, Served(log, gone, s.v, now)), NextVersion(log, gone, s.v))
  }

  function PullPart(s: State, c: string, log: seq<Entry>, gone: set<string>, now: Nanos, writes: nat): State {
    var es := Served(log, gone, s.v, now);
    if |es| < writes then PullOnce(s, c, log, gone, now) else State(Saved(s.docs, c, es[..writes]), s.v)
  }

  /** Exactly what a pull adds: the entries of the page that are neither deleted nor expired. */
  lemma PullAdds(s: State, c: string, log: seq<Entry>, gone: set<string>, now: Nanos, e: Entry)
    requires IsLog(log) && e in log
    ensures Holds(PullOnce(s, c, log, gone, now).docs, c, e) <==>
              Holds(s.docs, c, e) || (e in Page(log, s.v) && e.id !in gone && !Expired(e, now))
  {
    hide Saved, Served, Page, Holds, Expired, NextVersion;
    ServedIds(log, gone, s.v, now, e);
    SavedHolds(s.docs, c, Served(log, gone, s.v, now), e);
    ServedIn(log, gone, s.v, now, e);
  }

  /** The server deletes only what has expired. */
  predicate OnlyExpired(log: seq<Entry>, gone: set<string>, now: Nanos) {
    forall e :: e in log && e.id in gone ==> Expired(e, now)
  }

  // ---------- the order of the saved messages ----------

  lemma {:induction false} DigitsLength(n: nat, k: nat)
    requires k >= 1 && Pow10(k - 1) <= n < Pow10(k) && (k > 1 || n < 10)
    ensures |Digits(n)| == k
    decreases k
  {
    if k > 1 {
      assert Pow10(k) == 10 * Pow10(k - 1) && Pow10(k - 1) == 10 * Pow10(k - 2);
      DigitsLength(n / 10, k - 1);
    } else {
      assert Pow10(1) == 10 * Pow10(0);
    }
  }

  /** Among numbers of one length, text order is number order. */
  lemma {:induction false} DigitsOrder(m: nat, n: nat) returns (k: nat)
    requires m < n && |Digits(m)| == |Digits(n)|
    ensures FirstBelow(Digits(m), Digits(n), k)
    decreases n
  {
    hide Digits;
    if n < 10 {
      OneDigit(m);
      OneDigit(n);
      k := 0;
    } else {
      LastDigit(n);
      LastDigit(m);
      if m / 10 < n / 10 {
        k := DigitsOrder(m / 10, n / 10);
        FrontBelow(Digits(m), Digits(n), k);
      } else {
        k := |Digits(m)| - 1;
      }
    }
  }

  /** The texts differ at k for the first time, and there the first text's character is smaller. */
  predicate FirstBelow(a: string, b: string, k: nat) {
    k < |a| && k < |b| && a[..k] == b[..k] && a[k] < b[k]
  }

  lemma FrontBelow(a: string, b: string, k: nat)
    requires a != [] && b != [] && FirstBelow(a[..|a| - 1], b[..|b| - 1], k)
    ensures FirstBelow(a, b, k)
  {
    assert a[..k] == a[..|a| - 1][..k] && b[..k] == b[..|b| - 1][..k];
  }

  lemma OneDigit(n: nat)
    requires n < 10
    ensures Digits(n) == [DigitChar(n)]
  {
  }

  lemma LastDigit(n: nat)
    requires n >= 10 || |Digits(n)| > 1
    ensures n >= 10 && var s := Digits(n); s[..|s| - 1] == Digits(n / 10) && s[|s| - 1] == DigitChar(n % 10)
  {
  }

  lemma Pow10Values()
    ensures Pow10(18) == 1_000_000_000_000_000_000 && Pow10(19) == 10 * Pow10(18)
  {
    assert Pow10(3) == 10 * Pow10(2) == 100 * Pow10(1) == 1000 * Pow10(0);
    assert Pow10(6) == 10 * Pow10(5) == 100 * Pow10(4) == 1000 * Pow10(3);
    assert Pow10(9) == 10 * Pow10(8) == 100 * Pow10(7) == 1000 * Pow10(6);
    assert Pow10(12) == 10 * Pow10(11) == 100 * Pow10(10) == 1000 * Pow10(9);
    assert Pow10(15) == 10 * Pow10(14) == 100 * Pow10(13) == 1000 * Pow10(12);
    assert Pow10(18) == 10 * Pow10(17) == 100 * Pow10(16) == 1000 * Pow10(15);
  }

  /** In the order of the store the younger of two messages, by the millisecond, comes first. */
  lemma NewestFirst(c: string, younger: Entry, older: Entry)
    requires older.created / 1_000_000 < younger.created / 1_000_000
    ensures Less(PathOf(c, younger).name, PathOf(c, older).name)
  {
    hide Pow10, Digits, Less;
    var m, n := MAX_INT - Millis(younger.created), MAX_INT - Millis(older.created);
    Pow10Values();
    DigitsLength(m, 19);
    DigitsLength(n, 19);
    var k := DigitsOrder(m, n);
    var a, b := PathOf(c, younger).name, PathOf(c, older).name;
    assert a[..k] == Digits(m)[..k] && b[..k] == Digits(n)[..k];
    DifferenceLess(a, b, k);
  }

  // ---------- nothing missing behind the cursor ----------

  predicate GapFree(docs: Docs, c: string, log: seq<Entry>, v: int, now: Nanos) {
    forall e :: e in log && Millis(e.ts) < v && !Expired(e, now) ==> Holds(docs, c, e)
  }

  lemma InPage(log: seq<Entry>, v: int, k: nat)
    requires k < |log|
    ensures From(log, v) <= k < From(log, v) + LIMIT ==> log[k] in Page(log, v)
  {
    hide From;
    var i := From(log, v);
    if i <= k < i + LIMIT {
      assert Page(log, v)[k - i] == log[k];
    }
  }

  lemma PageIn(log: seq<Entry>, v: int, e: Entry)
    requires Ordered(log) && e in Page(log, v)
    ensures v <= Millis(e.ts)
  {
    hide Millis;
    var page := Page(log, v);
    var j :| 0 <= j < |page| && page[j] == e;
    assert log[From(log, v) + j] == e;
  }

  /** What follows the page is not older than the new cursor. */
  lemma BeyondPage(log: seq<Entry>, v: int, k: nat)
    requires Ordered(log) && From(log, v) + LIMIT <= k < |log|
    ensures PageEnd(log, v) <= Millis(log[k].ts)
  {
    hide From;
    var page := Page(log, v);
    assert page[|page| - 1] == log[From(log, v) + LIMIT - 1];
    assert log[From(log, v) + LIMIT - 1].ts <= log[k].ts;
  }

  lemma EndAdvances(log: seq<Entry>, v: int)
    requires Ordered(log)
    ensures v <= PageEnd(log, v)
  {
    hide From, Millis;
    var page := Page(log, v);
    if page != [] {
      PageIn(log, v, page[|page| - 1]);
    }
  }

  lemma NextAdvances(log: seq<Entry>, gone: set<string>, v: int)
    requires Ordered(log)
    ensures v <= NextVersion(log, gone, v) <= PageEnd(log, v)
  {
    hide PageEnd, Left, Page;
    EndAdvances(log, v);
  }

  /** The page holds all from the old cursor up to the new one, and nothing from before the old one. */
  lemma {:induction false} PageSpans(log: seq<Entry>, gone: set<string>, v: int, e: Entry)
    requires IsLog(log) && e in log
    ensures Millis(e.ts) < v ==> e !in Page(log, v)
    ensures v <= Millis(e.ts) < NextVersion(log, gone, v) ==> e in Page(log, v)
    ensures v <= NextVersion(log, gone, v)
  {
    hide Page, NextVersion, PageEnd, Millis;
    var k :| 0 <= k < |log| && log[k] == e;
    NextAdvances(log, gone, v);
    InPage(log, v, k);
    if From(log, v) + LIMIT <= k {
      BeyondPage(log, v, k);
    }
    if e in Page(log, v) {
      PageIn(log, v, e);
    }
  }

  /**
   A pull neither makes nor mends a gap: what is missing behind the cursor afterwards is exactly what
   was missing behind it before and has not expired.
   */
  lemma {:induction false} PullKeepsGapFreeIff(s: State, c: string, log: seq<Entry>, gone: set<string>, now: Nanos)
    requires IsLog(log) && OnlyExpired(log, gone, now)
    ensures var t := PullOnce(s, c, log, gone, now);
            GapFree(t.docs, c, log, t.v, now) <==> GapFree(s.docs, c, log, s.v, now)
  {
    hide Page, NextVersion, Saved, Served, Expired, Holds, Millis;
    var t := PullOnce(s, c, log, gone, now);
    forall e | e in log
      ensures Millis(e.ts) < s.v ==> (Holds(t.docs, c, e) <==> Holds(s.docs, c, e)) && Millis(e.ts) < t.v
      ensures s.v <= Millis(e.ts) < t.v && !Expired(e, now) ==> Holds(t.docs, c, e)
    {
      PullAdds(s, c, log, gone, now, e);
      PageSpans(log, gone, s.v, e);
    }
  }

  // ---------- runs with a growing log ----------

  datatype Turn = Turn(log: seq<Entry>, gone: set<string>, now: Nanos, writes: nat)

  predicate Growing(turns: seq<Turn>) {
    && (forall i :: 0 <= i < |turns| ==> IsLog(turns[i].log) && OnlyExpired(turns[i].log, turns[i].gone, turns[i].now))
    && (forall i, j :: 0 <= i < j < |turns| ==>
          turns[i].log <= turns[j].log && turns[i].gone <= turns[j].gone && turns[i].now <= turns[j].now)
  }

  const INIT := State(map[], 0)

  function AfterPulls(c: string, turns: seq<Turn>): State {
    if turns == [] then INIT else
    var last := turns[|turns| - 1];
    PullPart(AfterPulls(c, turns[..|turns| - 1]), c, last.log, last.gone, last.now, last.writes)
  }

  /** The cursor is the millisecond of an entry, or still at the beginning. */
  predicate OnEntry(log: seq<Entry>, v: int) {
    v == 0 || exists e :: e in log && Millis(e.ts) == v
  }

  lemma GrowKeepsGapFree(docs: Docs, c: string, log: seq<Entry>, v: int, now: Nanos, log': seq<Entry>, now': Nanos)
    requires IsLog(log') && log <= log' && now <= now' && OnEntry(log, v) && GapFree(docs, c, log, v, now)
    ensures GapFree(docs, c, log', v, now')
  {
    hide Holds;
    forall k | |log| <= k < |log'|
      ensures v <= Millis(log'[k].ts)
    {
      if v != 0 {
        var b :| b in log && Millis(b.ts) == v;
        var j :| 0 <= j < |log| && log[j] == b;
        assert log'[j].ts <= log'[k].ts;
      }
    }
    forall e | e in log' && Millis(e.ts) < v
      ensures e in log
    {
      var k :| 0 <= k < |log'| && log'[k] == e;
      assert log[k] == e;
    }
  }

  lemma NextOnEntry(log: seq<Entry>, gone: set<string>, v: int)
    requires OnEntry(log, v)
    ensures OnEntry(log, NextVersion(log, gone, v))
  {
    hide From, Millis, Left;
    var page := Page(log, v);
    if page != [] {
      assert page[|page| - 1] in log;
    }
  }

  /**
   In every run of pulls over a growing log whose expired documents disappear, also when pulls stop
   part-way: no message older than the saved cursor is missing on the client unless it has expired by now.
   */
  lemma {:induction false} NothingMissingBehindCursor(c: string, turns: seq<Turn>, now: Turn)
    requires Growing(turns + [now])
    ensures var s := AfterPulls(c, turns); GapFree(s.docs, c, now.log, s.v, now.now) && OnEntry(now.log, s.v)
    decreases |turns|
  {
    hide PullPart, GapFree, OnEntry, OnlyExpired, IsLog, Holds;
    var all := turns + [now];
    assert all[|turns|] == now;
    if turns == [] {
      StartGapFree(c, now.log, now.now);
    } else {
      var front, last := turns[..|turns| - 1], turns[|turns| - 1];
      assert all[|turns| - 1] == last;
      assert front + [last] == turns && forall i :: 0 <= i < |turns| ==> turns[i] == all[i];
      NothingMissingBehindCursor(c, front, last);
      PullStaysGapFree(AfterPulls(c, front), c, last, now.log, now.now);
    }
  }

  lemma StartGapFree(c: string, log: seq<Entry>, now: Nanos)
    ensures GapFree(INIT.docs, c, log, INIT.v, now) && OnEntry(log, INIT.v)
  {
  }

  lemma PullStaysGapFree(s: State, c: string, turn: Turn, log': seq<Entry>, now': Nanos)
    requires IsLog(turn.log) && OnlyExpired(turn.log, turn.gone, turn.now)
    requires IsLog(log') && turn.log <= log' && turn.now <= now'
    requires GapFree(s.docs, c, turn.log, s.v, turn.now) && OnEntry(turn.log, s.v)
    ensures var t := PullPart(s, c, turn.log, turn.gone, turn.now, turn.writes);
            GapFree(t.docs, c, log', t.v, now') && OnEntry(log', t.v)
  {
    hide GapFree, IsLog, OnlyExpired, NextVersion, Saved, Served, Millis;
    PullKeepsGapFreeIff(s, c, turn.log, turn.gone, turn.now);
    PartKeepsGapFree(s, c, turn);
    NextOnEntry(turn.log, turn.gone, s.v);
    var t := PullPart(s, c, turn.log, turn.gone, turn.now, turn.writes);
    GrowKeepsGapFree(t.docs, c, turn.log, t.v, turn.now, log', now');
  }

  lemma PartKeepsGapFree(s: State, c: string, turn: Turn)
    requires IsLog(turn.log) && GapFree(s.docs, c, turn.log, s.v, turn.now)
    ensures var es := Served(turn.log, turn.gone, s.v, turn.now);
            GapFree(Saved(s.docs, c, es[..Min(turn.writes, |es|)]), c, turn.log, s.v, turn.now)
  {
    hide Served, Saved, Expired, Holds, Millis;
    var es := Served(turn.log, turn.gone, s.v, turn.now);
    forall e | e in turn.log
      ensures Holds(s.docs, c, e) ==> Holds(Saved(s.docs, c, es[..Min(turn.writes, |es|)]), c, e)
    {
      ServedIds(turn.log, turn.gone, s.v, turn.now, e);
      SavedHolds(s.docs, c, es[..Min(turn.writes, |es|)], e);
    }
  }

  // ---------- re-reading ----------

  /** Everything under the collection is an entry of the log, with its own bytes. */
  predicate OnlyLog(docs: Docs, c: string, log: seq<Entry>) {
    forall p :: p in docs && p.collection == c ==> exists e :: e in log && p == PathOf(c, e) && docs[p] == e.data
  }

  /** A pull, complete or not, never rewrites a document to other bytes, however often it reads an entry again. */
  lemma RereadKeeps(s: State, c: string, turn: Turn)
    requires IsLog(turn.log) && OnlyLog(s.docs, c, turn.log)
    ensures var t := PullPart(s, c, turn.log, turn.gone, turn.now, turn.writes);
            && OnlyLog(t.docs, c, turn.log)
            && forall p :: p in s.docs ==> p in t.docs && t.docs[p] == s.docs[p]
  {
    hide Saved, Served, Page, PathOf, NextVersion;
    var log := turn.log;
    var t, all := PullPart(s, c, log, turn.gone, turn.now, turn.writes), Served(log, turn.gone, s.v, turn.now);
    var es := all[..Min(turn.writes, |all|)];
    assert |all| < turn.writes ==> es == all;
    forall p | p in t.docs || p in s.docs
      ensures p in t.docs && (p in s.docs ==> t.docs[p] == s.docs[p])
      ensures p.collection == c ==> exists e :: e in log && p == PathOf(c, e) && t.docs[p] == e.data
    {
      if i :| 0 <= i < |es| && PathOf(c, es[i]) == p {
        assert es[i] in all;
        ServedIn(log, turn.gone, s.v, turn.now, es[i]);
        InLog(log, s.v, es[i]);
        ServedIds(log, turn.gone, s.v, turn.now, es[i]);
        SavedHolds(s.docs, c, es, es[i]);
        if p in s.docs && p.collection == c {
          var e :| e in log && p == PathOf(c, e) && s.docs[p] == e.data;
          PathsApart(c, es[i], c, e);
          SameEntry(log, es[i], e);
        } else {
          PathCollection(c, es[i]);
        }
      } else {
        SavedElsewhere(s.docs, c, es, p);
      }
    }
  }

  lemma PathCollection(c: string, e: Entry)
    ensures PathOf(c, e).collection == c
  {
  }

  // ---------- when repeated pulls reach the whole log ----------

  /** The cursor after n pulls of one log from the beginning, as long as the server answers. */
  function PlainCursor(log: seq<Entry>, n: nat): int {
    if n == 0 then 0 else PageEnd(log, PlainCursor(log, n - 1))
  }

  function Start(log: seq<Entry>, n: nat): nat { From(log, PlainCursor(log, n)) }

  predicate PlainlyRead(log: seq<Entry>, n: nat, k: nat)
    requires k < |log|
  {
    exists m :: 0 <= m < n && log[k] in Page(log, PlainCursor(log, m))
  }

  /** Position i begins a millisecond of which a whole page and still more of the log follow. */
  predicate FullMillisecond(log: seq<Entry>, i: nat) {
    && i + LIMIT < |log| && (i == 0 || Millis(log[i - 1].ts) < Millis(log[i].ts))
    && Millis(log[i].ts) == Millis(log[i + LIMIT - 1].ts)
  }

  /** Where the page after v ends, the next one begins at the first entry of that millisecond. */
  lemma NextStart(log: seq<Entry>, v: int)
    requires IsLog(log) && From(log, v) < |log|
    ensures var s, l, v' := From(log, v), Min(|log|, From(log, v) + LIMIT) - 1, PageEnd(log, v);
            && v' == Millis(log[l].ts) && s <= From(log, v') <= l
            && Millis(log[From(log, v')].ts) == v'
  {
    hide Millis, From;
    var s, l := From(log, v), Min(|log|, From(log, v) + LIMIT) - 1;
    var page := Page(log, v);
    assert page[|page| - 1] == log[l];
    var v' := PageEnd(log, v);
    var s' := From(log, v');
    FromAt(log, v, s);
    FromAt(log, v', l);
    EndAdvances(log, v);
    if s' < s {
      FromAt(log, v, s');
      FromAt(log, v', s');
    }
    MillisOrdered(log, s', l);
    FromAt(log, v', s');
  }

  lemma FromAt(log: seq<Entry>, v: int, k: nat)
    requires IsLog(log) && k < |log|
    ensures k < From(log, v) <==> Millis(log[k].ts) < v
  {
    hide Millis;
  }

  lemma MillisOrdered(log: seq<Entry>, j: nat, k: nat)
    requires IsLog(log) && j <= k < |log|
    ensures Millis(log[j].ts) <= Millis(log[k].ts)
  {
  }

  lemma {:induction false} ReadUpTo(log: seq<Entry>, n: nat, k: nat)
    requires IsLog(log) && k < |log| && k < Start(log, n) + LIMIT
    ensures PlainlyRead(log, n + 1, k)
    decreases n
  {
    hide Millis, From, Page, PageEnd, IsLog;
    if Start(log, n) <= k {
      InPage(log, PlainCursor(log, n), k);
    } else if n == 0 {
      FromZero(log);
    } else {
      StartsClose(log, n - 1);
      ReadUpTo(log, n - 1, k);
    }
  }

  lemma FromZero(log: seq<Entry>)
    ensures From(log, 0) == 0
  {
    assert log != [] ==> Millis(log[|log| - 1].ts) >= 0;
  }

  lemma StartsClose(log: seq<Entry>, n: nat)
    requires IsLog(log)
    ensures Start(log, n) <= Start(log, n + 1) < Start(log, n) + LIMIT
  {
    hide Millis, IsLog;
    var v := PlainCursor(log, n);
    if From(log, v) < |log| {
      NextStart(log, v);
    } else {
      assert Page(log, v) == [];
    }
  }

  lemma MovesOn(log: seq<Entry>, v: int)
    requires IsLog(log) && From(log, v) + LIMIT < |log| && !FullMillisecond(log, From(log, v))
    ensures From(log, PageEnd(log, v)) > From(log, v)
  {
    hide Millis, From, PageEnd, IsLog;
    var s := From(log, v);
    NextStart(log, v);
    FromAt(log, v, s);
    if s > 0 {
      FromAt(log, v, s - 1);
    }
  }

  /** Each pull moves on, or the rest of the log fits on a page. */
  lemma {:induction false} Progress(log: seq<Entry>, n: nat)
    requires IsLog(log) && forall i: nat :: !FullMillisecond(log, i)
    ensures Start(log, n) >= n || Start(log, n) + LIMIT >= |log|
    decreases n
  {
    hide IsLog, From, FullMillisecond, PageEnd;
    if n > 0 {
      Progress(log, n - 1);
      StartsClose(log, n - 1);
      if Start(log, n - 1) + LIMIT < |log| {
        MovesOn(log, PlainCursor(log, n - 1));
      }
    }
  }

  lemma StaysBefore(log: seq<Entry>, i: nat, v: int)
    requires IsLog(log) && FullMillisecond(log, i) && From(log, v) <= i
    ensures From(log, PageEnd(log, v)) <= i
  {
    hide Millis, From, PageEnd, IsLog;
    NextStart(log, v);
    var l := From(log, v) + LIMIT - 1;
    if i <= l {
      MillisOrdered(log, i, l);
      MillisOrdered(log, l, i + LIMIT - 1);
      FromAt(log, PageEnd(log, v), i);
    }
  }

  /** No pull gets past a full millisecond. */
  lemma {:induction false} Stuck(log: seq<Entry>, i: nat, n: nat)
    requires IsLog(log) && FullMillisecond(log, i)
    ensures i + LIMIT < |log| && Start(log, n) <= i && log[i + LIMIT] !in Page(log, PlainCursor(log, n))
    decreases n
  {
    hide IsLog, FullMillisecond, From, PageEnd, Page;
    FullInside(log, i);
    if n == 0 {
      FromZero(log);
    } else {
      Stuck(log, i, n - 1);
      StaysBefore(log, i, PlainCursor(log, n - 1));
    }
    NotInPage(log, PlainCursor(log, n), i + LIMIT);
  }

  lemma NotInPage(log: seq<Entry>, v: int, k: nat)
    requires IsLog(log) && k < |log| && From(log, v) + LIMIT <= k
    ensures log[k] !in Page(log, v)
  {
    hide From, Millis;
  }

  lemma FullInside(log: seq<Entry>, i: nat)
    requires FullMillisecond(log, i)
    ensures i + LIMIT < |log|
  {
  }

  // ---------- the same, with documents deleted in between ----------

  /** The cursor after n pulls of one log from the beginning; gone(k) are the documents deleted before pull k. */
  function CursorAfter(log: seq<Entry>, gone: nat -> set<string>, n: nat): int {
    if n == 0 then 0 else NextVersion(log, gone(n - 1), CursorAfter(log, gone, n - 1))
  }

  ghost predicate Deleting(gone: nat -> set<string>) {
    forall m: nat, n: nat :: m <= n ==> gone(m) <= gone(n)
  }

  /** Not one document of the first page is left. */
  predicate FirstPageGone(log: seq<Entry>, gone: set<string>) {
    Left(Page(log, 0), gone) == []
  }

  ghost predicate NoFullMillisecond(log: seq<Entry>) {
    forall i: nat :: !FullMillisecond(log, i)
  }

  lemma {:induction false} PlainRises(log: seq<Entry>, n: nat)
    requires IsLog(log)
    ensures 0 <= PlainCursor(log, n) && (n > 0 ==> PageEnd(log, 0) <= PlainCursor(log, n))
    decreases n
  {
    hide PageEnd;
    if n > 0 {
      PlainRises(log, n - 1);
      EndAdvances(log, PlainCursor(log, n - 1));
    }
  }

  /** A server that answers the first pull answers them all. */
  lemma {:induction false} CursorPlain(log: seq<Entry>, gone: nat -> set<string>, n: nat)
    requires IsLog(log) && !FirstPageGone(log, gone(0))
    ensures CursorAfter(log, gone, n) == PlainCursor(log, n)
    decreases n
  {
    hide PageEnd, Left, Page;
    if n > 0 {
      CursorPlain(log, gone, n - 1);
      PlainRises(log, n - 1);
      EndAdvances(log, 0);
    }
  }

  lemma GoneStays(log: seq<Entry>, gone: set<string>, gone': set<string>)
    requires FirstPageGone(log, gone) && gone <= gone'
    ensures FirstPageGone(log, gone')
  {
    hide Left, Page;
    var left := Left(Page(log, 0), gone');
    if left != [] {
      LeftIn(Page(log, 0), gone', left[0]);
      LeftIn(Page(log, 0), gone, left[0]);
    }
  }

  /** A server that finds nothing at the first pull never does. */
  lemma {:induction false} CursorStalls(log: seq<Entry>, gone: nat -> set<string>, n: nat)
    requires Deleting(gone) && FirstPageGone(log, gone(0))
    ensures CursorAfter(log, gone, n) == 0
    decreases n
  {
    hide PageEnd, Left, Page;
    if n > 0 {
      CursorStalls(log, gone, n - 1);
      GoneStays(log, gone(0), gone(n - 1));
    }
  }

  predicate ReadWithin(log: seq<Entry>, gone: nat -> set<string>, n: nat, k: nat)
    requires k < |log|
  {
    exists m :: 0 <= m < n && log[k] in Page(log, CursorAfter(log, gone, m))
  }

  predicate ReadsAll(log: seq<Entry>, gone: nat -> set<string>, n: nat) {
    forall k :: 0 <= k < |log| ==> ReadWithin(log, gone, n, k)
  }

  /** What stands in the way: an entry that no pull ever has on its page. */
  lemma NeverOnPage(log: seq<Entry>, gone: nat -> set<string>) returns (k: nat)
    requires IsLog(log) && Deleting(gone)
    requires !NoFullMillisecond(log) || (|log| > LIMIT && FirstPageGone(log, gone(0)))
    ensures k < |log| && forall m: nat :: log[k] !in Page(log, CursorAfter(log, gone, m))
  {
    hide FullMillisecond, Page, From, IsLog, FirstPageGone;
    if |log| > LIMIT && FirstPageGone(log, gone(0)) {
      k := LIMIT;
      FromZero(log);
      NotInPage(log, 0, k);
      forall m: nat
        ensures log[k] !in Page(log, CursorAfter(log, gone, m))
      {
        CursorStalls(log, gone, m);
      }
    } else {
      var i: nat :| FullMillisecond(log, i);
      FullInside(log, i);
      k := i + LIMIT;
      assert !FirstPageGone(log, gone(0));
      forall m: nat
        ensures log[k] !in Page(log, CursorAfter(log, gone, m))
      {
        CursorPlain(log, gone, m);
        Stuck(log, i, m);
      }
    }
  }

  lemma ReadsAllInTime(log: seq<Entry>, gone: nat -> set<string>)
    requires IsLog(log) && NoFullMillisecond(log) && (|log| <= LIMIT || !FirstPageGone(log, gone(0)))
    ensures ReadsAll(log, gone, |log| + 1)
  {
    hide FullMillisecond, Page, Start, From, IsLog, FirstPageGone;
    var n := |log| + 1;
    if |log| > LIMIT {
      Progress(log, |log|);
    } else {
      FromZero(log);
    }
    forall k | 0 <= k < |log|
      ensures ReadWithin(log, gone, n, k)
    {
      if |log| <= LIMIT {
        InPage(log, 0, k);
        assert log[k] in Page(log, CursorAfter(log, gone, 0));
      } else {
        ReadUpTo(log, |log|, k);
        var m :| 0 <= m < n && log[k] in Page(log, PlainCursor(log, m));
        CursorPlain(log, gone, m);
      }
    }
  }

  /**
   Repeated pulls read every entry of the log if and only if no millisecond, from its first entry on,
   fills a page while more of the log follows, and, when the log is longer than a page, some document of
   its first page is still there at the first pull; |log| + 1 pulls are then enough.
   */
  lemma {:induction false} ReachesAllIff(log: seq<Entry>, gone: nat -> set<string>)
    requires IsLog(log) && Deleting(gone)
    ensures (exists n :: ReadsAll(log, gone, n))
       <==> NoFullMillisecond(log) && (|log| <= LIMIT || !FirstPageGone(log, gone(0)))
    ensures (exists n :: ReadsAll(log, gone, n)) ==> ReadsAll(log, gone, |log| + 1)
  {
    hide FullMillisecond, Page, IsLog, FirstPageGone, NoFullMillisecond;
    if NoFullMillisecond(log) && (|log| <= LIMIT || !FirstPageGone(log, gone(0))) {
      ReadsAllInTime(log, gone);
    } else {
      FullIsLong(log);
      var k := NeverOnPage(log, gone);
      forall n
        ensures !ReadsAll(log, gone, n)
      {
        assert !ReadWithin(log, gone, n, k);
      }
    }
  }

  lemma FullIsLong(log: seq<Entry>)
    ensures |log| <= LIMIT ==> NoFullMillisecond(log)
  {
  }

  // ---------- what the client holds then ----------

  /** n complete pulls of one log, at the given times. */
  function Same(log: seq<Entry>, gone: nat -> set<string>, now: nat -> Nanos, n: nat): seq<Turn> {
    seq(n, i requires 0 <= i => Turn(log, gone(i), now(i), LIMIT + 1))
  }

  lemma ServedFits(log: seq<Entry>, gone: set<string>, v: int, now: Nanos)
    ensures |Served(log, gone, v, now)| <= LIMIT
  {
    hide From;
    LeftShorter(Page(log, v), gone);
    FreshShorter(Left(Page(log, v), gone), now);
  }

  lemma {:induction false} LeftShorter(page: seq<Entry>, gone: set<string>)
    ensures |Left(page, gone)| <= |page|
    decreases |page|
  {
    if page != [] {
      LeftShorter(page[..|page| - 1], gone);
    }
  }

  lemma {:induction false} FreshShorter(page: seq<Entry>, now: Nanos)
    ensures |Fresh(page, now)| <= |page|
    decreases |page|
  {
    hide Expired;
    if page != [] {
      FreshShorter(page[..|page| - 1], now);
    }
  }

  /** One more complete pull. */
  lemma SameMore(c: string, log: seq<Entry>, gone: nat -> set<string>, now: nat -> Nanos, n: nat)
    ensures AfterPulls(c, Same(log, gone, now, n + 1))
         == PullOnce(AfterPulls(c, Same(log, gone, now, n)), c, log, gone(n), now(n))
  {
    hide PullOnce, Served;
    var turns, front := Same(log, gone, now, n + 1), Same(log, gone, now, n);
    assert turns[..n] == front;
    ServedFits(log, gone(n), AfterPulls(c, front).v, now(n));
  }

  /** Pull m has the entry on its page, neither deleted nor expired. */
  predicate Delivers(log: seq<Entry>, gone: nat -> set<string>, now: nat -> Nanos, m: nat, e: Entry) {
    e in Page(log, CursorAfter(log, gone, m)) && e.id !in gone(m) && !Expired(e, now(m))
  }

  /** Exactly which entries the client holds after n pulls: those that one of them delivered. */
  lemma {:induction false} HeldIff(c: string, log: seq<Entry>, gone: nat -> set<string>, now: nat -> Nanos, n: nat, e: Entry)
    requires IsLog(log) && e in log
    ensures AfterPulls(c, Same(log, gone, now, n)).v == CursorAfter(log, gone, n)
    ensures Holds(AfterPulls(c, Same(log, gone, now, n)).docs, c, e) <==>
              exists m :: 0 <= m < n && Delivers(log, gone, now, m, e)
    decreases n
  {
    hide Page, NextVersion, Saved, IsLog, Holds, Expired, Served, AfterPulls, Same;
    if n == 0 {
      NotYet(c, log, gone, now, e);
    } else {
      var m := n - 1;
      HeldIff(c, log, gone, now, m, e);
      SameMore(c, log, gone, now, m);
      PullAdds(AfterPulls(c, Same(log, gone, now, m)), c, log, gone(m), now(m), e);
      assert Holds(AfterPulls(c, Same(log, gone, now, n)).docs, c, e) <==>
               Holds(AfterPulls(c, Same(log, gone, now, m)).docs, c, e) || Delivers(log, gone, now, m, e);
    }
  }

  lemma NotYet(c: string, log: seq<Entry>, gone: nat -> set<string>, now: nat -> Nanos, e: Entry)
    ensures AfterPulls(c, Same(log, gone, now, 0)) == INIT && !Holds(INIT.docs, c, e)
  {
    assert Same(log, gone, now, 0) == [];
  }

  /** The clock rises, and only expired documents are deleted. */
  ghost predicate Schedule(log: seq<Entry>, gone: nat -> set<string>, now: nat -> Nanos) {
    && Deleting(gone)
    && (forall m: nat, n: nat :: m <= n ==> now(m) <= now(n))
    && forall n: nat :: OnlyExpired(log, gone(n), now(n))
  }

  ghost predicate NeverHeld(c: string, log: seq<Entry>, gone: nat -> set<string>, now: nat -> Nanos, e: Entry) {
    forall n: nat :: !Holds(AfterPulls(c, Same(log, gone, now, n)).docs, c, e)
  }

  /**
   Under the condition of ReachesAllIff the client holds, after more pulls than the log has entries, every
   entry that has not expired at the last of them; without it some entry is never held.
   */
  lemma {:induction false} PullsDeliverIff(c: string, log: seq<Entry>, gone: nat -> set<string>, now: nat -> Nanos)
    requires IsLog(log) && Schedule(log, gone, now)
    ensures NoFullMillisecond(log) && (|log| <= LIMIT || !FirstPageGone(log, gone(0))) ==>
              forall n: nat, e :: n > |log| && e in log && !Expired(e, now(n - 1)) ==>
                Holds(AfterPulls(c, Same(log, gone, now, n)).docs, c, e)
    ensures !(NoFullMillisecond(log) && (|log| <= LIMIT || !FirstPageGone(log, gone(0)))) ==>
              exists e :: e in log && NeverHeld(c, log, gone, now, e)
  {
    hide Page, IsLog, FullMillisecond, NoFullMillisecond, Holds, AfterPulls, Same, Expired, FirstPageGone;
    if NoFullMillisecond(log) && (|log| <= LIMIT || !FirstPageGone(log, gone(0))) {
      ReadsAllInTime(log, gone);
      forall n: nat, e | n > |log| && e in log && !Expired(e, now(n - 1))
        ensures Holds(AfterPulls(c, Same(log, gone, now, n)).docs, c, e)
      {
        var k :| 0 <= k < |log| && log[k] == e;
        assert ReadWithin(log, gone, |log| + 1, k);
        var m :| 0 <= m < |log| + 1 && log[k] in Page(log, CursorAfter(log, gone, m));
        ExpiredStays(e, now(m), now(n - 1));
        assert OnlyExpired(log, gone(m), now(m));
        assert Delivers(log, gone, now, m, e);
        HeldIff(c, log, gone, now, n, e);
      }
    } else {
      FullIsLong(log);
      var k := NeverOnPage(log, gone);
      forall n: nat
        ensures !Holds(AfterPulls(c, Same(log, gone, now, n)).docs, c, log[k])
      {
        HeldIff(c, log, gone, now, n, log[k]);
      }
      assert NeverHeld(c, log, gone, now, log[k]);
    }
  }

  lemma ExpiredStays(e: Entry, now: Nanos, later: Nanos)
    requires now <= later && !Expired(e, later)
    ensures !Expired(e, now)
  {
  }

  /**
   The failing input: when a client first pulls after the first page's documents have all been deleted,
   no pull ever gives it a message, however the log grows and whatever is still unexpired in it.
   */
  lemma {:induction false} DeletedFirstPageStalls(c: string, turns: seq<Turn>)
    requires turns != [] && Growing(turns) && |turns[0].log| >= LIMIT
    requires forall k :: 0 <= k < LIMIT ==> turns[0].log[k].id in turns[0].gone
    ensures AfterPulls(c, turns) == INIT
    decreases |turns|
  {
    hide Page, IsLog, OnlyExpired, Left, PageEnd;
    var front, last := turns[..|turns| - 1], turns[|turns| - 1];
    if front != [] {
      DeletedFirstPageStalls(c, front);
    }
    var page := Page(last.log, 0);
    forall e | e in page
      ensures e.id in last.gone
    {
      FirstPage(last.log, e);
    }
    var left := Left(page, last.gone);
    if left != [] {
      LeftIn(page, last.gone, left[0]);
      assert false;
    }
    assert last.writes == 0 ==> Served(last.log, last.gone, 0, last.now)[..0] == [];
  }

  lemma FirstPage(log: seq<Entry>, e: Entry)
    requires IsLog(log) && e in Page(log, 0)
    ensures exists k :: 0 <= k < LIMIT && k < |log| && log[k] == e
  {
    hide From;
    FromZero(log);
    var j :| 0 <= j < |Page(log, 0)| && Page(log, 0)[j] == e;
    assert log[j] == e;
  }
}
