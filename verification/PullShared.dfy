/** One cursor per key id, shared by all recipients of its messages: when pulls from several of them lose messages. */
module PullShared {
  import opened GoTypes
  import opened Decimal
  import opened Pull
  import opened PullRuns

  /** A pull from one recipient changes nothing under another's collection. */
  lemma OthersKept(s: State, c: string, log: seq<Entry>, gone: set<string>, now: Nanos, other: string, e: Entry)
    requires c != other
    ensures Holds(PullOnce(s, c, log, gone, now).docs, other, e) <==> Holds(s.docs, other, e)
  {
    hide Page, NextVersion, Saved, PathOf, Served;
    var es := Served(log, gone, s.v, now);
    forall i | 0 <= i < |es|
      ensures PathOf(c, es[i]) != PathOf(other, e)
    {
      PathsApart(c, es[i], other, e);
    }
    SavedElsewhere(s.docs, c, es, PathOf(other, e));
  }

  // ---------- one pull ----------

  /** The pull's page goes past e: the cursor moves, and some change on the page is younger. */
  predicate Passes(log: seq<Entry>, gone: set<string>, v: int, e: Entry) {
    !Stalls(log, gone, v) && exists f :: f in Page(log, v) && Millis(e.ts) < Millis(f.ts)
  }

  lemma EndIsLast(log: seq<Entry>, v: int, f: Entry)
    requires IsLog(log) && f in Page(log, v)
    ensures Millis(f.ts) <= PageEnd(log, v)
  {
    hide Millis, From, IsLog;
    var page, start := Page(log, v), From(log, v);
    var j :| 0 <= j < |page| && page[j] == f;
    assert log[start + j] == f && log[start + |page| - 1] == page[|page| - 1];
    MillisOrdered(log, start + j, start + |page| - 1);
  }

  lemma PassesIff(log: seq<Entry>, gone: set<string>, v: int, e: Entry)
    requires IsLog(log) && v <= Millis(e.ts)
    ensures Passes(log, gone, v, e) <==> Millis(e.ts) < NextVersion(log, gone, v)
  {
    hide Millis, Page, Left, IsLog;
    var page := Page(log, v);
    if f :| f in page && Millis(e.ts) < Millis(f.ts) {
      EndIsLast(log, v, f);
    }
    if page != [] {
      assert page[|page| - 1] in page;
    }
  }

  /** The pull goes past no unexpired message that is missing from another recipient. */
  predicate Careful(docs: Docs, v: int, log: seq<Entry>, gone: set<string>, other: string, log': seq<Entry>, now: Nanos) {
    forall e :: e in log' && v <= Millis(e.ts) && !Expired(e, now) && !Holds(docs, other, e) ==> !Passes(log, gone, v, e)
  }

  /** What a pull from one recipient does to another's messages behind the cursor: it loses one exactly when it is not careful. */
  lemma {:induction false} SharedCursorGapIff(s: State, c: string, log: seq<Entry>, gone: set<string>,
                                              other: string, log': seq<Entry>, now: Nanos)
    requires IsLog(log) && c != other
    ensures var t := PullOnce(s, c, log, gone, now);
            GapFree(t.docs, other, log', t.v, now) <==>
              GapFree(s.docs, other, log', s.v, now) && Careful(s.docs, s.v, log, gone, other, log', now)
  {
    hide Page, NextVersion, Saved, Expired, Holds, Millis, Served, Passes;
    var t := PullOnce(s, c, log, gone, now);
    NextAdvances(log, gone, s.v);
    forall e: Entry
      ensures Holds(t.docs, other, e) <==> Holds(s.docs, other, e)
      ensures s.v <= Millis(e.ts) ==> (Passes(log, gone, s.v, e) <==> Millis(e.ts) < t.v)
    {
      OthersKept(s, c, log, gone, now, other, e);
      if s.v <= Millis(e.ts) {
        PassesIff(log, gone, s.v, e);
      }
    }
  }

  // ---------- any interleaving of pulls from several recipients ----------

  type Logs = map<string, seq<Entry>>

  /** A pull from recipient c; `logs` are the logs of all recipients, under their collections. */
  datatype Mixed = Mixed(c: string, logs: Logs, gone: set<string>, now: Nanos)

  predicate Sound(t: Mixed) {
    t.c in t.logs && forall d :: d in t.logs ==> IsLog(t.logs[d]) && OnlyExpired(t.logs[d], t.gone, t.now)
  }

  /** Later logs extend earlier ones, and one clock dates the changes of all of them. */
  predicate Extends(a: Logs, b: Logs) {
    && a.Keys == b.Keys
    && (forall d :: d in a ==> a[d] <= b[d])
    && forall c, d, e, k :: c in a && d in a && e in a[c] && |a[d]| <= k < |b[d]| ==> e.ts <= b[d][k].ts
  }

  predicate Running(turns: seq<Mixed>) {
    && (forall i :: 0 <= i < |turns| ==> Sound(turns[i]))
    && (forall i :: 0 <= i < |turns| - 1 ==>
          Extends(turns[i].logs, turns[i + 1].logs) && turns[i].now <= turns[i + 1].now)
  }

  function PullMixed(s: State, t: Mixed): State
    requires t.c in t.logs
  {
    PullOnce(s, t.c, t.logs[t.c], t.gone, t.now)
  }

  function AfterMixed(turns: seq<Mixed>, n: nat): State
    requires n <= |turns| && forall i :: 0 <= i < |turns| ==> turns[i].c in turns[i].logs
  {
    if n == 0 then INIT else PullMixed(AfterMixed(turns, n - 1), turns[n - 1])
  }

  /** No recipient's unexpired message is missing behind the cursor. */
  predicate AllGapFree(s: State, logs: Logs, now: Nanos) {
    forall d :: d in logs ==> GapFree(s.docs, d, logs[d], s.v, now)
  }

  predicate CarefulPull(s: State, t: Mixed)
    requires t.c in t.logs
  {
    forall d :: d in t.logs && d != t.c ==> Careful(s.docs, s.v, t.logs[t.c], t.gone, d, t.logs[d], t.now)
  }

  /** The cursor is the millisecond of some recipient's change, or still at the beginning. */
  predicate OnSomeEntry(logs: Logs, v: int) {
    v == 0 || exists d, e :: d in logs && e in logs[d] && Millis(e.ts) == v
  }

  lemma MixedStep(s: State, t: Mixed)
    requires Sound(t) && AllGapFree(s, t.logs, t.now) && OnSomeEntry(t.logs, s.v)
    ensures AllGapFree(PullMixed(s, t), t.logs, t.now) <==> CarefulPull(s, t)
    ensures OnSomeEntry(t.logs, PullMixed(s, t).v)
  {
    hide GapFree, PullOnce, Careful, IsLog, OnlyExpired;
    var log, t' := t.logs[t.c], PullMixed(s, t);
    forall d | d in t.logs
      ensures d == t.c ==> GapFree(t'.docs, d, t.logs[d], t'.v, t.now)
      ensures d != t.c ==>
                (GapFree(t'.docs, d, t.logs[d], t'.v, t.now) <==> Careful(s.docs, s.v, log, t.gone, d, t.logs[d], t.now))
    {
      if d == t.c {
        PullKeepsGapFreeIff(s, d, log, t.gone, t.now);
      } else {
        SharedCursorGapIff(s, t.c, log, t.gone, d, t.logs[d], t.now);
      }
    }
    CursorOnEntry(s, t);
  }

  lemma CursorOnEntry(s: State, t: Mixed)
    requires t.c in t.logs && OnSomeEntry(t.logs, s.v)
    ensures OnSomeEntry(t.logs, PullMixed(s, t).v)
  {
    hide From, Millis, Left, Saved, Served;
    var page := Page(t.logs[t.c], s.v);
    if page != [] {
      assert page[|page| - 1] in t.logs[t.c];
    }
  }

  lemma MixedGrow(s: State, a: Logs, now: Nanos, b: Logs, now': Nanos)
    requires Extends(a, b) && now <= now' && AllGapFree(s, a, now) && OnSomeEntry(a, s.v)
    ensures AllGapFree(s, b, now') && OnSomeEntry(b, s.v)
  {
    hide Holds, Millis, Extends;
    assert a.Keys == b.Keys by { SameRecipients(a, b); }
    forall d, e | d in b && e in b[d] && Millis(e.ts) < s.v
      ensures e in a[d]
    {
      OldBehind(a, b, s.v, d, e);
    }
    if s.v != 0 {
      var d, e :| d in a && e in a[d] && Millis(e.ts) == s.v;
      Kept(a, b, d, e);
    }
  }

  lemma SameRecipients(a: Logs, b: Logs)
    requires Extends(a, b)
    ensures a.Keys == b.Keys
  {
  }

  lemma Kept(a: Logs, b: Logs, d: string, e: Entry)
    requires Extends(a, b) && d in a && e in a[d]
    ensures d in b && e in b[d]
  {
    var k :| 0 <= k < |a[d]| && a[d][k] == e;
    assert b[d][k] == e;
  }

  lemma OldBehind(a: Logs, b: Logs, v: int, d: string, e: Entry)
    requires Extends(a, b) && OnSomeEntry(a, v) && d in b && e in b[d] && Millis(e.ts) < v
    ensures d in a && e in a[d]
  {
    forall k: nat | |a[d]| <= k < |b[d]|
      ensures v <= Millis(b[d][k].ts)
    {
      NewNotBehind(a, b, v, d, k);
    }
    var k :| 0 <= k < |b[d]| && b[d][k] == e;
    assert a[d][k] == e;
  }

  lemma NewNotBehind(a: Logs, b: Logs, v: int, d: string, k: nat)
    requires Extends(a, b) && OnSomeEntry(a, v) && d in a && |a[d]| <= k < |b[d]|
    ensures v <= Millis(b[d][k].ts)
  {
    if v != 0 {
      var c, e :| c in a && e in a[c] && Millis(e.ts) == v;
      assert e.ts <= b[d][k].ts;
    }
  }

  lemma RunningAt(turns: seq<Mixed>, n: nat)
    requires Running(turns) && n < |turns|
    ensures Sound(turns[n]) && turns[n].c in turns[n].logs
    ensures n > 0 ==> Extends(turns[n - 1].logs, turns[n].logs) && turns[n - 1].now <= turns[n].now
  {
    hide IsLog, OnlyExpired, Extends;
    assert n > 0 ==> Extends(turns[n - 1].logs, turns[n - 1 + 1].logs);
  }

  /** Before turn n, with the logs that it will see. */
  lemma {:induction false} BeforeTurn(turns: seq<Mixed>, n: nat)
    requires Running(turns) && n < |turns|
    requires forall i :: 0 <= i < |turns| ==> turns[i].c in turns[i].logs
    requires forall i :: 0 <= i < n ==> CarefulPull(AfterMixed(turns, i), turns[i])
    ensures AllGapFree(AfterMixed(turns, n), turns[n].logs, turns[n].now)
    ensures OnSomeEntry(turns[n].logs, AfterMixed(turns, n).v)
    decreases n
  {
    hide AllGapFree, OnSomeEntry, CarefulPull, PullMixed, Running, Extends, Sound;
    if n == 0 {
      NothingYet(turns[0].logs, turns[0].now);
    } else {
      BeforeTurn(turns, n - 1);
      var s, t := AfterMixed(turns, n - 1), turns[n - 1];
      RunningAt(turns, n - 1);
      RunningAt(turns, n);
      MixedStep(s, t);
      MixedGrow(PullMixed(s, t), t.logs, t.now, turns[n].logs, turns[n].now);
    }
  }

  lemma NothingYet(logs: Logs, now: Nanos)
    ensures AllGapFree(INIT, logs, now) && OnSomeEntry(logs, INIT.v)
  {
  }

  /**
   Over any interleaving of pulls, while the logs grow and expired documents disappear: no recipient ever
   has an unexpired message missing behind the cursor if and only if every pull is careful, that is, no
   change on its page is younger than an unexpired message still missing from another recipient.
   */
  lemma {:induction false} NoRecipientLosesIff(turns: seq<Mixed>)
    requires Running(turns)
    ensures (forall n :: 0 <= n < |turns| ==> AllGapFree(PullMixed(AfterMixed(turns, n), turns[n]), turns[n].logs, turns[n].now))
       <==> (forall n :: 0 <= n < |turns| ==> CarefulPull(AfterMixed(turns, n), turns[n]))
  {
    hide AllGapFree, OnSomeEntry, CarefulPull, PullMixed, AfterMixed, Extends, IsLog, OnlyExpired;
    if forall n :: 0 <= n < |turns| ==> CarefulPull(AfterMixed(turns, n), turns[n]) {
      forall n | 0 <= n < |turns|
        ensures AllGapFree(PullMixed(AfterMixed(turns, n), turns[n]), turns[n].logs, turns[n].now)
      {
        BeforeTurn(turns, n);
        MixedStep(AfterMixed(turns, n), turns[n]);
      }
    } else {
      var n := FirstCareless(turns, |turns|);
      BeforeTurn(turns, n);
      MixedStep(AfterMixed(turns, n), turns[n]);
    }
  }

  lemma {:induction false} FirstCareless(turns: seq<Mixed>, m: nat) returns (n: nat)
    requires Running(turns) && m <= |turns|
    requires exists i :: 0 <= i < m && !CarefulPull(AfterMixed(turns, i), turns[i])
    ensures n < m && !CarefulPull(AfterMixed(turns, n), turns[n])
    ensures forall i :: 0 <= i < n ==> CarefulPull(AfterMixed(turns, i), turns[i])
    decreases m
  {
    hide CarefulPull, AfterMixed;
    if i :| 0 <= i < m - 1 && !CarefulPull(AfterMixed(turns, i), turns[i]) {
      n := FirstCareless(turns, m - 1);
    } else {
      n := m - 1;
    }
  }

  // ---------- a lost message stays lost ----------

  /** The state after n pulls of one log. */
  function PullMany(s: State, c: string, log: seq<Entry>, now: Nanos, n: nat): State {
    if n == 0 then s else PullOnce(PullMany(s, c, log, now, n - 1), c, log, {}, now)
  }

  /** What is missing behind the cursor is never pulled again. */
  lemma {:induction false} GapStays(s: State, c: string, log: seq<Entry>, now: Nanos, n: nat, e: Entry)
    requires IsLog(log) && e in log && Millis(e.ts) < s.v && !Holds(s.docs, c, e)
    ensures Millis(e.ts) < PullMany(s, c, log, now, n).v && !Holds(PullMany(s, c, log, now, n).docs, c, e)
    decreases n
  {
    hide Page, NextVersion, Saved, Expired, Holds, Millis, Served;
    if n > 0 {
      GapStays(s, c, log, now, n - 1, e);
      var t := PullMany(s, c, log, now, n - 1);
      PullAdds(t, c, log, {}, now, e);
      PageSpans(log, {}, t.v, e);
    }
  }

  /**
   The shared cursor loses messages: after a pull from one recipient whose message is a millisecond
   younger, the other recipient's older message is never pulled, though it does not expire.
   */
  lemma {:induction false} SharedCursorLoses(c: string, other: string, mine: Entry, theirs: Entry, now: Nanos, n: nat)
    requires c != other && Millis(theirs.ts) < Millis(mine.ts)
    ensures var s := PullOnce(INIT, c, [mine], {}, now);
            !Holds(PullMany(s, other, [theirs], now, n).docs, other, theirs)
  {
    hide Millis, Saved, PathOf, Fresh;
    var s := PullOnce(INIT, c, [mine], {}, now);
    FromZero([mine]);
    assert Page([mine], 0) == [mine];
    LeftIn([mine], {}, mine);
    OthersKept(INIT, c, [mine], {}, now, other, theirs);
    GapStays(s, other, [theirs], now, n, theirs);
  }
}
