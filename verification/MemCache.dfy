/**
 The expiring cache behind authorisation and the offer/answer mailbox: a map to entries that are
 changed in place, refined to a history of operations.
 */
module MemCache {
  import opened GoTypes
  import opened Decimal

  /** Nanoseconds since year 1 (the zero time), for a clock that shows at least the year 293. */
  type Instant = t: int | t > 0x8000_0000_0000_0000 witness 0x8000_0000_0000_0001

  type Duration = d: int | -0x8000_0000_0000_0000 <= d < 0x8000_0000_0000_0000

  // ---------- the cache as a value ----------

  /** `deadline` 0 is the zero time: the entry does not expire. */
  datatype Entry = Entry(value: string, deadline: nat)

  /** What the map and its entries hold. */
  type Snapshot = map<string, Entry>

  predicate Expired(e: Entry, now: Instant) {
    e.deadline != 0 && e.deadline <= now
  }

  predicate Live(c: Snapshot, k: string, now: Instant) {
    k in c && !Expired(c[k], now)
  }

  function Stored(c: Snapshot, k: string, now: Instant): string {
    if Live(c, k, now) then c[k].value else ""
  }

  function With(c: Snapshot, k: string, v: string): Snapshot {
    c[k := Entry(v, 0)]
  }

  function WithDeadline(c: Snapshot, k: string, dt: Duration, now: Instant): Snapshot
    requires Live(c, k, now)
  {
    c[k := c[k].(deadline := now + dt)]
  }

  function Without(c: Snapshot, k: string): Snapshot {
    c - {k}
  }

  /** The stored text after one increment; text that is no number stays. */
  function Bumped(v: string): string {
    match ParseInt(v)
    case Nothing => v
    case Just(n) => FormatInt(Wrapped(n + 1))
  }

  function Wrapped(n: int): int {
    (n + 0x8000_0000_0000_0000) % 0x1_0000_0000_0000_0000 - 0x8000_0000_0000_0000
  }

  function Incremented(c: Snapshot, k: string, now: Instant): Snapshot
    requires Live(c, k, now)
  {
    c[k := c[k].(value := Bumped(c[k].value))]
  }

  // ---------- the cache as an object ----------

  class MCEntry {
    var value: string
    var deadline: nat

    constructor (value: string)
      ensures this.value == value && deadline == 0
    {
      this.value, deadline := value, 0;
    }
  }

  class Cache {
    var kv: map<string, MCEntry>

    ghost predicate Valid()
      reads this
    {
      forall j, k :: j in kv && k in kv && kv[j] == kv[k] ==> j == k
    }

    ghost function Entries(): set<object>
      reads this
    {
      set k | k in kv :: kv[k]
    }

    ghost function Contents(): Snapshot
      reads this, Entries()
    {
      map k | k in kv :: Entry(kv[k].value, kv[k].deadline)
    }

    constructor ()
      ensures Valid() && Contents() == map[]
    {
      kv := map[];
    }

    method Lookup(k: string, now: Instant) returns (e: MCEntry?)
      ensures e != null <==> Live(Contents(), k, now)
      ensures e != null ==> k in kv && e == kv[k]
    {
      if k !in kv {
        return null;
      }
      e := kv[k];
      if e.deadline == 0 {
        return;
      }
      if e.deadline == now || now > e.deadline {
        return null;
      }
    }

    method Get(k: string, now: Instant) returns (v: string)
      ensures v == Stored(Contents(), k, now)
    {
      var e := Lookup(k, now);
      if e == null {
        return "";
      }
      v := e.value;
    }

    method Expire(k: string, dt: Duration, now: Instant)
      requires Valid() && Live(Contents(), k, now)
      modifies this, Entries()
      ensures Valid() && fresh(Entries() - old(Entries()))
      ensures Contents() == WithDeadline(old(Contents()), k, dt, now)
    {
      var t: int := now + dt;
      var e := Lookup(k, now);
      e.deadline := t;
      kv := kv[k := e];
      assert kv == old(kv);
    }

    method Delete(k: string)
      requires Valid()
      modifies this
      ensures Valid() && Entries() <= old(Entries())
      ensures Contents() == Without(old(Contents()), k)
    {
      kv := kv - {k};
    }

    method Set(k: string, v: string)
      requires Valid()
      modifies this
      ensures Valid() && fresh(Entries() - old(Entries()))
      ensures Contents() == With(old(Contents()), k, v)
    {
      var e := new MCEntry(v);
      kv := kv[k := e];
    }

    method Increment(k: string, now: Instant) returns (r: Maybe<int>)
      requires Valid() && Live(Contents(), k, now)
      modifies this, Entries()
      ensures Valid() && fresh(Entries() - old(Entries()))
      ensures Contents() == Incremented(old(Contents()), k, now)
      ensures r == match ParseInt(old(Contents())[k].value)
                   case Nothing => Nothing
                   case Just(n) => Just(Wrapped(n + 1))
    {
      hide ParseInt, FormatInt, Wrapped;
      var e := Lookup(k, now);
      var n := ParseInt(e.value);
      if n.Nothing? {
        return Nothing;
      }
      var next := Wrapped(n.value + 1);
      Rewrite(k, FormatInt(next));
      r := Just(next);
    }

    /** Changes the value of an entry in place. */
    method Rewrite(k: string, v: string)
      requires Valid() && k in kv
      modifies this, Entries()
      ensures Valid() && Entries() == old(Entries())
      ensures Contents() == old(Contents())[k := old(Contents())[k].(value := v)]
    {
      var e := kv[k];
      e.value := v;
      kv := kv[k := e];
      assert kv == old(kv);
    }
  }

  // ---------- a history of operations ----------

  datatype Op =
    | OpSet(k: string, v: string)
    | OpExpire(k: string, dt: Duration, at: Instant)
    | OpDelete(k: string)
    | OpIncrement(k: string, at: Instant)

  /** Expire and Increment dereference the entry they look up: the key must be live. */
  predicate Allowed(c: Snapshot, op: Op) {
    op.OpExpire? || op.OpIncrement? ==> Live(c, op.k, op.at)
  }

  function Do(c: Snapshot, op: Op): Snapshot
    requires Allowed(c, op)
  {
    match op
    case OpSet(k, v) => With(c, k, v)
    case OpExpire(k, dt, at) => WithDeadline(c, k, dt, at)
    case OpDelete(k) => Without(c, k)
    case OpIncrement(k, at) => Incremented(c, k, at)
  }

  /** The cache after a history that starts empty; Nothing when some operation was not allowed. */
  function Replay(h: seq<Op>): Maybe<Snapshot> {
    if h == [] then Just(map[]) else
    var before, op := Replay(h[..|h| - 1]), h[|h| - 1];
    if before.Just? && Allowed(before.value, op) then Just(Do(before.value, op)) else Nothing
  }

  predicate Writes(op: Op, k: string) {
    (op.OpSet? || op.OpDelete?) && op.k == k
  }

  predicate Limits(op: Op, k: string) {
    op.OpExpire? && op.k == k
  }

  predicate Counts(op: Op, k: string) {
    op.OpIncrement? && op.k == k
  }

  /** The last Set or Delete of k, or -1. */
  function LastWrite(h: seq<Op>, k: string): (w: int)
    ensures -1 <= w < |h| && (w >= 0 ==> Writes(h[w], k))
    ensures forall i :: w < i < |h| ==> !Writes(h[i], k)
  {
    if h == [] then -1
    else if Writes(h[|h| - 1], k) then |h| - 1
    else LastWrite(h[..|h| - 1], k)
  }

  /** The last Expire of k after its last Set or Delete, or -1. */
  function LastExpire(h: seq<Op>, k: string): (x: int)
    ensures -1 <= x < |h| && (x >= 0 ==> Limits(h[x], k) && x > LastWrite(h, k))
    ensures forall i :: LastWrite(h, k) < i < |h| && i > x ==> !Limits(h[i], k)
  {
    if h == [] || Writes(h[|h| - 1], k) then -1
    else if Limits(h[|h| - 1], k) then |h| - 1
    else LastExpire(h[..|h| - 1], k)
  }

  /** How many Increments of k came after its last Set or Delete. */
  function Bumps(h: seq<Op>, k: string): nat {
    if h == [] || Writes(h[|h| - 1], k) then 0
    else Bumps(h[..|h| - 1], k) + (if Counts(h[|h| - 1], k) then 1 else 0)
  }

  /** The text v after m increments, in closed form. */
  function Counted(v: string, m: nat): string {
    if m == 0 || ParseInt(v).Nothing? then v else FormatInt(Wrapped(ParseInt(v).value + m))
  }

  lemma CountOneMore(v: string, m: nat)
    ensures Bumped(Counted(v, m)) == Counted(v, m + 1)
  {
    hide ParseInt, FormatInt, Wrapped;
    if m > 0 && ParseInt(v).Just? {
      var n := ParseInt(v).value;
      WrapAgain(n + m);
      FormatParse(Wrapped(n + m));
    }
  }

  lemma WrapAgain(x: int)
    ensures -0x8000_0000_0000_0000 <= Wrapped(x) < 0x8000_0000_0000_0000
    ensures Wrapped(Wrapped(x) + 1) == Wrapped(x + 1) && (x - Wrapped(x)) % 0x1_0000_0000_0000_0000 == 0
  {
    var q := (x + 0x8000_0000_0000_0000) / 0x1_0000_0000_0000_0000;
    assert Wrapped(x) == x - q * 0x1_0000_0000_0000_0000;
  }

  /** What history says is stored under k, whatever the time. */
  function Recorded(h: seq<Op>, k: string): Maybe<Entry> {
    var w, x := LastWrite(h, k), LastExpire(h, k);
    if w < 0 || h[w].OpDelete? then Nothing
    else Just(Entry(Counted(h[w].v, Bumps(h, k)), if x < 0 then 0 else h[x].at + h[x].dt))
  }

  lemma {:induction false} ReplayRecords(h: seq<Op>, k: string)
    requires Replay(h).Just?
    ensures k in Replay(h).value <==> Recorded(h, k).Just?
    ensures k in Replay(h).value ==> Replay(h).value[k] == Recorded(h, k).value
  {
    hide ParseInt, FormatInt, Wrapped, Counted, Bumped;
    if h == [] {
    } else {
      var g, op := h[..|h| - 1], h[|h| - 1];
      ReplayRecords(g, k);
      if op.k == k {
        match op {
          case OpSet(_, v) => assert Counted(v, 0) == v by { CountNone(v); }
          case OpIncrement(_, _) => CountOneMore(h[LastWrite(g, k)].v, Bumps(g, k));
          case _ =>
        }
      }
    }
  }

  lemma CountNone(v: string)
    ensures Counted(v, 0) == v
  {
  }

  /**
   Get after any history returns the value of the last Set since any Delete, counted up by the
   increments since, unless the deadline of the last Expire after that Set has come. Operations on
   other keys do not matter.
   */
  lemma GetIsLastWrite(h: seq<Op>, k: string, now: Instant)
    requires Replay(h).Just?
    ensures var w, x := LastWrite(h, k), LastExpire(h, k);
            Stored(Replay(h).value, k, now) ==
              if w < 0 || h[w].OpDelete? then ""
              else if x >= 0 && h[x].at + h[x].dt <= now then ""
              else Counted(h[w].v, Bumps(h, k))
  {
    hide Counted, Replay;
    ReplayRecords(h, k);
  }
}
