/**
 The three key families of the store agree: between the writes of a put, over whole runs with
 unlocked deletes, and over histories of operations.
 */
module StoreRuns {
  import opened GoTypes
  import opened Store

  // ---------- agreement of the three families ----------

  /** Every document key has its metadata. */
  predicate Agrees(kv: KV) {
    forall p :: p in kv && IsPath(p) ==> HasMeta(kv, p)
  }

  /**
   DeleteAll on raw keys keeps every remaining document's metadata if and only if it is given no
   metadata key of a document that it leaves.
   */
  lemma DeleteAllAgreesIff(kv: KV, keys: seq<string>)
    requires Agrees(kv)
    ensures Agrees(WithoutAll(kv, keys)) <==>
              forall p :: p in kv && IsPath(p) && MetaKey(p) in keys ==> p in keys
  {
    var after := WithoutAll(kv, keys);
    WithoutAllKeys(kv, keys);
    forall p | p in kv && IsPath(p) && p !in keys && MetaKey(p) in keys
      ensures !Agrees(after)
    {
      assert p in after && !HasMeta(after, p);
    }
  }

  lemma {:induction false} WithoutAllKeys(kv: KV, keys: seq<string>)
    ensures WithoutAll(kv, keys) == kv - (set k | k in keys)
    decreases |keys|
  {
    if keys != [] {
      WithoutAllKeys(kv - {keys[0]}, keys[1..]);
      assert (set k | k in keys) == {keys[0]} + (set k | k in keys[1..]);
    }
  }

  /** On normalised paths it always does. */
  lemma {:induction false} DeleteAllOfPathsAgrees(kv: KV, keys: seq<string>)
    requires Agrees(kv) && forall k :: k in keys ==> IsPath(k)
    ensures Agrees(WithoutAll(kv, keys))
  {
    DeleteAllAgreesIff(kv, keys);
    forall p: string
      ensures MetaKey(p) !in keys
    {
      assert MetaKey(p)[0] == '~';
    }
  }

  /** A raw metadata key leaves its document without metadata, and reading that document then fails. */
  lemma {:induction false} DeleteAllCanOrphan(p: string, b: seq<byte>, now: Instant)
    requires IsPath(p)
    ensures var kv := Stored(map[], p, b, Metadata(now, now));
            Agrees(kv) && !Readable(WithoutAll(kv, [MetaKey(p)]), p)
  {
    KeysApart(p, p);
    var kv := Stored(map[], p, b, Metadata(now, now));
    assert WithoutAll(kv, [MetaKey(p)]) == WithoutAll(kv - {MetaKey(p)}, [MetaKey(p)][1..]);
    forall q | q in kv && IsPath(q)
      ensures q == p
    {
      assert ColKey(p)[0] == '+' && MetaKey(p)[0] == '~';
    }
  }

  // ---------- one writer under the lock, readers and DeleteAll beside it ----------

  datatype Writer =
    | Idle
    | MetaWritten(path: string, b: seq<byte>, md: Metadata)
    | CollectionWritten(path: string, b: seq<byte>, md: Metadata)

  datatype State = State(kv: KV, writer: Writer)

  datatype Step =
    | WriteMeta(path: string, b: seq<byte>, md: Metadata)
    | WriteCollection
    | WriteDoc
    | DeleteLocked(path: string)
    | DeleteUnlocked(path: string)

  const INIT := State(map[], Idle)

  predicate Enabled(s: State, step: Step) {
    match step
    case WriteMeta(p, _, _) => s.writer.Idle? && IsPath(p) && p != "/"
    case WriteCollection => s.writer.MetaWritten? && IsPath(s.writer.path)
    case WriteDoc => s.writer.CollectionWritten? && IsPath(s.writer.path)
    case DeleteLocked(p) => s.writer.Idle? && IsPath(p)
    case DeleteUnlocked(p) => IsPath(p)
  }

  function Apply(s: State, step: Step): State
    requires Enabled(s, step)
  {
    match step
    case WriteMeta(p, b, md) => State(WithMeta(s.kv, p, md), MetaWritten(p, b, md))
    case WriteCollection =>
      var w := s.writer;
      State(WithCollection(s.kv, w.path, w.md), CollectionWritten(w.path, w.b, w.md))
    case WriteDoc => State(WithDoc(s.kv, s.writer.path, s.writer.b), Idle)
    case DeleteLocked(p) => State(s.kv - {p}, s.writer)
    case DeleteUnlocked(p) => State(s.kv - {p}, s.writer)
  }

  predicate IsRun(steps: seq<Step>)
    decreases |steps|, 0
  {
    steps == [] || (IsRun(steps[..|steps| - 1]) && Enabled(After(steps[..|steps| - 1]), steps[|steps| - 1]))
  }

  function After(steps: seq<Step>): State
    requires IsRun(steps)
    decreases |steps|, 1
  {
    if steps == [] then INIT else Apply(After(steps[..|steps| - 1]), steps[|steps| - 1])
  }

  /** A document key has metadata and a collection key; so does the path being written, step by step. */
  predicate Inv(s: State) {
    && (forall p :: p in s.kv && IsPath(p) ==> HasMeta(s.kv, p) && ColKey(p) in s.kv)
    && (s.writer.Idle? || (IsPath(s.writer.path) && HasMeta(s.kv, s.writer.path)))
    && (s.writer.CollectionWritten? ==> ColKey(s.writer.path) in s.kv)
  }

  lemma {:induction false} StepInv(s: State, step: Step)
    requires Inv(s) && Enabled(s, step)
    ensures Inv(Apply(s, step))
    ensures forall p :: HasMeta(s.kv, p) && IsPath(p) ==> HasMeta(Apply(s, step).kv, p)
  {
    hide First;
    var t := Apply(s, step);
    forall p | IsPath(p)
      ensures HasMeta(s.kv, p) ==> HasMeta(t.kv, p)
      ensures ColKey(p) in s.kv ==> ColKey(p) in t.kv
    {
      StepKeeps(s, step, p);
    }
    if !s.writer.Idle? {
      KeysApart(s.writer.path, s.writer.path);
    }
    forall p | p in t.kv && IsPath(p)
      ensures p in s.kv || (step.WriteDoc? && p == s.writer.path)
    {
      StepAdds(s, step, p);
    }
  }

  lemma StepKeeps(s: State, step: Step, p: string)
    requires Inv(s) && Enabled(s, step) && IsPath(p)
    ensures HasMeta(s.kv, p) ==> HasMeta(Apply(s, step).kv, p)
    ensures ColKey(p) in s.kv ==> ColKey(p) in Apply(s, step).kv
  {
    hide First, Inv;
    match step {
      case WriteMeta(q, _, _) => KeysApart(q, p); KeysApart(p, q);
      case WriteCollection => KeysApart(s.writer.path, p); KeysApart(p, s.writer.path);
      case WriteDoc => KeysApart(p, s.writer.path);
      case DeleteLocked(q) => KeysApart(p, q);
      case DeleteUnlocked(q) => KeysApart(p, q);
    }
  }

  lemma StepAdds(s: State, step: Step, p: string)
    requires Enabled(s, step) && IsPath(p) && p in Apply(s, step).kv
    ensures p in s.kv || (step.WriteDoc? && p == s.writer.path)
  {
    hide First;
    match step {
      case WriteMeta(q, _, _) => KeysApart(q, p);
      case WriteCollection => KeysApart(s.writer.path, p);
      case _ =>
    }
  }

  lemma {:induction false} RunInv(steps: seq<Step>)
    requires IsRun(steps)
    ensures Inv(After(steps))
    decreases |steps|
  {
    hide Inv, Apply, Enabled;
    if steps == [] {
      InitInv();
    } else {
      RunInv(steps[..|steps| - 1]);
      StepInv(After(steps[..|steps| - 1]), steps[|steps| - 1]);
    }
  }

  lemma InitInv()
    ensures Inv(INIT)
  {
  }

  lemma {:induction false} PrefixRuns(steps: seq<Step>, n: nat)
    requires IsRun(steps) && n <= |steps|
    ensures IsRun(steps[..n])
    decreases |steps|
  {
    hide Apply, Enabled;
    if n == |steps| {
      assert steps[..n] == steps;
    } else {
      assert steps[..|steps| - 1][..n] == steps[..n];
      PrefixRuns(steps[..|steps| - 1], n);
    }
  }

  /**
   At every point of every run, also between the writes of a put and while keys are deleted without the
   lock: a document key has its metadata, and still has it whenever a reader that saw the document
   (in a get or in an iterator's snapshot) comes to read it.
   */
  lemma {:induction false} MetadataNeverMissing(steps: seq<Step>, seen: nat, read: nat, p: string)
    requires IsRun(steps) && seen <= read <= |steps| && IsPath(p)
    ensures IsRun(steps[..seen]) && IsRun(steps[..read])
    ensures p in After(steps[..seen]).kv ==> HasMeta(After(steps[..read]).kv, p)
    decreases read
  {
    hide Inv, Apply, Enabled;
    PrefixRuns(steps, seen);
    PrefixRuns(steps, read);
    RunInv(steps[..read]);
    if seen == read {
      if p in After(steps[..read]).kv {
        InvAt(After(steps[..read]), p);
      }
    } else {
      MetadataNeverMissing(steps, seen, read - 1, p);
      assert steps[..read][..read - 1] == steps[..read - 1];
      assert steps[..read][read - 1] == steps[read - 1];
      RunInv(steps[..read - 1]);
      StepInv(After(steps[..read - 1]), steps[read - 1]);
    }
  }

  lemma InvAt(s: State, p: string)
    requires Inv(s) && IsPath(p) && p in s.kv
    ensures HasMeta(s.kv, p) && ColKey(p) in s.kv
  {
  }

  // ---------- histories of whole operations ----------

  datatype Op = OpCreate(p: string, b: seq<byte>, now: Instant)
              | OpSet(p: string, b: seq<byte>, now: Instant)
              | OpDelete(p: string)

  /** Paths are normalised before the operation. */
  type History = h: seq<Op> | forall i :: 0 <= i < |h| ==> IsPath(h[i].p)

  /** The key space after a history of DB.Create, DB.Set and DB.Delete, starting empty. */
  function Replay(h: History): KV
  {
    if h == [] then map[] else Do(Replay(h[..|h| - 1]), h[|h| - 1])
  }

  function Do(kv: KV, op: Op): KV
    requires IsPath(op.p)
  {
    match op
    case OpCreate(p, b, now) => if p in kv || p == "/" then kv else Stored(kv, p, b, Metadata(now, now))
    case OpSet(p, b, now) => if p == "/" then kv else Stored(kv, p, b, Refreshed(kv, p, now))
    case OpDelete(p) => kv - {p}
  }

  /** Operation i is a Create of p that found nothing there. */
  predicate Creates(h: History, i: nat, p: string)
    requires i < |h|
  {
    h[i].OpCreate? && h[i].p == p && p != "/" && p !in Replay(h[..i])
  }

  predicate Sets(h: History, i: nat, p: string)
    requires i < |h|
  {
    h[i].OpSet? && h[i].p == p && p != "/"
  }

  predicate Puts(h: History, i: nat, p: string)
    requires i < |h|
  {
    Creates(h, i, p) || Sets(h, i, p)
  }

  /** The last successful Create or Set of p, or -1. */
  function LastPut(h: History, p: string): (w: int)
    ensures -1 <= w < |h| && (w >= 0 ==> Puts(h, w, p))
    ensures forall i :: w < i < |h| ==> !Puts(h, i, p)
    decreases |h|
  {
    if h == [] then -1
    else if Puts(h, |h| - 1, p) then |h| - 1
    else
      PrefixPuts(h, p);
      LastPut(h[..|h| - 1], p)
  }

  /** The last successful Create of p, or -1. */
  function LastCreate(h: History, p: string): (w: int)
    ensures -1 <= w < |h| && (w >= 0 ==> Creates(h, w, p))
    ensures forall i :: w < i < |h| ==> !Creates(h, i, p)
    decreases |h|
  {
    if h == [] then -1
    else if Creates(h, |h| - 1, p) then |h| - 1
    else
      PrefixPuts(h, p);
      LastCreate(h[..|h| - 1], p)
  }

  /** The first Set of p, or -1. */
  function FirstSet(h: History, p: string): (w: int)
    ensures -1 <= w < |h| && (w >= 0 ==> Sets(h, w, p))
    ensures forall i :: 0 <= i < |h| && (i < w || w < 0) ==> !Sets(h, i, p)
    decreases |h|
  {
    if h == [] then -1
    else
      var w := FirstSet(h[..|h| - 1], p);
      PrefixPuts(h, p);
      if w >= 0 then w else if Sets(h, |h| - 1, p) then |h| - 1 else -1
  }

  lemma PrefixPuts(h: History, p: string)
    requires h != []
    ensures forall i :: 0 <= i < |h| - 1 ==> Creates(h[..|h| - 1], i, p) == Creates(h, i, p)
    ensures forall i :: 0 <= i < |h| - 1 ==> Sets(h[..|h| - 1], i, p) == Sets(h, i, p)
    ensures forall i :: 0 <= i < |h| - 1 ==> Puts(h[..|h| - 1], i, p) == Puts(h, i, p)
  {
    hide Replay;
    forall i | 0 <= i < |h| - 1
      ensures h[..|h| - 1][..i] == h[..i]
    {
    }
  }

  /** The creation time a reader sees: of the last successful Create, else of the first Set. */
  function CreatedAt(h: History, p: string): Instant
    requires LastPut(h, p) >= 0
  {
    if LastCreate(h, p) >= 0 then h[LastCreate(h, p)].now
    else
      assert Sets(h, LastPut(h, p), p);
      h[FirstSet(h, p)].now
  }

  /** How the looked-up operations change with one more operation. */
  lemma OneMore(h: History, p: string)
    requires h != []
    ensures var g, n := h[..|h| - 1], |h| - 1;
            && LastPut(h, p) == (if Puts(h, n, p) then n else LastPut(g, p))
            && LastCreate(h, p) == (if Creates(h, n, p) then n else LastCreate(g, p))
            && FirstSet(h, p) == (if FirstSet(g, p) < 0 && Sets(h, n, p) then n else FirstSet(g, p))
    ensures LastPut(h, p) < 0 ==> LastCreate(h, p) < 0 && FirstSet(h, p) < 0
  {
    hide Replay, Creates, Sets;
    PrefixPuts(h, p);
    assert LastCreate(h, p) >= 0 ==> Puts(h, LastCreate(h, p), p);
    assert FirstSet(h, p) >= 0 ==> Puts(h, FirstSet(h, p), p);
  }

  lemma DoElsewhere(kv: KV, op: Op, p: string)
    requires IsPath(p) && IsPath(op.p) && p != op.p
    ensures p in Do(kv, op) <==> p in kv
    ensures p in kv ==> Do(kv, op)[p] == kv[p]
    ensures MetaKey(p) in Do(kv, op) <==> MetaKey(p) in kv
    ensures MetaKey(p) in kv ==> Do(kv, op)[MetaKey(p)] == kv[MetaKey(p)]
  {
    hide First;
    KeysApart(op.p, p);
    KeysApart(p, op.p);
  }

  /** Metadata after a history: present once there was a put, never gone again. */
  lemma {:induction false} MetadataHistory(h: History, p: string)
    requires IsPath(p)
    ensures MetaKey(p) in Replay(h) <==> LastPut(h, p) >= 0
    ensures LastPut(h, p) >= 0 ==>
              Replay(h)[MetaKey(p)] == Meta(Metadata(CreatedAt(h, p), h[LastPut(h, p)].now))
    decreases |h|
  {
    hide First, LastPut, LastCreate, FirstSet;
    if h == [] {
      assert LastPut(h, p) < 0;
    } else {
      var g, op := h[..|h| - 1], h[|h| - 1];
      MetadataHistory(g, p);
      OneMore(h, p);
      if g != [] {
        OneMore(g, p);
      }
      if op.p == p {
        KeysApart(p, p);
        assert h[..|h| - 1] == g;
      } else {
        DoElsewhere(Replay(g), op, p);
      }
    }
  }

  predicate DeletedSince(h: History, w: int, p: string) {
    exists i :: w < i < |h| && i >= 0 && h[i] == OpDelete(p)
  }

  lemma {:induction false} DocumentHistory(h: History, p: string)
    requires IsPath(p)
    ensures var w := LastPut(h, p);
            && (p in Replay(h) <==> w >= 0 && !DeletedSince(h, w, p))
            && (p in Replay(h) ==> Replay(h)[p] == Raw(h[w].b))
    decreases |h|
  {
    hide First, LastPut, LastCreate, FirstSet;
    if h == [] {
      assert LastPut(h, p) < 0;
    } else {
      var g, op, n := h[..|h| - 1], h[|h| - 1], |h| - 1;
      DocumentHistory(g, p);
      OneMore(h, p);
      assert forall i :: 0 <= i < n ==> g[i] == h[i];
      assert h[n] == op;
      var w := LastPut(g, p);
      if op == OpDelete(p) {
        assert DeletedSince(h, w, p);
      } else {
        assert DeletedSince(h, w, p) == DeletedSince(g, w, p);
      }
      if op.p == p {
        KeysApart(p, p);
      } else {
        DoElsewhere(Replay(g), op, p);
      }
    }
  }

  /**
   What a Get returns after any history of creates, sets and deletes: the bytes and time of the last
   put, unless a delete came later, created at the last Create that succeeded or else at the first Set,
   however often the document was deleted in between.
   */
  lemma {:induction false} GetIsLastPut(h: History, p: string)
    requires IsPath(p)
    ensures Readable(Replay(h), p)
    ensures var w := LastPut(h, p);
            if w < 0 || (exists i :: w < i < |h| && h[i] == OpDelete(p)) then Read(Replay(h), p) == Missing
              else
                var created := if LastCreate(h, p) >= 0 then LastCreate(h, p) else FirstSet(h, p);
                created >= 0 && Read(Replay(h), p) == Doc(Document(p, Raw(h[w].b), h[created].now, h[w].now))
  {
    hide Replay, LastPut, LastCreate, FirstSet;
    MetadataHistory(h, p);
    DocumentHistory(h, p);
  }

  /** A collection is listed once something was put under it, and for ever after. */
  lemma {:induction false} CollectionHistory(h: History, c: string)
    ensures ("+" + c) in Replay(h) <==> exists i :: 0 <= i < |h| && PutsUnder(h, i, c)
    decreases |h|
  {
    hide First, Creates;
    if h != [] {
      var g, op, n := h[..|h| - 1], h[|h| - 1], |h| - 1;
      CollectionHistory(g, c);
      forall i | 0 <= i < n
        ensures PutsUnder(g, i, c) == PutsUnder(h, i, c)
      {
        PrefixPuts(h, h[i].p);
      }
      CollectionStep(Replay(g), op, c);
      assert h[..n] == g;
      assert PutsUnder(h, n, c) <==> PutsNow(Replay(g), op) && First(op.p) == c by { hide *; PutsLast(h); }
    }
  }

  predicate PutsUnder(h: History, i: nat, c: string)
    requires i < |h|
  {
    Puts(h, i, h[i].p) && First(h[i].p) == c
  }

  predicate PutsNow(kv: KV, op: Op) {
    op.p != "/" && (op.OpSet? || (op.OpCreate? && op.p !in kv))
  }

  lemma PutsLast(h: History)
    requires h != []
    ensures Puts(h, |h| - 1, h[|h| - 1].p) <==> PutsNow(Replay(h[..|h| - 1]), h[|h| - 1])
  {
    hide Replay;
  }

  lemma CollectionStep(kv: KV, op: Op, c: string)
    requires IsPath(op.p)
    ensures ("+" + c) in Do(kv, op) <==> ("+" + c) in kv || (PutsNow(kv, op) && First(op.p) == c)
  {
    hide First;
    var k := "+" + c;
    assert k[0] == '+' && MetaKey(op.p)[0] == '~' && op.p[0] == '/';
    assert k[1..] == c && ColKey(op.p)[1..] == First(op.p);
  }
}
