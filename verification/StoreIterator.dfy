/**
 Iterating the store: a snapshot of the keys under a prefix in order, cut by index and limit while
 metadata is read from the live store.
 */
module StoreIterator {
  import opened GoTypes
  import opened KeyOrder
  import opened Store
  import StoreRuns

  // ---------- ordered keys ----------

  ghost predicate IsLeast(k: string, keys: set<string>) {
    k in keys && forall j :: j in keys && j != k ==> Less(k, j)
  }

  lemma {:induction false} LeastExists(keys: set<string>) returns (k: string)
    requires keys != {}
    ensures IsLeast(k, keys)
    decreases |keys|
  {
    hide Less;
    var first :| first in keys;
    var rest := keys - {first};
    if rest == {} {
      k := first;
      assert keys == {first};
    } else {
      var r := LeastExists(rest);
      LessTotal(first, r);
      if Less(first, r) {
        k := first;
        forall j | j in keys && j != k
          ensures Less(k, j)
        {
          if j != r {
            LessTransitive(first, r, j);
          }
        }
      } else {
        k := r;
        assert Less(r, first);
      }
    }
  }

  predicate Ascending(keys: seq<string>) {
    forall i, j :: 0 <= i < j < |keys| ==> Less(keys[i], keys[j])
  }

  /** The keys of the store with the prefix, each once, in order. */
  ghost predicate Lists(keys: seq<string>, kv: KV, prefix: string) {
    Ascending(keys) && forall k :: k in keys <==> k in kv && prefix <= k
  }

  /** A snapshot iterator: entries are fixed when it is made. */
  class Cursor {
    const keys: seq<string>
    const values: seq<Value>
    var pos: nat

    ghost predicate Valid()
      reads this
    {
      |values| == |keys| && pos <= |keys|
    }

    constructor (kv: KV, prefix: string)
      ensures Valid() && pos == 0 && Lists(keys, kv, prefix)
      ensures forall i :: 0 <= i < |keys| ==> keys[i] in kv && values[i] == kv[keys[i]]
    {
      var left := set k | k in kv && prefix <= k;
      var out, found: seq<Value> := [], [];
      ghost var all := left;
      while left != {}
        invariant left <= all && (forall k :: k in all <==> k in out || k in left)
        invariant Ascending(out)
        invariant forall i, k :: 0 <= i < |out| && k in left ==> Less(out[i], k)
        invariant |found| == |out| && forall i :: 0 <= i < |out| ==> out[i] in kv && found[i] == kv[out[i]]
        decreases left
      {
        ghost var least := LeastExists(left);
        var k :| k in left && forall j :: j in left && j != k ==> Less(k, j);
        out, found := out + [k], found + [kv[k]];
        left := left - {k};
      }
      keys, values, pos := out, found, 0;
    }

    method Next() returns (more: bool)
      requires Valid()
      modifies this
      ensures Valid() && more == (old(pos) < |keys|)
      ensures pos == if more then old(pos) + 1 else old(pos)
    {
      more := pos < |keys|;
      if more {
        pos := pos + 1;
      }
    }
  }

  // ---------- cutting by index and limit ----------

  function Max(a: int, b: int): int { if a < b then b else a }

  /** The position that a call looks at after `count` positions were passed, and whether it returns it. */
  predicate Hit(n: nat, index: int, limit: int, count: nat) {
    var p := Max(count, index);
    p < n && (limit == 0 || p < limit)
  }

  function CountAfter(n: nat, index: int, count: nat): nat {
    if Max(count, index) < n then Max(count, index) + 1 else Max(n, count)
  }

  function CountAfterCalls(n: nat, index: int, calls: nat): nat {
    if calls == 0 then 0 else CountAfter(n, index, CountAfterCalls(n, index, calls - 1))
  }

  /**
   Call number k on a fresh iterator over n keys returns position max(0, index) + k while that lies
   below n and below the limit (0 for none; it counts skipped keys too), and nothing from then on.
   */
  lemma {:induction false} KthNext(n: nat, index: int, limit: int, k: nat)
    ensures var c, p := CountAfterCalls(n, index, k), (if index < 0 then 0 else index) + k;
            && (Hit(n, index, limit, c) <==> p < n && (limit == 0 || p < limit))
            && (Hit(n, index, limit, c) ==> Max(c, index) == p)
    decreases k
  {
    CallsCount(n, index, k);
  }

  lemma {:induction false} CallsCount(n: nat, index: int, k: nat)
    ensures var c := CountAfterCalls(n, index, k);
            if k == 0 then c == 0 else if Max(0, index) + k <= n then c == Max(0, index) + k else c == n
  {
    if k > 0 {
      CallsCount(n, index, k - 1);
    }
  }

  class DocsIterator {
    const db: DB
    const iter: Cursor
    const index: int
    const limit: int
    var count: nat

    ghost predicate Valid()
      reads this, iter
    {
      iter.Valid() && count == iter.pos
    }

    constructor (db: DB, iter: Cursor, index: int, limit: int)
      requires iter.Valid() && iter.pos == 0
      ensures this.db == db && this.iter == iter && this.index == index && this.limit == limit
      ensures Valid() && count == 0
    {
      this.db, this.iter, this.index, this.limit, this.count := db, iter, index, limit, 0;
    }

    /** Reads metadata as it is now; StoreRuns.MetadataNeverMissing is why it is always there. */
    method Next() returns (r: Found)
      requires Valid() && forall k :: k in iter.keys ==> MetaKey(k) in db.kv
      modifies this, iter
      ensures Valid() && count == CountAfter(|iter.keys|, index, old(count))
      ensures var p := Max(old(count), index);
              if Hit(|iter.keys|, index, limit, old(count)) then
                r == if HasMeta(db.kv, iter.keys[p]) then Doc(DocumentOf(db.kv, iter.keys[p], iter.values[p]))
                     else Failure(BadMetadata)
              else r == Missing
    {
      var more := iter.Next();
      while more
        invariant iter.Valid() && old(count) <= count
        invariant more ==> iter.pos == count + 1
        invariant !more ==> iter.pos == count == |iter.keys|
        invariant old(count) < count ==> count <= index
        decreases |iter.keys| - count
      {
        var path, value := iter.keys[iter.pos - 1], iter.values[iter.pos - 1];
        count := count + 1;
        if index > count - 1 {
          more := iter.Next();
          continue;
        }
        if limit != 0 && count > limit {
          return Missing;
        }
        assert path in iter.keys;
        r := db.DocumentAt(path, value);
        return;
      }
      r := Missing;
    }
  }

  /** The store at point n of a run of its writer and of deletes beside it. */
  function StoreAt(steps: seq<StoreRuns.Step>, n: nat): KV
    requires StoreRuns.IsRun(steps) && n <= |steps|
  {
    StoreRuns.PrefixRuns(steps, n);
    StoreRuns.After(steps[..n]).kv
  }

  /** What call k of a whole iteration returns when the store is `kv` by then. */
  function Returned(keys: seq<string>, values: seq<Value>, index: int, limit: int, k: nat, kv: KV): Found
    requires |values| == |keys| && forall i :: 0 <= i < |keys| ==> HasMeta(kv, keys[i])
  {
    var p := Max(0, index) + k;
    if p < |keys| && (limit == 0 || p < limit) then Doc(DocumentOf(kv, keys[p], values[p])) else Missing
  }

  lemma AlwaysReadable(steps: seq<StoreRuns.Step>, made: nat, keys: seq<string>, n: nat)
    requires StoreRuns.IsRun(steps) && made <= n <= |steps|
    requires forall i :: 0 <= i < |keys| ==> IsPath(keys[i]) && keys[i] in StoreAt(steps, made)
    ensures forall i :: 0 <= i < |keys| ==> HasMeta(StoreAt(steps, n), keys[i])
  {
    hide StoreRuns.IsRun, StoreRuns.After;
    forall i | 0 <= i < |keys|
      ensures HasMeta(StoreAt(steps, n), keys[i])
    {
      StoreRuns.MetadataNeverMissing(steps, made, n, keys[i]);
    }
  }

  /**
   A whole iteration: an iterator made over the store at point `made` of a run, and one call at each of the
   later points `at`, between which the store changes. The calls return exactly the positions from
   max(0, index) on, while they lie below the end and the limit, and then only Missing; metadata is never missing.
   */
  method Iterate(it: DocsIterator, ghost steps: seq<StoreRuns.Step>, ghost made: nat, ghost at: seq<nat>, stores: seq<KV>)
    returns (results: seq<Found>)
    requires it.Valid() && it.count == 0
    requires StoreRuns.IsRun(steps) && made <= |steps|
    requires forall i :: 0 <= i < |it.iter.keys| ==> IsPath(it.iter.keys[i]) && it.iter.keys[i] in StoreAt(steps, made)
    requires |at| == |stores| && forall k :: 0 <= k < |at| ==> made <= at[k] <= |steps| && stores[k] == StoreAt(steps, at[k])
    modifies it, it.iter, it.db
    ensures |results| == |stores| && forall k :: 0 <= k < |stores| ==>
              && (forall i :: 0 <= i < |it.iter.keys| ==> HasMeta(stores[k], it.iter.keys[i]))
              && results[k] == Returned(it.iter.keys, it.iter.values, it.index, it.limit, k, stores[k])
  {
    hide StoreAt, StoreRuns.IsRun, StoreRuns.After;
    var keys := it.iter.keys;
    results := [];
    for k := 0 to |stores|
      invariant it.Valid() && it.count == CountAfterCalls(|keys|, it.index, k)
      invariant |results| == k && forall j :: 0 <= j < k ==>
                  && (forall i :: 0 <= i < |keys| ==> HasMeta(stores[j], keys[i]))
                  && results[j] == Returned(keys, it.iter.values, it.index, it.limit, j, stores[j])
    {
      it.db.kv := stores[k];
      AlwaysReadable(steps, made, keys, at[k]);
      KthNext(|keys|, it.index, it.limit, k);
      var r := it.Next();
      results := results + [r];
    }
  }

  /** The iterator is over exactly the document keys under the prefix; never a metadata or collection key. */
  method Documents(db: DB, path: string, joined: Maybe<string>, index: int, limit: int)
    returns (status: Status, r: DocsIterator?)
    requires IsPath(path) && (joined.Just? ==> IsPath(joined.value))
    ensures status == if !db.open then NotOpen else if path == "/" then InvalidPath else OK
    ensures r != null <==> status == OK
    ensures r != null ==>
              && fresh(r) && fresh(r.iter) && r.Valid() && r.db == db && r.index == index && r.limit == limit
              && r.count == 0
              && Lists(r.iter.keys, db.kv, if joined.Just? then joined.value else path + "/")
              && (forall i :: 0 <= i < |r.iter.keys| ==>
                    IsPath(r.iter.keys[i]) && r.iter.keys[i] in db.kv && r.iter.values[i] == db.kv[r.iter.keys[i]])
  {
    if !db.open {
      return NotOpen, null;
    }
    var prefix: string;
    if joined.Just? {
      prefix := joined.value;
    } else if path != "/" {
      prefix := path + "/";
    } else {
      prefix := path;
    }
    if path == "/" {
      return InvalidPath, null;
    }
    var iter := new Cursor(db.kv, prefix);
    forall i | 0 <= i < |iter.keys|
      ensures IsPath(iter.keys[i])
    {
      assert iter.keys[i] in iter.keys && prefix <= iter.keys[i];
    }
    r := new DocsIterator(db, iter, index, limit);
    status := OK;
  }

  class ColsIterator {
    const iter: Cursor

    constructor (iter: Cursor)
      ensures this.iter == iter
    {
      this.iter := iter;
    }

    /** The next collection: its key without the leading '+', as a path. */
    method Next() returns (r: Maybe<string>)
      requires iter.Valid() && forall i :: 0 <= i < |iter.keys| ==> iter.keys[i] != ""
      modifies iter
      ensures iter.Valid()
      ensures r == if old(iter.pos) < |iter.keys| then Just("/" + iter.keys[old(iter.pos)][1..]) else Nothing
      ensures iter.pos == if r.Just? then old(iter.pos) + 1 else old(iter.pos)
    {
      var more := iter.Next();
      if more {
        var path := iter.keys[iter.pos - 1];
        return Just("/" + path[1..]);
      }
      r := Nothing;
    }
  }

  /** Only the root has collections; they are exactly the keys of the '+' family, in order. */
  method Collections(db: DB, parent: string) returns (status: Status, r: ColsIterator?)
    requires IsPath(parent)
    ensures status == if !db.open then NotOpen else if parent != "/" then InvalidPath else OK
    ensures r != null <==> status == OK
    ensures r != null ==>
              && fresh(r) && fresh(r.iter) && r.iter.Valid() && r.iter.pos == 0 && Lists(r.iter.keys, db.kv, "+")
              && (forall i :: 0 <= i < |r.iter.keys| ==> r.iter.keys[i] != "" && r.iter.keys[i] in db.kv)
  {
    if !db.open {
      return NotOpen, null;
    }
    if parent != "/" {
      return InvalidPath, null;
    }
    var iter := new Cursor(db.kv, "+");
    forall i | 0 <= i < |iter.keys|
      ensures iter.keys[i] != ""
    {
      assert iter.keys[i] in iter.keys && "+" <= iter.keys[i];
    }
    r := new ColsIterator(iter);
    status := OK;
  }
}
