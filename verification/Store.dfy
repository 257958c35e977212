/**
 The document store: one key space holding documents ('/'), their metadata ('~') and the collection
 index ('+'). Paths are already normalised: they start with '/'.
 */
module Store {
  import opened GoTypes

  type Instant = t: int | t > 0 witness 1

  datatype Metadata = Metadata(createTime: Instant, updateTime: Instant)

  /** Metadata is stored as JSON; a document is the caller's bytes. */
  datatype Value = Raw(b: seq<byte>) | Meta(md: Metadata)

  type KV = map<string, Value>

  datatype Document = Document(path: string, value: Value, createdAt: Instant, updatedAt: Instant)

  datatype Status = OK | NotOpen | InvalidPath | PathExists | BadMetadata

  predicate IsPath(p: string) { p != "" && p[0] == '/' }

  /** The text up to the second slash, without the first. */
  function First(p: string): string
    requires IsPath(p)
  {
    UpToSlash(p[1..])
  }

  function UpToSlash(s: string): string {
    if s == "" || s[0] == '/' then "" else [s[0]] + UpToSlash(s[1..])
  }

  function MetaKey(p: string): string { "~" + p }

  function ColKey(p: string): string
    requires IsPath(p)
  {
    "+" + First(p)
  }

  /** First is the path's first component: no slash in it, and the path goes on with a slash or not at all. */
  lemma FirstIs(p: string)
    requires IsPath(p)
    ensures '/' !in First(p) && (p == "/" + First(p) || "/" + First(p) + "/" <= p)
  {
    assert p == "/" + p[1..];
    UpToSlashIs(p[1..]);
  }

  lemma {:induction false} UpToSlashIs(s: string)
    ensures '/' !in UpToSlash(s) && (s == UpToSlash(s) || UpToSlash(s) + "/" <= s)
  {
    if s != "" && s[0] != '/' {
      UpToSlashIs(s[1..]);
      assert s == [s[0]] + s[1..];
    }
  }

  lemma KeysApart(p: string, q: string)
    requires IsPath(p) && IsPath(q)
    ensures MetaKey(p) == MetaKey(q) <==> p == q
    ensures MetaKey(p) != q && ColKey(p) != q && ColKey(p) != MetaKey(q)
    ensures ColKey(p) == ColKey(q) <==> First(p) == First(q)
  {
    assert MetaKey(p)[1..] == p && MetaKey(q)[1..] == q;
    assert MetaKey(p)[0] == '~' && ColKey(p)[0] == '+';
    assert ColKey(p)[1..] == First(p) && ColKey(q)[1..] == First(q);
  }

  // ---------- the three writes of put ----------

  function WithMeta(kv: KV, p: string, md: Metadata): KV { kv[MetaKey(p) := Meta(md)] }

  function WithCollection(kv: KV, p: string, md: Metadata): KV
    requires IsPath(p)
  {
    kv[ColKey(p) := Meta(md)]
  }

  function WithDoc(kv: KV, p: string, b: seq<byte>): KV { kv[p := Raw(b)] }

  function Stored(kv: KV, p: string, b: seq<byte>, md: Metadata): KV
    requires IsPath(p)
  {
    WithDoc(WithCollection(WithMeta(kv, p, md), p, md), p, b)
  }

  function WithoutAll(kv: KV, keys: seq<string>): KV {
    if keys == [] then kv else WithoutAll(kv - {keys[0]}, keys[1..])
  }

  /** A key that can be turned into a document: absent, or with metadata beside it. */
  predicate Readable(kv: KV, p: string) {
    p in kv ==> MetaKey(p) in kv
  }

  predicate HasMeta(kv: KV, p: string) {
    MetaKey(p) in kv && kv[MetaKey(p)].Meta?
  }

  function DocumentOf(kv: KV, p: string, value: Value): Document
    requires HasMeta(kv, p)
  {
    Document(p, value, kv[MetaKey(p)].md.createTime, kv[MetaKey(p)].md.updateTime)
  }

  datatype Found = Doc(doc: Document) | Missing | Failure(status: Status)

  function Read(kv: KV, p: string): Found
    requires Readable(kv, p)
  {
    if p !in kv then Missing
    else if kv[MetaKey(p)].Raw? then Failure(BadMetadata)
    else Doc(DocumentOf(kv, p, kv[p]))
  }

  /** The documents of the paths that exist, in order, up to the first failure. */
  function ReadAll(kv: KV, ps: seq<string>): Maybe<seq<Document>>
    requires forall p :: p in ps ==> Readable(kv, p)
  {
    if ps == [] then Just([]) else
    var last, front := Read(kv, ps[|ps| - 1]), ReadAll(kv, ps[..|ps| - 1]);
    if front.Nothing? || last.Failure? then Nothing
    else Just(front.value + if last.Doc? then [last.doc] else [])
  }

  /** What a Set at this time writes as metadata: the old creation time survives, even a deletion. */
  function Refreshed(kv: KV, p: string, now: Instant): Metadata {
    if HasMeta(kv, p) then Metadata(kv[MetaKey(p)].md.createTime, now) else Metadata(now, now)
  }

  class DB {
    var kv: KV
    var open: bool

    /** The keys written so far, in order: a crash or an unlocked reader sees some prefix of the writes. */
    ghost var written: seq<string>

    constructor ()
      ensures open && kv == map[] && written == []
    {
      kv, open, written := map[], true, [];
    }

    method SetMetadata(p: string, md: Metadata)
      modifies `kv, `written
      ensures kv == WithMeta(old(kv), p, md) && written == old(written) + [MetaKey(p)]
    {
      var mpath := "~" + p;
      kv, written := kv[mpath := Meta(md)], written + [mpath];
    }

    method SetCollection(p: string, md: Metadata)
      requires IsPath(p)
      modifies `kv, `written
      ensures kv == WithCollection(old(kv), p, md) && written == old(written) + [ColKey(p)]
    {
      var cpath := "+" + First(p);
      kv, written := kv[cpath := Meta(md)], written + [cpath];
    }

    method Put(p: string, b: seq<byte>, md: Metadata)
      requires IsPath(p)
      modifies `kv, `written
      ensures kv == Stored(old(kv), p, b, md)
      ensures written == old(written) + ["~" + p, "+" + First(p), p]
    {
      SetMetadata(p, md);
      SetCollection(p, md);
      kv, written := kv[p := Raw(b)], written + [p];
    }

    method Create(p: string, b: seq<byte>, now: Instant) returns (r: Status)
      requires IsPath(p)
      modifies `kv, `written
      ensures r == if !open then NotOpen else if p == "/" then InvalidPath else if p in old(kv) then PathExists else OK
      ensures kv == if r == OK then Stored(old(kv), p, b, Metadata(now, now)) else old(kv)
      ensures written == old(written) + if r == OK then [MetaKey(p), ColKey(p), p] else []
    {
      if !open {
        return NotOpen;
      }
      if p == "/" {
        return InvalidPath;
      }
      if p in kv {
        return PathExists;
      }
      Put(p, b, Metadata(now, now));
      r := OK;
    }

    method Set(p: string, b: seq<byte>, now: Instant) returns (r: Status)
      requires IsPath(p)
      modifies `kv, `written
      ensures r == if !open then NotOpen else if p == "/" then InvalidPath
                   else if MetaKey(p) in old(kv) && old(kv)[MetaKey(p)].Raw? then BadMetadata else OK
      ensures kv == if r == OK then Stored(old(kv), p, b, Refreshed(old(kv), p, now)) else old(kv)
      ensures written == old(written) + if r == OK then [MetaKey(p), ColKey(p), p] else []
    {
      if !open {
        return NotOpen;
      }
      if p == "/" {
        return InvalidPath;
      }
      var md := Metadata(now, now);
      if MetaKey(p) in kv {
        if kv[MetaKey(p)].Raw? {
          return BadMetadata;
        }
        md := kv[MetaKey(p)].md.(updateTime := now);
      }
      Put(p, b, md);
      r := OK;
    }

    method Delete(p: string) returns (r: Status, deleted: bool)
      modifies `kv
      ensures r == if open then OK else NotOpen
      ensures deleted <==> open && p in old(kv)
      ensures kv == if open then old(kv) - {p} else old(kv)
    {
      if !open {
        return NotOpen, false;
      }
      if p !in kv {
        assert kv - {p} == kv;
        return OK, false;
      }
      kv := kv - {p};
      return OK, true;
    }

    /** Takes the keys as they are: neither normalised nor under the lock. */
    method DeleteAll(keys: seq<string>)
      modifies `kv
      ensures kv == WithoutAll(old(kv), keys)
    {
      for i := 0 to |keys|
        invariant WithoutAll(kv, keys[i..]) == WithoutAll(old(kv), keys)
      {
        kv := kv - {keys[i]};
      }
    }

    method DocumentAt(p: string, value: Value) returns (r: Found)
      requires MetaKey(p) in kv
      ensures r == if HasMeta(kv, p) then Doc(DocumentOf(kv, p, value)) else Failure(BadMetadata)
    {
      if kv[MetaKey(p)].Raw? {
        return Failure(BadMetadata);
      }
      var md := kv[MetaKey(p)].md;
      r := Doc(Document(p, value, md.createTime, md.updateTime));
    }

    method Get(p: string) returns (r: Found)
      requires Readable(kv, p)
      ensures r == if open then Read(kv, p) else Failure(NotOpen)
    {
      if !open {
        return Failure(NotOpen);
      }
      if p !in kv {
        return Missing;
      }
      r := DocumentAt(p, kv[p]);
    }

    method GetAll(ps: seq<string>) returns (r: Maybe<seq<Document>>)
      requires open && forall p :: p in ps ==> Readable(kv, p)
      ensures r == ReadAll(kv, ps)
    {
      var out := [];
      for i := 0 to |ps|
        invariant ReadAll(kv, ps[..i]) == Just(out)
      {
        assert ps[..i + 1][..i] == ps[..i];
        var doc := Get(ps[i]);
        if doc.Failure? {
          ReadAllFails(kv, ps, i + 1);
          return Nothing;
        }
        assert out + [] == out;
        if doc.Doc? {
          out := out + [doc.doc];
        }
      }
      assert ps[..|ps|] == ps;
      r := Just(out);
    }
  }

  /** Reading more paths appends their documents; one path gives its document, or nothing when it does not exist. */
  lemma {:induction false} ReadAllMore(kv: KV, ps: seq<string>, p: string)
    requires (forall q :: q in ps ==> Readable(kv, q)) && Readable(kv, p)
    ensures ReadAll(kv, []) == Just([])
    ensures ReadAll(kv, ps).Nothing? ==> ReadAll(kv, ps + [p]).Nothing?
    ensures ReadAll(kv, ps).Just? ==>
              && (p !in kv ==> ReadAll(kv, ps + [p]) == ReadAll(kv, ps))
              && (p in kv && HasMeta(kv, p) ==>
                    var md := kv["~" + p].md;
                    ReadAll(kv, ps + [p]) == Just(ReadAll(kv, ps).value + [Document(p, kv[p], md.createTime, md.updateTime)]))
              && (p in kv && !HasMeta(kv, p) ==> ReadAll(kv, ps + [p]).Nothing?)
  {
    assert (ps + [p])[..|ps|] == ps && (ps + [p])[|ps|] == p;
    if ReadAll(kv, ps).Just? {
      assert ReadAll(kv, ps).value + [] == ReadAll(kv, ps).value;
    }
  }

  lemma {:induction false} ReadAllFails(kv: KV, ps: seq<string>, n: nat)
    requires n <= |ps| && (forall p :: p in ps ==> Readable(kv, p)) && ReadAll(kv, ps[..n]).Nothing?
    ensures ReadAll(kv, ps).Nothing?
    decreases |ps|
  {
    if n == |ps| {
      assert ps[..n] == ps;
    } else {
      var front := ps[..|ps| - 1];
      assert front[..n] == ps[..n];
      ReadAllFails(kv, front, n);
    }
  }
}
