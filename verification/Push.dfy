/** Pushing the local sigchain while other writers may append to the remote one. */
module Push {
  import opened GoTypes
  import opened Sigchain

  /** What happens just before, and to, iteration i: others append statements; the put has its circumstances. */
  datatype Round = Round(appended: Chain, env: Env)

  datatype Result = Pushed | Differs | Refused | PullFailed

  datatype Outcome = Outcome(result: Result, chain: Chain)

  /** Other writers append through the server too: only what keeps a chain. */
  function Grown(kid: string, chain: Chain, appended: Chain): (c: Chain)
    ensures chain <= c && (IsChain(kid, chain) ==> IsChain(kid, c))
  {
    if IsChain(kid, chain + appended) then chain + appended else chain
  }

  function AfterPut(kid: string, chain: Chain, st: Statement, env: Env): (c: Chain)
    ensures chain <= c
  {
    if Stores(chain, kid, st.seqNo, st, env) then chain + [st] else chain
  }

  /** One iteration; Pushed means that the loop goes on. `snapshot` is the remote chain fetched at the start. */
  function Iterate(kid: string, st: Statement, snapshot: Chain, i: nat, chain: Chain, round: Round): Outcome {
    var now, env := Grown(kid, chain, round.appended), round.env;
    if i < |snapshot| then Outcome(if st == snapshot[i] then Pushed else Differs, now)
    else
      var ok := Stores(now, kid, st.seqNo, st, env) && env.taskCreated;
      Outcome(if ok then Pushed else Refused, AfterPut(kid, now, st, env))
  }

  /** The loop over the local statements from i on. */
  function PushFrom(kid: string, local: Chain, snapshot: Chain, i: nat, chain: Chain, rounds: seq<Round>): Outcome
    requires i <= |local| == |rounds|
    decreases |local| - i
  {
    if i == |local| then Outcome(Pushed, chain) else
    var step := Iterate(kid, local[i], snapshot, i, chain, rounds[i]);
    if step.result == Pushed then PushFrom(kid, local, snapshot, i + 1, step.chain, rounds) else step
  }

  /** `pulled` tells whether the pull that ends a push succeeds; the remote chain is complete by then. */
  method Push(kid: string, local: Chain, remote: Server, rounds: seq<Round>, pulled: bool) returns (r: Result)
    requires remote.Valid() && IsChain(kid, local) && |rounds| == |local|
    modifies remote
    ensures remote.Valid()
    ensures var start := old(remote.ChainOf(kid));
            var o := PushFrom(kid, local, start, 0, start, rounds);
            && remote.ChainOf(kid) == o.chain
            && r == if o.result == Pushed && local != [] && !pulled then PullFailed else o.result
    ensures forall k :: k != kid ==> remote.ChainOf(k) == old(remote.ChainOf(k))
  {
    if local == [] {
      return Pushed;
    }
    var rsts := remote.ChainOf(kid);
    for i := 0 to |local|
      invariant remote.Valid()
      invariant PushFrom(kid, local, rsts, i, remote.ChainOf(kid), rounds) ==
                PushFrom(kid, local, rsts, 0, rsts, rounds)
      invariant forall k :: k != kid ==> remote.ChainOf(k) == old(remote.ChainOf(k))
    {
      hide Iterate, IsChain;
      LocalKid(kid, local, i);
      r := PushStatement(kid, local[i], rsts, i, remote, rounds[i]);
      if r != Pushed {
        return;
      }
    }
    r := if pulled then Pushed else PullFailed;
  }

  /** The body of the loop: others write, then the statement is compared or put. */
  method PushStatement(kid: string, st: Statement, rsts: Chain, i: nat, remote: Server, round: Round)
    returns (r: Result)
    requires remote.Valid() && st.kid == kid
    modifies remote
    ensures remote.Valid()
    ensures Outcome(r, remote.ChainOf(kid)) == Iterate(kid, st, rsts, i, old(remote.ChainOf(kid)), round)
    ensures forall k :: k != kid ==> remote.ChainOf(k) == old(remote.ChainOf(k))
  {
    hide Stores, Grown, IsChain;
    OthersAppend(kid, remote, round.appended);
    if i < |rsts| {
      return if st == rsts[i] then Pushed else Differs;
    }
    var put := remote.PutSigchainStatement(st.kid, st.seqNo, st, round.env);
    r := if put == OK then Pushed else Refused;
  }

  lemma LocalKid(kid: string, local: Chain, i: nat)
    requires IsChain(kid, local) && i < |local|
    ensures local[i].kid == kid && local[i].seqNo == i + 1
  {
    assert Follows(kid, local[..i], local[i]);
  }

  /** The environment's step: other writers reach the server first. */
  method OthersAppend(kid: string, remote: Server, appended: Chain)
    requires remote.Valid()
    modifies remote
    ensures remote.Valid()
    ensures remote.ChainOf(kid) == Grown(kid, old(remote.ChainOf(kid)), appended)
    ensures forall k :: k != kid ==> remote.ChainOf(k) == old(remote.ChainOf(k))
  {
    remote.chains := remote.chains[kid := Grown(kid, remote.ChainOf(kid), appended)];
  }

  // ---------- what a push achieves ----------

  lemma IterateExtends(kid: string, st: Statement, snapshot: Chain, i: nat, chain: Chain, round: Round)
    requires IsChain(kid, chain)
    ensures var end := Iterate(kid, st, snapshot, i, chain, round).chain; chain <= end && IsChain(kid, end)
  {
    hide IsChain, Grown, Follows;
    var now := Grown(kid, chain, round.appended);
    AppendIff(kid, now, st);
  }

  /** The remote chain is never rewritten and stays a chain, whoever writes and however the push ends. */
  lemma {:induction false} PushOnlyExtends(kid: string, local: Chain, snapshot: Chain, i: nat, chain: Chain,
                                           rounds: seq<Round>)
    requires i <= |local| == |rounds| && IsChain(kid, chain)
    ensures var end := PushFrom(kid, local, snapshot, i, chain, rounds).chain; chain <= end && IsChain(kid, end)
    decreases |local| - i
  {
    hide IsChain, Iterate;
    if i < |local| {
      IterateExtends(kid, local[i], snapshot, i, chain, rounds[i]);
      var step := Iterate(kid, local[i], snapshot, i, chain, rounds[i]);
      PushOnlyExtends(kid, local, snapshot, i + 1, step.chain, rounds);
    }
  }

  /** An iteration that goes on has its statement on the remote chain at its place. */
  lemma IteratePlaces(kid: string, st: Statement, snapshot: Chain, i: nat, chain: Chain, round: Round)
    requires snapshot <= chain && i <= |chain| && st.seqNo == i + 1
    requires Iterate(kid, st, snapshot, i, chain, round).result == Pushed
    ensures var end := Iterate(kid, st, snapshot, i, chain, round).chain; i < |end| && end[i] == st
  {
    hide IsChain, Grown;
  }

  lemma {:induction false} PushedIsPrefix(kid: string, local: Chain, snapshot: Chain, i: nat, chain: Chain,
                                          rounds: seq<Round>)
    requires i <= |local| == |rounds| && IsChain(kid, local) && IsChain(kid, chain)
    requires i <= |chain| && (forall k :: 0 <= k < i ==> chain[k] == local[k]) && snapshot <= chain
    requires PushFrom(kid, local, snapshot, i, chain, rounds).result == Pushed
    ensures local <= PushFrom(kid, local, snapshot, i, chain, rounds).chain
    decreases |local| - i
  {
    hide IsChain, Iterate;
    if i < |local| {
      LocalKid(kid, local, i);
      IterateExtends(kid, local[i], snapshot, i, chain, rounds[i]);
      IteratePlaces(kid, local[i], snapshot, i, chain, rounds[i]);
      var step := Iterate(kid, local[i], snapshot, i, chain, rounds[i]);
      PushedIsPrefix(kid, local, snapshot, i + 1, step.chain, rounds);
    }
  }

  /** A push that succeeds leaves the local chain a prefix of the remote one, whatever others appended meanwhile. */
  lemma {:induction false} PushSuccess(kid: string, local: Chain, start: Chain, rounds: seq<Round>)
    requires |local| == |rounds| && IsChain(kid, local) && IsChain(kid, start)
    requires PushFrom(kid, local, start, 0, start, rounds).result == Pushed
    ensures local <= PushFrom(kid, local, start, 0, start, rounds).chain
  {
    PushedIsPrefix(kid, local, start, 0, start, rounds);
  }

  // ---------- without other writers ----------

  predicate Alone(rounds: seq<Round>) {
    forall i :: 0 <= i < |rounds| ==> rounds[i].appended == []
  }

  /** Nothing outside the chain stands in the way of a put. */
  predicate Clear(env: Env) { env.genuine && env.allowed && !env.userElsewhere && env.taskCreated }

  predicate AllClear(rounds: seq<Round>) {
    forall i :: 0 <= i < |rounds| ==> Clear(rounds[i].env)
  }

  /** The server's limits admit the local statements from position n on. */
  predicate FitsFrom(local: Chain, n: nat) {
    n < |local| ==> |local| <= MAX_LENGTH && forall i :: n <= i < |local| ==> |local[i].data| <= MAX_DATA
  }

  lemma GrownAlone(kid: string, chain: Chain)
    ensures Grown(kid, chain, []) == chain
  {
    assert chain + [] == chain;
  }

  /** An iteration beyond the snapshot, on the chain that the earlier ones built. */
  lemma PutResumes(kid: string, local: Chain, snapshot: Chain, i: nat, round: Round)
    requires |snapshot| <= i < |local| && IsChain(kid, local) && round.appended == []
    ensures var o := Iterate(kid, local[i], snapshot, i, local[..i], round);
            && o.result != Differs
            && (o.result == Pushed ==> o.chain == local[..i + 1])
            && (o.chain == local[..i] || o.chain == local[..i + 1])
            && (Clear(round.env) ==> (o.result == Pushed <==> i < MAX_LENGTH && |local[i].data| <= MAX_DATA))
  {
    assert local[..i] + [] == local[..i];
    assert local[..i + 1] == local[..i] + [local[i]];
    assert Follows(kid, local[..i], local[i]);
  }

  /** The puts go on from where the remote chain ends, by local statements only. */
  lemma {:induction false} PutsResume(kid: string, local: Chain, snapshot: Chain, i: nat, rounds: seq<Round>)
    requires |snapshot| <= i <= |local| == |rounds| && IsChain(kid, local) && Alone(rounds)
    ensures var o := PushFrom(kid, local, snapshot, i, local[..i], rounds);
            && o.result != Differs && i <= |o.chain| && o.chain <= local
            && (o.result == Pushed ==> o.chain == local)
            && (AllClear(rounds) ==> (o.result == Pushed <==> FitsFrom(local, i)))
    decreases |local| - i
  {
    hide Iterate, IsChain, Clear;
    if i == |local| {
      assert local[..i] == local;
    } else {
      PutResumes(kid, local, snapshot, i, rounds[i]);
      if Iterate(kid, local[i], snapshot, i, local[..i], rounds[i]).result == Pushed {
        PutsResume(kid, local, snapshot, i + 1, rounds);
      }
    }
  }

  /** The chains differ at some position that both have. */
  predicate Conflict(local: Chain, remote: Chain, from: nat) {
    exists k :: from <= k < |local| && k < |remote| && local[k] != remote[k]
  }

  lemma {:induction false} Compares(kid: string, local: Chain, start: Chain, i: nat, rounds: seq<Round>)
    requires i <= |local| == |rounds| && i <= |start| && Alone(rounds)
    ensures var o, n := PushFrom(kid, local, start, i, start, rounds), if |local| < |start| then |local| else |start|;
            o == if Conflict(local, start, i) then Outcome(Differs, start)
                 else PushFrom(kid, local, start, n, start, rounds)
    decreases |local| - i
  {
    hide IsChain, Stores;
    if i < |local| && i < |start| {
      GrownAlone(kid, start);
      assert Iterate(kid, local[i], start, i, start, rounds[i])
          == Outcome(if local[i] == start[i] then Pushed else Differs, start);
      if local[i] == start[i] {
        Compares(kid, local, start, i + 1, rounds);
        assert Conflict(local, start, i) <==> Conflict(local, start, i + 1);
      }
    }
  }

  /**
   With no other writer: a push finds a difference exactly when the chains conflict, and then changes
   nothing. Otherwise the remote chain is extended by local statements only, in order, wherever the push
   stops; and with nothing outside the chain in the way it succeeds exactly when the rest fits.
   */
  lemma {:induction false} PushAlone(kid: string, local: Chain, start: Chain, rounds: seq<Round>)
    requires |local| == |rounds| && IsChain(kid, local) && Alone(rounds)
    ensures var o := PushFrom(kid, local, start, 0, start, rounds);
            && (o.result == Differs <==> Conflict(local, start, 0))
            && (o.result == Differs ==> o.chain == start)
            && (o.result != Differs ==>
                  if local <= start then o == Outcome(Pushed, start)
                  else start <= o.chain <= local && (o.result == Pushed ==> o.chain == local))
            && (AllClear(rounds) ==>
                  (o.result == Pushed <==> !Conflict(local, start, 0) && FitsFrom(local, |start|)))
  {
    hide IsChain, Iterate, AllClear;
    Compares(kid, local, start, 0, rounds);
    if !Conflict(local, start, 0) {
      if |local| > |start| {
        assert local[..|start|] == start;
        PutsResume(kid, local, start, |start|, rounds);
      } else {
        assert local <= start;
      }
    }
  }

  /** A push that stopped part-way is finished by a retry that nothing stands in the way of. */
  lemma {:induction false} RetryFinishes(kid: string, local: Chain, start: Chain, rounds: seq<Round>, again: seq<Round>)
    requires |local| == |rounds| == |again| && IsChain(kid, local) && Alone(rounds) && Alone(again)
    requires AllClear(again) && FitsFrom(local, |start|)
    requires PushFrom(kid, local, start, 0, start, rounds).result == Refused
    ensures var middle := PushFrom(kid, local, start, 0, start, rounds).chain;
            PushFrom(kid, local, middle, 0, middle, again) == Outcome(Pushed, local)
  {
    hide IsChain, Iterate, AllClear, Alone;
    PushAlone(kid, local, start, rounds);
    var middle := PushFrom(kid, local, start, 0, start, rounds).chain;
    PushAlone(kid, local, middle, again);
  }
}
