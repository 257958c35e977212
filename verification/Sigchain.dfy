/**
 The server's sigchains: statements are only ever appended, each naming the hash of the one before.
 The hash is injective, so a statement carries its predecessor itself.
 */
module Sigchain {
  import opened GoTypes

  const MAX_DATA := 16 * 1024
  const MAX_LENGTH := 128

  datatype Statement = Statement(kid: string, seqNo: int, prev: Maybe<Statement>, data: seq<byte>)

  type Chain = seq<Statement>

  function Last(chain: Chain): Maybe<Statement> {
    if chain == [] then Nothing else Just(chain[|chain| - 1])
  }

  /** The next statement of this key's chain: next number, hash of the last one. */
  predicate Follows(kid: string, chain: Chain, st: Statement) {
    st.kid == kid && st.seqNo == |chain| + 1 && st.prev == Last(chain)
  }

  predicate IsChain(kid: string, chain: Chain) {
    forall i :: 0 <= i < |chain| ==> Follows(kid, chain[..i], chain[i])
  }

  lemma AppendIff(kid: string, chain: Chain, st: Statement)
    requires IsChain(kid, chain)
    ensures IsChain(kid, chain + [st]) <==> Follows(kid, chain, st)
  {
    var longer := chain + [st];
    assert forall i :: 0 <= i < |chain| ==> longer[..i] == chain[..i];
    assert longer[..|chain|] == chain && longer[|chain|] == st;
  }

  lemma {:induction false} TailFixesChain(kid: string, a: Chain, b: Chain, n: nat)
    requires IsChain(kid, a) && IsChain(kid, b) && n < |a| && n < |b| && a[n] == b[n]
    ensures a[..n + 1] == b[..n + 1]
    decreases n
  {
    assert Follows(kid, a[..n], a[n]) && Follows(kid, b[..n], b[n]);
    if n > 0 {
      assert a[..n][n - 1] == b[..n][n - 1];
      TailFixesChain(kid, a, b, n - 1);
      assert a[..n + 1] == a[..n] + [a[n]] && b[..n + 1] == b[..n] + [b[n]];
    }
  }

  /**
   What the request depends on besides the chain: the signature, the access check, the search for an
   existing user, and the follow-up task.
   */
  datatype Env = Env(genuine: bool, allowed: bool, userElsewhere: bool, taskCreated: bool)

  datatype Response = OK | BadRequest | Conflict | Denied | TooLarge | InternalError

  /** The statement gets stored. */
  predicate Stores(chain: Chain, kid: string, seqNo: int, st: Statement, env: Env) {
    && env.genuine && env.allowed && !env.userElsewhere
    && |st.data| <= MAX_DATA && st.kid == kid && st.seqNo == seqNo
    && |chain| < MAX_LENGTH && Follows(kid, chain, st)
  }

  class Server {
    /** The statement documents of each key, in the order of their numbers. */
    var chains: map<string, Chain>

    ghost predicate Valid()
      reads this
    {
      forall kid :: kid in chains ==> IsChain(kid, chains[kid])
    }

    function ChainOf(kid: string): Chain
      reads this
    {
      if kid in chains then chains[kid] else []
    }

    constructor ()
      ensures Valid() && chains == map[]
    {
      chains := map[];
    }

    /** Loads the chain, verifying each statement as it is added; on stored chains that never fails. */
    method LoadSigchain(kid: string) returns (r: Maybe<Chain>)
      requires Valid()
      ensures r == Just(ChainOf(kid))
    {
      var docs, sc := ChainOf(kid), [];
      for i := 0 to |docs|
        invariant sc == docs[..i]
      {
        assert IsChain(kid, docs);
        if !Follows(kid, sc, docs[i]) {
          return Nothing;
        }
        sc := sc + [docs[i]];
      }
      assert docs[..|docs|] == docs;
      r := Just(sc);
    }

    /**
     A statement is stored exactly when it is the next of its chain and nothing else forbids it; a
     number that is taken is a conflict, a full chain refuses more. A failing follow-up task is
     reported, but the statement is stored by then.
     */
    method PutSigchainStatement(kid: string, seqNo: int, st: Statement, env: Env) returns (r: Response)
      requires Valid()
      modifies this
      ensures Valid()
      ensures var stored := Stores(old(ChainOf(kid)), kid, seqNo, st, env);
              && (stored <==>
                    && env.genuine && env.allowed && !env.userElsewhere && |st.data| <= 16384
                    && st.kid == kid && st.seqNo == seqNo && seqNo == |old(ChainOf(kid))| + 1 && seqNo <= 128
                    && st.prev == (if seqNo == 1 then Nothing else Just(old(ChainOf(kid))[seqNo - 2])))
              && (r == OK <==> stored && env.taskCreated)
              && chains == if stored then old(chains)[kid := old(ChainOf(kid)) + [st]] else old(chains)
      ensures r == InternalError <==> Stores(old(ChainOf(kid)), kid, seqNo, st, env) && !env.taskCreated
      ensures var sound := env.genuine && |st.data| <= MAX_DATA && st.kid == kid && st.seqNo == seqNo;
              var taken := 1 <= seqNo <= |old(ChainOf(kid))|;
              && (r == Conflict <==> sound && taken)
              && (r == Denied <==> sound && !taken && !env.allowed)
              && (r == TooLarge <==> sound && !taken && env.allowed && |old(ChainOf(kid))| >= MAX_LENGTH)
    {
      if !env.genuine {
        return BadRequest;
      }
      if |st.data| > MAX_DATA {
        return BadRequest;
      }
      if kid != st.kid {
        return BadRequest;
      }
      if seqNo != st.seqNo {
        return BadRequest;
      }
      if 1 <= st.seqNo <= |ChainOf(st.kid)| {
        return Conflict;
      }
      if !env.allowed {
        return Denied;
      }
      var sc := LoadSigchain(st.kid);
      if sc.Nothing? {
        return InternalError;
      }
      if |sc.value| >= MAX_LENGTH {
        return TooLarge;
      }
      if !Follows(st.kid, sc.value, st) {
        return BadRequest;
      }
      AppendIff(kid, sc.value, st);
      if env.userElsewhere {
        return BadRequest;
      }
      chains := chains[kid := sc.value + [st]];
      r := if env.taskCreated then OK else InternalError;
    }
  }
}
