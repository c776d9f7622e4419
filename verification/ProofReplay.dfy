/** Replay of what a digest proves, however its nonce is spelled (src/wssec/username_token.rs). */
module ProofReplay {
  import opened Wrappers
  import opened NonceCache
  import opened Base64
  import opened UsernameToken

  /** What a digest token proves knowledge of the password for. */
  datatype Proof = Proof(username: string, nonce: seq<Byte>, created: string, digest: string)

  function ProofOf(token: Token): Option<Proof>
  {
    if token.passwordType == Digest && token.nonce.Some? && token.created.Some?
       && Decode(Padded(token.nonce.value)).Some?
    then Some(Proof(token.username, Decode(Padded(token.nonce.value)).value, token.created.value, token.password))
    else None
  }

  /** Requests with this proof are let through at most once. */
  ghost predicate ProofAtMostOnce(env: Env, tolerance: int, c: Cache, run: seq<Request>, proof: Proof)
    requires c.half >= 1
  {
    forall i, j :: 0 <= i < j < |run| && ProofOf(run[i].token) == ProofOf(run[j].token) == Some(proof) ==>
      !(LetThrough(env, tolerance, c, run, i) && LetThrough(env, tolerance, c, run, j))
  }

  /** Whoever presents this proof spells its nonce with all its padding. */
  ghost predicate FullySpelled(run: seq<Request>, proof: Proof)
  {
    forall i :: 0 <= i < |run| && ProofOf(run[i].token) == Some(proof) ==> |run[i].token.nonce.value| % 4 == 0
  }

  /** The clock runs forwards, and the cache is not flooded. */
  ghost predicate Ordinary(env: Env, tolerance: int, c: Cache, run: seq<Request>)
    requires c.half >= 1
  {
    && Monotone(c, Attempts(env, tolerance, run))
    && forall nonce :: RateBounded(tolerance, c, Attempts(env, tolerance, run), nonce)
  }

  lemma SameSpelling(s: Token, t: Token, proof: Proof)
    requires ProofOf(s) == ProofOf(t) == Some(proof)
    requires |proof.nonce| % 3 == 0 || |s.nonce.value| % 4 == |t.nonce.value| % 4 == 0
    ensures s == t
  {
    hide Decode, Padded;
    if s.nonce.value != t.nonce.value {
      if |proof.nonce| % 3 == 0 {
        RespelledExactlyWhen(t.nonce.value);
      } else {
        WholeGroupsAgree(s.nonce.value, t.nonce.value);
      }
    }
  }

  /**
    A proof is let through at most once, if two tolerances fit inside the time a nonce is sure to be known, and its
    nonce can be spelled in one way only: a multiple of three bytes, or never without its padding.
   */
  lemma ProofLetThroughOnce(env: Env, tolerance: int, c: Cache, run: seq<Request>, proof: Proof)
    requires c.half >= 1 && 2 * tolerance < Guaranteed(c.half, c.cap) && Ordinary(env, tolerance, c, run)
    requires |proof.nonce| % 3 == 0 || FullySpelled(run, proof)
    ensures ProofAtMostOnce(env, tolerance, c, run, proof)
  {
    hide LetThrough, Monotone, RateBounded, Decode, Padded;
    forall i, j | 0 <= i < j < |run| && ProofOf(run[i].token) == ProofOf(run[j].token) == Some(proof)
      ensures !(LetThrough(env, tolerance, c, run, i) && LetThrough(env, tolerance, c, run, j))
    {
      SameSpelling(run[i].token, run[j].token, proof);
      TokenAtMostOnce(env, tolerance, c, run, run[i].token);
    }
  }

  // ----- A proof sent again with its nonce respelled

  /** The token with its nonce spelled in another way. */
  function Respelled(token: Token, nonce: string): Token { token.(nonce := Some(nonce)) }

  /** Respelling changes neither the proof nor any check but the one for replay. */
  lemma RespelledProvesTheSame(env: Env, tolerance: int, token: Token, nonce: string, now: int)
    requires ProofOf(token).Some? && Decode(Padded(nonce)) == Decode(Padded(token.nonce.value))
    ensures ProofOf(Respelled(token, nonce)) == ProofOf(token)
    ensures Precheck(env, Respelled(token, nonce), now, tolerance) == Precheck(env, token, now, tolerance)
  {
    hide Decode, Padded;
  }

  /** The cache after a request. */
  function CacheAfter(env: Env, tolerance: int, c: Cache, r: Request): (after: Cache)
    requires c.half >= 1
    ensures after.half == c.half
  {
    Step(c, AsAttempt(env, tolerance, r))
  }

  /**
    Whatever the settings: right after a digest token was let through, the same proof passes again under any other
    spelling of its nonce that the cache does not hold.
   */
  lemma RespelledIsLetThrough(env: Env, tolerance: int, c: Cache, token: Token, nonce: string, now: int)
    requires c.half >= 1 && ProofOf(token).Some? && Validate(env, tolerance, c, Request(token, now)).Ok?
    requires Decode(Padded(nonce)) == Decode(Padded(token.nonce.value)) && nonce != token.nonce.value
    requires !Rotated(CacheAfter(env, tolerance, c, Request(token, now)), now).Remembers(nonce)
    ensures var again, after := Respelled(token, nonce), CacheAfter(env, tolerance, c, Request(token, now));
      ProofOf(again) == ProofOf(token) && Validate(env, tolerance, after, Request(again, now)) == Ok(token.username)
  {
    RespelledProvesTheSame(env, tolerance, token, nonce, now);
    hide Decode, Padded, Precheck, CacheAfter, Rotated;
  }

  // ----- Which settings protect which proofs

  /** No ordinary run from an empty cache lets a proof with a nonce of this length through twice. */
  ghost predicate ProofSafe(tolerance: int, half: nat, cap: nat, length: nat)
    requires half >= 1
  {
    forall env: Env, start: int, run: seq<Request>, proof: Proof ::
      ProofSafeOn(env, tolerance, Cache({}, {}, start, half, cap), run, proof, length)
  }

  ghost predicate ProofSafeOn(
      env: Env, tolerance: int, c: Cache, run: seq<Request>, proof: Proof, length: nat)
    requires c.half >= 1
  {
    |proof.nonce| == length && Ordinary(env, tolerance, c, run) ==> ProofAtMostOnce(env, tolerance, c, run, proof)
  }

  /** A digest token the open environment lets pass, with a nonce of `length` zero bytes. */
  function DigestToken(length: nat): Token { Token("u", "d", Digest, Some(Zeros(length)), Some("c")) }

  lemma DigestProves(length: nat)
    ensures ProofOf(DigestToken(length)).Some? && |ProofOf(DigestToken(length)).value.nonce| == length
  {
    ZerosDecode(length);
    hide Decode, Zeros;
  }

  lemma DigestReachesCache(tolerance: nat, token: Token, now: int)
    requires token.username == "u" && token.password == "d" && token.created == Some("c") && ProofOf(token).Some?
    requires 0 <= now <= 2 * tolerance * NANOS
    ensures AsAttempt(OpenEnv(tolerance), tolerance, Request(token, now)) == Attempt(token.nonce, now)
  {
    hide Decode, Padded;
  }

  lemma DigestIsVictim(tolerance: nat, length: nat)
    ensures Victim(tolerance, DigestToken(length))
  {
    DigestProves(length);
    hide AsAttempt, ProofOf;
    forall now | 0 <= now <= 2 * tolerance * NANOS
      ensures AsAttempt(OpenEnv(tolerance), tolerance, Request(DigestToken(length), now))
              == Attempt(DigestToken(length).nonce, now)
    {
      DigestReachesCache(tolerance, DigestToken(length), now);
    }
  }

  /** The same token twice at once, the second time with its nonce respelled. */
  function RespelledRun(token: Token, nonce: string): seq<Request>
  {
    [Request(token, 0), Request(Respelled(token, nonce), 0)]
  }

  lemma BothReachCache(tolerance: nat, token: Token, nonce: string)
    requires token.username == "u" && token.password == "d" && token.created == Some("c")
    requires ProofOf(token).Some? && ProofOf(Respelled(token, nonce)) == ProofOf(token)
    ensures token.nonce.Some?
    ensures Attempts(OpenEnv(tolerance), tolerance, RespelledRun(token, nonce))
            == [Attempt(token.nonce, 0), Attempt(Some(nonce), 0)]
  {
    assert token.nonce.Some?;
    DigestReachesCache(tolerance, token, 0);
    DigestReachesCache(tolerance, Respelled(token, nonce), 0);
    hide AsAttempt, ProofOf, OpenEnv;
  }

  lemma TwoPass(tolerance: nat, half: nat, cap: nat, token: Token, nonce: string)
    requires half >= 1 && token.username == "u" && token.password == "d" && token.created == Some("c")
    requires ProofOf(token).Some? && ProofOf(Respelled(token, nonce)) == ProofOf(token) && nonce != token.nonce.value
    ensures var env, c, run := OpenEnv(tolerance), Cache({}, {}, 0, half, cap), RespelledRun(token, nonce);
      Ordinary(env, tolerance, c, run) && LetThrough(env, tolerance, c, run, 0) && LetThrough(env, tolerance, c, run, 1)
  {
    hide ProofOf, AsAttempt, OpenEnv, LetThrough, Monotone, RateBounded, AcceptedAt, Respelled, Attempts;
    var env, c, run := OpenEnv(tolerance), Cache({}, {}, 0, half, cap), RespelledRun(token, nonce);
    BothReachCache(tolerance, token, nonce);
    TwoAreAccepted(Attempts(env, tolerance, run), half, cap, token.nonce.value, nonce);
    forall n ensures RateBounded(tolerance, c, Attempts(env, tolerance, run), n) {
      ShortRunIsRateBounded(tolerance, c, Attempts(env, tolerance, run), n);
    }
    AcceptedIsLetThrough(env, tolerance, c, run, 0);
    AcceptedIsLetThrough(env, tolerance, c, run, 1);
  }

  lemma TwoAreAccepted(run: seq<Attempt>, half: nat, cap: nat, first: string, second: string)
    requires half >= 1 && first != second && run == [Attempt(Some(first), 0), Attempt(Some(second), 0)]
    ensures var c := Cache({}, {}, 0, half, cap);
      Monotone(c, run) && AcceptedAt(c, run, 0) && AcceptedAt(c, run, 1)
  {
    var c := Cache({}, {}, 0, half, cap);
    assert Rotated(c, 0) == c && StateAt(c, run, 0) == c;
    assert StateAt(c, run, 1) == Step(c, run[0]) == Check(c, first, 0).0;
    assert Rotated(StateAt(c, run, 1), 0) == StateAt(c, run, 1);
  }

  lemma RespelledTwice(tolerance: nat, half: nat, cap: nat, length: nat)
    requires half >= 1 && length % 3 != 0
    ensures !ProofSafe(tolerance, half, cap, length)
  {
    var token := DigestToken(length);
    DigestProves(length);
    hide Decode, Padded, Zeros;
    RespelledExactlyWhen(token.nonce.value);
    var nonce :| nonce != token.nonce.value && Decode(Padded(nonce)) == Decode(Padded(token.nonce.value));
    RespelledProvesTheSame(OpenEnv(tolerance), tolerance, token, nonce, 0);
    hide ProofOf;
    TwoPass(tolerance, half, cap, token, nonce);
    var run, proof := RespelledRun(token, nonce), ProofOf(token).value;
    assert run[0].token == token && run[1].token == Respelled(token, nonce);
    hide LetThrough, Ordinary;
    assert !ProofSafeOn(OpenEnv(tolerance), tolerance, Cache({}, {}, 0, half, cap), run, proof, length);
  }

  lemma SpilledTwice(tolerance: nat, half: nat, cap: nat, length: nat)
    requires half >= 1 && 2 * tolerance >= Guaranteed(half, cap)
    ensures !ProofSafe(tolerance, half, cap, length)
  {
    var token := DigestToken(length);
    DigestProves(length);
    DigestIsVictim(tolerance, length);
    ReplayedRunIsOrdinary(token, tolerance, half, cap);
    ReplayedTwice(token, tolerance, half, cap);
    var run, proof := ReplayedRun(token, half, cap), ProofOf(token).value;
    hide LetThrough, ProofOf, Monotone, RateBounded;
    assert !ProofSafeOn(OpenEnv(tolerance), tolerance, Cache({}, {}, 0, half, cap), run, proof, length);
  }

  /**
    Proofs with nonces of a given length are protected from replay exactly when two tolerances fit strictly inside the
    guaranteed time, and the length is a multiple of three bytes.
   */
  lemma ProofSafeExactlyWhen(tolerance: nat, half: nat, cap: nat, length: nat)
    requires half >= 1
    ensures ProofSafe(tolerance, half, cap, length) <==> 2 * tolerance < Guaranteed(half, cap) && length % 3 == 0
  {
    if length % 3 != 0 {
      RespelledTwice(tolerance, half, cap, length);
    } else if 2 * tolerance >= Guaranteed(half, cap) {
      SpilledTwice(tolerance, half, cap, length);
    } else {
      hide Ordinary, ProofAtMostOnce;
      forall env: Env, start: int, run: seq<Request>, proof: Proof
        ensures ProofSafeOn(env, tolerance, Cache({}, {}, start, half, cap), run, proof, length)
      {
        var c := Cache({}, {}, start, half, cap);
        if |proof.nonce| == length && Ordinary(env, tolerance, c, run) {
          ProofLetThroughOnce(env, tolerance, c, run, proof);
        }
      }
    }
  }
}
