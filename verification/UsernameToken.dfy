/**
  UsernameToken validation (src/wssec/username_token.rs, src/wssec/timestamp.rs) and what it promises,
  together with the nonce cache, over a whole run of the service.
 */
module UsernameToken {
  import opened Wrappers
  import opened NonceCache
  import opened Base64

  datatype PasswordType = Digest | Text

  datatype Token = Token(
    username: string, password: string, passwordType: PasswordType,
    nonce: Option<string>, created: Option<string>)

  /** The code validation calls but does not contain: the user store, SHA-1 encoded as text, RFC 3339 parsing. */
  datatype Env = Env(
    password: string -> Option<string>,
    hash: (seq<Byte>, string, string) -> string,
    timestamp: string -> Option<int>)

  /** compute_digest: the nonce is padded and decoded first. */
  function ComputeDigest(env: Env, nonce: string, created: string, password: string): Option<string>
  {
    match Decode(Padded(nonce))
    case None => None
    case Some(bytes) => Some(env.hash(bytes, created, password))
  }

  datatype Fault =
    | AuthenticationFailed | MissingNonce | MissingCreated | BadNonceEncoding
    | BadTimestamp | Expired | InFuture | Replay

  function CheckFreshness(now: int, created: int, tolerance: int): Result<(), Fault>
  {
    var diff := now - created;
    if diff > tolerance * NANOS then Err(Expired)
    else if diff < -tolerance * NANOS then Err(InFuture)
    else Ok(())
  }

  function CheckCreated(env: Env, created: string, now: int, tolerance: int): Result<(), Fault>
  {
    match env.timestamp(created)
    case None => Err(BadTimestamp)
    case Some(at) => CheckFreshness(now, at, tolerance)
  }

  /** Every check that comes before the replay check, in the order the code makes them. */
  function Precheck(env: Env, token: Token, now: int, tolerance: int): Result<(), Fault>
  {
    match env.password(token.username)
    case None => Err(AuthenticationFailed)
    case Some(stored) =>
      match token.passwordType
      case Digest => (
        if token.nonce.None? then Err(MissingNonce)
        else if token.created.None? then Err(MissingCreated)
        else
          match ComputeDigest(env, token.nonce.value, token.created.value, stored)
          case None => Err(BadNonceEncoding)
          case Some(expected) =>
            if expected != token.password then Err(AuthenticationFailed)
            else CheckCreated(env, token.created.value, now, tolerance)
      )
      case Text =>
        if token.created.None? then Err(MissingCreated)
        else
          match CheckCreated(env, token.created.value, now, tolerance)
          case Err(fault) => Err(fault)
          case Ok(_) => if token.password != stored then Err(AuthenticationFailed) else Ok(())
  }

  datatype Request = Request(token: Token, now: int)

  /** The only part of a request the cache ever sees: its nonce, if every earlier check passes. */
  function AsAttempt(env: Env, tolerance: int, r: Request): Attempt
  {
    Attempt(if Precheck(env, r.token, r.now, tolerance).Ok? then r.token.nonce else None, r.now)
  }

  function Validate(env: Env, tolerance: int, c: Cache, r: Request): Result<string, Fault>
    requires c.half >= 1
  {
    match Precheck(env, r.token, r.now, tolerance)
    case Err(fault) => Err(fault)
    case Ok(_) =>
      if r.token.nonce.Some? && !Check(c, r.token.nonce.value, r.now).1 then Err(Replay)
      else Ok(r.token.username)
  }

  method ValidateUsernameToken(env: Env, tolerance: int, cache: RotatingNonceCache, token: Token, now: int)
    returns (result: Result<string, Fault>)
    requires cache.halfWindowSecs >= 1
    modifies cache
    ensures result == Validate(env, tolerance, old(cache.View()), Request(token, now))
    ensures cache.View() == Step(old(cache.View()), AsAttempt(env, tolerance, Request(token, now)))
  {
    var stored := env.password(token.username);
    if stored.None? {
      return Err(AuthenticationFailed);
    }
    match token.passwordType {
      case Digest =>
        if token.nonce.None? {
          return Err(MissingNonce);
        }
        if token.created.None? {
          return Err(MissingCreated);
        }
        var expected := ComputeDigest(env, token.nonce.value, token.created.value, stored.value);
        if expected.None? {
          return Err(BadNonceEncoding);
        }
        if expected.value != token.password {
          return Err(AuthenticationFailed);
        }
        var timely := CheckCreated(env, token.created.value, now, tolerance);
        if timely.Err? {
          return Err(timely.error);
        }
      case Text =>
        if token.created.None? {
          return Err(MissingCreated);
        }
        var timely := CheckCreated(env, token.created.value, now, tolerance);
        if timely.Err? {
          return Err(timely.error);
        }
        if token.password != stored.value {
          return Err(AuthenticationFailed);
        }
    }
    if token.nonce.Some? {
      var accepted := cache.CheckAndInsert(token.nonce.value, now);
      if !accepted {
        return Err(Replay);
      }
    }
    return Ok(token.username);
  }

  // ----- What acceptance means, whatever the order of the checks

  /** The token proves knowledge of the user's password. */
  ghost predicate ProvesPassword(env: Env, token: Token)
  {
    && env.password(token.username).Some?
    && token.created.Some?
    && (token.passwordType == Text ==> token.password == env.password(token.username).value)
    && (token.passwordType == Digest ==>
          && token.nonce.Some?
          && exists bytes ::
               && Decode(Padded(token.nonce.value)) == Some(bytes)
               && token.password == env.hash(bytes, token.created.value, env.password(token.username).value))
  }

  ghost predicate FreshAt(env: Env, token: Token, now: int, tolerance: int)
    requires token.created.Some?
  {
    && env.timestamp(token.created.value).Some?
    && var at := env.timestamp(token.created.value).value;
       at - tolerance * 1_000_000_000 <= now <= at + tolerance * 1_000_000_000
  }

  lemma AcceptedExactlyWhen(env: Env, tolerance: int, c: Cache, r: Request)
    requires c.half >= 1
    ensures Validate(env, tolerance, c, r).Ok? <==>
            && ProvesPassword(env, r.token)
            && FreshAt(env, r.token, r.now, tolerance)
            && (r.token.nonce.Some? ==> !Rotated(c, r.now).Remembers(r.token.nonce.value))
    ensures Validate(env, tolerance, c, r).Ok? ==> Validate(env, tolerance, c, r) == Ok(r.token.username)
  {
  }

  /**
    An unknown user and a password that is not proved are the same fault; so is a digest over other bytes. What is
    missing or cannot be read has a fault of its own. A digest is compared before Created is looked at, a plain-text
    password after it, and a remembered nonce is reported last.
   */
  lemma FaultsAre(env: Env, tolerance: nat, c: Cache, r: Request)
    requires c.half >= 1
    ensures var t, v, stored := r.token, Validate(env, tolerance, c, r), env.password(r.token.username);
      && (stored.None? ==> v == Err(AuthenticationFailed))
      && (stored.Some? && t.passwordType == Digest && t.nonce.None? ==> v == Err(MissingNonce))
      && (stored.Some? && (t.passwordType == Text || t.nonce.Some?) && t.created.None? ==> v == Err(MissingCreated))
      && (stored.Some? && t.passwordType == Digest && t.nonce.Some? && t.created.Some? ==>
            match Decode(Padded(t.nonce.value))
            case None => v == Err(BadNonceEncoding)
            case Some(bytes) =>
              t.password != env.hash(bytes, t.created.value, stored.value) ==> v == Err(AuthenticationFailed))
      && (stored.Some? && t.created.Some? && (t.passwordType == Text || ProvesPassword(env, t)) ==>
            match env.timestamp(t.created.value)
            case None => v == Err(BadTimestamp)
            case Some(at) =>
              && (r.now > at + tolerance * 1_000_000_000 ==> v == Err(Expired))
              && (r.now < at - tolerance * 1_000_000_000 ==> v == Err(InFuture))
              && (FreshAt(env, t, r.now, tolerance) && ProvesPassword(env, t) && v.Err? ==> v == Err(Replay)))
      && ((stored.Some? && t.passwordType == Text && t.created.Some? && FreshAt(env, t, r.now, tolerance)
           && t.password != stored.value) ==> v == Err(AuthenticationFailed))
  {
    hide Decode, Padded, Check, Rotated;
  }

  /** The same service with other stored passwords. */
  function WithPasswords(env: Env, password: string -> Option<string>): Env { env.(password := password) }

  /** No two passwords, no two Created and no two nonces give the same hash when the rest is the same. */
  ghost predicate TellsApart(env: Env)
  {
    && (forall b, c, p, p' :: env.hash(b, c, p) == env.hash(b, c, p') ==> p == p')
    && (forall b, c, c', p :: env.hash(b, c, p) == env.hash(b, c', p) ==> c == c')
    && (forall b, b', c, p :: env.hash(b, c, p) == env.hash(b', c, p) ==> b == b')
  }

  /** A digest token that passes under one stored password passes under no other. */
  lemma DigestBindsPassword(
      env: Env, password: string -> Option<string>, tolerance: int, c: Cache, d: Cache, r: Request, now: int)
    requires c.half >= 1 && d.half >= 1 && TellsApart(env) && r.token.passwordType == Digest
    requires Validate(env, tolerance, c, r).Ok? && password(r.token.username) != env.password(r.token.username)
    ensures Validate(WithPasswords(env, password), tolerance, d, r.(now := now)).Err?
  {
    AcceptedExactlyWhen(env, tolerance, c, r);
    AcceptedExactlyWhen(WithPasswords(env, password), tolerance, d, r.(now := now));
    hide Validate, Decode, Padded;
  }

  /** Nor does it pass when its Created, or the bytes its nonce stands for, is changed and nothing else. */
  lemma DigestBindsCreatedAndNonce(
      env: Env, tolerance: int, c: Cache, d: Cache, r: Request, nonce: string, created: string, now: int)
    requires c.half >= 1 && d.half >= 1 && TellsApart(env) && r.token.passwordType == Digest
    requires Validate(env, tolerance, c, r).Ok?
    ensures Some(created) != r.token.created ==>
      Validate(env, tolerance, d, Request(r.token.(created := Some(created)), now)).Err?
    ensures Decode(Padded(nonce)) != Decode(Padded(r.token.nonce.value)) ==>
      Validate(env, tolerance, d, Request(r.token.(nonce := Some(nonce)), now)).Err?
  {
    AcceptedExactlyWhen(env, tolerance, c, r);
    AcceptedExactlyWhen(env, tolerance, d, Request(r.token.(created := Some(created)), now));
    AcceptedExactlyWhen(env, tolerance, d, Request(r.token.(nonce := Some(nonce)), now));
    hide Validate, Decode, Padded;
  }

  /** A request that is turned away inserts nothing: the cache only ever ages. */
  lemma RejectionInsertsNothing(env: Env, tolerance: int, c: Cache, r: Request, nonce: string)
    requires c.half >= 1 && Validate(env, tolerance, c, r).Err?
    ensures Step(c, AsAttempt(env, tolerance, r)).Remembers(nonce) ==> c.Remembers(nonce)
  {
  }

  // ----- Replay over whole runs

  function Attempts(env: Env, tolerance: int, run: seq<Request>): (a: seq<Attempt>)
    ensures |a| == |run|
    ensures forall i :: 0 <= i < |run| ==> a[i] == AsAttempt(env, tolerance, run[i])
  {
    seq(|run|, i requires 0 <= i < |run| => AsAttempt(env, tolerance, run[i]))
  }

  /** The i-th request of the run is let through. */
  predicate LetThrough(env: Env, tolerance: int, c: Cache, run: seq<Request>, i: nat)
    requires c.half >= 1 && i < |run|
  {
    Validate(env, tolerance, StateAt(c, Attempts(env, tolerance, run), i), run[i]).Ok?
  }

  /** No span of length 2 * tolerance sees more than `cap` acceptances of nonces other than `nonce`. */
  ghost predicate RateBounded(tolerance: int, c: Cache, run: seq<Attempt>, nonce: string)
    requires c.half >= 1
  {
    forall i, j :: 0 <= i < j < |run| && run[j].now - run[i].now <= 2 * tolerance * NANOS ==>
      OthersAccepted(c, run, nonce, i + 1, j) <= c.cap
  }

  ghost predicate AtMostOnce(env: Env, tolerance: int, c: Cache, run: seq<Request>, token: Token)
    requires c.half >= 1
  {
    forall i, j :: 0 <= i < j < |run| && run[i].token == token && run[j].token == token ==>
      !(LetThrough(env, tolerance, c, run, i) && LetThrough(env, tolerance, c, run, j))
  }

  /**
    For how many seconds, at a bounded rate, a cache is sure to know a nonce: one half-window, or two if it holds
    only one.
   */
  function Guaranteed(half: nat, cap: nat): nat { if cap == 0 then 2 * half else half }

  /** A token is let through at most once if two tolerances fit inside the time its nonce is sure to be known. */
  lemma TokenAtMostOnce(env: Env, tolerance: int, c: Cache, run: seq<Request>, token: Token)
    requires c.half >= 1 && token.nonce.Some?
    requires 2 * tolerance < Guaranteed(c.half, c.cap)
    requires Monotone(c, Attempts(env, tolerance, run))
    requires RateBounded(tolerance, c, Attempts(env, tolerance, run), token.nonce.value)
    ensures AtMostOnce(env, tolerance, c, run, token)
  {
    var attempts := Attempts(env, tolerance, run);
    forall i, j | 0 <= i < j < |run| && run[i].token == token && run[j].token == token
                  && LetThrough(env, tolerance, c, run, i) && LetThrough(env, tolerance, c, run, j)
      ensures false
    {
      assert HitAt(c, attempts, i, token.nonce.value) && HitAt(c, attempts, j, token.nonce.value);
      AcceptedExactlyWhen(env, tolerance, StateAt(c, attempts, i), run[i]);
      AcceptedExactlyWhen(env, tolerance, StateAt(c, attempts, j), run[j]);
      assert attempts[j].now - attempts[i].now <= 2 * tolerance * NANOS;
      if c.cap == 0 {
        RepeatIsRejectedAlone(c, attempts, token.nonce.value, i, j);
      } else {
        RepeatIsRejected(c, attempts, token.nonce.value, i, j);
      }
    }
  }

  /** On this run, with the clock monotone and the rate bounded, the token is let through at most once. */
  ghost predicate SafeOn(env: Env, tolerance: int, c: Cache, run: seq<Request>, token: Token)
    requires c.half >= 1
  {
    && token.nonce.Some?
    && Monotone(c, Attempts(env, tolerance, run))
    && RateBounded(tolerance, c, Attempts(env, tolerance, run), token.nonce.value)
    ==> AtMostOnce(env, tolerance, c, run, token)
  }

  /** What the settings can promise of a token sent again as it was: no run lets it through twice. */
  ghost predicate ReplaySafe(tolerance: int, half: nat, cap: nat)
    requires half >= 1
  {
    forall env: Env, start: int, run: seq<Request>, token: Token ::
      SafeOn(env, tolerance, Cache({}, {}, start, half, cap), run, token)
  }

  /** The settings are replay safe exactly when two tolerances fit strictly inside the guaranteed time. */
  lemma ReplaySafeExactlyWhen(tolerance: nat, half: nat, cap: nat)
    requires half >= 1
    ensures ReplaySafe(tolerance, half, cap) <==> 2 * tolerance < Guaranteed(half, cap)
  {
    if 2 * tolerance < Guaranteed(half, cap) {
      forall env: Env, start: int, run: seq<Request>, token: Token
        ensures SafeOn(env, tolerance, Cache({}, {}, start, half, cap), run, token)
      {
        var c := Cache({}, {}, start, half, cap);
        if && token.nonce.Some? && Monotone(c, Attempts(env, tolerance, run))
           && RateBounded(tolerance, c, Attempts(env, tolerance, run), token.nonce.value) {
          TokenAtMostOnce(env, tolerance, c, run, token);
        }
      }
    } else {
      ReplayRun(tolerance, half, cap);
    }
  }

  /** The shipped defaults (tolerance 300 s, half-window 150 s, 100 000 entries) are not replay safe. */
  lemma DefaultsAreNotReplaySafe()
    ensures !ReplaySafe(300, 150, 100_000)
  {
    ReplaySafeExactlyWhen(300, 150, 100_000);
  }

  // ----- The run that replays a token when the settings are too tight

  /** Every user has password "p", every digest is "d", and every Created parses to one `tolerance` after the origin. */
  function OpenEnv(tolerance: nat): Env
  {
    Env(_ => Some("p"), (_, _, _) => "d", _ => Some(tolerance * NANOS))
  }

  function TextToken(nonce: string): Token
  {
    Token("u", "p", Text, Some(nonce), Some("c"))
  }

  function Filler(i: nat): (s: string)
    ensures |s| == i && (i >= 1 ==> s[0] == 'x')
  {
    seq(i, _ => 'x')
  }

  /** A token this environment lets pass, with a nonce that is no filler. */
  ghost predicate Victim(tolerance: nat, token: Token)
  {
    && token.nonce.Some? && (token.nonce.value == "" || token.nonce.value[0] != 'x')
    && forall now :: 0 <= now <= 2 * tolerance * NANOS ==>
         AsAttempt(OpenEnv(tolerance), tolerance, Request(token, now)) == Attempt(token.nonce, now)
  }

  /** The victim, then `cap` other tokens in the same instant, then the victim when the guarantee has run out. */
  function ReplayedRun(victim: Token, half: nat, cap: nat): (run: seq<Request>)
    ensures |run| == cap + 2
    ensures forall i :: 0 <= i < |run| ==> run[i] == ReplayedRequest(victim, half, cap, i)
  {
    seq(cap + 2, i requires 0 <= i => ReplayedRequest(victim, half, cap, i))
  }

  function ReplayedRequest(victim: Token, half: nat, cap: nat, i: nat): Request
  {
    Request(if 1 <= i <= cap then TextToken(Filler(i)) else victim,
            if i <= cap then 0 else Guaranteed(half, cap) * NANOS)
  }

  /** The same run as the cache sees it. */
  ghost predicate FillsThenRepeats(run: seq<Attempt>, half: nat, cap: nat, y: string)
  {
    && |run| == cap + 2 && (y == "" || y[0] != 'x')
    && run[0] == Attempt(Some(y), 0)
    && (forall i :: 1 <= i <= cap ==> run[i] == Attempt(Some(Filler(i)), 0))
    && run[cap + 1] == Attempt(Some(y), Guaranteed(half, cap) * NANOS)
  }

  /** The bucket after the first i attempts: the victim's nonce and i - 1 shorter fillers. */
  ghost predicate Filled(s: Cache, half: nat, cap: nat, i: nat, y: string)
  {
    && s == Cache(s.current, {}, 0, half, cap)
    && |s.current| == i
    && (i >= 1 ==> y in s.current)
    && (forall n :: n in s.current ==> n == y || |n| < i)
  }

  lemma FillStep(s: Cache, half: nat, cap: nat, i: nat, y: string)
    requires half >= 1 && i < cap && Filled(s, half, cap, i, y) && (y == "" || y[0] != 'x')
    ensures Filled(Check(s, if i == 0 then y else Filler(i), 0).0, half, cap, i + 1, y)
  {
    var nonce := if i == 0 then y else Filler(i);
    assert i >= 1 ==> Filler(i) != y;
    assert nonce !in s.current;
    assert Check(s, nonce, 0).0 == s.(current := s.current + {nonce});
  }

  /** While the bucket fills, the victim's nonce sits in it. */
  lemma {:induction false} Filling(run: seq<Attempt>, half: nat, cap: nat, i: nat, y: string)
    requires half >= 1 && cap >= 1 && i <= cap && FillsThenRepeats(run, half, cap, y)
    ensures Filled(StateAt(Cache({}, {}, 0, half, cap), run, i), half, cap, i, y)
  {
    if i > 0 {
      Filling(run, half, cap, i - 1, y);
      FillStep(StateAt(Cache({}, {}, 0, half, cap), run, i - 1), half, cap, i - 1, y);
    }
  }

  /** The filler spills the victim's nonce, and when the guarantee has run out it is accepted again. */
  lemma SpillsThenAccepts(run: seq<Attempt>, half: nat, cap: nat, y: string)
    requires half >= 1 && FillsThenRepeats(run, half, cap, y)
    ensures var c := Cache({}, {}, 0, half, cap);
            AcceptedAt(c, run, 0) && AcceptedAt(c, run, cap + 1)
  {
    var c := Cache({}, {}, 0, half, cap);
    assert Rotated(c, 0) == c;
    var spilt := StateAt(c, run, cap + 1);
    if cap == 0 {
      assert StateAt(c, run, 0) == c;
      assert spilt == Cache({y}, {}, 0, half, 0);
    } else {
      Filling(run, half, cap, cap, y);
      var full := StateAt(c, run, cap);
      assert Filler(cap) != y;
      assert Rotated(full, 0) == full;
      assert spilt == Cache({Filler(cap)}, full.current, 0, half, cap);
    }
    RotatedWindow(spilt, Guaranteed(half, cap) * NANOS);
  }

  lemma {:induction false} OthersAtMost(c: Cache, run: seq<Attempt>, nonce: string, i: nat, j: nat)
    requires c.half >= 1 && j <= |run|
    ensures OthersAccepted(c, run, nonce, i, j) <= if j <= i then 0 else j - i
    decreases j
  {
    if j > i {
      OthersAtMost(c, run, nonce, i, j - 1);
    }
  }

  lemma TextTokenReachesCache(tolerance: nat, nonce: string, now: int)
    requires 0 <= now <= 2 * tolerance * NANOS
    ensures AsAttempt(OpenEnv(tolerance), tolerance, Request(TextToken(nonce), now)) == Attempt(Some(nonce), now)
  {
  }

  lemma ReplayedRunShape(victim: Token, tolerance: nat, half: nat, cap: nat)
    requires Victim(tolerance, victim) && 2 * tolerance >= Guaranteed(half, cap)
    ensures FillsThenRepeats(
              Attempts(OpenEnv(tolerance), tolerance, ReplayedRun(victim, half, cap)), half, cap, victim.nonce.value)
  {
    hide AsAttempt;
    var run := ReplayedRun(victim, half, cap);
    forall i | 0 <= i < cap + 2
      ensures AsAttempt(OpenEnv(tolerance), tolerance, run[i]) == Attempt(run[i].token.nonce, run[i].now)
    {
      var r := ReplayedRequest(victim, half, cap, i);
      TextTokenReachesCache(tolerance, Filler(i), 0);
    }
  }

  lemma ReplayedRunIsOrdinary(victim: Token, tolerance: nat, half: nat, cap: nat)
    requires half >= 1 && Victim(tolerance, victim) && 2 * tolerance >= Guaranteed(half, cap)
    ensures var attempts := Attempts(OpenEnv(tolerance), tolerance, ReplayedRun(victim, half, cap));
      && Monotone(Cache({}, {}, 0, half, cap), attempts)
      && forall nonce :: RateBounded(tolerance, Cache({}, {}, 0, half, cap), attempts, nonce)
  {
    VictimHasNonce(tolerance, victim);
    ReplayedRunShape(victim, tolerance, half, cap);
    hide Victim, OpenEnv, Monotone, RateBounded, Attempts;
    var attempts := Attempts(OpenEnv(tolerance), tolerance, ReplayedRun(victim, half, cap));
    FillIsMonotone(attempts, half, cap, victim.nonce.value);
    forall nonce ensures RateBounded(tolerance, Cache({}, {}, 0, half, cap), attempts, nonce) {
      ShortRunIsRateBounded(tolerance, Cache({}, {}, 0, half, cap), attempts, nonce);
    }
  }

  lemma ReplayedRunEnds(victim: Token, half: nat, cap: nat)
    ensures var run := ReplayedRun(victim, half, cap); run[0].token == run[cap + 1].token == victim
  {
    hide Guaranteed;
  }

  /** Both times, the victim is let through. */
  lemma ReplayedTwice(victim: Token, tolerance: nat, half: nat, cap: nat)
    requires half >= 1 && Victim(tolerance, victim) && 2 * tolerance >= Guaranteed(half, cap)
    ensures var env, c, run := OpenEnv(tolerance), Cache({}, {}, 0, half, cap), ReplayedRun(victim, half, cap);
      && run[0].token == run[cap + 1].token == victim
      && LetThrough(env, tolerance, c, run, 0) && LetThrough(env, tolerance, c, run, cap + 1)
  {
    hide *;
    var env, c, run := OpenEnv(tolerance), Cache({}, {}, 0, half, cap), ReplayedRun(victim, half, cap);
    VictimHasNonce(tolerance, victim);
    ReplayedRunShape(victim, tolerance, half, cap);
    ReplayedRunEnds(victim, half, cap);
    SpillsThenAccepts(Attempts(env, tolerance, run), half, cap, victim.nonce.value);
    AcceptedIsLetThrough(env, tolerance, c, run, 0);
    AcceptedIsLetThrough(env, tolerance, c, run, cap + 1);
  }

  lemma VictimHasNonce(tolerance: nat, victim: Token)
    requires Victim(tolerance, victim)
    ensures victim.nonce.Some?
  {
  }

  lemma AcceptedIsLetThrough(env: Env, tolerance: int, c: Cache, run: seq<Request>, i: nat)
    requires c.half >= 1 && i < |run| && AcceptedAt(c, Attempts(env, tolerance, run), i)
    ensures LetThrough(env, tolerance, c, run, i)
  {
    hide StateAt, Check;
  }

  lemma ShortRunIsRateBounded(tolerance: int, c: Cache, run: seq<Attempt>, nonce: string)
    requires c.half >= 1 && |run| <= c.cap + 2
    ensures RateBounded(tolerance, c, run, nonce)
  {
    forall i, j | 0 <= i < j < |run| && run[j].now - run[i].now <= 2 * tolerance * NANOS
      ensures OthersAccepted(c, run, nonce, i + 1, j) <= c.cap
    {
      OthersAtMost(c, run, nonce, i + 1, j);
    }
  }

  lemma TextIsVictim(tolerance: nat)
    ensures Victim(tolerance, TextToken("y"))
  {
    hide AsAttempt;
    forall now | 0 <= now <= 2 * tolerance * NANOS
      ensures AsAttempt(OpenEnv(tolerance), tolerance, Request(TextToken("y"), now)) == Attempt(Some("y"), now)
    {
      TextTokenReachesCache(tolerance, "y", now);
    }
  }

  lemma ReplayRun(tolerance: nat, half: nat, cap: nat)
    requires half >= 1 && 2 * tolerance >= Guaranteed(half, cap)
    ensures !ReplaySafe(tolerance, half, cap)
  {
    var victim := TextToken("y");
    TextIsVictim(tolerance);
    ReplayedRunIsOrdinary(victim, tolerance, half, cap);
    ReplayedTwice(victim, tolerance, half, cap);
    assert !SafeOn(OpenEnv(tolerance), tolerance, Cache({}, {}, 0, half, cap), ReplayedRun(victim, half, cap), victim);
  }

  lemma FillIsMonotone(run: seq<Attempt>, half: nat, cap: nat, y: string)
    requires FillsThenRepeats(run, half, cap, y)
    ensures Monotone(Cache({}, {}, 0, half, cap), run)
  {
    forall i | 0 <= i < |run|
      ensures run[i].now == if i <= cap then 0 else Guaranteed(half, cap) * NANOS
    {
    }
  }
}
