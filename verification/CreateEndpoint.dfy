/**
  POST /api/clips end to end: the limiter in front of the create handler
  (internal/httpapi/ratelimit.go:15-28, internal/httpapi/clips.go:45-68).
 */
module CreateEndpoint {
  import opened Basics
  import opened Ttl
  import opened Limiter
  import opened LimiterWait
  import LimiterRuns
  import LimiterRate
  import LimiterCapacity
  import opened ClipStore
  import opened ClipService
  import opened ClientKey
  import Leases

  /** A decoded request body; a missing lifetime means "not chosen". */
  datatype Body = Body(slug: Slug, text: ClipStore.Body, ttlSeconds: Option<int64>)

  datatype Response =
    | TooManyRequests(retryAfterSeconds: int)
    | Created(slug: Slug, expiresAt: int)
    | Failed(error: Error)

  function InputOf(body: Body): Result<CreateInput> {
    match body.ttlSeconds
    case None => Ok(CreateInput(body.slug, body.text, 0))
    case Some(seconds) =>
      match TtlFromSeconds(seconds)
      case None => Err(InvalidTtl)
      case Some(ttl) => Ok(CreateInput(body.slug, body.text, ttl))
  }

  /** The row the handler will ask the store for. */
  function Wanted(body: Body, svcNow: int): Result<Row> {
    match InputOf(body)
    case Err(error) => Err(error)
    case Ok(input) => Requested(input, svcNow)
  }

  /** One sample of each of the three clocks a create request meets. */
  datatype Clocks = Clocks(limiter: int, service: int, store: int)

  function Respond(cfg: Config, keys: Limiter.Table, clips: ClipStore.Table, key: Key, body: Body, now: Clocks)
    : Response
  {
    var d := Decide(cfg, keys, key, now.limiter);
    if !d.allowed then TooManyRequests(HeaderSeconds(d.retryAfter))
    else
      match Wanted(body, now.service)
      case Err(error) => Failed(error)
      case Ok(row) => if LiveAt(clips, row.slug, now.store) then Failed(SlugInUse) else Created(row.slug, row.expiresAt)
  }

  function ClipsAfter(cfg: Config, keys: Limiter.Table, clips: ClipStore.Table, key: Key, body: Body, now: Clocks)
    : ClipStore.Table
  {
    if Decide(cfg, keys, key, now.limiter).allowed && Wanted(body, now.service).Ok?
    then Claimed(clips, Wanted(body, now.service).value, now.store)
    else clips
  }

  /**
    Every answer in terms of the request and the two tables: too many requests with the
    rest of the window in whole seconds, then the lifetime, the name, the size, the lease
    that may still be running, and only then Created. What is created is in the table, and
    nothing else is.
   */
  lemma AnswerTable(cfg: Config, keys: Limiter.Table, clips: ClipStore.Table, key: Key, body: Body, now: Clocks)
    ensures var seconds := if body.ttlSeconds.Some? then body.ttlSeconds.value as int else 7200;
            var rest := if key in keys then keys[key].windowStart + cfg.window - now.limiter else 0;
            Respond(cfg, keys, clips, key, body, now) ==
            if key in keys && rest > 0 && keys[key].count >= cfg.rate
            then TooManyRequests(if rest < 2_000_000_000 then 1 else rest / 1_000_000_000)
            else if seconds !in {600, 3600, 7200} then Failed(InvalidTtl)
            else if SlugError(body.slug).Some? then Failed(SlugError(body.slug).value)
            else if |body.text| > 262144 then Failed(BodyTooLarge)
            else if body.slug in clips && clips[body.slug].expiresAt > now.store then Failed(SlugInUse)
            else Created(body.slug, now.service + seconds * 1_000_000_000)
    ensures var answer := Respond(cfg, keys, clips, key, body, now);
            ClipsAfter(cfg, keys, clips, key, body, now) ==
            if answer.Created? then clips[body.slug := Row(body.slug, body.text, now.service, answer.expiresAt)]
            else clips
  {
    WantedExact(body, now.service);
  }

  lemma WantedExact(body: Body, svcNow: int)
    ensures var seconds := if body.ttlSeconds.Some? then body.ttlSeconds.value as int else 7200;
            Wanted(body, svcNow) ==
            if seconds !in {600, 3600, 7200} then Err(InvalidTtl)
            else if SlugError(body.slug).Some? then Err(SlugError(body.slug).value)
            else if |body.text| > 262144 then Err(BodyTooLarge)
            else Ok(Row(body.slug, body.text, svcNow, svcNow + seconds * 1_000_000_000))
  {
    if body.ttlSeconds.Some? {
      TtlFromSecondsExact(body.ttlSeconds.value);
    }
    match InputOf(body)
    case Err(_) =>
    case Ok(input) => RequestedExact(input, svcNow);
  }

  class Server {
    const limiter: MemoryLimiter
    const clips: Service
    const keys: KeyConfig

    constructor (limiter: MemoryLimiter, clips: Service, keys: KeyConfig)
      ensures this.limiter == limiter && this.clips == clips && this.keys == keys
    {
      this.limiter, this.clips, this.keys := limiter, clips, keys;
    }

    method PostClip(lib: Library, sender: Sender, body: Body, now: Clocks) returns (r: Response, ghost victim: Key)
      modifies limiter, clips.store
      ensures var key := BucketIp(lib, SenderIp(lib, keys, sender), keys.ipv6Prefix);
              var cfg := limiter.Settings();
              && (lib.Faithful() ==> key != "")
              && LegalVictim(cfg, old(limiter.keys), key, victim)
              && limiter.keys == Next(cfg, old(limiter.keys), key, now.limiter, victim)
              && r == old(Respond(cfg, limiter.keys, clips.store.clips, key, body, now))
              && clips.store.clips == old(ClipsAfter(cfg, limiter.keys, clips.store.clips, key, body, now))
    {
      var key := ClientIp(lib, keys, sender);
      var decision;
      decision, victim := limiter.Allow(key, now.limiter);
      if !decision.allowed {
        var seconds := decision.retryAfter / SECOND;
        if seconds < 1 {
          seconds := 1;
        }
        return TooManyRequests(seconds), victim;
      }
      var ttl: int64 := 0;
      if body.ttlSeconds.Some? {
        var chosen := TtlFromSeconds(body.ttlSeconds.value);
        if chosen.None? {
          return Failed(InvalidTtl), victim;
        }
        ttl := chosen.value;
      }
      var result := clips.Create(CreateInput(body.slug, body.text, ttl), now.service, now.store);
      match result
      case Err(error) => return Failed(error), victim;
      case Ok(row) => return Created(row.slug, row.expiresAt), victim;
    }
  }

  // ----- Runs -----

  /**
    A create request, whose claim takes effect at instant `at`, or anything else that meets
    the store: a sweep, a read, a claim that came another way.
   */
  datatype Step =
    | Post(key: Key, body: Body, now: Clocks, victim: Key, at: int)
    | Elsewhere(event: Leases.Event)

  datatype State = State(keys: Limiter.Table, clips: ClipStore.Table)

  function StateAfter(cfg: Config, run: seq<Step>): State {
    if run == [] then State(map[], map[])
    else
      var s := StateAfter(cfg, run[..|run| - 1]);
      match run[|run| - 1]
      case Post(key, body, now, victim, _) =>
        State(Next(cfg, s.keys, key, now.limiter, victim), ClipsAfter(cfg, s.keys, s.clips, key, body, now))
      case Elsewhere(event) => s.(clips := Leases.After(s.clips, event))
  }

  /** Successful creations of one client key with a limiter clock in [lo, hi). */
  function Inserted(cfg: Config, run: seq<Step>, key: Key, lo: int, hi: int): nat {
    if run == [] then 0
    else
      var n := |run| - 1;
      var s, e := StateAfter(cfg, run[..n]), run[n];
      Inserted(cfg, run[..n], key, lo, hi)
      + if e.Post? && e.key == key && lo <= e.now.limiter < hi
           && Respond(cfg, s.keys, s.clips, e.key, e.body, e.now).Created? then 1 else 0
  }

  /** What the limiter sees of the run. */
  function Requests(run: seq<Step>): seq<LimiterRuns.Request> {
    if run == [] then []
    else
      var e := run[|run| - 1];
      Requests(run[..|run| - 1]) + if e.Post? then [LimiterRuns.Request(e.key, e.now.limiter, e.victim)] else []
  }

  lemma {:induction false} InsertedAtMostAdmitted(cfg: Config, run: seq<Step>, key: Key, lo: int, hi: int)
    ensures StateAfter(cfg, run).keys == LimiterRuns.TableAfter(cfg, Requests(run))
    ensures Inserted(cfg, run, key, lo, hi) <= LimiterRate.Admitted(cfg, Requests(run), key, lo, hi)
  {
    if run == [] {
    } else {
      var n := |run| - 1;
      InsertedAtMostAdmitted(cfg, run[..n], key, lo, hi);
      if run[n].Post? {
        assert Requests(run)[..|Requests(run)| - 1] == Requests(run[..n]);
      } else {
        assert Requests(run) == Requests(run[..n]);
      }
    }
  }

  /**
    However it words its requests, one client key whose live counter is not evicted can
    create at most (n + 1) * rate - 1 clips in any n windows.
   */
  lemma InsertionBound(cfg: Config, run: seq<Step>, key: Key, lo: int, n: nat)
    requires cfg.rate >= 1 && cfg.window > 0
    requires LimiterRuns.Clocked(Requests(run)) && LimiterRuns.Spares(cfg, Requests(run), key)
    ensures Inserted(cfg, run, key, lo, lo + n * cfg.window) <= (n + 1) * cfg.rate - 1
  {
    InsertedAtMostAdmitted(cfg, run, key, lo, lo + n * cfg.window);
    LimiterRate.RateBound(cfg, Requests(run), key, lo, n);
  }

  /** Every key of the run is the bucket of some sender. */
  ghost predicate KeyedBySenders(lib: Library, keys: KeyConfig, run: seq<Step>) {
    forall i :: 0 <= i < |run| && run[i].Post? ==>
      exists sender :: run[i].key == BucketIp(lib, SenderIp(lib, keys, sender), keys.ipv6Prefix)
  }

  lemma {:induction false} SenderKeysAreNamed(lib: Library, keys: KeyConfig, run: seq<Step>)
    requires lib.Faithful() && KeyedBySenders(lib, keys, run)
    ensures forall i :: 0 <= i < |Requests(run)| ==> Requests(run)[i].key != ""
  {
    if run == [] {
    } else {
      var n := |run| - 1;
      SenderKeysAreNamed(lib, keys, run[..n]);
      if run[n].Post? {
        var sender :| run[n].key == BucketIp(lib, SenderIp(lib, keys, sender), keys.ipv6Prefix);
        NetworkTextHasSlash(lib, SenderIp(lib, keys, sender), keys.ipv6Prefix);
      }
    }
  }

  /** Driven by real senders the limiter's memory is bounded: never more than maxKeys counters. */
  lemma MemoryIsBounded(lib: Library, keys: KeyConfig, cfg: Config, run: seq<Step>)
    requires lib.Faithful() && KeyedBySenders(lib, keys, run)
    requires cfg.rate >= 1 && cfg.maxKeys >= 1 && LimiterRuns.Legal(cfg, Requests(run))
    ensures |StateAfter(cfg, run).keys| <= cfg.maxKeys
    ensures forall k :: k in StateAfter(cfg, run).keys ==> 1 <= StateAfter(cfg, run).keys[k].count <= cfg.rate
  {
    SenderKeysAreNamed(lib, keys, run);
    InsertedAtMostAdmitted(cfg, run, "", 0, 0);
    LimiterCapacity.CapacityInvariant(cfg, Requests(run));
  }

  /** The response to step i of the run. */
  function ResponseAt(cfg: Config, run: seq<Step>, i: nat): Response
    requires i < |run| && run[i].Post?
  {
    var s := StateAfter(cfg, run[..i]);
    Respond(cfg, s.keys, s.clips, run[i].key, run[i].body, run[i].now)
  }

  // ----- What the answers promise -----

  /** What the store sees of a step; a request that does not get as far as a claim does nothing there. */
  function EventOf(cfg: Config, s: State, step: Step): Leases.Event {
    match step
    case Elsewhere(event) => event
    case Post(key, body, now, _, at) =>
      var input := InputOf(body);
      if Decide(cfg, s.keys, key, now.limiter).allowed && input.Ok?
      then Leases.Event(Leases.Create(input.value, now.service), now.store, at)
      else Leases.Event(Leases.Availability(body.slug), now.store, at)
  }

  function Events(cfg: Config, run: seq<Step>): (events: seq<Leases.Event>)
    ensures |events| == |run|
  {
    if run == [] then []
    else
      var n := |run| - 1;
      Events(cfg, run[..n]) + [EventOf(cfg, StateAfter(cfg, run[..n]), run[n])]
  }

  lemma {:induction false} EventsPrefix(cfg: Config, run: seq<Step>, i: nat)
    requires i <= |run|
    ensures Events(cfg, run)[..i] == Events(cfg, run[..i])
  {
    if i == |run| {
      assert run[..i] == run;
    } else {
      EventsPrefix(cfg, run[..|run| - 1], i);
      assert run[..|run| - 1][..i] == run[..i];
    }
  }

  lemma {:induction false} ClipsAreLeases(cfg: Config, run: seq<Step>)
    ensures StateAfter(cfg, run).clips == Leases.TableAfter(Events(cfg, run))
  {
    if run != [] {
      var n := |run| - 1;
      ClipsAreLeases(cfg, run[..n]);
      EventsPrefix(cfg, run, n);
    }
  }

  /** Step i claimed this row; if it was a request, its client was told so. */
  predicate Claims(cfg: Config, run: seq<Step>, i: nat, row: Row)
    requires i < |run|
  {
    match run[i]
    case Elsewhere(event) => Leases.OutcomeOf(StateAfter(cfg, run[..i]).clips, event) == Leases.Claim(row)
    case Post(_, body, now, _, _) =>
      ResponseAt(cfg, run, i) == Created(row.slug, row.expiresAt) && Wanted(body, now.service) == Ok(row)
  }

  /** A request is answered Created, and any other step claims, exactly when the store grants a lease. */
  lemma ClaimsAreGrants(cfg: Config, run: seq<Step>, i: nat, row: Row)
    requires i < |run|
    ensures Claims(cfg, run, i, row) <==> Leases.OutcomeAt(Events(cfg, run), i) == Leases.Claim(row)
  {
    EventsPrefix(cfg, run, i);
    EventsPrefix(cfg, run, i + 1);
    assert run[..i + 1][..i] == run[..i];
    ClipsAreLeases(cfg, run[..i]);
    assert Events(cfg, run)[i] == EventOf(cfg, StateAfter(cfg, run[..i]), run[i]);
  }

  /**
    What a client was told stands: from a Created answer until its expiry the row is there,
    over requests, other claims and sweeps with clock samples as old as may be.
   */
  lemma CreatedIsKept(cfg: Config, run: seq<Step>, i: nat, j: nat, row: Row)
    requires Leases.Stale(Events(cfg, run)) && i < j <= |run| && Claims(cfg, run, i, row)
    requires forall k :: i < k < j ==> Events(cfg, run)[k].at < row.expiresAt
    ensures var clips := StateAfter(cfg, run[..j]).clips; row.slug in clips && clips[row.slug] == row
  {
    ClaimsAreGrants(cfg, run, i, row);
    Leases.LiveLeasePersists(Events(cfg, run), i, j);
    EventsPrefix(cfg, run, j);
    ClipsAreLeases(cfg, run[..j]);
  }

  /** Two claims of one name never overlap, whichever way they came. */
  lemma ClaimsAreExclusive(cfg: Config, run: seq<Step>, i: nat, j: nat, first: Row, second: Row)
    requires Leases.Stale(Events(cfg, run)) && i < j < |run| && first.slug == second.slug
    requires Claims(cfg, run, i, first) && Claims(cfg, run, j, second)
    ensures first.expiresAt <= Events(cfg, run)[j].at
  {
    var events := Events(cfg, run);
    ClaimsAreGrants(cfg, run, i, first);
    ClaimsAreGrants(cfg, run, j, second);
    if events[j].at < first.expiresAt {
      assert forall k :: i < k < j ==> events[k].at <= events[j].at;
      Leases.LiveLeasePersists(events, i, j);
      Leases.StepEffect(Leases.TableAfter(events[..j]), events[j], second.slug);
    }
  }

  /**
    No two clients are promised one name for overlapping times: the claim behind a second
    Created answer takes effect at or after the expiry that the first answer gave.
   */
  lemma CreatedAnswersNeverOverlap(cfg: Config, run: seq<Step>, i: nat, j: nat)
    requires Leases.Stale(Events(cfg, run)) && i < j < |run| && run[i].Post? && run[j].Post?
    requires ResponseAt(cfg, run, i).Created? && ResponseAt(cfg, run, j).Created?
    requires ResponseAt(cfg, run, i).slug == ResponseAt(cfg, run, j).slug
    ensures ResponseAt(cfg, run, i).expiresAt <= run[j].at
  {
    EventIsPost(cfg, run, j);
    var first := CreatedIsClaim(cfg, run, i);
    var second := CreatedIsClaim(cfg, run, j);
    ClaimsAreExclusive(cfg, run, i, j, first, second);
  }

  /**
    While a lease runs every other well-formed request for its name that the limiter
    admits is told that the name is in use, however stale the clocks.
   */
  lemma TakenNameIsRefused(cfg: Config, run: seq<Step>, i: nat, j: nat, row: Row)
    requires Leases.Stale(Events(cfg, run)) && i < j < |run| && Claims(cfg, run, i, row)
    requires run[j].Post? && run[j].at < row.expiresAt && run[j].body.slug == row.slug
    requires run[j].body.ttlSeconds.None? || run[j].body.ttlSeconds.value in {600, 3600, 7200}
    requires |run[j].body.text| <= 262144 && !ResponseAt(cfg, run, j).TooManyRequests?
    ensures ResponseAt(cfg, run, j) == Failed(SlugInUse)
  {
    var events, s, e := Events(cfg, run), StateAfter(cfg, run[..j]), run[j];
    EventIsPost(cfg, run, j);
    assert forall k :: i < k < j ==> events[k].at <= events[j].at;
    assert e.now.store <= e.at;
    CreatedIsKept(cfg, run, i, j, row);
    ClaimedNamesAreValid(cfg, run, i, row);
    AnswerTable(cfg, s.keys, s.clips, e.key, e.body, e.now);
  }

  lemma ClaimedNamesAreValid(cfg: Config, run: seq<Step>, i: nat, row: Row)
    requires i < |run| && Claims(cfg, run, i, row)
    ensures SlugError(row.slug).None?
  {
  }

  lemma EventIsPost(cfg: Config, run: seq<Step>, i: nat)
    requires i < |run| && run[i].Post?
    ensures Events(cfg, run)[i].at == run[i].at && Events(cfg, run)[i].snap == run[i].now.store
  {
    EventsPrefix(cfg, run, i + 1);
    assert run[..i + 1][..i] == run[..i];
  }

  lemma CreatedIsClaim(cfg: Config, run: seq<Step>, i: nat) returns (row: Row)
    requires i < |run| && run[i].Post? && ResponseAt(cfg, run, i).Created?
    ensures Claims(cfg, run, i, row) && ResponseAt(cfg, run, i) == Created(row.slug, row.expiresAt)
  {
    row := Wanted(run[i].body, run[i].now.service).value;
  }

  lemma ClaimsInPrefix(cfg: Config, run: seq<Step>, n: nat, k: nat, row: Row)
    requires k < n <= |run|
    ensures Claims(cfg, run[..n], k, row) <==> Claims(cfg, run, k, row)
  {
    assert run[..n][..k] == run[..k];
  }

  /** After the last step a row is the one it claimed, or was there before. */
  lemma LastStepOn(cfg: Config, run: seq<Step>, slug: Slug)
    requires |run| > 0 && slug in StateAfter(cfg, run).clips
    ensures var n, row := |run| - 1, StateAfter(cfg, run).clips[slug];
            var clips := StateAfter(cfg, run[..n]).clips;
            || (Claims(cfg, run, n, row) && row.slug == slug)
            || (slug in clips && clips[slug] == row
                && forall other: Row :: Claims(cfg, run, n, other) ==> other.slug != slug)
  {
    var n := |run| - 1;
    var events := Events(cfg, run);
    EventsPrefix(cfg, run, n);
    ClipsAreLeases(cfg, run[..n]);
    ClipsAreLeases(cfg, run);
    Leases.StepEffect(Leases.TableAfter(events[..n]), events[n], slug);
    forall row: Row
      ensures Claims(cfg, run, n, row) <==> Leases.OutcomeAt(events, n) == Leases.Claim(row)
    {
      ClaimsAreGrants(cfg, run, n, row);
    }
  }

  /** Step i claimed this row, and no later one claimed its name. */
  ghost predicate LastClaim(cfg: Config, run: seq<Step>, i: nat, row: Row) {
    && i < |run| && Claims(cfg, run, i, row)
    && forall k, other: Row :: i < k < |run| && Claims(cfg, run, k, other) ==> other.slug != row.slug
  }

  lemma LastClaimStays(cfg: Config, run: seq<Step>, i: nat, row: Row)
    requires |run| > 0 && LastClaim(cfg, run[..|run| - 1], i, row)
    requires forall other: Row :: Claims(cfg, run, |run| - 1, other) ==> other.slug != row.slug
    ensures LastClaim(cfg, run, i, row)
  {
    var n := |run| - 1;
    ClaimsInPrefix(cfg, run, n, i, row);
    forall k, other: Row | i < k < |run| && Claims(cfg, run, k, other)
      ensures other.slug != row.slug
    {
      if k < n {
        ClaimsInPrefix(cfg, run, n, k, other);
      }
    }
  }

  /**
    Refusals store nothing: every row there ever is goes back, through all sweeps, to the
    last step that claimed its name, and if that was a request its client was told Created
    with this name and expiry.
   */
  lemma {:induction false} RowsWereAcknowledged(cfg: Config, run: seq<Step>, slug: Slug) returns (i: nat)
    requires slug in StateAfter(cfg, run).clips
    ensures LastClaim(cfg, run, i, StateAfter(cfg, run).clips[slug]) && StateAfter(cfg, run).clips[slug].slug == slug
  {
    var n, row := |run| - 1, StateAfter(cfg, run).clips[slug];
    LastStepOn(cfg, run, slug);
    if Claims(cfg, run, n, row) && row.slug == slug {
      i := n;
    } else {
      i := RowsWereAcknowledged(cfg, run[..n], slug);
      LastClaimStays(cfg, run, i, row);
    }
  }

  /** Over HTTP exactly the three presets and "not chosen" are accepted as lifetimes. */
  lemma AcceptedLifetimes(body: Body, svcNow: int)
    requires SlugError(body.slug).None? && |body.text| <= MAX_BODY_BYTES
    ensures Wanted(body, svcNow).Ok? <==> body.ttlSeconds.None? || body.ttlSeconds.value in {600, 3600, 7200}
    ensures Wanted(body, svcNow).Ok? ==>
              Wanted(body, svcNow).value.expiresAt - svcNow ==
              if body.ttlSeconds.None? then 7200 * SECOND else body.ttlSeconds.value as int * SECOND
  {
    if body.ttlSeconds.Some? {
      TtlFromSecondsExact(body.ttlSeconds.value);
    }
    ResolvedIsPreset(0);
  }
}
