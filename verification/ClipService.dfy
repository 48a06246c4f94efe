/** The clip service and the sweeper (internal/clips/service.go, internal/sweeper/sweeper.go). */
module ClipService {
  import opened Basics
  import opened Ttl
  import opened ClipStore

  const MAX_BODY_BYTES := 262144

  datatype CreateInput = CreateInput(slug: Slug, body: Body, ttl: int64)

  predicate SlugChar(c: char) {
    'a' <= c <= 'z' || 'A' <= c <= 'Z' || '0' <= c <= '9' || c == '_' || c == '-'
  }

  /** slug.Validate (internal/slug/slug.go:43-63): the error, or None for a claimable name. */
  function SlugError(slug: Slug): Option<Error> {
    if |slug| < 3 || |slug| > 64 then Some(InvalidSlug)
    else if exists i :: 0 <= i < |slug| && !SlugChar(slug[i]) then Some(InvalidSlug)
    else if slug == "status" then Some(ReservedSlug)
    else None
  }

  /** The row a create request asks for, given the service's own clock. */
  function Requested(input: CreateInput, svcNow: int): Result<Row> {
    if SlugError(input.slug).Some? then Err(SlugError(input.slug).value)
    else if |input.body| > MAX_BODY_BYTES then Err(BodyTooLarge)
    else
      match ResolveTtl(input.ttl)
      case None => Err(InvalidTtl)
      case Some(ttl) => Ok(Row(input.slug, input.body, svcNow, svcNow + ttl as int))
  }

  /** Names are 3 to 64 ASCII letters, digits, underscores and hyphens, and one of them is reserved. */
  lemma SlugErrorExact(slug: Slug)
    ensures SlugError(slug) ==
            if slug == "status" then Some(ReservedSlug)
            else if 3 <= |slug| <= 64 && forall c :: c in slug ==>
                      'A' <= c <= 'Z' || 'a' <= c <= 'z' || '0' <= c <= '9' || c == '-' || c == '_' then None
            else Some(InvalidSlug)
  {
    assert (exists i :: 0 <= i < |slug| && !SlugChar(slug[i])) <==> exists c :: c in slug && !SlugChar(c);
    assert slug == "status" ==> |slug| == 6 && forall c :: c in slug ==> SlugChar(c);
  }

  /** What is wrong with a request, the name first, then the size, then the lifetime; or the row it gets. */
  lemma RequestedExact(input: CreateInput, svcNow: int)
    ensures Requested(input, svcNow) ==
            if SlugError(input.slug).Some? then Err(SlugError(input.slug).value)
            else if |input.body| > 256 * 1024 then Err(BodyTooLarge)
            else if input.ttl == 0 then Ok(Row(input.slug, input.body, svcNow, svcNow + 7200 * 1_000_000_000))
            else if input.ttl as int in {600 * 1_000_000_000, 3600 * 1_000_000_000, 7200 * 1_000_000_000}
            then Ok(Row(input.slug, input.body, svcNow, svcNow + input.ttl as int))
            else Err(InvalidTtl)
  {
    ResolvedIsPreset(input.ttl);
  }

  class Service {
    const store: Store

    constructor (store: Store)
      ensures this.store == store
    {
      this.store := store;
    }

    /** The service samples its clock for the lease, the store samples its own for the claim. */
    method Create(input: CreateInput, svcNow: int, storeNow: int) returns (r: Result<Row>)
      modifies store
      ensures var wanted := Requested(input, svcNow);
              && r == (if wanted.Ok? && old(LiveAt(store.clips, input.slug, storeNow)) then Err(SlugInUse) else wanted)
              && store.clips == if wanted.Ok? then old(Claimed(store.clips, wanted.value, storeNow))
                                else old(store.clips)
    {
      var invalid := SlugError(input.slug);
      if invalid.Some? {
        return Err(invalid.value);
      }
      if |input.body| > MAX_BODY_BYTES {
        return Err(BodyTooLarge);
      }
      var ttl := ResolveTtl(input.ttl);
      if ttl.None? {
        return Err(InvalidTtl);
      }
      var createdAt := svcNow;
      var expiresAt := createdAt + ttl.value as int;
      r := store.ClaimClip(input.slug, input.body, createdAt, expiresAt, storeNow);
    }

    method Read(slug: Slug, storeNow: int) returns (r: Result<Row>)
      ensures r == if LiveAt(store.clips, slug, storeNow) then Ok(store.clips[slug]) else Err(NotFound)
    {
      r := store.GetLiveClip(slug, storeNow);
    }

    method Availability(slug: Slug, storeNow: int) returns (r: Result<bool>)
      ensures r == if SlugError(slug).Some? then Err(SlugError(slug).value)
                   else Ok(!LiveAt(store.clips, slug, storeNow))
    {
      var invalid := SlugError(slug);
      if invalid.Some? {
        return Err(invalid.value);
      }
      var live := store.SlugIsLive(slug, storeNow);
      return Ok(!live);
    }

    method DeleteExpired(storeNow: int) returns (deleted: int)
      modifies store
      ensures store.clips == Swept(old(store.clips), old(store.clips).Keys, storeNow)
      ensures deleted == |old(store.clips)| - |store.clips|
    {
      deleted := store.DeleteExpiredClips(storeNow);
    }
  }

  /** A tick of the sweeper's timer: the store clock then, and whether the store answers. */
  datatype Tick = Tick(now: int, reachable: bool)

  class Sweeper {
    const deleter: Service

    constructor (deleter: Service)
      ensures this.deleter == deleter
    {
      this.deleter := deleter;
    }

    /**
      The ticks until the context is cancelled. A failed pass does not stop the loop: a
      row is gone afterwards exactly when it had expired at some tick that got through.
     */
    method Run(ticks: seq<Tick>) returns (total: int)
      modifies deleter.store
      ensures var before, after := old(deleter.store.clips), deleter.store.clips;
              && total == |before| - |after|
              && (forall s :: s in after ==> s in before && after[s] == before[s])
              && forall s :: s in before ==>
                   (s !in after <==>
                       exists i :: 0 <= i < |ticks| && ticks[i].reachable && before[s].expiresAt <= ticks[i].now)
    {
      total := 0;
      ghost var before := deleter.store.clips;
      for n := 0 to |ticks|
        invariant total == |before| - |deleter.store.clips|
        invariant forall s :: s in deleter.store.clips ==> s in before && deleter.store.clips[s] == before[s]
        invariant forall s :: s in before ==>
                    (s !in deleter.store.clips
                     <==> exists i :: 0 <= i < n && ticks[i].reachable && before[s].expiresAt <= ticks[i].now)
      {
        if ticks[n].reachable {
          var deleted := deleter.DeleteExpired(ticks[n].now);
          total := total + deleted;
        }
      }
    }
  }
}
