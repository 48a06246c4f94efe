/**
  The lease table: its row operations and the in-memory store that performs them under
  a lock (internal/clips/fake/store.go). The SQL statements of internal/db/clips.sql.go
  have the same row semantics; what differs is when their `now` was sampled.
 */
module ClipStore {
  import opened Basics

  type Slug = string
  newtype byte = x: int | 0 <= x < 256
  type Body = seq<byte>

  datatype Row = Row(slug: Slug, body: Body, createdAt: int, expiresAt: int)
  type Table = map<Slug, Row>

  datatype Error = SlugInUse | NotFound | BodyTooLarge | InvalidTtl | InvalidSlug | ReservedSlug
  datatype Result<+T> = Ok(value: T) | Err(error: Error)

  predicate LiveAt(t: Table, slug: Slug, now: int) {
    slug in t && t[slug].expiresAt > now
  }

  function Claimed(t: Table, row: Row, now: int): Table {
    if LiveAt(t, row.slug, now) then t else t[row.slug := row]
  }

  /** The table without those of the reached rows that have expired by `now`. */
  function Swept(t: Table, reached: set<Slug>, now: int): Table {
    map s | s in t && !(s in reached && t[s].expiresAt <= now) :: t[s]
  }

  class Store {
    var clips: Table

    constructor ()
      ensures clips == map[]
    {
      clips := map[];
    }

    method ClaimClip(slug: Slug, body: Body, createdAt: int, expiresAt: int, now: int) returns (r: Result<Row>)
      modifies this
      ensures r == if old(LiveAt(clips, slug, now)) then Err(SlugInUse) else Ok(Row(slug, body, createdAt, expiresAt))
      ensures clips == old(Claimed(clips, Row(slug, body, createdAt, expiresAt), now))
    {
      if slug !in clips {
        clips := clips[slug := Row(slug, body, createdAt, expiresAt)];
        return Ok(Row(slug, body, createdAt, expiresAt));
      }
      if clips[slug].expiresAt > now {
        return Err(SlugInUse);
      }
      clips := clips[slug := Row(slug, body, createdAt, expiresAt)];
      return Ok(Row(slug, body, createdAt, expiresAt));
    }

    method GetLiveClip(slug: Slug, now: int) returns (r: Result<Row>)
      ensures r == if LiveAt(clips, slug, now) then Ok(clips[slug]) else Err(NotFound)
    {
      if slug !in clips || !(clips[slug].expiresAt > now) {
        return Err(NotFound);
      }
      return Ok(clips[slug]);
    }

    method SlugIsLive(slug: Slug, now: int) returns (live: bool)
      ensures live == LiveAt(clips, slug, now)
    {
      if slug !in clips {
        return false;
      }
      return clips[slug].expiresAt > now;
    }

    /** Visits the rows in no particular order, deleting as it goes. */
    method DeleteExpiredClips(now: int) returns (deleted: int)
      modifies this
      ensures clips == Swept(old(clips), old(clips).Keys, now)
      ensures deleted == |old(clips)| - |clips|
    {
      deleted := 0;
      ghost var before := clips;
      var rest := clips.Keys;
      while rest != {}
        invariant rest <= clips.Keys && rest <= before.Keys
        invariant clips == Swept(before, before.Keys - rest, now)
        invariant deleted == |before| - |clips|
      {
        var slug :| slug in rest;
        if !(clips[slug].expiresAt > now) {
          assert (clips - {slug}).Keys == clips.Keys - {slug};
          clips := clips - {slug};
          deleted := deleted + 1;
        }
        rest := rest - {slug};
      }
    }
  }

  /**
    The clips table behind internal/db/clips.sql.go with the adapter of
    internal/clips/pgstore.go. Each statement is one atomic operation on the row it
    touches, `now` being its now(), and does what the in-memory store does.
   */
  class PgStore {
    var clips: Table

    constructor ()
      ensures clips == map[] && Keyed()
    {
      clips := map[];
    }

    /** slug is the primary key. */
    ghost predicate Keyed()
      reads this
    {
      forall s :: s in clips ==> clips[s].slug == s
    }

    /** INSERT ... ON CONFLICT (slug) DO UPDATE ... WHERE expires_at <= now() RETURNING ... */
    method InsertOrReclaim(row: Row, now: int) returns (returned: Option<Row>)
      requires Keyed()
      modifies this
      ensures Keyed() && clips == old(Claimed(clips, row, now))
      ensures returned == if old(LiveAt(clips, row.slug, now)) then None else Some(row)
    {
      if row.slug !in clips {
        clips := clips[row.slug := row];
        return Some(row);
      }
      var conflicting := clips[row.slug];
      if conflicting.expiresAt <= now {
        conflicting := conflicting.(body := row.body, createdAt := row.createdAt, expiresAt := row.expiresAt);
        clips := clips[row.slug := conflicting];
        return Some(conflicting);
      }
      return None;
    }

    /** No row returned means that the name is in use. */
    method ClaimClip(slug: Slug, body: Body, createdAt: int, expiresAt: int, now: int) returns (r: Result<Row>)
      requires Keyed()
      modifies this
      ensures Keyed()
      ensures r == if old(LiveAt(clips, slug, now)) then Err(SlugInUse) else Ok(Row(slug, body, createdAt, expiresAt))
      ensures clips == old(Claimed(clips, Row(slug, body, createdAt, expiresAt), now))
    {
      var returned := InsertOrReclaim(Row(slug, body, createdAt, expiresAt), now);
      return if returned.Some? then Ok(returned.value) else Err(SlugInUse);
    }

    method GetLiveClip(slug: Slug, now: int) returns (r: Result<Row>)
      ensures r == if LiveAt(clips, slug, now) then Ok(clips[slug]) else Err(NotFound)
    {
      var selected := map s | s in clips && s == slug && clips[s].expiresAt > now :: clips[s];
      return if slug in selected then Ok(selected[slug]) else Err(NotFound);
    }

    method SlugIsLive(slug: Slug, now: int) returns (live: bool)
      ensures live == LiveAt(clips, slug, now)
    {
      live := exists s :: s in clips && s == slug && clips[s].expiresAt > now;
    }

    /** DELETE ... WHERE expires_at <= now(), which reports the rows affected. */
    method DeleteExpiredClips(now: int) returns (affected: int)
      requires Keyed()
      modifies this
      ensures Keyed() && clips == Swept(old(clips), old(clips).Keys, now)
      ensures affected == |old(clips)| - |clips|
    {
      var doomed := set s | s in clips && clips[s].expiresAt <= now;
      affected := |doomed|;
      assert (clips - doomed).Keys == clips.Keys - doomed;
      assert |clips.Keys - doomed| == |clips.Keys| - |doomed|;
      clips := clips - doomed;
    }
  }
}
