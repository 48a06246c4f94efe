/** Clip lifetimes (internal/clips/clips.go:9-66). */
module Ttl {
  import opened Basics

  newtype int64 = x: int | -0x8000_0000_0000_0000 <= x < 0x8000_0000_0000_0000

  const PRESETS: seq<int64> := [(10 * MINUTE) as int64, HOUR as int64, (2 * HOUR) as int64]
  const DEFAULT_PRESET: int64 := (2 * HOUR) as int64
  const ANON_CEILING: int := 2 * HOUR
  const MAX_SECONDS_AS_DURATION: int64 := 0x7fff_ffff_ffff_ffff / SECOND as int64

  /** A lifetime in seconds as a preset duration, or None for an invalid one. */
  function TtlFromSeconds(seconds: int64): Option<int64> {
    if seconds < 0 || seconds > MAX_SECONDS_AS_DURATION then None
    else
      var ttl := seconds * SECOND as int64;
      if ttl in PRESETS then Some(ttl) else None
  }

  function ResolveTtl(ttl: int64): Option<int64> {
    if ttl == 0 then Some(DEFAULT_PRESET)
    else if ttl in PRESETS then Some(ttl)
    else None
  }

  predicate IsPreset(d: int) {
    d == 10 * MINUTE || d == HOUR || d == 2 * HOUR
  }

  /**
    The product in TtlFromSeconds stays within 64 bits for every input that reaches it,
    exactly three inputs are accepted, and ResolveTtl leaves what it is given alone. A
    zero lifetime is invalid as a number of seconds although ResolveTtl takes the zero
    duration for "not chosen".
   */
  lemma TtlFromSecondsExact(seconds: int64)
    ensures TtlFromSeconds(seconds).Some? <==> seconds in {600, 3600, 7200}
    ensures TtlFromSeconds(seconds).Some? ==>
              && TtlFromSeconds(seconds).value as int == seconds as int * SECOND
              && ResolveTtl(TtlFromSeconds(seconds).value) == TtlFromSeconds(seconds)
  {
    if 0 <= seconds <= MAX_SECONDS_AS_DURATION {
      var ttl := seconds * SECOND as int64;
      assert ttl as int == seconds as int * SECOND;
      PresetMembership(ttl);
    }
  }

  lemma PresetMembership(ttl: int64)
    ensures ttl in PRESETS <==> IsPreset(ttl as int)
  {
    assert PRESETS[0] as int == 10 * MINUTE && PRESETS[1] as int == HOUR && PRESETS[2] as int == 2 * HOUR;
  }

  /** Whatever is chosen, the resolved lifetime is a preset within the anonymous ceiling. */
  lemma ResolvedIsPreset(ttl: int64)
    ensures ResolveTtl(ttl).Some? <==> ttl == 0 || IsPreset(ttl as int)
    ensures ResolveTtl(ttl).Some? ==>
              IsPreset(ResolveTtl(ttl).value as int) && 10 * MINUTE <= ResolveTtl(ttl).value as int <= ANON_CEILING
  {
    PresetMembership(ttl);
  }
}
