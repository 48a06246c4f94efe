/** The right-to-left scan of the X-Forwarded-For header (internal/httpapi/clientip.go:48-63). */
module ForwardedFor {
  import opened Basics

  /** A parsed address in its 16-byte form, the only one net.ParseIP returns. */
  type Ip = s: seq<bv8> | |s| == 16 witness seq(16, _ => 0 as bv8)

  /** Text to address; partial, and otherwise unknown here. */
  type Parser = string -> Option<Ip>

  /** strings.Split(s, ","): one part more than there are commas. */
  function Split(s: string): (parts: seq<string>)
    ensures |parts| > 0
  {
    if s == "" then [""]
    else
      var rest := Split(s[1..]);
      if s[0] == ',' then [""] + rest else [[s[0]] + rest[0]] + rest[1..]
  }

  function Join(parts: seq<string>): string
    requires |parts| > 0
  {
    if |parts| == 1 then parts[0] else parts[0] + "," + Join(parts[1..])
  }

  /** Splitting loses nothing and leaves no comma behind. */
  lemma {:induction false} SplitIsExact(s: string)
    ensures Join(Split(s)) == s
    ensures forall i :: 0 <= i < |Split(s)| ==> ',' !in Split(s)[i]
  {
    if s == "" {
    } else {
      var rest := Split(s[1..]);
      SplitIsExact(s[1..]);
      if s[0] == ',' {
        assert ([""] + rest)[1..] == rest;
        assert s == "," + s[1..];
      } else {
        var parts := Split(s);
        assert parts[1..] == rest[1..];
        assert forall i :: 0 < i < |parts| ==> parts[i] == rest[i];
      }
    }
  }

  lemma {:induction false} SplitOverComma(a: string, b: string)
    ensures Split(a + "," + b) == Split(a) + Split(b)
  {
    if a == "" {
      assert a + "," + b == "," + b;
      assert ("," + b)[1..] == b;
    } else {
      assert (a + "," + b)[1..] == a[1..] + "," + b;
      SplitOverComma(a[1..], b);
    }
  }

  /** unicode.IsSpace */
  predicate IsSpace(c: char) {
    c == ' ' || '\t' <= c <= '\r' || c == '\U{85}' || c == '\U{A0}' || c == '\U{1680}'
    || '\U{2000}' <= c <= '\U{200A}' || c == '\U{2028}' || c == '\U{2029}' || c == '\U{202F}'
    || c == '\U{205F}' || c == '\U{3000}'
  }

  function TrimSpace(s: string): string {
    if s == "" then s
    else if IsSpace(s[0]) then TrimSpace(s[1..])
    else if IsSpace(s[|s| - 1]) then TrimSpace(s[..|s| - 1])
    else s
  }

  function ParsePart(part: string, parse: Parser): Option<Ip> {
    var trimmed := TrimSpace(part);
    if trimmed == "" then None else parse(trimmed)
  }

  /** The address of the last part that parses. */
  function LastParsed(parts: seq<string>, parse: Parser): Option<Ip> {
    if parts == [] then None
    else
      var ip := ParsePart(parts[|parts| - 1], parse);
      if ip.Some? then ip else LastParsed(parts[..|parts| - 1], parse)
  }

  function Rightmost(header: string, parse: Parser): Option<Ip> {
    LastParsed(Split(header), parse)
  }

  /** No part from index `from` on parses. */
  predicate NoneParses(parts: seq<string>, from: int, parse: Parser) {
    forall j :: 0 <= j < |parts| && from <= j ==> ParsePart(parts[j], parse).None?
  }

  method ParseForwardedFor(header: string, parse: Parser) returns (r: Option<Ip>)
    ensures r == Rightmost(header, parse)
    ensures r.None? ==> NoneParses(Split(header), 0, parse)
    ensures r.Some? ==> exists i :: 0 <= i < |Split(header)| && ParsePart(Split(header)[i], parse) == r
                                    && NoneParses(Split(header), i + 1, parse)
  {
    if header == "" {
      return None;
    }
    var parts := Split(header);
    assert parts[..|parts|] == parts;
    var i := |parts| - 1;
    while i >= 0
      invariant -1 <= i < |parts|
      invariant NoneParses(parts, i + 1, parse)
      invariant LastParsed(parts, parse) == LastParsed(parts[..i + 1], parse)
    {
      assert parts[..i + 1][..i] == parts[..i];
      var part := TrimSpace(parts[i]);
      if part != "" {
        var ip := parse(part);
        if ip.Some? {
          assert ParsePart(parts[i], parse) == ip;
          return ip;
        }
      }
      i := i - 1;
    }
    return None;
  }

  lemma {:induction false} LastParsedOverConcat(left: seq<string>, right: seq<string>, parse: Parser)
    ensures LastParsed(left + right, parse) ==
            if LastParsed(right, parse).Some? then LastParsed(right, parse) else LastParsed(left, parse)
  {
    if right == [] {
      assert left + right == left;
    } else {
      assert (left + right)[..|left + right| - 1] == left + right[..|right| - 1];
      LastParsedOverConcat(left, right[..|right| - 1], parse);
    }
  }

  /**
    Nothing a client puts in front of a header that already names an address can change
    the outcome, and in front of one that names none the scan falls through to it.
   */
  lemma RightmostWins(forged: string, header: string, parse: Parser)
    ensures Rightmost(forged + "," + header, parse) ==
            if Rightmost(header, parse).Some? then Rightmost(header, parse) else Rightmost(forged, parse)
  {
    SplitOverComma(forged, header);
    LastParsedOverConcat(Split(forged), Split(header), parse);
  }

  // ----- The scan in terms of the text alone -----

  /** The code points with the Unicode property White_Space. */
  const WHITE_SPACE := {
    '\t', '\n', '\U{0B}', '\U{0C}', '\r', ' ', '\U{85}', '\U{A0}', '\U{1680}', '\U{2000}', '\U{2001}', '\U{2002}',
    '\U{2003}', '\U{2004}', '\U{2005}', '\U{2006}', '\U{2007}', '\U{2008}', '\U{2009}', '\U{200A}', '\U{2028}',
    '\U{2029}', '\U{202F}', '\U{205F}', '\U{3000}'
  }

  lemma SpaceIsWhiteSpace(c: char)
    ensures IsSpace(c) <==> c in WHITE_SPACE
  {
    assert '\U{2000}' <= c <= '\U{200A}' ==> 0x2000 <= c as int <= 0x200A;
    assert '\t' <= c <= '\r' ==> 9 <= c as int <= 13;
  }

  predicate Blank(s: string) {
    forall i :: 0 <= i < |s| ==> s[i] in WHITE_SPACE
  }

  /** Nothing to trim. */
  predicate Solid(s: string) {
    s != "" ==> s[0] !in WHITE_SPACE && s[|s| - 1] !in WHITE_SPACE
  }

  lemma {:induction false} TrimsTail(core: string, after: string)
    requires core != "" ==> !IsSpace(core[0]) && !IsSpace(core[|core| - 1])
    requires forall i :: 0 <= i < |after| ==> IsSpace(after[i])
    ensures TrimSpace(core + after) == core
  {
    var s := core + after;
    if after == "" {
      assert s == core;
    } else if core == "" {
      assert s == after && s[1..] == core + after[1..];
      TrimsTail(core, after[1..]);
    } else {
      assert s[0] == core[0] && s[|s| - 1] == after[|after| - 1];
      assert s[..|s| - 1] == core + after[..|after| - 1];
      TrimsTail(core, after[..|after| - 1]);
    }
  }

  lemma {:induction false} TrimsHead(before: string, rest: string)
    requires forall i :: 0 <= i < |before| ==> IsSpace(before[i])
    ensures TrimSpace(before + rest) == TrimSpace(rest)
  {
    if before == "" {
      assert before + rest == rest;
    } else {
      assert (before + rest)[0] == before[0] && (before + rest)[1..] == before[1..] + rest;
      TrimsHead(before[1..], rest);
    }
  }

  lemma BlankIsSpace(s: string)
    ensures Blank(s) <==> forall i :: 0 <= i < |s| ==> IsSpace(s[i])
  {
    forall i | 0 <= i < |s|
      ensures IsSpace(s[i]) <==> s[i] in WHITE_SPACE
    {
      SpaceIsWhiteSpace(s[i]);
    }
  }

  /** Trimming takes away exactly the white space on both sides. */
  lemma TrimSpaceExact(before: string, core: string, after: string)
    requires Blank(before) && Solid(core) && Blank(after)
    ensures TrimSpace(before + core + after) == core
  {
    BlankIsSpace(before);
    BlankIsSpace(after);
    if core != "" {
      SpaceIsWhiteSpace(core[0]);
      SpaceIsWhiteSpace(core[|core| - 1]);
    }
    assert before + core + after == before + (core + after);
    TrimsHead(before, core + after);
    TrimsTail(core, after);
  }

  lemma {:induction false} NoCommaNoSplit(s: string)
    requires ',' !in s
    ensures Split(s) == [s]
  {
    if s != "" {
      NoCommaNoSplit(s[1..]);
      assert s[0] != ',' && s == [s[0]] + s[1..];
    }
  }

  lemma PaddingHasNoComma(before: string, a: string, after: string)
    requires Blank(before) && Blank(after) && ',' !in a
    ensures ',' !in before + a + after
  {
    assert ',' !in WHITE_SPACE;
    assert ',' !in before && ',' !in after;
  }

  lemma OnePart(part: string, parse: Parser)
    requires ',' !in part
    ensures Rightmost(part, parse) == ParsePart(part, parse)
  {
    NoCommaNoSplit(part);
    assert [part][..0] == [];
  }

  lemma PaddedPart(before: string, a: string, after: string, parse: Parser)
    requires Blank(before) && Blank(after) && Solid(a) && ',' !in a
    ensures Rightmost(before + a + after, parse) == if a == "" then None else parse(a)
  {
    PaddingHasNoComma(before, a, after);
    OnePart(before + a + after, parse);
    TrimSpaceExact(before, a, after);
  }

  /**
    What the scan does to a header, part by part and without reference to how: it goes by
    the last part, with the white space around it dropped, if that is an address, and by
    the rest of the header if it is not, or is blank.
   */
  lemma LastPartDecides(rest: string, before: string, a: string, after: string, parse: Parser)
    requires Blank(before) && Blank(after) && Solid(a) && ',' !in a
    ensures Rightmost(before + a + after, parse) == if a == "" then None else parse(a)
    ensures Rightmost(rest + "," + (before + a + after), parse) ==
            if a != "" && parse(a).Some? then parse(a) else Rightmost(rest, parse)
  {
    PaddedPart(before, a, after, parse);
    RightmostWins(rest, before + a + after, parse);
  }

  /** Every text is a part of that kind, so LastPartDecides covers every header. */
  lemma {:induction false} PartsHaveCores(part: string) returns (before: string, a: string, after: string)
    ensures part == before + a + after && Blank(before) && Blank(after) && Solid(a)
  {
    before, a, after := "", part, "";
    if part == "" {
    } else if part[0] in WHITE_SPACE {
      before, a, after := PartsHaveCores(part[1..]);
      before := [part[0]] + before;
    } else if part[|part| - 1] in WHITE_SPACE {
      before, a, after := PartsHaveCores(part[..|part| - 1]);
      after := after + [part[|part| - 1]];
    }
  }
}
