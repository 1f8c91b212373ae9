/**
 * `glob_to_regex` of the older copy of the library: the same split and the
 * same run simplification, but anchored mode places the body between `\A`
 * and `\Z` with no capture group, and the pattern is always compiled
 * case-insensitively (there is no flag to turn that off).
 */
module LegacyGlobRegex {
  import opened RegexText
  import opened GlobCompiler

  /** Builds the pattern of a glob: every string is a glob and yields a
      pattern text (the limits `re.compile` puts on repetition counts are
      not modelled); the result is always case-insensitive. */
  method GlobToRegex(glob: string, wordBoundary: bool := false) returns (r: CompiledPattern)
    ensures wordBoundary ==> r.pattern == ToWordPattern(Body(glob))
    ensures !wordBoundary ==> r.pattern == @"\A" + Body(glob) + @"\Z"
    ensures r.ignoreCase
  {
    var parts := Split(glob);
    var chunks: seq<string> := [];
    for k := 0 to |parts|
      invariant chunks == seq(k, m requires 0 <= m < k => Render(ChunkToken(parts[m])))
    {
      var chunk := parts[k];
      // no wildcards: escape the literal
      if !(chunk != [] && IsWildcard(chunk[0])) {
        chunks := chunks + [Escape(chunk)];
        continue;
      }
      // wildcards: collapse the run into one quantifier
      var qmarks := CountOf(chunk, '?');
      if '*' in chunk {
        chunks := chunks + [".{" + Decimal(qmarks) + ",}"];
      } else {
        chunks := chunks + [".{" + Decimal(qmarks) + "}"];
      }
    }
    assert chunks == RenderAll(Tokens(glob));
    var res := Join(chunks);
    if wordBoundary {
      res := ToWordPattern(res);
    } else {
      res := @"\A" + res + @"\Z";
    }
    r := CompiledPattern(res, true);
  }

  /** The older anchored form of `**baz` has no capture group. */
  lemma AnchoredWithoutGroup()
    ensures @"\A" + Body("**baz") + @"\Z" == @"\A.{0,}baz\Z"
  {
    Anchored(".{0,}baz", @"\A.{0,}baz\Z");
    BodyStarStarBaz();
  }

  /** An older anchored pattern text, read as its three parts. */
  lemma Anchored(body: string, text: string)
    requires |text| == |body| + 4
    requires text[..2] == @"\A" && text[2..|text| - 2] == body && text[|text| - 2..] == @"\Z"
    ensures @"\A" + body + @"\Z" == text
  {
    assert text == text[..2] + text[2..|text| - 2] + text[|text| - 2..];
  }
}
