/**
 * `glob_to_regex` of the current library: anchored mode wraps the body in
 * `\A(` ... `)\Z` (a capture group between start-of-text and end-of-text
 * anchors); case-insensitivity is a flag that only selects the compile
 * flags.
 */
module GlobRegex {
  import opened RegexText
  import opened GlobCompiler

  /** Builds the pattern of a glob: every string is a glob and yields a
      pattern text (the limits `re.compile` puts on repetition counts are
      not modelled). The pattern text depends only on the glob and the
      mode, never on `ignoreCase`. */
  method GlobToRegex(glob: string, wordBoundary: bool := false, ignoreCase: bool := true)
    returns (r: CompiledPattern)
    ensures wordBoundary ==> r.pattern == ToWordPattern(Body(glob))
    ensures !wordBoundary ==> r.pattern == @"\A(" + Body(glob) + @")\Z"
    ensures r.ignoreCase == ignoreCase
  {
    var parts := Split(glob);
    var chunks: seq<string> := [];
    for k := 0 to |parts|
      invariant chunks == seq(k, m requires 0 <= m < k => Render(ChunkToken(parts[m])))
    {
      var chunk := parts[k];
      // no wildcards: escape the literal
      if !(chunk != [] && IsWildcard(chunk[0])) {
        chunks := chunks + [Escape(chunk)];
        continue;
      }
      // wildcards: collapse the run into one quantifier
      var questionMarks := CountOf(chunk, '?');
      if '*' in chunk {
        chunks := chunks + [".{" + Decimal(questionMarks) + ",}"];
      } else {
        chunks := chunks + [".{" + Decimal(questionMarks) + "}"];
      }
    }
    assert chunks == RenderAll(Tokens(glob));
    var pattern := Join(chunks);
    if wordBoundary {
      pattern := ToWordPattern(pattern);
    } else {
      pattern := @"\A(" + pattern + @")\Z";
    }
    r := CompiledPattern(pattern, ignoreCase);
  }

  /** The anchored patterns the tests expect of `**baz`, `*?baz` and
      `a?*?*?baz`. */
  lemma MultiWildcardPatterns()
    ensures @"\A(" + Body("**baz") + @")\Z" == @"\A(.{0,}baz)\Z"
    ensures @"\A(" + Body("*?baz") + @")\Z" == @"\A(.{1,}baz)\Z"
    ensures @"\A(" + Body("a?*?*?baz") + @")\Z" == @"\A(a.{3,}baz)\Z"
  {
    PatternStarStarBaz();
    PatternStarQuestionBaz();
    PatternThreeQuestions();
  }

  lemma PatternStarStarBaz()
    ensures @"\A(" + Body("**baz") + @")\Z" == @"\A(.{0,}baz)\Z"
  {
    Anchored(".{0,}baz", @"\A(.{0,}baz)\Z");
    BodyStarStarBaz();
  }

  lemma PatternStarQuestionBaz()
    ensures @"\A(" + Body("*?baz") + @")\Z" == @"\A(.{1,}baz)\Z"
  {
    Anchored(".{1,}baz", @"\A(.{1,}baz)\Z");
    BodyStarQuestionBaz();
  }

  lemma PatternThreeQuestions()
    ensures @"\A(" + Body("a?*?*?baz") + @")\Z" == @"\A(a.{3,}baz)\Z"
  {
    Anchored("a.{3,}baz", @"\A(a.{3,}baz)\Z");
    BodyThreeQuestions();
  }

  /** An anchored pattern text, read as its three parts. */
  lemma Anchored(body: string, text: string)
    requires |text| == |body| + 6
    requires text[..3] == @"\A(" && text[3..|text| - 3] == body && text[|text| - 3..] == @")\Z"
    ensures @"\A(" + body + @")\Z" == text
  {
    assert text == text[..3] + text[3..|text| - 3] + text[|text| - 3..];
  }
}
