/**
 * The part of `glob_to_regex` both copies of the library share: the glob
 * is cut into alternating literal chunks and maximal runs of `?`/`*`
 * (`_WILDCARD_RUN.split`), each chunk becomes a token (an escaped literal,
 * or a single quantifier for the whole run), and the tokens are rendered
 * and joined into the pattern body.
 */
module GlobCompiler {
  import opened RegexText

  predicate IsWildcard(c: char) {
    c == '?' || c == '*'
  }

  predicate NoWildcards(s: string) {
    forall i :: 0 <= i < |s| ==> !IsWildcard(s[i])
  }

  predicate AllWildcards(s: string) {
    forall i :: 0 <= i < |s| ==> IsWildcard(s[i])
  }

  /** A chunk that `[?*]+` would match in full: a non-empty wildcard run. */
  predicate IsWildcardRun(s: string) {
    s != [] && AllWildcards(s)
  }

  /** Length of the longest wildcard-free prefix. */
  function LiteralPrefixLength(s: string): (n: nat)
    ensures n <= |s|
    ensures NoWildcards(s[..n])
    ensures n < |s| ==> IsWildcard(s[n])
    decreases |s|
  {
    if s == [] || IsWildcard(s[0]) then 0
    else
      var n := 1 + LiteralPrefixLength(s[1..]);
      assert s[..n] == [s[0]] + s[1..][..n - 1];
      n
  }

  /** Length of the longest prefix made only of wildcards. */
  function RunLength(s: string): (n: nat)
    ensures n <= |s|
    ensures AllWildcards(s[..n])
    ensures n < |s| ==> !IsWildcard(s[n])
    decreases |s|
  {
    if s == [] || !IsWildcard(s[0]) then 0
    else
      var n := 1 + RunLength(s[1..]);
      assert s[..n] == [s[0]] + s[1..][..n - 1];
      n
  }

  /** The shape of a split on a capturing group: literal, then any number
      of (wildcard run, literal) pairs. Literals hold no wildcard; a literal
      between two runs is non-empty, so every run is maximal; the first and
      the last literal may be empty. */
  predicate Alternates(cs: seq<string>)
    decreases |cs|
  {
    && cs != []
    && NoWildcards(cs[0])
    && (|cs| == 1 ||
        (&& |cs| >= 3
         && IsWildcardRun(cs[1])
         && (|cs| > 3 ==> cs[2] != [])
         && Alternates(cs[2..])))
  }

  /** `_WILDCARD_RUN.split(glob)` with the capturing group `([\?\*]+)`:
      the leading literal, the run after it, then the split of the rest. */
  function Split(glob: string): seq<string>
    decreases |glob|
  {
    var i := LiteralPrefixLength(glob);
    if i == |glob| then [glob]
    else
      var j := i + RunLength(glob[i..]);
      [glob[..i], glob[i..j]] + Split(glob[j..])
  }

  /** The split is a partition of the glob: its chunks join back to the
      glob and alternate literal / maximal wildcard run. */
  lemma {:induction false} SplitIsPartition(glob: string)
    ensures Join(Split(glob)) == glob
    ensures Alternates(Split(glob))
    decreases |glob|
  {
    var i := LiteralPrefixLength(glob);
    if i == |glob| {
      PartitionOfLiteral(glob);
    } else {
      var j := i + RunLength(glob[i..]);
      SplitIsPartition(glob[j..]);
      PartitionStep(glob, i, j);
    }
  }

  lemma PartitionOfLiteral(glob: string)
    requires LiteralPrefixLength(glob) == |glob|
    ensures Join(Split(glob)) == glob
    ensures Alternates(Split(glob))
  {
    assert glob[..|glob|] == glob;
    SplitOfLiteral(glob);
    assert Split(glob)[1..] == [];
  }

  /** The literal prefix and the run after it, in front of the split of
      the rest. */
  lemma PartitionStep(glob: string, i: nat, j: nat)
    requires i == LiteralPrefixLength(glob) < |glob|
    requires j == i + RunLength(glob[i..])
    requires Join(Split(glob[j..])) == glob[j..]
    requires Alternates(Split(glob[j..]))
    ensures Join(Split(glob)) == glob
    ensures Alternates(Split(glob))
  {
    var lit, run, tail := glob[..i], glob[i..j], glob[j..];
    var rest := Split(tail);
    SplitStep(glob, i, j);
    assert Split(glob) == [lit, run] + rest;
    RunAfterLiteral(glob, i, j);
    SplitHead(tail);
    JoinPair(lit, run, rest);
    AlternatesPair(lit, run, rest);
    Reassemble(glob, i, j);
  }

  /** The run the split takes after the literal prefix is non-empty, holds
      only wildcards, and is followed by a literal character or nothing. */
  lemma RunAfterLiteral(glob: string, i: nat, j: nat)
    requires i == LiteralPrefixLength(glob) < |glob|
    requires j == i + RunLength(glob[i..])
    ensures NoWildcards(glob[..i])
    ensures IsWildcardRun(glob[i..j])
    ensures glob[j..] == [] || !IsWildcard(glob[j..][0])
  {
    var after := glob[i..];
    var n := RunLength(after);
    assert IsWildcard(after[0]);
    assert n >= 1;
    assert after[..n] == glob[i..j];
    if j < |glob| {
      assert glob[j..][0] == glob[j] == after[n];
    }
  }

  lemma Reassemble(s: string, i: nat, j: nat)
    requires i <= j <= |s|
    ensures s[..i] + (s[i..j] + s[j..]) == s
  {
  }

  /** Joining a literal and a run in front of more chunks. */
  lemma JoinPair(lit: string, run: string, rest: seq<string>)
    ensures Join([lit, run] + rest) == lit + (run + Join(rest))
  {
    var cs := [lit, run] + rest;
    assert cs[1..] == [run] + rest;
    assert cs[1..][1..] == rest;
  }

  /** A literal and a run in front of an alternating list whose first
      literal is non-empty whenever a run follows it. */
  lemma AlternatesPair(lit: string, run: string, rest: seq<string>)
    requires NoWildcards(lit) && IsWildcardRun(run) && Alternates(rest)
    requires |rest| > 1 ==> rest[0] != []
    ensures Alternates([lit, run] + rest)
  {
    var cs := [lit, run] + rest;
    assert cs[2..] == rest;
  }

  /** The first chunk of the split is the literal prefix; when the text
      starts with a literal character and a run follows, it is not empty. */
  lemma SplitHead(t: string)
    ensures Split(t)[0] == t[..LiteralPrefixLength(t)]
    ensures t != [] && !IsWildcard(t[0]) ==> Split(t)[0] != []
  {
  }

  /** Chunk by chunk: an odd number of them, wildcard-free literals at even
      positions, non-empty wildcard runs at odd positions. */
  lemma {:induction false} AlternatesByIndex(cs: seq<string>)
    requires Alternates(cs)
    ensures |cs| % 2 == 1
    ensures forall k :: 0 <= k < |cs| && k % 2 == 0 ==> NoWildcards(cs[k])
    ensures forall k :: 0 <= k < |cs| && k % 2 == 1 ==> IsWildcardRun(cs[k])
    decreases |cs|
  {
    if |cs| > 1 {
      AlternatesByIndex(cs[2..]);
      forall k | 2 <= k < |cs|
        ensures cs[k] == cs[2..][k - 2]
      {}
    }
  }

  /** The joined chunks start with a literal character unless the first
      literal is empty and a run follows. */
  lemma JoinStartsWithLiteral(cs: seq<string>)
    requires Alternates(cs)
    requires cs[0] != [] || |cs| == 1
    ensures Join(cs) == [] || !IsWildcard(Join(cs)[0])
  {
    if cs[0] == [] {
      assert Join(cs) == [] + Join([]);
    } else {
      assert Join(cs) == cs[0] + Join(cs[1..]);
    }
  }

  /** The split is the only alternating chunk list that joins to the glob. */
  lemma {:induction false} SplitUnique(glob: string, cs: seq<string>)
    requires Alternates(cs) && Join(cs) == glob
    ensures cs == Split(glob)
    decreases |cs|
  {
    if |cs| == 1 {
      assert cs[1..] == [];
      assert glob == cs[0];
      assert cs == [glob];
      SplitOfLiteral(glob);
    } else {
      var rest := cs[2..];
      assert cs[1..][1..] == rest;
      assert glob == cs[0] + (cs[1] + Join(rest));
      JoinStartsWithLiteral(rest);
      SplitOfRun(glob, cs[0], cs[1], Join(rest));
      SplitUnique(Join(rest), rest);
      assert cs == [cs[0], cs[1]] + rest;
    }
  }

  lemma SplitOfLiteral(glob: string)
    requires NoWildcards(glob)
    ensures Split(glob) == [glob]
  {
    assert glob[..|glob|] == glob;
    LiteralPrefixExact(glob, |glob|);
  }

  /** A literal followed by a maximal run: the split takes both off the
      front and continues with what follows. */
  lemma SplitOfRun(glob: string, lit: string, run: string, tail: string)
    requires NoWildcards(lit) && IsWildcardRun(run)
    requires tail == [] || !IsWildcard(tail[0])
    requires glob == lit + (run + tail)
    ensures Split(glob) == [lit, run] + Split(tail)
  {
    var i, j := |lit|, |lit| + |run|;
    assert glob[..i] == lit;
    assert glob[i..j] == run;
    assert glob[j..] == tail;
    LiteralPrefixExact(glob, i);
    var after := glob[i..];
    assert after[..j - i] == run;
    assert j - i < |after| ==> after[j - i] == tail[0];
    RunExact(after, j - i);
    SplitStep(glob, i, j);
  }

  /** One step of the split, unfolded once. */
  lemma SplitStep(glob: string, i: nat, j: nat)
    requires i == LiteralPrefixLength(glob) < |glob|
    requires j == i + RunLength(glob[i..])
    ensures Split(glob) == [glob[..i], glob[i..j]] + Split(glob[j..])
  {
  }

  lemma LiteralPrefixExact(s: string, n: nat)
    requires n <= |s| && NoWildcards(s[..n]) && (n < |s| ==> IsWildcard(s[n]))
    ensures LiteralPrefixLength(s) == n
  {
    var m := LiteralPrefixLength(s);
    assert forall k :: 0 <= k < m ==> s[..m][k] == s[k];
    assert forall k :: 0 <= k < n ==> s[..n][k] == s[k];
  }

  lemma RunExact(s: string, n: nat)
    requires n <= |s| && AllWildcards(s[..n]) && (n < |s| ==> !IsWildcard(s[n]))
    ensures RunLength(s) == n
  {
    var m := RunLength(s);
    assert forall k :: 0 <= k < m ==> s[..m][k] == s[k];
    assert forall k :: 0 <= k < n ==> s[..n][k] == s[k];
  }

  /** One piece of the pattern: an escaped literal, or the single quantified
      dot a whole wildcard run collapses to. */
  datatype Token = Lit(text: string) | AtLeast(min: nat) | Exactly(count: nat)

  /** `chunk.count(c)`. */
  function CountOf(s: string, c: char): nat
    decreases |s|
  {
    if s == [] then 0 else (if s[0] == c then 1 else 0) + CountOf(s[1..], c)
  }

  /** The body of the loop over the split: a chunk `_WILDCARD_RUN.match`
      rejects is a literal; a run with a `*` becomes "at least q" and a run
      of `?` only becomes "exactly q", q being its number of `?`. */
  function ChunkToken(chunk: string): Token {
    if !(chunk != [] && IsWildcard(chunk[0])) then Lit(chunk)
    else if '*' in chunk then AtLeast(CountOf(chunk, '?'))
    else Exactly(CountOf(chunk, '?'))
  }

  /** The text a token contributes: `re.escape(chunk)`, `.{q,}` or `.{q}`. */
  function Render(t: Token): string {
    match t
    case Lit(text) => Escape(text)
    case AtLeast(n) => ".{" + Decimal(n) + ",}"
    case Exactly(n) => ".{" + Decimal(n) + "}"
  }

  /** The tokens of a list of chunks, one per chunk, in order. */
  function ChunkTokens(cs: seq<string>): (ts: seq<Token>)
    ensures |ts| == |cs|
  {
    seq(|cs|, k requires 0 <= k < |cs| => ChunkToken(cs[k]))
  }

  /** The tokens of a glob: those of the chunks of its split. */
  function Tokens(glob: string): (ts: seq<Token>)
    ensures |ts| == |Split(glob)|
  {
    ChunkTokens(Split(glob))
  }

  /** The pattern body, `"".join(chunks)` after the loop. */
  function Body(glob: string): string {
    Join(RenderAll(Tokens(glob)))
  }

  function RenderAll(ts: seq<Token>): (rs: seq<string>)
    ensures |rs| == |ts|
  {
    seq(|ts|, k requires 0 <= k < |ts| => Render(ts[k]))
  }

  lemma {:induction false} QuestionRunCount(run: string)
    requires AllWildcards(run) && '*' !in run
    ensures CountOf(run, '?') == |run|
    decreases |run|
  {
    if run != [] {
      assert run[0] == '?';
      assert forall i :: 0 <= i < |run| - 1 ==> run[1..][i] == run[i + 1];
      QuestionRunCount(run[1..]);
    }
  }

  /** Chunk by chunk, the token the loop emits: a literal chunk (even
      position) is kept as a literal; a run holding a `*` becomes "at least
      q" with q its number of `?`; a run of `?` only becomes "exactly its
      length". */
  lemma {:induction false} TokensOfChunks(glob: string)
    ensures |Tokens(glob)| == |Split(glob)|
    ensures forall k :: 0 <= k < |Split(glob)| && k % 2 == 0 ==>
              Tokens(glob)[k] == Lit(Split(glob)[k])
    ensures forall k :: 0 <= k < |Split(glob)| && k % 2 == 1 && '*' in Split(glob)[k] ==>
              Tokens(glob)[k] == AtLeast(CountOf(Split(glob)[k], '?'))
    ensures forall k :: 0 <= k < |Split(glob)| && k % 2 == 1 && '*' !in Split(glob)[k] ==>
              Tokens(glob)[k] == Exactly(|Split(glob)[k]|)
  {
    var cs := Split(glob);
    SplitIsPartition(glob);
    AlternatesByIndex(cs);
    forall k | 0 <= k < |cs| && k % 2 == 1 && '*' !in cs[k]
      ensures Tokens(glob)[k] == Exactly(|cs[k]|)
    {
      QuestionRunCount(cs[k]);
    }
  }

  /** Two globs whose splits agree on every literal and whose runs agree on
      the number of `?` and on holding a `*` compile to the same tokens, and
      so to the same body: `?**?**?` and `???*` are one pattern. */
  lemma {:induction false} EquivalentRunsSameBody(g1: string, g2: string)
    requires |Split(g1)| == |Split(g2)|
    requires forall k :: 0 <= k < |Split(g1)| && k % 2 == 0 ==> Split(g1)[k] == Split(g2)[k]
    requires forall k :: 0 <= k < |Split(g1)| && k % 2 == 1 ==>
               CountOf(Split(g1)[k], '?') == CountOf(Split(g2)[k], '?') &&
               ('*' in Split(g1)[k] <==> '*' in Split(g2)[k])
    ensures Tokens(g1) == Tokens(g2)
    ensures Body(g1) == Body(g2)
  {
    var cs1, cs2 := Split(g1), Split(g2);
    SplitIsPartition(g1);
    AlternatesByIndex(cs1);
    SplitIsPartition(g2);
    AlternatesByIndex(cs2);
    forall k | 0 <= k < |cs1|
      ensures ChunkToken(cs1[k]) == ChunkToken(cs2[k])
    {
      if k % 2 == 1 {
        RunTokensAgree(cs1[k], cs2[k]);
      }
    }
    TokensAgree(g1, g2);
  }

  lemma RunTokensAgree(r1: string, r2: string)
    requires IsWildcardRun(r1) && IsWildcardRun(r2)
    requires CountOf(r1, '?') == CountOf(r2, '?') && ('*' in r1 <==> '*' in r2)
    ensures ChunkToken(r1) == ChunkToken(r2)
  {
  }

  lemma TokensAgree(g1: string, g2: string)
    requires |Split(g1)| == |Split(g2)|
    requires forall k :: 0 <= k < |Split(g1)| ==> ChunkToken(Split(g1)[k]) == ChunkToken(Split(g2)[k])
    ensures Tokens(g1) == Tokens(g2)
    ensures Body(g1) == Body(g2)
  {
  }

  /** What `re.compile` is given: the pattern text and whether
      `re.IGNORECASE` is set. */
  datatype CompiledPattern = CompiledPattern(pattern: string, ignoreCase: bool)

  /** `to_word_pattern`: the pattern as capture group 1, between an opening
      alternative (start, a non-word character or a word boundary) and the
      symmetric closing one. */
  const WordPrefix: string := @"(?:^|\W|\b)("
  const WordSuffix: string := @")(?:\b|\W|$)"

  function ToWordPattern(pattern: string): (r: string)
    ensures |r| == |pattern| + 24
    ensures r[..12] == @"(?:^|\W|\b)("
    ensures r[12..|r| - 12] == pattern
    ensures r[|r| - 12..] == @")(?:\b|\W|$)"
  {
    WordPrefix + pattern + WordSuffix
  }

  /** The bodies of the globs the tests use, computed chunk by chunk. */
  lemma BodyExamples()
    ensures Body("**baz") == ".{0,}baz"
    ensures Body("*?baz") == ".{1,}baz"
    ensures Body("a?*?*?baz") == "a.{3,}baz"
    ensures Body("?**?**?") == Body("???*") == ".{3,}"
  {
    BodyStarStarBaz();
    BodyStarQuestionBaz();
    BodyThreeQuestions();
    BodyCollapsedRuns();
  }

  lemma BodyStarStarBaz()
    ensures Body("**baz") == ".{0,}baz"
  {
    BodyOfOneRun("**baz", "", "**", "baz");
    RenderStarStarBaz();
  }

  lemma RenderStarStarBaz()
    ensures Escape("") + Render(ChunkToken("**")) + Escape("baz") == ".{0,}baz"
  {
    assert ChunkToken("**") == AtLeast(0);
    assert Escape("") == "" && Escape("baz") == "baz";
  }

  lemma BodyStarQuestionBaz()
    ensures Body("*?baz") == ".{1,}baz"
  {
    BodyOfOneRun("*?baz", "", "*?", "baz");
    RenderStarQuestionBaz();
  }

  lemma RenderStarQuestionBaz()
    ensures Escape("") + Render(ChunkToken("*?")) + Escape("baz") == ".{1,}baz"
  {
    assert ChunkToken("*?") == AtLeast(1);
    assert Escape("") == "" && Escape("baz") == "baz";
  }

  lemma BodyThreeQuestions()
    ensures Body("a?*?*?baz") == "a.{3,}baz"
  {
    BodyOfOneRun("a?*?*?baz", "a", "?*?*?", "baz");
    RenderThreeQuestions();
  }

  lemma RenderThreeQuestions()
    ensures Escape("a") + Render(ChunkToken("?*?*?")) + Escape("baz") == "a.{3,}baz"
  {
    ThreeQuestionsToken();
    RenderAtLeastThree();
    assert Escape("a") == "a" && Escape("baz") == "baz";
  }

  lemma BodyCollapsedRuns()
    ensures Body("?**?**?") == Body("???*") == ".{3,}"
  {
    BodyMixedRun();
    BodyQuestionsThenStar();
  }

  lemma BodyMixedRun()
    ensures Body("?**?**?") == ".{3,}"
  {
    BodyOfOneRun("?**?**?", "", "?**?**?", "");
    RenderMixedRun();
  }

  lemma RenderMixedRun()
    ensures Escape("") + Render(ChunkToken("?**?**?")) + Escape("") == ".{3,}"
  {
    MixedRunToken();
    RenderAtLeastThree();
    assert Escape("") == "";
  }

  lemma BodyQuestionsThenStar()
    ensures Body("???*") == ".{3,}"
  {
    BodyOfOneRun("???*", "", "???*", "");
    RenderQuestionsThenStar();
  }

  lemma RenderQuestionsThenStar()
    ensures Escape("") + Render(ChunkToken("???*")) + Escape("") == ".{3,}"
  {
    QuestionsThenStarToken();
    RenderAtLeastThree();
    assert Escape("") == "";
  }

  /** The three runs of the tests, each with three `?` and a `*`. */
  lemma ThreeQuestionsToken()
    ensures ChunkToken("?*?*?") == AtLeast(3)
  {
    assert CountOf("?*?*?", '?') == 3;
  }

  lemma MixedRunToken()
    ensures ChunkToken("?**?**?") == AtLeast(3)
  {
    assert CountOf("?**?**?", '?') == 3;
  }

  lemma QuestionsThenStarToken()
    ensures ChunkToken("???*") == AtLeast(3)
  {
    assert CountOf("???*", '?') == 3;
  }

  lemma RenderAtLeastThree()
    ensures Render(AtLeast(3)) == ".{3,}"
  {
    assert Decimal(3) == "3";
  }

  /** The body of a glob made of a literal, one run and a literal. */
  lemma BodyOfOneRun(glob: string, lit: string, run: string, tail: string)
    requires NoWildcards(lit) && IsWildcardRun(run) && NoWildcards(tail)
    requires tail == [] || !IsWildcard(tail[0])
    requires glob == lit + (run + tail)
    ensures Body(glob) == Escape(lit) + Render(ChunkToken(run)) + Escape(tail)
  {
    TokensOfOneRun(glob, lit, run, tail);
    var rs := RenderAll(Tokens(glob));
    assert rs == [Escape(lit), Render(ChunkToken(run)), Escape(tail)];
    JoinThree(Escape(lit), Render(ChunkToken(run)), Escape(tail));
  }

  /** The tokens of a glob made of a literal, one run and a literal. */
  lemma TokensOfOneRun(glob: string, lit: string, run: string, tail: string)
    requires NoWildcards(lit) && IsWildcardRun(run) && NoWildcards(tail)
    requires tail == [] || !IsWildcard(tail[0])
    requires glob == lit + (run + tail)
    ensures Tokens(glob) == [Lit(lit), ChunkToken(run), Lit(tail)]
  {
    SplitOfLiteral(tail);
    SplitOfRun(glob, lit, run, tail);
    assert Split(glob) == [lit, run, tail];
  }

  lemma JoinThree(a: string, b: string, c: string)
    ensures Join([a, b, c]) == a + b + c
  {
    assert [a, b, c][1..] == [b, c];
    assert [b, c][1..] == [c];
    assert Join([c]) == c + Join([]) == c;
    assert Join([b, c]) == b + c;
  }
}
