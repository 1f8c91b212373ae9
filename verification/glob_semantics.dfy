/**
 * Why collapsing a wildcard run is sound. `GlobMatch` is the meaning of a
 * glob (`?` one character, `*` any number of them, anything else itself);
 * `Matches` is the meaning of the token list the compiler renders (an
 * escaped literal matches its own text, `.{q}` exactly q characters, `.{q,}`
 * at least q). The theorem: a glob and its tokens accept the same strings,
 * so `?**?**?` means what `???*` and `.{3,}` mean.
 *
 * The regex `.` is compiled without DOTALL, so it does not match a newline;
 * both semantics take that reading of "any character". Case folding is not
 * modelled: literals compare characters exactly.
 */
module GlobSemantics {
  import opened RegexText
  import opened GlobCompiler

  /** What the regex `.` accepts. */
  predicate AnyChar(c: char) {
    c != '\n'
  }

  predicate AllAny(p: string) {
    forall i :: 0 <= i < |p| ==> AnyChar(p[i])
  }

  /** Does the glob match the whole string? */
  predicate GlobMatch(glob: string, s: string)
    decreases |glob|, |s|
  {
    if glob == [] then s == []
    else if glob[0] == '?' then s != [] && AnyChar(s[0]) && GlobMatch(glob[1..], s[1..])
    else if glob[0] == '*' then
      GlobMatch(glob[1..], s) || (s != [] && AnyChar(s[0]) && GlobMatch(glob, s[1..]))
    else s != [] && s[0] == glob[0] && GlobMatch(glob[1..], s[1..])
  }

  /** Which pieces of text one rendered token accepts. */
  predicate Consumes(t: Token, piece: string) {
    match t
    case Lit(text) => piece == text
    case Exactly(n) => |piece| == n && AllAny(piece)
    case AtLeast(n) => |piece| >= n && AllAny(piece)
  }

  /** Does the token list match the whole string, token after token? */
  ghost predicate Matches(ts: seq<Token>, s: string)
    decreases |ts|
  {
    if ts == [] then s == []
    else exists k :: 0 <= k <= |s| && Consumes(ts[0], s[..k]) && Matches(ts[1..], s[k..])
  }

  /** Which pieces of text a wildcard run accepts, read character by
      character: `q` of them for the `?`s, and any more when a `*` is in it. */
  predicate RunConsumes(run: string, piece: string) {
    && AllAny(piece)
    && (if '*' in run then |piece| >= CountOf(run, '?') else |piece| == CountOf(run, '?'))
  }

  /** A wildcard-free prefix of the glob matches exactly itself. */
  lemma {:induction false} LiteralMatch(lit: string, rest: string, s: string)
    requires NoWildcards(lit)
    ensures GlobMatch(lit + rest, s) <==>
              |lit| <= |s| && s[..|lit|] == lit && GlobMatch(rest, s[|lit|..])
    decreases |lit|
  {
    if lit == [] {
      assert lit + rest == rest;
      assert s[..0] == [] && s[0..] == s;
    } else {
      var g := lit + rest;
      assert g[0] == lit[0] && g[1..] == lit[1..] + rest;
      assert !IsWildcard(lit[0]);
      if s != [] {
        LiteralMatch(lit[1..], rest, s[1..]);
        if |lit| <= |s| {
          assert s[1..][..|lit| - 1] == s[1..|lit|];
          assert s[1..][|lit| - 1..] == s[|lit|..];
          assert s[..|lit|] == [s[0]] + s[1..|lit|];
          assert lit == [lit[0]] + lit[1..];
        }
      }
    }
  }

  /** A leading `?` takes one character off both the run and the piece. */
  lemma RunConsumesQuestion(run: string, piece: string)
    requires run != [] && run[0] == '?'
    ensures RunConsumes(run, piece) <==>
              piece != [] && AnyChar(piece[0]) && RunConsumes(run[1..], piece[1..])
  {
    assert run == [run[0]] + run[1..];
    assert '*' in run <==> '*' in run[1..];
    if piece != [] {
      assert AllAny(piece) <==> AnyChar(piece[0]) && AllAny(piece[1..]) by {
        assert forall i :: 0 < i < |piece| ==> piece[i] == piece[1..][i - 1];
      }
    }
  }

  /** The string splits into a piece the run consumes and a rest the glob
      after the run matches. */
  ghost predicate RunSplits(run: string, rest: string, s: string) {
    exists k :: 0 <= k <= |s| && RunConsumes(run, s[..k]) && GlobMatch(rest, s[k..])
  }

  /** A wildcard run matches any piece it consumes, and nothing else. */
  lemma {:induction false} RunMatch(run: string, rest: string, s: string)
    requires AllWildcards(run)
    ensures GlobMatch(run + rest, s) <==> RunSplits(run, rest, s)
    decreases |run|, |s|
  {
    if run == [] {
      assert run + rest == rest;
      if GlobMatch(rest, s) {
        assert s[..0] == [] && s[0..] == s;
        assert RunConsumes(run, s[..0]);
      }
    } else {
      var g := run + rest;
      var tail := run[1..];
      assert g[0] == run[0] && g[1..] == tail + rest;
      assert AllWildcards(tail) by {
        assert forall i :: 0 <= i < |tail| ==> tail[i] == run[i + 1];
      }
      if run[0] == '?' {
        if s != [] {
          RunMatch(tail, rest, s[1..]);
        }
        QuestionStep(run, rest, s);
      } else {
        RunMatch(tail, rest, s);
        if s != [] {
          RunMatch(run, rest, s[1..]);
        }
        StarStep(run, rest, s);
      }
    }
  }

  /** A leading `?`: one character, then the rest of the run. */
  lemma QuestionStep(run: string, rest: string, s: string)
    requires run != [] && run[0] == '?'
    requires s != [] ==> (GlobMatch(run[1..] + rest, s[1..]) <==> RunSplits(run[1..], rest, s[1..]))
    ensures (s != [] && AnyChar(s[0]) && GlobMatch(run[1..] + rest, s[1..])) <==> RunSplits(run, rest, s)
  {
    var tail := run[1..];
    if s != [] && AnyChar(s[0]) && GlobMatch(tail + rest, s[1..]) {
      var k' :| 0 <= k' <= |s| - 1 && RunConsumes(tail, s[1..][..k']) && GlobMatch(rest, s[1..][k'..]);
      var k := k' + 1;
      assert s[..k][1..] == s[1..][..k'] && s[..k][0] == s[0];
      RunConsumesQuestion(run, s[..k]);
      assert s[k..] == s[1..][k'..];
    }
    if RunSplits(run, rest, s) {
      var k :| 0 <= k <= |s| && RunConsumes(run, s[..k]) && GlobMatch(rest, s[k..]);
      RunConsumesQuestion(run, s[..k]);
      var k' := k - 1;
      assert s[..k][1..] == s[1..][..k'] && s[..k][0] == s[0];
      assert s[k..] == s[1..][k'..];
    }
  }

  /** A leading `*`: either nothing, or one character and the whole run
      again. */
  lemma StarStep(run: string, rest: string, s: string)
    requires AllWildcards(run) && run != [] && run[0] == '*'
    requires GlobMatch(run[1..] + rest, s) <==> RunSplits(run[1..], rest, s)
    requires s != [] ==> (GlobMatch(run + rest, s[1..]) <==> RunSplits(run, rest, s[1..]))
    ensures (GlobMatch(run[1..] + rest, s) || (s != [] && AnyChar(s[0]) && GlobMatch(run + rest, s[1..])))
            <==> RunSplits(run, rest, s)
  {
    var tail := run[1..];
    assert run == [run[0]] + tail;
    assert CountOf(run, '?') == CountOf(tail, '?');
    assert '*' in run;
    if GlobMatch(tail + rest, s) {
      StarSkip(run, rest, s);
    }
    if s != [] && AnyChar(s[0]) && GlobMatch(run + rest, s[1..]) {
      StarTake(run, rest, s);
    }
    if RunSplits(run, rest, s) {
      StarSplit(run, rest, s);
    }
  }

  lemma StarSkip(run: string, rest: string, s: string)
    requires run != [] && run[0] == '*'
    requires CountOf(run, '?') == CountOf(run[1..], '?')
    requires RunSplits(run[1..], rest, s)
    ensures RunSplits(run, rest, s)
  {
    var k :| 0 <= k <= |s| && RunConsumes(run[1..], s[..k]) && GlobMatch(rest, s[k..]);
    assert RunConsumes(run, s[..k]);
  }

  lemma StarTake(run: string, rest: string, s: string)
    requires run != [] && run[0] == '*'
    requires s != [] && AnyChar(s[0]) && RunSplits(run, rest, s[1..])
    ensures RunSplits(run, rest, s)
  {
    var k' :| 0 <= k' <= |s| - 1 && RunConsumes(run, s[1..][..k']) && GlobMatch(rest, s[1..][k'..]);
    var k := k' + 1;
    assert s[..k] == [s[0]] + s[1..][..k'];
    assert s[k..] == s[1..][k'..];
    assert AllAny(s[..k]) by {
      assert forall i :: 1 <= i < k ==> s[..k][i] == s[1..][..k'][i - 1];
    }
    assert RunConsumes(run, s[..k]);
  }

  lemma StarSplit(run: string, rest: string, s: string)
    requires run != [] && run[0] == '*'
    requires CountOf(run, '?') == CountOf(run[1..], '?')
    requires RunSplits(run, rest, s)
    ensures RunSplits(run[1..], rest, s) || (s != [] && AnyChar(s[0]) && RunSplits(run, rest, s[1..]))
  {
    var k :| 0 <= k <= |s| && RunConsumes(run, s[..k]) && GlobMatch(rest, s[k..]);
    assert '*' in run;
    if k == CountOf(run, '?') {
      assert RunConsumes(run[1..], s[..k]);
    } else {
      DropFirst(s, k);
      assert RunConsumes(run, s[1..][..k - 1]);
    }
  }

  /** A piece of `s` of length `k > 0` is its first character and a piece
      of the rest of length `k - 1`. */
  lemma DropFirst(s: string, k: nat)
    requires 0 < k <= |s| && AllAny(s[..k])
    ensures AnyChar(s[0])
    ensures AllAny(s[1..][..k - 1])
    ensures s[k..] == s[1..][k - 1..]
  {
    var k' := k - 1;
    assert s[..k][0] == s[0];
    assert forall i :: 0 <= i < k' ==> s[1..][..k'][i] == s[..k][i + 1];
  }

  /** The token of a non-empty run consumes what the run consumes. */
  lemma RunToken(run: string, piece: string)
    requires IsWildcardRun(run)
    ensures Consumes(ChunkToken(run), piece) <==> RunConsumes(run, piece)
  {
  }

  /** Chunk after chunk, the glob and its tokens accept the same strings. */
  lemma {:induction false} ChunksMatch(cs: seq<string>, s: string)
    requires forall k :: 0 <= k < |cs| ==> NoWildcards(cs[k]) || IsWildcardRun(cs[k])
    ensures GlobMatch(Join(cs), s) <==> Matches(ChunkTokens(cs), s)
    decreases |cs|
  {
    var ts := ChunkTokens(cs);
    if cs == [] {
      assert Join(cs) == [];
    } else {
      var c, more := cs[0], cs[1..];
      assert ts[1..] == ChunkTokens(more);
      assert ts[0] == ChunkToken(c);
      forall j | 0 <= j <= |s|
        ensures GlobMatch(Join(more), s[j..]) <==> Matches(ts[1..], s[j..])
      {
        ChunksMatch(more, s[j..]);
      }
      if NoWildcards(c) {
        LiteralChunkMatch(c, Join(more), ts, s);
      } else {
        RunMatch(c, Join(more), s);
        forall k | 0 <= k <= |s|
          ensures Consumes(ts[0], s[..k]) <==> RunConsumes(c, s[..k])
        {
          RunToken(c, s[..k]);
        }
      }
    }
  }

  lemma LiteralChunkMatch(lit: string, rest: string, ts: seq<Token>, s: string)
    requires NoWildcards(lit) && ts != [] && ts[0] == ChunkToken(lit)
    requires forall j :: 0 <= j <= |s| ==> (GlobMatch(rest, s[j..]) <==> Matches(ts[1..], s[j..]))
    ensures GlobMatch(lit + rest, s) <==> Matches(ts, s)
  {
    assert ts[0] == Lit(lit);
    LiteralMatch(lit, rest, s);
    if GlobMatch(lit + rest, s) {
      var k := |lit|;
      assert Consumes(ts[0], s[..k]) && Matches(ts[1..], s[k..]);
    }
  }

  /** Soundness of the run simplification: a glob and the tokens it
      compiles to accept exactly the same strings. */
  lemma GlobMatchesIffTokensMatch(glob: string, s: string)
    ensures GlobMatch(glob, s) <==> Matches(Tokens(glob), s)
  {
    var cs := Split(glob);
    SplitIsPartition(glob);
    AlternatesByIndex(cs);
    ChunksMatch(cs, s);
  }

  /** `?**?**?` and `???*` compile to the same tokens, so they accept the
      same strings. */
  lemma CollapsedRunsAgree(s: string)
    ensures GlobMatch("?**?**?", s) <==> GlobMatch("???*", s)
  {
    TokensOfMixedRun();
    TokensOfQuestionsThenStar();
    GlobMatchesIffTokensMatch("?**?**?", s);
    GlobMatchesIffTokensMatch("???*", s);
  }

  lemma TokensOfMixedRun()
    ensures Tokens("?**?**?") == [Lit(""), AtLeast(3), Lit("")]
  {
    TokensOfOneRun("?**?**?", "", "?**?**?", "");
    MixedRunToken();
  }

  lemma TokensOfQuestionsThenStar()
    ensures Tokens("???*") == [Lit(""), AtLeast(3), Lit("")]
  {
    TokensOfOneRun("???*", "", "???*", "");
    QuestionsThenStarToken();
  }

  /** `*` may match nothing: `f?o*baz` accepts `foobaz`. */
  lemma StarMatchesEmpty()
    ensures GlobMatch("f?o*baz", "foobaz")
  {
    assert GlobMatch("baz", "baz");
    assert GlobMatch("*baz", "baz");
  }

  /** The character after `*` must match: `f?o*baz` rejects `fooxaz`. */
  lemma CharAfterStarMustMatch()
    ensures !GlobMatch("f?o*baz", "fooxaz")
  {
    assert !GlobMatch("baz", "xaz");
    assert !GlobMatch("baz", "az");
    assert !GlobMatch("baz", "z");
    assert !GlobMatch("baz", "");
    assert !GlobMatch("*baz", "");
    assert !GlobMatch("*baz", "z");
    assert !GlobMatch("*baz", "az");
    assert !GlobMatch("*baz", "xaz");
  }

  /** `?` matches exactly one character: `f?o*baz` rejects `fobbaz` and
      `fiiobaz`. */
  lemma QuestionMatchesOneChar()
    ensures !GlobMatch("f?o*baz", "fobbaz")
    ensures !GlobMatch("f?o*baz", "fiiobaz")
  {
    assert !GlobMatch("o*baz", "bbaz");
    assert !GlobMatch("o*baz", "iobaz");
  }

  /** `**baz` accepts the empty prefix; `*?baz` needs at least one
      character before `baz`. */
  lemma MultiWildcardMatches()
    ensures GlobMatch("**baz", "baz")
    ensures !GlobMatch("*?baz", "baz")
  {
    assert GlobMatch("*baz", "baz");
    assert !GlobMatch("?baz", "");
    assert !GlobMatch("?baz", "z");
    assert !GlobMatch("?baz", "az");
    assert !GlobMatch("?baz", "baz");
    assert !GlobMatch("*?baz", "");
    assert !GlobMatch("*?baz", "z");
    assert !GlobMatch("*?baz", "az");
  }

  /** `?*?*?` matches three characters: `a?*?*?baz` accepts `a g baz`. */
  lemma ThreeQuestionsAccepts()
    ensures GlobMatch("a?*?*?baz", "a g baz")
  {
    assert GlobMatch("baz", "baz");
    assert GlobMatch("?baz", " baz");
    assert GlobMatch("*?baz", " baz");
    assert GlobMatch("?*?baz", "g baz");
    assert GlobMatch("*?*?baz", "g baz");
    assert GlobMatch("?*?*?baz", " g baz");
  }

  /** `?*?*?` does not match two characters: `a?*?*?baz` rejects `a..baz`. */
  lemma ThreeQuestionsRejects()
    ensures !GlobMatch("a?*?*?baz", "a..baz")
  {
    TokensOfOneRun("a?*?*?baz", "a", "?*?*?", "baz");
    GlobMatchesIffTokensMatch("a?*?*?baz", "a..baz");
    TooShortForRun();
  }

  lemma TooShortForRun()
    ensures !Matches([Lit("a"), ChunkToken("?*?*?"), Lit("baz")], "a..baz")
  {
    ThreeQuestionsToken();
  }
}
