# matrix-python-common: glob compiler and MXC URIs

A model of two helpers of the Matrix common Python library.

- **`glob_to_regex`** turns a shell-style glob into a compiled regular
  expression. `?` matches one character and `*` matches any run of them.
  The glob is split at its wildcard runs, the split regex `([\?\*]+)` keeps
  the runs, and each chunk is rendered in turn:
  - a literal chunk is passed through `re.escape`;
  - a run with `q` question marks and at least one `*` becomes `.{q,}`;
  - a run of question marks only becomes `.{q}`.

  The pieces are joined. The result is either anchored (`\A(`…`)\Z`) or
  wrapped by `to_word_pattern` so that it matches a whole word anywhere.
  The library ships two copies:
  - the current one (`src/matrix_common/regex.py`) has an `ignore_case`
    flag;
  - the older one (`matrix_common/regex.py`) anchors without a capture
    group and is always case-insensitive.
- **`MXCUri`** is the `mxc://server_name/media_id` address of a media
  resource. `str()` writes it out. `from_str` parses it with Python's
  `urlparse` and then checks the parts:
  - the scheme is `mxc`;
  - a network location is present;
  - a path longer than `/` is present;
  - there is no query, fragment or `;params`;
  - the media id holds no `/`.

Modules:

| file | module | contents |
|---|---|---|
| `regex_text.dfy` | `RegexText` | `re.escape` and `%d`, each with an inverse and a round trip; `"".join`, with the law that it turns list concatenation into string concatenation |
| `glob_compiler.dfy` | `GlobCompiler` | the split, the chunk tokens, their rendering and `to_word_pattern` |
| `glob_regex.dfy` | `GlobRegex` | the current `glob_to_regex`, as a method with the source's loop |
| `legacy_glob_regex.dfy` | `LegacyGlobRegex` | the older `glob_to_regex` |
| `glob_semantics.dfy` | `GlobSemantics` | what a glob matches, and the proof that the run simplification keeps it |
| `mxc_uri.dfy` | `Mxc` | the URI value, its formatter, a model of `urlparse` and the parser |

`GlobSemantics` gives two independent definitions of matching:
- `GlobMatch` matches a glob directly, character by character. `?` takes one character and `*` any number of them, none of them a newline;
- `Matches` matches the token list that the compiler renders into the
  regex. A `Lit` token is matched literally; `AtLeast(q)` takes `q` or more
  characters other than a newline; `Exactly(q)` takes exactly `q`. This
  mirrors regex `.`, which does not match a newline by default.

`Mxc.UrlParse` models what `urlparse` does to a string in CPython 3.12:
- leading C0 controls and spaces are stripped;
- tab, CR and LF are deleted;
- a scheme of letters, digits and `+-.` that starts with a letter is split
  off at the first `:` and lower-cased;
- after `//`, the network location runs to the first `/`, `?` or `#`;
- a network location with only one of `[` and `]` is an error;
- so is a host (the text after the last `@`) that holds a `[` anywhere but
  at its start, or that has anything but nothing or a `:port` after its
  first `]`;
- the fragment is split off at the first `#`, then the query at the first
  `?`;
- `;params` are split off only for the schemes that use them, and `mxc` is
  not one of them.

## Model

| member | source | states |
|---|---|---|
| GlobRegex.GlobToRegex | src/matrix_common/regex.py:21-69 | Every glob yields a pattern text. The mode and the case flag default to anchored and case-insensitive, as in the source. In word mode the pattern is the word wrapper around the rendered body. Otherwise it is `\A(` body `)\Z`. The case flag is the caller's `ignore_case`, and the pattern text does not depend on it. The loop invariant says the chunks built so far are the renderings of the split's first `k` chunks, in order. |
| LegacyGlobRegex.GlobToRegex | matrix_common/regex.py:21-59 | The same compilation, with the mode again defaulting to anchored, but anchored mode is `\A` body `\Z` with no group, and the result is always case-insensitive. |
| GlobCompiler.Split | src/matrix_common/regex.py:18 | `_WILDCARD_RUN.split(glob)`: the leading literal, the run after it, then the split of the rest. Specified by `GlobCompiler.SplitIsPartition` and `GlobCompiler.SplitUnique`. |
| GlobCompiler.ChunkToken | src/matrix_common/regex.py:47-57 | The branch of the loop body a chunk takes. Specified by `GlobCompiler.TokensOfChunks` and `GlobCompiler.QuestionRunCount`. |
| GlobCompiler.Render | src/matrix_common/regex.py:49-57 | The text each branch appends: `re.escape(chunk)`, `.{q,}` or `.{q}`. Its escaped and decimal parts are specified by `RegexText.EscapeRoundTrip` and `RegexText.DecimalRoundTrip`. |
| GlobCompiler.ChunkTokens | src/matrix_common/regex.py:46-57 | One token per chunk, in order: the ensures gives the length. Applied to the split of a glob, `GlobCompiler.TokensOfChunks` gives the token at each position. |
| GlobCompiler.Tokens | src/matrix_common/regex.py:46-57 | One token per chunk of the split. Its meaning is fixed by `GlobSemantics.GlobMatchesIffTokensMatch`. |
| GlobCompiler.RenderAll | src/matrix_common/regex.py:46-57 | One rendered piece per token, in order, as the loop appends them. |
| GlobCompiler.Body | src/matrix_common/regex.py:59 | `"".join(chunks)` after the loop. The method `GlobRegex.GlobToRegex` is proved to build it, and `GlobCompiler.EquivalentRunsSameBody` and `GlobCompiler.BodyExamples` state what it is. |
| GlobCompiler.LiteralPrefixLength | src/matrix_common/regex.py:18 | The length of the longest wildcard-free prefix: the chunk before the first `[?*]+` match. The character after it, if any, is a wildcard. |
| GlobCompiler.RunLength | src/matrix_common/regex.py:18 | The length of the greedy `[?*]+` match at the start of the text: all wildcards, and the next character, if any, is not one. |
| GlobCompiler.SplitIsPartition | src/matrix_common/regex.py:46 | Joining the chunks of the split gives back the glob. The chunks alternate: wildcard-free literals, possibly empty, sit at the ends and between maximal non-empty wildcard runs. |
| GlobCompiler.SplitUnique | src/matrix_common/regex.py:46 | Any alternating list of chunks that joins to the glob is exactly the split. The split is therefore the only decomposition into literals and maximal runs. |
| GlobCompiler.AlternatesByIndex | src/matrix_common/regex.py:46-48 | An alternating chunk list has odd length, with wildcard-free chunks at even positions and non-empty wildcard runs at odd ones. So the test at line 48, which looks at the first character of a chunk, classifies each chunk as its position says. |
| GlobCompiler.QuestionRunCount | src/matrix_common/regex.py:53-57 | In a run without `*`, the question-mark count is the run's length. |
| GlobCompiler.TokensOfChunks | src/matrix_common/regex.py:46-57 | There is one token per chunk, in order. A literal chunk gives `Lit` of itself. A run with a `*` gives `AtLeast` of its `?` count. A `?`-only run gives `Exactly` of its length. |
| GlobCompiler.EquivalentRunsSameBody | src/matrix_common/regex.py:42-44 | Two globs with the same literals, whose corresponding runs agree on the `?` count and on whether they hold a `*`, compile to the same tokens and the same regex body. |
| GlobCompiler.ToWordPattern | src/matrix_common/regex.py:93-95 | The body stands unchanged inside a capture group, between the fixed 12-character prefix and suffix of the source. Read as a regex, each side admits the start or end of the text, one non-word character, or a word boundary; the regex reading itself is not modelled. |
| GlobCompiler.BodyExamples | src/matrix_common/regex.py:42-44 | `**baz`, `*?baz` and `a?*?*?baz` have bodies `.{0,}baz`, `.{1,}baz` and `a.{3,}baz`. `?**?**?` and `???*` both have body `.{3,}`. |
| RegexText.Escape | src/matrix_common/regex.py:49 | `re.escape`: a backslash before each special character. Specified by `RegexText.EscapeRoundTrip`. |
| RegexText.Decimal | src/matrix_common/regex.py:55-57 | `"%d" % q`. Specified by `RegexText.DecimalRoundTrip`. |
| RegexText.Join | src/matrix_common/regex.py:59 | `"".join`. Specified by `RegexText.JoinAppend`, and inverted by the split in `GlobCompiler.SplitIsPartition`. |
| RegexText.JoinAppend | src/matrix_common/regex.py:59 | Joining a concatenation of two lists is joining each and concatenating the results. |
| RegexText.EscapeRoundTrip | src/matrix_common/regex.py:48-49 | The escaped literal leaves no metacharacter unescaped, and unescaping gives back the literal. |
| RegexText.DecimalRoundTrip | src/matrix_common/regex.py:55-57 | `%d` of a count is a non-empty digit string without a leading zero (unless the count is zero), and it reads back to the count. |
| GlobRegex.MultiWildcardPatterns | tests/test_regex.py:44-61 | The anchored patterns are `\A(.{0,}baz)\Z`, `\A(.{1,}baz)\Z` and `\A(a.{3,}baz)\Z`. |
| LegacyGlobRegex.AnchoredWithoutGroup | matrix_common/regex.py:56-57 | The older anchored pattern of `**baz` is `\A.{0,}baz\Z`. |
| GlobSemantics.GlobMatch | src/matrix_common/regex.py:42-44 | What a glob matches, read directly from the glob: `?` one character and `*` any run, neither a newline. It is the independent reference that `GlobSemantics.GlobMatchesIffTokensMatch` proves the compiled tokens equal. |
| GlobSemantics.LiteralMatch | src/matrix_common/regex.py:47-49 | A glob that starts with a wildcard-free literal matches a string exactly when the string starts with that literal and the rest of the glob matches what follows it. |
| GlobSemantics.RunMatch | src/matrix_common/regex.py:52-57 | A wildcard run followed by a rest matches a string exactly when some prefix satisfies the run's token and the rest matches what follows. For a run with a `*`, that prefix has at least `q` newline-free characters; for a `?`-only run, exactly `q`. |
| GlobSemantics.GlobMatchesIffTokensMatch | src/matrix_common/regex.py:42-57 | In both directions and for every glob and string, the glob matches the string exactly when its compiled tokens do. Collapsing wildcard runs keeps the language. |
| GlobSemantics.CollapsedRunsAgree | src/matrix_common/regex.py:43-44 | `?**?**?` and `???*` match exactly the same strings. |
| GlobSemantics.StarMatchesEmpty | tests/test_regex.py:39 | `f?o*baz` matches `foobaz`. |
| GlobSemantics.CharAfterStarMustMatch | tests/test_regex.py:40 | `f?o*baz` does not match `fooxaz`. |
| GlobSemantics.QuestionMatchesOneChar | tests/test_regex.py:41-42 | `f?o*baz` matches neither `fobbaz` nor `fiiobaz`. |
| GlobSemantics.MultiWildcardMatches | tests/test_regex.py:48-54 | `**baz` matches `baz`, and `*?baz` does not. |
| GlobSemantics.ThreeQuestionsAccepts | tests/test_regex.py:58 | `a?*?*?baz` matches `a g baz`. |
| GlobSemantics.ThreeQuestionsRejects | tests/test_regex.py:59 | `a?*?*?baz` does not match `a..baz`: its token `.{3,}` needs three characters. |
| Mxc.ToString | src/matrix_common/types/mxc_uri.py:84-86 | `mxc://` + server name + `/` + media id. `Mxc.RoundTrip` proves `Mxc.FromStr` inverts it on every valid URI. |
| Mxc.FromStr | src/matrix_common/types/mxc_uri.py:48-82 | The parser: `urlparse`, then the structure checks and the media-id check, each failure an error. Specified by `Mxc.RoundTrip`, `Mxc.FromStrSound` and the `…Rejected` lemmas. |
| Mxc.UrlParse | src/matrix_common/types/mxc_uri.py:48 | The `urlparse` call the parser makes, as described above. `Mxc.MxcUsesNoParams` and `Mxc.BadBracketsRejected` state its two special cases. |
| Mxc.Clean | src/matrix_common/types/mxc_uri.py:48 | The text `urlparse` decomposes: leading controls and spaces stripped, then tab, CR and LF deleted. `Mxc.CleanUnchanged` states that text without them is kept as it is. |
| Mxc.StripLeading | src/matrix_common/types/mxc_uri.py:48 | The result is a suffix of the input that does not start with a control character or space, and every character removed is one. |
| Mxc.RemoveUnsafe | src/matrix_common/types/mxc_uri.py:48 | The result holds no tab, CR or LF. With the four lemmas below, the result is fixed on every string: those characters are deleted and all others kept in order. |
| Mxc.RemoveUnsafeDropsUnsafe | src/matrix_common/types/mxc_uri.py:48 | A tab, CR or LF is deleted wherever it stands in the text. |
| Mxc.RemoveUnsafeKeepsChar | src/matrix_common/types/mxc_uri.py:48 | Every other character is kept, between what the text before it and the text after it become. |
| Mxc.RemoveUnsafeKeepsSafe | src/matrix_common/types/mxc_uri.py:48 | Text with no tab, CR or LF is left unchanged. |
| Mxc.RemoveUnsafeAppend | src/matrix_common/types/mxc_uri.py:48 | Deleting the characters from a concatenation deletes them from each part. |
| Mxc.CleanUnchanged | src/matrix_common/types/mxc_uri.py:48 | Text with no leading control or space and no tab, CR or LF is what `urlparse` decomposes. |
| Mxc.RoundTrip | src/matrix_common/types/mxc_uri.py:33-86 | A valid URI, once formatted, parses back to itself. Valid means a non-empty server name and media id, no `/?#` and no tab/CR/LF in either, and a server name whose brackets pass the checks of `urlparse` (as `Mxc.BadBracketsRejected` describes). |
| Mxc.ParseSpelling | src/matrix_common/types/mxc_uri.py:48-82 | A valid URI written with any case of `mxc`, and followed by nothing, an empty `?`, an empty `#` or `?#`, parses to that URI. |
| Mxc.FromStrSound | src/matrix_common/types/mxc_uri.py:48-82 | Whatever `from_str` accepts is a valid URI. The cleaned input is that URI written out, up to the case of the scheme and a dropped empty query or fragment. |
| Mxc.WrongSchemeRejected | src/matrix_common/types/mxc_uri.py:54 | Input whose cleaned text does not start with `mxc:` in some case is rejected. |
| Mxc.WrongSchemeTextRejected | src/matrix_common/types/mxc_uri.py:54 | The same, for text with no leading control character and no tab/CR/LF. |
| Mxc.NoServerName | src/matrix_common/types/mxc_uri.py:56 | Any text starting `mxc:///` is rejected. |
| Mxc.MissingServerNameRejected | src/matrix_common/types/mxc_uri.py:56 | `mxc:///` followed by anything is rejected with the structure error. |
| Mxc.EmptyNetlocRejected | src/matrix_common/types/mxc_uri.py:56 | Once the scheme is `mxc`, an empty network location is rejected whatever follows it. |
| Mxc.MissingMediaIdRejected | src/matrix_common/types/mxc_uri.py:57-59 | `mxc://server` and `mxc://server/` are rejected with the structure error. |
| Mxc.QueryOrFragmentRejected | src/matrix_common/types/mxc_uri.py:61-62 | A valid URI followed by a non-empty query or fragment is rejected with the structure error. |
| Mxc.MxcUsesNoParams | src/matrix_common/types/mxc_uri.py:63 | `mxc` is not a scheme whose `;params` `urlparse` splits off, so `params` is always empty. |
| Mxc.SlashInMediaIdRejected | src/matrix_common/types/mxc_uri.py:74-80 | A media id holding a `/` is rejected with the media-id error. |
| Mxc.BadBracketsRejected | src/matrix_common/types/mxc_uri.py:46-48 | A network location with only one of `[` and `]`, with text before a host's `[`, or with anything but a `:port` after its `]` makes `urlparse` fail with the invalid-IPv6 error. |
| Mxc.RejectsTextBeforeBracket | src/matrix_common/types/mxc_uri.py:46-48 | `mxc://a[b]/c` makes `urlparse` fail: text stands before the `[`. |
| Mxc.RejectsTextAfterBracket | src/matrix_common/types/mxc_uri.py:46-48 | `mxc://[::1]x/c` makes `urlparse` fail: text other than a port follows the `]`. |
| Mxc.AcceptsBracketedHostWithPort | src/matrix_common/types/mxc_uri.py:48-82 | `mxc://[::1]:8448/abcdef` is accepted with server name `[::1]:8448`: a port may follow the `]`. |
| Mxc.BracketedName | src/matrix_common/types/mxc_uri.py:48 | A server name made of `[`, plain text, and `]` is valid: it passes the bracket checks. Plain text has no tab, CR, LF, `/`, `?`, `#`, `[` or `]`. |
| Mxc.BracketedNameWithPort | src/matrix_common/types/mxc_uri.py:48 | A server name made of `[`, plain text, `]`, then `:` and plain text is valid: it passes the bracket checks. |
| Mxc.AcceptsUpperCaseScheme | src/matrix_common/types/mxc_uri.py:48-54 | `MXC://example.com/abcdef` is accepted, because `urlparse` lower-cases the scheme before the check. |
| Mxc.AcceptsEmptyQuery | src/matrix_common/types/mxc_uri.py:61-62 | `mxc://example.com/abcdef?` is accepted, because the query is empty. |
| Mxc.KeepsSemicolonInMediaId | src/matrix_common/types/mxc_uri.py:63-74 | `mxc://example.com/abc;def` parses with media id `abc;def`. |
| Mxc.FormatsExampleCom | tests/types/test_mxc_uri.py:23-24 | The formatted form of (`example.com`, `84n8493hnfsjkbcu`). |
| Mxc.FormatsIpv4WithPort | tests/types/test_mxc_uri.py:26-29 | The formatted form of a server name with a port. |
| Mxc.FormatsIpv4 | tests/types/test_mxc_uri.py:31-32 | The formatted form of an IPv4 server name. |
| Mxc.ParsesDomainName | tests/types/test_mxc_uri.py:37-39 | `mxc://example.com/g12789g890ajksjk` parses to its two parts. |
| Mxc.ParsesHostWithPort | tests/types/test_mxc_uri.py:41-43 | `mxc://localhost:8448/…` keeps the port in the server name. |
| Mxc.ParsesBracketedIpv6 | tests/types/test_mxc_uri.py:45-47 | `mxc://[::1]/…` has server name `[::1]`. |
| Mxc.ParsesIpv4WithPort | tests/types/test_mxc_uri.py:49-51 | `mxc://123.123.123.123:32112/…` parses to its two parts. |
| Mxc.ParsesBareHost | tests/types/test_mxc_uri.py:53-55 | `mxc://domain/abcdefg` parses to its two parts. |
| Mxc.RejectsHttpScheme | tests/types/test_mxc_uri.py:60-61 | `http://example.com/abcdef` is rejected. |
| Mxc.RejectsHostInPath | tests/types/test_mxc_uri.py:63-64 | `mxc:///example.com/abcdef` is rejected. |
| Mxc.RejectsEmptySegment | tests/types/test_mxc_uri.py:66-67 | `mxc://example.com//abcdef` is rejected. |
| Mxc.RejectsTrailingSlash | tests/types/test_mxc_uri.py:69-70 | `mxc://example.com/abcdef/` is rejected. |
| Mxc.RejectsTwoSegments | tests/types/test_mxc_uri.py:72-76 | `mxc://example.com/abc/abcdef` is rejected. |
| Mxc.RejectsMediaIdOnly | tests/types/test_mxc_uri.py:78-79 | `mxc:///abcdef` is rejected. |
| Mxc.RejectsNoPath | tests/types/test_mxc_uri.py:81-82 | `mxc://example.com` is rejected. |
| Mxc.RejectsBareSlash | tests/types/test_mxc_uri.py:84-85 | `mxc://example.com/` is rejected. |
| Mxc.RejectsSlashesOnly | tests/types/test_mxc_uri.py:87-88 | `mxc:///` is rejected. |
| Mxc.RejectsMissingScheme | tests/types/test_mxc_uri.py:90-91 | `example.com/abc` is rejected. |
| Mxc.RejectsEmpty | tests/types/test_mxc_uri.py:93-94 | The empty string is rejected. |

## Left out

- The regular-expression engine is not modelled: `re.compile`, the `\A`, `\Z` and `\b` assertions, `\W` and case folding. A compiled pattern is its text plus its case flag. Matching is modelled on the token list, so the assertions about the word-boundary mode and the case-insensitive assertions (`FoobaZ`, `FoobarbaZ`) are not proved.
- GlobSemantics.GlobMatch: compares characters exactly. `IGNORECASE` folding is not modelled, so the soundness theorem holds for case-sensitive matching only.
- Mxc.UrlParse follows CPython 3.12 `urlsplit`, including where brackets may stand in the network location. It leaves out the NFKC check for non-ASCII text and the check that bracketed text is a valid IPv6 or IPvFuture address literal. Depending on the release, that check reads the bracketed host after the last `@`, or the first bracketed text anywhere in the network location, so some releases also reject brackets in the userinfo, as in `[a]@ex`.
- Mxc.RoundTrip: a server name such as `[a]` or `[a]@ex`, whose bracketed text is not an IP address literal, round-trips in the model, where `urlparse` rejects it; so does a non-ASCII name whose NFKC form holds `/`, `?`, `#`, `@` or `:` (such as `x℀`, where `℀` becomes `a/c`), which `urlparse` also rejects.
- GlobRegex.GlobToRegex: `re.compile` fails with an overflow error when a repetition count reaches 4294967295, a glob with that many `?` in one run. The model yields the pattern text for every glob and does not model that limit.
- LegacyGlobRegex.GlobToRegex: the same limit of `re.compile` on repetition counts is not modelled.
- `from_str(None)` cannot be expressed: the parser takes a `string`, so the `None` case in the invalid-input test is outside the model.
- The scheme check compares the scheme after `urlparse` has lower-cased it, so `MXC://…` is accepted. The model follows the code here, not a case-sensitive comparison.
- A trailing `?`, `#` or `?#` with nothing after it yields an empty query and fragment, so the parser accepts it. The model follows the code.
- The `attrs` machinery (frozen slots, generated equality and hashing) is represented by the `MxcUri` datatype's value semantics.
- The JSON servlet helper (`matrix_common/servlet.py`) and the version-string helper (`src/matrix_common/versionstring.py`) are not part of this model. Both do I/O or process introspection.
- `InvalidStructure` and `InvalidMediaId` keep the offending input. `InvalidIpv6Url` keeps none, like the message `urlparse` raises. The wording of the `ValueError` messages is not modelled.
