/**
 * The `mxc://server_name/media_id` media URI: a two-field value, its
 * formatter and its validating parser. The parser first decomposes the
 * text as Python's `urllib.parse.urlparse` does (CPython 3.12: leading C0
 * controls and spaces stripped, tab/CR/LF removed, the scheme lower-cased,
 * the network location running up to the first `/`, `?` or `#` and its
 * brackets checked for balance and placement, then the fragment and the
 * query split off, and `;params` only for the schemes that use them), then
 * checks the parts one by one.
 */
module Mxc {

  /** The URI of a media resource: the server that holds it and its id. */
  datatype MxcUri = MxcUri(serverName: string, mediaId: string)

  /** Why a string is not an MXC URI; every case is a `ValueError` in the
      source. `InvalidIpv6Url` is raised by `urlparse` itself. */
  datatype ParseError =
    | InvalidIpv6Url
    | InvalidStructure(uri: string)
    | InvalidMediaId(uri: string)

  datatype Result<T> = Ok(value: T) | Err(error: ParseError)

  /** `str(uri)`: the URI written out, with no escaping. */
  function ToString(u: MxcUri): string {
    "mxc://" + u.serverName + "/" + u.mediaId
  }

  // ---------------------------------------------------------------------
  // The decomposition `urlparse` performs

  /** The six parts `urlparse` returns. */
  datatype ParsedUrl = ParsedUrl(
    scheme: string, netloc: string, path: string,
    params: string, query: string, fragment: string)

  /** The C0 control characters and the space, which `urlsplit` strips from
      the front of the URL. */
  predicate IsC0OrSpace(c: char) {
    c <= ' '
  }

  /** Tab, carriage return and line feed, which `urlsplit` deletes
      wherever they stand. */
  predicate IsUnsafe(c: char) {
    c == '\t' || c == '\r' || c == '\n'
  }

  predicate NoUnsafe(s: string) {
    forall k :: 0 <= k < |s| ==> !IsUnsafe(s[k])
  }

  /** `s.lstrip(C0 controls and space)`: the longest suffix of `s` that
      does not start with one of them. */
  function StripLeading(s: string): (r: string)
    ensures |r| <= |s| && r == s[|s| - |r|..]
    ensures r == [] || !IsC0OrSpace(r[0])
    ensures forall k :: 0 <= k < |s| - |r| ==> IsC0OrSpace(s[k])
    decreases |s|
  {
    if s != [] && IsC0OrSpace(s[0]) then StripLeading(s[1..]) else s
  }

  /** `s` with every tab, carriage return and line feed deleted. */
  function RemoveUnsafe(s: string): (r: string)
    ensures NoUnsafe(r)
    decreases |s|
  {
    if s == [] then []
    else (if IsUnsafe(s[0]) then [] else [s[0]]) + RemoveUnsafe(s[1..])
  }

  /** Text without tab, CR or LF is left as it is. */
  lemma {:induction false} RemoveUnsafeKeepsSafe(s: string)
    requires NoUnsafe(s)
    ensures RemoveUnsafe(s) == s
    decreases |s|
  {
    if s != [] {
      assert !IsUnsafe(s[0]);
      RemoveUnsafeKeepsSafe(s[1..]);
      assert s == [s[0]] + s[1..];
    }
  }

  /** Deleting characters works piece by piece. */
  lemma {:induction false} RemoveUnsafeAppend(a: string, b: string)
    ensures RemoveUnsafe(a + b) == RemoveUnsafe(a) + RemoveUnsafe(b)
    decreases |a|
  {
    if a == [] {
      assert a + b == b;
    } else {
      assert (a + b)[0] == a[0];
      assert (a + b)[1..] == a[1..] + b;
      RemoveUnsafeAppend(a[1..], b);
    }
  }

  /** A tab, CR or LF is deleted wherever it stands. */
  lemma RemoveUnsafeDropsUnsafe(a: string, c: char, b: string)
    requires IsUnsafe(c)
    ensures RemoveUnsafe(a + [c] + b) == RemoveUnsafe(a) + RemoveUnsafe(b)
  {
    RemoveUnsafeAppend(a + [c], b);
    RemoveUnsafeAppend(a, [c]);
    assert RemoveUnsafe([c]) == [] + RemoveUnsafe([c][1..]);
  }

  /** Any other character is kept, in its place. */
  lemma RemoveUnsafeKeepsChar(a: string, c: char, b: string)
    requires !IsUnsafe(c)
    ensures RemoveUnsafe(a + [c] + b) == RemoveUnsafe(a) + [c] + RemoveUnsafe(b)
  {
    RemoveUnsafeAppend(a + [c], b);
    RemoveUnsafeAppend(a, [c]);
    assert RemoveUnsafe([c]) == [c] + RemoveUnsafe([c][1..]);
  }

  /** The text `urlsplit` goes on to decompose. */
  function Clean(s: string): string {
    RemoveUnsafe(StripLeading(s))
  }

  /** `s.find(c)`: the first index of `c`, or -1. */
  function IndexOf(s: string, c: char): (i: int)
    ensures -1 <= i < |s|
    ensures 0 <= i ==> s[i] == c && forall k :: 0 <= k < i ==> s[k] != c
    ensures i < 0 ==> forall k :: 0 <= k < |s| ==> s[k] != c
    decreases |s|
  {
    if s == [] then -1
    else if s[0] == c then 0
    else
      var j := IndexOf(s[1..], c);
      if j < 0 then -1 else j + 1
  }

  /** `s.rfind(c)`: the last index of `c`, or -1. */
  function LastIndexOf(s: string, c: char): (i: int)
    ensures -1 <= i < |s|
    ensures 0 <= i ==> s[i] == c && forall k :: i < k < |s| ==> s[k] != c
    ensures i < 0 ==> forall k :: 0 <= k < |s| ==> s[k] != c
    decreases |s|
  {
    if s == [] then -1
    else if s[|s| - 1] == c then |s| - 1
    else LastIndexOf(s[..|s| - 1], c)
  }

  predicate IsAsciiLetter(c: char) {
    'a' <= c <= 'z' || 'A' <= c <= 'Z'
  }

  /** The characters a scheme may be made of. */
  predicate IsSchemeChar(c: char) {
    IsAsciiLetter(c) || '0' <= c <= '9' || c == '+' || c == '-' || c == '.'
  }

  function LowerChar(c: char): char {
    if 'A' <= c <= 'Z' then (c as int + 32) as char else c
  }

  /** `str.lower()` on a scheme, which holds ASCII characters only. */
  function LowerAscii(s: string): string {
    seq(|s|, k requires 0 <= k < |s| => LowerChar(s[k]))
  }

  /** The text before the first `:` is a scheme when it is non-empty,
      starts with an ASCII letter and holds scheme characters only. */
  predicate HasScheme(url: string) {
    var colon := IndexOf(url, ':');
    && colon > 0
    && IsAsciiLetter(url[0])
    && forall k :: 0 <= k < colon ==> IsSchemeChar(url[k])
  }

  /** The characters that end the network location. */
  predicate IsDelimiter(c: char) {
    c == '/' || c == '?' || c == '#'
  }

  /** The length of the network location at the start of `s`: up to the
      first `/`, `?` or `#`, or all of `s`. */
  function NetlocLength(s: string): (n: nat)
    ensures n <= |s|
    ensures forall k :: 0 <= k < n ==> !IsDelimiter(s[k])
    ensures n < |s| ==> IsDelimiter(s[n])
    decreases |s|
  {
    if s == [] || IsDelimiter(s[0]) then 0 else 1 + NetlocLength(s[1..])
  }

  /** After the first `]`, nothing or a `:port`. */
  predicate PortOnly(bracketed: string) {
    var close := IndexOf(bracketed, ']');
    close < 0 || close + 1 == |bracketed| || bracketed[close + 1] == ':'
  }

  /** Where `_check_bracketed_netloc` lets a `[` stand: in the host part
      (after the last `@`), nothing may come before it, and only a `:port`
      may come after the first `]` that follows it. */
  predicate BracketsPlaced(netloc: string) {
    '[' in netloc ==>
      var host := netloc[LastIndexOf(netloc, '@') + 1..];
      '[' in host ==> host[0] == '[' && PortOnly(host[1..])
  }

  /** The network location passes the bracket checks of `urlsplit`: both
      of `[` and `]` or neither, and a `[` only where a host may start. */
  predicate BracketsOk(netloc: string) {
    ('[' in netloc) == (']' in netloc) && BracketsPlaced(netloc)
  }

  /** The schemes whose last path segment may carry `;params`, in the
      order `urllib.parse` lists them. */
  const UsesParams: seq<string> := [
    "", "ftp", "hdl", "prospero", "http", "imap", "https", "shttp", "rtsp",
    "rtsps", "rtspu", "sip", "sips", "mms", "sftp", "tel"
  ]

  /** `x in xs` on a Python list: a scan from the front. */
  predicate Listed(x: string, xs: seq<string>)
    decreases |xs|
  {
    xs != [] && (xs[0] == x || Listed(x, xs[1..]))
  }

  /** `_splitparams`: the parameters start at the first `;` after the last
      `/`; a path without `/` splits at its first `;`. */
  function SplitParams(path: string): (r: (string, string))
    requires ';' in path
    ensures r.0 + [';'] + r.1 == path || (r.0 == path && r.1 == [])
  {
    var slash := LastIndexOf(path, '/');
    if 0 <= slash then
      var i := IndexOf(path[slash..], ';');
      if i < 0 then (path, [])
      else
        assert path == path[..slash + i] + [';'] + path[slash + i + 1..];
        (path[..slash + i], path[slash + i + 1..])
    else
      var i := IndexOf(path, ';');
      assert path == path[..i] + [';'] + path[i + 1..];
      (path[..i], path[i + 1..])
  }

  /** Splits the scheme off: lower-cased, with the text after its `:`; or
      no scheme and the whole text. */
  function SplitScheme(url: string): (string, string) {
    if HasScheme(url) then
      var colon := IndexOf(url, ':');
      (LowerAscii(url[..colon]), url[colon + 1..])
    else ("", url)
  }

  /** After a leading `//`, the network location runs up to the first
      delimiter; without `//` there is none. */
  function SplitNetloc(s: string): (string, string) {
    if |s| >= 2 && s[0] == '/' && s[1] == '/' then
      var n := NetlocLength(s[2..]);
      (s[2..2 + n], s[2 + n..])
    else ("", s)
  }

  /** Splits off the fragment at the first `#`, then the query at the first
      `?`; gives the path, the query and the fragment. */
  function SplitQueryAndFragment(rest: string): (string, string, string) {
    var hash := IndexOf(rest, '#');
    var beforeFragment := if hash < 0 then rest else rest[..hash];
    var fragment := if hash < 0 then "" else rest[hash + 1..];
    var question := IndexOf(beforeFragment, '?');
    var path := if question < 0 then beforeFragment else beforeFragment[..question];
    var query := if question < 0 then "" else beforeFragment[question + 1..];
    (path, query, fragment)
  }

  /** `urlparse(input)`: the scheme, network location, path, parameters,
      query and fragment of the input, or the error it raises when the
      brackets of the network location are unbalanced or misplaced. */
  function UrlParse(input: string): Result<ParsedUrl> {
    var (scheme, afterScheme) := SplitScheme(Clean(input));
    var (netloc, rest) := SplitNetloc(afterScheme);
    if !BracketsOk(netloc) then Err(InvalidIpv6Url)
    else
      var (path, query, fragment) := SplitQueryAndFragment(rest);
      if Listed(scheme, UsesParams) && ';' in path then
        var (p, params) := SplitParams(path);
        Ok(ParsedUrl(scheme, netloc, p, params, query, fragment))
      else
        Ok(ParsedUrl(scheme, netloc, path, "", query, fragment))
  }

  // ---------------------------------------------------------------------
  // The parser

  /** `MXCUri.from_str`: the scheme must be `mxc`; the network location and
      a path longer than `/` must be there; no fragment, query or
      parameters may be; the media id (the path after its `/`) may hold no
      further `/`. */
  function FromStr(s: string): Result<MxcUri> {
    match UrlParse(s)
    case Err(e) => Err(e)
    case Ok(p) =>
      if || p.scheme != "mxc"
         || p.netloc == ""
         || p.path == ""
         || p.path[0] != '/'
         || |p.path| == 1
         || p.fragment != ""
         || p.query != ""
         || p.params != ""
      then Err(InvalidStructure(s))
      else if '/' in p.path[1..] then Err(InvalidMediaId(s))
      else Ok(MxcUri(p.netloc, p.path[1..]))
  }

  /** A server name the parser gives back unchanged: non-empty, none of
      `/?#`, no tab/CR/LF, and brackets that pass the checks of
      `urlsplit`. */
  predicate ValidServerName(n: string) {
    && n != []
    && NoUnsafe(n)
    && (forall k :: 0 <= k < |n| ==> !IsDelimiter(n[k]))
    && BracketsOk(n)
  }

  /** A media id the parser gives back unchanged: non-empty, none of `/?#`,
      no tab/CR/LF. */
  predicate ValidMediaId(m: string) {
    && m != []
    && NoUnsafe(m)
    && forall k :: 0 <= k < |m| ==> !IsDelimiter(m[k])
  }

  predicate Valid(u: MxcUri) {
    ValidServerName(u.serverName) && ValidMediaId(u.mediaId)
  }

  /** What may follow a URI and still be dropped by the parser: an empty
      query, an empty fragment, or both. */
  predicate IgnoredSuffix(t: string) {
    t == "" || t == "?" || t == "#" || t == "?#"
  }

  /** A three-letter spelling of `mxc`, in any mix of cases. */
  predicate SpellsMxc(x: string) {
    |x| == 3 && LowerAscii(x) == "mxc"
  }

  /** `c` is the written form of `u`, up to the case of the scheme and a
      dropped empty query or fragment. */
  predicate Spells(c: string, u: MxcUri) {
    && |c| >= 3
    && SpellsMxc(c[..3])
    && (|| "mxc" + c[3..] == ToString(u)
        || "mxc" + c[3..] == ToString(u) + "?"
        || "mxc" + c[3..] == ToString(u) + "#"
        || "mxc" + c[3..] == ToString(u) + "?#")
  }

  // ---------------------------------------------------------------------
  // The decomposition, stage by stage

  lemma SchemeLetters(x: string)
    requires SpellsMxc(x)
    ensures forall k :: 0 <= k < 3 ==> IsAsciiLetter(x[k])
  {
    assert LowerAscii(x)[0] == LowerChar(x[0]) == 'm';
    assert LowerAscii(x)[1] == LowerChar(x[1]) == 'x';
    assert LowerAscii(x)[2] == LowerChar(x[2]) == 'c';
  }

  lemma MxcSpellsMxc()
    ensures SpellsMxc("mxc")
  {
  }

  /** Any spelling of `mxc` before a `:` is the scheme `mxc`. */
  lemma SplitSchemeOfMxc(x: string, tail: string)
    requires SpellsMxc(x)
    ensures SplitScheme(x + ":" + tail) == ("mxc", tail)
  {
    SchemeLetters(x);
    var url := x + ":" + tail;
    assert url[3] == ':';
    assert forall k :: 0 <= k < 3 ==> url[k] == x[k];
    assert IndexOf(url, ':') == 3;
    assert url[..3] == x;
    assert url[4..] == tail;
  }

  /** The scheme is `mxc` only when the text starts with a spelling of
      `mxc` and a `:`. */
  lemma SplitSchemeIsMxc(url: string)
    requires SplitScheme(url).0 == "mxc"
    ensures |url| >= 4 && SpellsMxc(url[..3]) && url[3] == ':'
    ensures SplitScheme(url).1 == url[4..]
  {
    assert HasScheme(url);
    var colon := IndexOf(url, ':');
    assert |LowerAscii(url[..colon])| == colon;
  }

  /** After `//`, the network location is the text up to the delimiter. */
  lemma SplitNetlocOf(n: string, rest: string)
    requires forall k :: 0 <= k < |n| ==> !IsDelimiter(n[k])
    requires rest == [] || IsDelimiter(rest[0])
    ensures SplitNetloc("//" + n + rest) == (n, rest)
  {
    var s := "//" + n + rest;
    assert s[2..] == n + rest;
    assert s[2..2 + |n|] == n;
    assert s[2 + |n|..] == rest;
  }

  /** A non-empty network location was preceded by `//` and ends at a
      delimiter or at the end. */
  lemma SplitNetlocFound(s: string, n: string, rest: string)
    requires SplitNetloc(s) == (n, rest) && n != ""
    ensures s == "//" + n + rest
    ensures forall k :: 0 <= k < |n| ==> !IsDelimiter(n[k])
    ensures rest == [] || IsDelimiter(rest[0])
  {
    var len := NetlocLength(s[2..]);
    assert n == s[2..][..len];
    assert rest == s[2..][len..];
  }

  /** A path free of `?` and `#` followed by an ignored suffix leaves no
      query and no fragment. */
  lemma SplitQueryAndFragmentOf(path: string, t: string)
    requires forall k :: 0 <= k < |path| ==> path[k] != '?' && path[k] != '#'
    requires IgnoredSuffix(t)
    ensures SplitQueryAndFragment(path + t) == (path, "", "")
  {
    if t == "" {
      assert path + t == path;
      NoQueryNoFragment(path);
    } else if t == "?" {
      EmptyQuery(path);
    } else if t == "#" {
      EmptyFragment(path);
    } else {
      EmptyQueryAndFragment(path);
    }
  }

  lemma NoQueryNoFragment(path: string)
    requires forall k :: 0 <= k < |path| ==> path[k] != '?' && path[k] != '#'
    ensures SplitQueryAndFragment(path) == (path, "", "")
  {
    assert IndexOf(path, '?') < 0;
    assert IndexOf(path, '#') < 0;
  }

  lemma EmptyQuery(path: string)
    requires forall k :: 0 <= k < |path| ==> path[k] != '?' && path[k] != '#'
    ensures SplitQueryAndFragment(path + "?") == (path, "", "")
  {
    var rest := path + "?";
    assert IndexOf(rest, '#') < 0;
    assert rest[|path|] == '?';
    assert IndexOf(rest, '?') == |path|;
    assert rest[..|path|] == path && rest[|path| + 1..] == [];
  }

  lemma EmptyFragment(path: string)
    requires forall k :: 0 <= k < |path| ==> path[k] != '?' && path[k] != '#'
    ensures SplitQueryAndFragment(path + "#") == (path, "", "")
  {
    var rest := path + "#";
    assert IndexOf(path, '?') < 0;
    assert rest[|path|] == '#';
    assert IndexOf(rest, '#') == |path|;
    assert rest[..|path|] == path && rest[|path| + 1..] == [];
  }

  lemma EmptyQueryAndFragment(path: string)
    requires forall k :: 0 <= k < |path| ==> path[k] != '?' && path[k] != '#'
    ensures SplitQueryAndFragment(path + "?#") == (path, "", "")
  {
    var rest := path + "?#";
    assert rest[|path| + 1] == '#';
    assert IndexOf(rest, '#') == |path| + 1;
    assert rest[|path| + 2..] == [];
    var bf := rest[..|path| + 1];
    assert bf == path + "?";
    EmptyQuery(path);
  }

  /** When there is no query and no fragment, at most an empty `?` and an
      empty `#` follow the path, which holds neither. */
  lemma SplitQueryAndFragmentEmpty(rest: string, path: string)
    requires SplitQueryAndFragment(rest) == (path, "", "")
    ensures forall k :: 0 <= k < |path| ==> path[k] != '?' && path[k] != '#'
    ensures || rest == path || rest == path + "?"
            || rest == path + "#" || rest == path + "?#"
  {
    var hash := IndexOf(rest, '#');
    var bf := if hash < 0 then rest else rest[..hash];
    CutEmpty(rest, '#', hash, bf);
    var question := IndexOf(bf, '?');
    CutEmpty(bf, '?', question, path);
    assert forall k :: 0 <= k < |path| ==> path[k] == bf[k];
    if hash >= 0 && question >= 0 {
      assert rest == (path + "?") + "#" == path + "?#";
    }
  }

  /** Cutting at the first `c` and finding nothing after it: the text had
      no `c` or ended with its only one. */
  lemma CutEmpty(s: string, c: char, i: int, before: string)
    requires i == IndexOf(s, c)
    requires before == if i < 0 then s else s[..i]
    requires i >= 0 ==> s[i + 1..] == []
    ensures i < 0 ==> s == before
    ensures i >= 0 ==> s == before + [c]
    ensures forall k :: 0 <= k < |before| ==> before[k] != c
  {
    if i >= 0 {
      assert s == s[..i] + [s[i]] + s[i + 1..];
    }
  }

  lemma MxcUsesNoParams()
    ensures !Listed("mxc", UsesParams)
  {
    forall k | 0 <= k < |UsesParams|
      ensures UsesParams[k] != "mxc"
    {
      assert |UsesParams[k]| != 3 || UsesParams[k][1] != 'x';
    }
    NotListed("mxc", UsesParams);
  }

  lemma {:induction false} NotListed(x: string, xs: seq<string>)
    requires forall k :: 0 <= k < |xs| ==> xs[k] != x
    ensures !Listed(x, xs)
    decreases |xs|
  {
    if xs != [] {
      NotListed(x, xs[1..]);
    }
  }

  // ---------------------------------------------------------------------
  // What the parser accepts

  /** A valid URI written with any spelling of `mxc`, followed by an empty
      query or fragment or neither, parses back to itself. */
  lemma ParseSpelling(x: string, u: MxcUri, t: string)
    requires SpellsMxc(x) && Valid(u) && IgnoredSuffix(t)
    ensures FromStr(x + "://" + u.serverName + "/" + u.mediaId + t) == Ok(u)
  {
    var n, m := u.serverName, u.mediaId;
    var s := x + "://" + n + "/" + m + t;
    var path := "/" + m;
    var rest := path + t;
    CleanSpelling(x, n, m, t);
    SplitSchemeOfMxc(x, "//" + n + rest);
    SplitNetlocOf(n, rest);
    SplitQueryAndFragmentOf(path, t);
    FromStrOfParts(s, "//" + n + rest, n, rest, path, "", "");
    assert path[1..] == m;
  }

  /** Nothing is stripped from or deleted in a spelt-out valid URI. */
  lemma CleanSpelling(x: string, n: string, m: string, t: string)
    requires SpellsMxc(x) && ValidServerName(n) && ValidMediaId(m) && IgnoredSuffix(t)
    ensures Clean(x + "://" + n + "/" + m + t) == x + ":" + ("//" + n + ("/" + m + t))
  {
    var s := x + "://" + n + "/" + m + t;
    assert s == x + ":" + ("//" + n + ("/" + m + t));
    SchemeLetters(x);
    assert !IsC0OrSpace(s[0]);
    assert StripLeading(s) == s;
    assert NoUnsafe(s) by {
      forall k | 0 <= k < |s|
        ensures !IsUnsafe(s[k])
      {
        if k < 3 {
          assert s[k] == x[k];
        } else if 6 <= k < 6 + |n| {
          assert s[k] == n[k - 6];
        } else if 7 + |n| <= k < 7 + |n| + |m| {
          assert s[k] == m[k - 7 - |n|];
        }
      }
    }
    RemoveUnsafeKeepsSafe(s);
  }

  /** `from_str` once the scheme is `mxc` and the parts are known. */
  lemma FromStrOfParts(s: string, afterScheme: string, netloc: string, rest: string,
                       path: string, query: string, fragment: string)
    requires SplitScheme(Clean(s)) == ("mxc", afterScheme)
    requires SplitNetloc(afterScheme) == (netloc, rest)
    requires BracketsOk(netloc)
    requires SplitQueryAndFragment(rest) == (path, query, fragment)
    ensures FromStr(s) ==
      if netloc == "" || path == "" || path[0] != '/' || |path| == 1 || fragment != "" || query != ""
      then Err(InvalidStructure(s))
      else if '/' in path[1..] then Err(InvalidMediaId(s))
      else Ok(MxcUri(netloc, path[1..]))
  {
    MxcUsesNoParams();
  }

  /** Round trip: formatting a valid URI and parsing the text gives the
      URI back. */
  lemma RoundTrip(u: MxcUri)
    requires Valid(u)
    ensures FromStr(ToString(u)) == Ok(u)
  {
    var s := ToString(u);
    assert s == "mxc" + "://" + u.serverName + "/" + u.mediaId + "";
    MxcSpellsMxc();
    ParseSpelling("mxc", u, "");
  }

  /** Whatever the parser accepts is valid and is the URI written out, up
      to the case of the scheme and a dropped empty query or fragment, once
      leading controls and spaces and every tab/CR/LF are removed. */
  lemma FromStrSound(s: string, u: MxcUri)
    requires FromStr(s) == Ok(u)
    ensures Valid(u)
    ensures Spells(Clean(s), u)
  {
    var url := Clean(s);
    var afterScheme := SplitScheme(url).1;
    var netloc := SplitNetloc(afterScheme).0;
    var rest := SplitNetloc(afterScheme).1;
    var path := SplitQueryAndFragment(rest).0;
    var query := SplitQueryAndFragment(rest).1;
    var fragment := SplitQueryAndFragment(rest).2;
    AcceptedScheme(s, u);
    FromStrOfParts(s, afterScheme, netloc, rest, path, query, fragment);
    AcceptedFields(s, netloc, path, query, fragment, FromStr(s), u);
    SplitSchemeIsMxc(url);
    SplitNetlocFound(afterScheme, netloc, rest);
    SplitQueryAndFragmentEmpty(rest, path);
    var t := AcceptedSuffix(rest, path);
    AcceptedValid(url, rest, path, t, u);
    AcceptedSpelling(url, rest, path, t, u);
  }

  /** Only the scheme `mxc`, and a network location whose brackets pass
      the checks of `urlsplit`, get past the first checks. */
  lemma AcceptedScheme(s: string, u: MxcUri)
    requires FromStr(s) == Ok(u)
    ensures SplitScheme(Clean(s)).0 == "mxc"
    ensures BracketsOk(SplitNetloc(SplitScheme(Clean(s)).1).0)
  {
  }

  /** The fields of an accepted URI are the network location and the path
      after its `/`, with no query and no fragment. */
  lemma AcceptedFields(s: string, netloc: string, path: string, query: string, fragment: string,
                       r: Result<MxcUri>, u: MxcUri)
    requires r == Ok(u)
    requires r ==
      if netloc == "" || path == "" || path[0] != '/' || |path| == 1 || fragment != "" || query != ""
      then Err(InvalidStructure(s))
      else if '/' in path[1..] then Err(InvalidMediaId(s))
      else Ok(MxcUri(netloc, path[1..]))
    ensures netloc == u.serverName && path == "/" + u.mediaId
    ensures query == "" && fragment == ""
    ensures u.mediaId != [] && '/' !in u.mediaId
  {
    assert path == [path[0]] + path[1..];
  }

  /** The ignored suffix after an accepted path. */
  lemma AcceptedSuffix(rest: string, path: string) returns (t: string)
    requires || rest == path || rest == path + "?"
             || rest == path + "#" || rest == path + "?#"
    ensures rest == path + t && IgnoredSuffix(t)
  {
    t := rest[|path|..];
    assert rest == path + t;
  }

  /** The server name and the media id of an accepted text are valid. */
  lemma AcceptedValid(url: string, rest: string, path: string, t: string, u: MxcUri)
    requires NoUnsafe(url) && |url| >= 4
    requires url[4..] == "//" + u.serverName + rest
    requires forall k :: 0 <= k < |u.serverName| ==> !IsDelimiter(u.serverName[k])
    requires forall k :: 0 <= k < |path| ==> path[k] != '?' && path[k] != '#'
    requires rest == path + t && path == "/" + u.mediaId
    requires u.serverName != [] && u.mediaId != [] && '/' !in u.mediaId
    requires BracketsOk(u.serverName)
    ensures Valid(u)
  {
    var n, m := u.serverName, u.mediaId;
    NoUnsafeSuffix(url, 4);
    NoUnsafeSplit("//" + n, rest);
    NoUnsafeSplit("//", n);
    NoUnsafeSplit(path, t);
    NoUnsafeSplit("/", m);
    assert forall k :: 0 <= k < |m| ==> m[k] == path[k + 1];
  }

  /** An accepted text spells its URI. */
  lemma AcceptedSpelling(url: string, rest: string, path: string, t: string, u: MxcUri)
    requires |url| >= 4 && SpellsMxc(url[..3]) && url[3] == ':'
    requires url[4..] == "//" + u.serverName + rest
    requires rest == path + t && path == "/" + u.mediaId && IgnoredSuffix(t)
    ensures Spells(url, u)
  {
    MxcTail(url);
    SpellingParts(u.serverName, u.mediaId, t);
  }

  lemma MxcTail(url: string)
    requires |url| >= 4 && url[3] == ':'
    ensures "mxc" + url[3..] == "mxc" + ":" + url[4..]
  {
    assert url[3..] == [':'] + url[4..];
  }

  lemma SpellingParts(n: string, m: string, t: string)
    ensures "mxc" + ":" + ("//" + n + ("/" + m + t)) == ToString(MxcUri(n, m)) + t
  {
  }

  lemma NoUnsafeSplit(a: string, b: string)
    requires NoUnsafe(a + b)
    ensures NoUnsafe(a) && NoUnsafe(b)
  {
    assert forall k :: 0 <= k < |a| ==> (a + b)[k] == a[k];
    assert forall k :: 0 <= k < |b| ==> (a + b)[|a| + k] == b[k];
  }

  lemma NoUnsafeSuffix(s: string, i: nat)
    requires NoUnsafe(s) && i <= |s|
    ensures NoUnsafe(s[i..])
  {
    assert forall k :: 0 <= k < |s| - i ==> s[i..][k] == s[i + k];
  }

  // ---------------------------------------------------------------------
  // What the parser rejects

  /** Text the parser reads as it is. */
  lemma CleanUnchanged(s: string)
    requires s == [] || !IsC0OrSpace(s[0])
    requires NoUnsafe(s)
    ensures Clean(s) == s
  {
    RemoveUnsafeKeepsSafe(s);
  }

  lemma NoUnsafeAppend(a: string, b: string)
    requires NoUnsafe(a) && NoUnsafe(b)
    ensures NoUnsafe(a + b)
  {
    assert forall k :: |a| <= k < |a + b| ==> (a + b)[k] == b[k - |a|];
  }

  /** A text that does not start with `mxc:`, in any case, once cleaned,
      is rejected. */
  lemma WrongSchemeRejected(s: string)
    requires var c := Clean(s); !(|c| >= 4 && SpellsMxc(c[..3]) && c[3] == ':')
    ensures FromStr(s).Err?
  {
    if FromStr(s).Ok? {
      FromStrSound(s, FromStr(s).value);
    }
  }

  /** A text with nothing to strip or delete that does not start with
      `mxc:`, in any case, is rejected. */
  lemma WrongSchemeTextRejected(s: string)
    requires s != [] && !IsC0OrSpace(s[0]) && NoUnsafe(s)
    requires !(|s| >= 4 && SpellsMxc(s[..3]) && s[3] == ':')
    ensures FromStr(s).Err?
  {
    CleanUnchanged(s);
    WrongSchemeRejected(s);
  }

  /** `mxc:///…`: the network location is empty. */
  lemma MissingServerNameRejected(rest: string)
    ensures FromStr("mxc:///" + rest) == Err(InvalidStructure("mxc:///" + rest))
  {
    var s := "mxc:///" + rest;
    var r := "/" + RemoveUnsafe(rest);
    var after := "//" + r;
    CleanMissingServerName(rest);
    MxcPrefixParts(RemoveUnsafe(rest));
    MxcSpellsMxc();
    SplitSchemeOfMxc("mxc", after);
    EmptyNetloc(r);
    EmptyNetlocRejected(s, after, r);
  }

  /** `///`: the network location between the first two slashes and the
      third is empty. */
  lemma EmptyNetloc(r: string)
    requires r != [] && r[0] == '/'
    ensures SplitNetloc("//" + r) == ("", r)
  {
    var after := "//" + r;
    assert after[2..] == r;
    assert NetlocLength(r) == 0;
    assert after[2..2] == "";
  }

  /** An empty network location is rejected whatever follows it. */
  lemma EmptyNetlocRejected(s: string, after: string, r: string)
    requires SplitScheme(Clean(s)) == ("mxc", after)
    requires SplitNetloc(after) == ("", r)
    ensures FromStr(s) == Err(InvalidStructure(s))
  {
    var path := SplitQueryAndFragment(r).0;
    var query := SplitQueryAndFragment(r).1;
    var fragment := SplitQueryAndFragment(r).2;
    FromStrOfParts(s, after, "", r, path, query, fragment);
    RejectedStructure(s, "", path, query, fragment, FromStr(s));
  }

  lemma CleanMissingServerName(rest: string)
    ensures Clean("mxc:///" + rest) == "mxc:///" + RemoveUnsafe(rest)
  {
    var s := "mxc:///" + rest;
    StripLeadingNothing(s);
    SafeMxcPrefix();
    RemoveUnsafeAppend("mxc:///", rest);
  }

  lemma MxcPrefixParts(r: string)
    ensures "mxc:///" + r == "mxc" + ":" + ("//" + ("/" + r))
  {
  }

  lemma StripLeadingNothing(s: string)
    requires s != [] && !IsC0OrSpace(s[0])
    ensures StripLeading(s) == s
  {
  }

  lemma SafeMxcPrefix()
    ensures RemoveUnsafe("mxc:///") == "mxc:///"
  {
    assert NoUnsafe("mxc:///");
    RemoveUnsafeKeepsSafe("mxc:///");
  }

  /** `mxc://` and a network location, read as it is. */
  lemma MxcTextParts(n: string, rest: string)
    requires NoUnsafe(n) && (forall k :: 0 <= k < |n| ==> !IsDelimiter(n[k]))
    requires NoUnsafe(rest) && (rest == [] || IsDelimiter(rest[0]))
    ensures SplitScheme(Clean("mxc://" + n + rest)) == ("mxc", "//" + n + rest)
    ensures SplitNetloc("//" + n + rest) == (n, rest)
  {
    var s := "mxc://" + n + rest;
    assert s == "mxc" + ":" + ("//" + n + rest);
    NoUnsafeAppend("mxc://", n);
    NoUnsafeAppend("mxc://" + n, rest);
    CleanUnchanged(s);
    MxcSpellsMxc();
    SplitSchemeOfMxc("mxc", "//" + n + rest);
    SplitNetlocOf(n, rest);
  }

  /** `mxc://server` and `mxc://server/`: there is no media id. */
  lemma MissingMediaIdRejected(n: string, t: string)
    requires NoUnsafe(n) && (forall k :: 0 <= k < |n| ==> !IsDelimiter(n[k]))
    requires BracketsOk(n)
    requires t == "" || t == "/"
    ensures FromStr("mxc://" + n + t) == Err(InvalidStructure("mxc://" + n + t))
  {
    MxcTextParts(n, t);
    SplitQueryAndFragmentOf(t, "");
    assert t + "" == t;
    FromStrOfParts("mxc://" + n + t, "//" + n + t, n, t, t, "", "");
  }

  /** A media id holding a `/` is rejected as such. */
  lemma SlashInMediaIdRejected(n: string, m: string)
    requires ValidServerName(n)
    requires NoUnsafe(m) && forall k :: 0 <= k < |m| ==> m[k] != '?' && m[k] != '#'
    requires '/' in m
    ensures FromStr("mxc://" + n + "/" + m) == Err(InvalidMediaId("mxc://" + n + "/" + m))
  {
    var s := "mxc://" + n + "/" + m;
    var path := "/" + m;
    assert s == "mxc://" + n + path;
    NoUnsafeAppend("/", m);
    MxcTextParts(n, path);
    SplitQueryAndFragmentOf(path, "");
    assert path + "" == path && path[1..] == m;
    FromStrOfParts(s, "//" + n + path, n, path, path, "", "");
  }

  /** A network location with only one of `[` and `]`, or with a bracket
      out of place, makes `urlparse` itself fail. */
  lemma BadBracketsRejected(n: string, rest: string)
    requires NoUnsafe(n) && (forall k :: 0 <= k < |n| ==> !IsDelimiter(n[k]))
    requires !BracketsOk(n)
    requires NoUnsafe(rest) && (rest == [] || IsDelimiter(rest[0]))
    ensures FromStr("mxc://" + n + rest) == Err(InvalidIpv6Url)
  {
    MxcTextParts(n, rest);
  }

  /** A non-empty query or fragment after a valid URI is rejected. */
  lemma QueryOrFragmentRejected(u: MxcUri, t: string)
    requires Valid(u)
    requires NoUnsafe(t) && t != [] && (t[0] == '?' || t[0] == '#')
    requires !IgnoredSuffix(t)
    ensures FromStr(ToString(u) + t) == Err(InvalidStructure(ToString(u) + t))
  {
    SuffixedText(u.serverName, u.mediaId, t);
    QueryOrFragmentAfter(u.serverName, u.mediaId, t);
  }

  lemma SuffixedText(n: string, m: string, t: string)
    ensures ToString(MxcUri(n, m)) + t == "mxc://" + n + ("/" + m + t)
  {
  }

  lemma QueryOrFragmentAfter(n: string, m: string, t: string)
    requires ValidServerName(n) && ValidMediaId(m)
    requires NoUnsafe(t) && t != [] && (t[0] == '?' || t[0] == '#')
    requires !IgnoredSuffix(t)
    ensures var s := "mxc://" + n + ("/" + m + t);
            FromStr(s) == Err(InvalidStructure(s))
  {
    var path := "/" + m;
    var rest := path + t;
    NoUnsafeAppend("/", m);
    NoUnsafeAppend(path, t);
    QueryOrFragmentPresent(path, t);
    assert rest[0] == '/';
    QueryOrFragmentIn(n, rest);
  }

  /** `mxc://`, a network location and a text holding a query or a
      fragment. */
  lemma QueryOrFragmentIn(n: string, rest: string)
    requires NoUnsafe(n) && (forall k :: 0 <= k < |n| ==> !IsDelimiter(n[k]))
    requires BracketsOk(n)
    requires NoUnsafe(rest) && (rest == [] || IsDelimiter(rest[0]))
    requires SplitQueryAndFragment(rest).1 != "" || SplitQueryAndFragment(rest).2 != ""
    ensures FromStr("mxc://" + n + rest) == Err(InvalidStructure("mxc://" + n + rest))
  {
    var s := "mxc://" + n + rest;
    FromStrOfMxcText(n, rest);
    var (p, query, fragment) := SplitQueryAndFragment(rest);
    RejectedStructure(s, n, p, query, fragment, FromStr(s));
  }

  /** `from_str` on `mxc://`, a network location and the text after it. */
  lemma FromStrOfMxcText(n: string, rest: string)
    requires NoUnsafe(n) && (forall k :: 0 <= k < |n| ==> !IsDelimiter(n[k]))
    requires BracketsOk(n)
    requires NoUnsafe(rest) && (rest == [] || IsDelimiter(rest[0]))
    ensures var s := "mxc://" + n + rest;
            var (path, query, fragment) := SplitQueryAndFragment(rest);
            FromStr(s) ==
              if n == "" || path == "" || path[0] != '/' || |path| == 1 || fragment != "" || query != ""
              then Err(InvalidStructure(s))
              else if '/' in path[1..] then Err(InvalidMediaId(s))
              else Ok(MxcUri(n, path[1..]))
  {
    var s := "mxc://" + n + rest;
    MxcTextParts(n, rest);
    var (path, query, fragment) := SplitQueryAndFragment(rest);
    FromStrOfParts(s, "//" + n + rest, n, rest, path, query, fragment);
  }

  /** An empty network location, a query or a fragment is enough to
      reject the structure. */
  lemma RejectedStructure(s: string, netloc: string, path: string, query: string, fragment: string,
                          r: Result<MxcUri>)
    requires r ==
      if netloc == "" || path == "" || path[0] != '/' || |path| == 1 || fragment != "" || query != ""
      then Err(InvalidStructure(s))
      else if '/' in path[1..] then Err(InvalidMediaId(s))
      else Ok(MxcUri(netloc, path[1..]))
    requires netloc == "" || query != "" || fragment != ""
    ensures r == Err(InvalidStructure(s))
  {
  }

  /** After a path free of `?` and `#`, a suffix that is not ignored leaves
      a query or a fragment. */
  lemma QueryOrFragmentPresent(path: string, t: string)
    requires forall k :: 0 <= k < |path| ==> path[k] != '?' && path[k] != '#'
    requires t != [] && (t[0] == '?' || t[0] == '#')
    requires !IgnoredSuffix(t)
    ensures SplitQueryAndFragment(path + t).1 != "" || SplitQueryAndFragment(path + t).2 != ""
  {
    var rest := path + t;
    var p := SplitQueryAndFragment(rest).0;
    if SplitQueryAndFragment(rest).1 == "" && SplitQueryAndFragment(rest).2 == "" {
      SplitQueryAndFragmentEmpty(rest, p);
      SuffixAfterPath(path, p, t, rest[|p|..]);
    }
  }

  /** Two ways of cutting the same text at its first `?` or `#`. */
  lemma SuffixAfterPath(path: string, p: string, t: string, t': string)
    requires forall k :: 0 <= k < |path| ==> path[k] != '?' && path[k] != '#'
    requires forall k :: 0 <= k < |p| ==> p[k] != '?' && p[k] != '#'
    requires t != [] && (t[0] == '?' || t[0] == '#')
    requires t' == [] || t'[0] == '?' || t'[0] == '#'
    requires path + t == p + t'
    ensures t == t'
  {
    assert (path + t)[|path|] == t[0];
    assert t' != [] ==> (p + t')[|p|] == t'[0];
    assert forall k :: 0 <= k < |p| ==> (path + t)[k] == p[k];
    assert forall k :: 0 <= k < |path| ==> (p + t')[k] == path[k];
    assert t == (path + t)[|path|..];
  }

  // ---------------------------------------------------------------------
  // Examples

  /** A character that needs no special treatment anywhere in a URI. */
  predicate IsPlain(c: char) {
    !IsUnsafe(c) && !IsDelimiter(c) && c != '[' && c != ']'
  }

  /** Text made of plain characters is a valid server name. */
  lemma PlainName(s: string)
    requires s != [] && forall k :: 0 <= k < |s| ==> IsPlain(s[k])
    ensures ValidServerName(s)
  {
  }

  /** Text made of plain characters is a valid media id. */
  lemma PlainId(s: string)
    requires s != [] && forall k :: 0 <= k < |s| ==> IsPlain(s[k])
    ensures ValidMediaId(s)
  {
  }

  /** Plain text between `[` and `]` is a valid server name. */
  lemma BracketedName(s: string)
    requires |s| >= 2 && s[0] == '[' && s[|s| - 1] == ']'
    requires forall k :: 0 < k < |s| - 1 ==> IsPlain(s[k])
    ensures ValidServerName(s)
  {
  }

  /** Plain text between `[` and `]`, then a `:` and plain text, is a
      valid server name. */
  lemma BracketedNameWithPort(s: string, close: nat)
    requires 0 < close && close + 1 < |s|
    requires s[0] == '[' && s[close] == ']' && s[close + 1] == ':'
    requires forall k :: 0 < k < |s| && k != close ==> IsPlain(s[k])
    ensures ValidServerName(s)
  {
    var at := LastIndexOf(s, '@');
    var host := s[at + 1..];
    if at < 0 {
      var bracketed := s[1..];
      assert bracketed[close - 1] == ']' && bracketed[close] == ':';
      assert forall k :: 0 <= k < close - 1 ==> bracketed[k] == s[k + 1];
      assert IndexOf(bracketed, ']') == close - 1;
    } else {
      assert forall k :: 0 <= k < |host| ==> host[k] == s[at + 1 + k];
      assert '[' !in host;
    }
  }

  /** The written form of a URI, read as the text up to the media id and
      the media id. */
  lemma WrittenAs(n: string, m: string, prefix: string, full: string)
    requires "mxc://" + n + "/" == prefix
    requires |full| == |prefix| + |m|
    requires full[..|prefix|] == prefix && full[|prefix|..] == m
    ensures ToString(MxcUri(n, m)) == full
  {
    assert full == full[..|prefix|] + full[|prefix|..];
  }

  /** Formatting writes the fields out as they are. */
  lemma FormatsExampleCom()
    ensures ToString(MxcUri("example.com", "84n8493hnfsjkbcu")) == "mxc://example.com/84n8493hnfsjkbcu"
  {
    WrittenAs("example.com", "84n8493hnfsjkbcu", "mxc://example.com/", "mxc://example.com/84n8493hnfsjkbcu");
  }

  /** Formatting writes the fields out as they are. */
  lemma FormatsIpv4WithPort()
    ensures ToString(MxcUri("192.168.1.17:8008", "bajkad89h31ausdhoqqasd")) == "mxc://192.168.1.17:8008/bajkad89h31ausdhoqqasd"
  {
    WrittenAs("192.168.1.17:8008", "bajkad89h31ausdhoqqasd", "mxc://192.168.1.17:8008/", "mxc://192.168.1.17:8008/bajkad89h31ausdhoqqasd");
  }

  /** Formatting writes the fields out as they are. */
  lemma FormatsIpv4()
    ensures ToString(MxcUri("123.123.123.123", "000000000000")) == "mxc://123.123.123.123/000000000000"
  {
    WrittenAs("123.123.123.123", "000000000000", "mxc://123.123.123.123/", "mxc://123.123.123.123/000000000000");
  }

  lemma ParsesDomainName()
    ensures FromStr("mxc://example.com/g12789g890ajksjk") == Ok(MxcUri("example.com", "g12789g890ajksjk"))
  {
    ValidDomainName();
    RoundTrip(MxcUri("example.com", "g12789g890ajksjk"));
    WrittenDomainName();
  }

  lemma WrittenDomainName()
    ensures ToString(MxcUri("example.com", "g12789g890ajksjk")) == "mxc://example.com/g12789g890ajksjk"
  {
    WrittenAs("example.com", "g12789g890ajksjk", "mxc://example.com/", "mxc://example.com/g12789g890ajksjk");
  }

  lemma ValidDomainName()
    ensures Valid(MxcUri("example.com", "g12789g890ajksjk"))
  {
    PlainId("g12789g890ajksjk");
    PlainName("example.com");
  }

  lemma AlphabetMediaId()
    ensures ValidMediaId("abcdefghijklmnopqrstuvwxyz")
  {
    PlainId("abcdefghijklmnopqrstuvwxyz");
  }

  lemma ParsesHostWithPort()
    ensures FromStr("mxc://localhost:8448/abcdefghijklmnopqrstuvwxyz") == Ok(MxcUri("localhost:8448", "abcdefghijklmnopqrstuvwxyz"))
  {
    ValidHostWithPort();
    RoundTrip(MxcUri("localhost:8448", "abcdefghijklmnopqrstuvwxyz"));
    WrittenHostWithPort();
  }

  lemma WrittenHostWithPort()
    ensures ToString(MxcUri("localhost:8448", "abcdefghijklmnopqrstuvwxyz")) == "mxc://localhost:8448/abcdefghijklmnopqrstuvwxyz"
  {
    WrittenAs("localhost:8448", "abcdefghijklmnopqrstuvwxyz", "mxc://localhost:8448/", "mxc://localhost:8448/abcdefghijklmnopqrstuvwxyz");
  }

  lemma ValidHostWithPort()
    ensures Valid(MxcUri("localhost:8448", "abcdefghijklmnopqrstuvwxyz"))
  {
    PlainName("localhost:8448");
    AlphabetMediaId();
  }

  lemma ParsesBracketedIpv6()
    ensures FromStr("mxc://[::1]/abcdefghijklmnopqrstuvwxyz") == Ok(MxcUri("[::1]", "abcdefghijklmnopqrstuvwxyz"))
  {
    ValidBracketedIpv6();
    RoundTrip(MxcUri("[::1]", "abcdefghijklmnopqrstuvwxyz"));
    WrittenBracketedIpv6();
  }

  lemma WrittenBracketedIpv6()
    ensures ToString(MxcUri("[::1]", "abcdefghijklmnopqrstuvwxyz")) == "mxc://[::1]/abcdefghijklmnopqrstuvwxyz"
  {
    WrittenAs("[::1]", "abcdefghijklmnopqrstuvwxyz", "mxc://[::1]/", "mxc://[::1]/abcdefghijklmnopqrstuvwxyz");
  }

  lemma ValidBracketedIpv6()
    ensures Valid(MxcUri("[::1]", "abcdefghijklmnopqrstuvwxyz"))
  {
    BracketedName("[::1]");
    AlphabetMediaId();
  }

  lemma ParsesIpv4WithPort()
    ensures FromStr("mxc://123.123.123.123:32112/12893y81283781023") == Ok(MxcUri("123.123.123.123:32112", "12893y81283781023"))
  {
    ValidIpv4WithPort();
    RoundTrip(MxcUri("123.123.123.123:32112", "12893y81283781023"));
    WrittenIpv4WithPort();
  }

  lemma WrittenIpv4WithPort()
    ensures ToString(MxcUri("123.123.123.123:32112", "12893y81283781023")) == "mxc://123.123.123.123:32112/12893y81283781023"
  {
    WrittenAs("123.123.123.123:32112", "12893y81283781023", "mxc://123.123.123.123:32112/", "mxc://123.123.123.123:32112/12893y81283781023");
  }

  lemma ValidIpv4WithPort()
    ensures Valid(MxcUri("123.123.123.123:32112", "12893y81283781023"))
  {
    PlainId("12893y81283781023");
    PlainName("123.123.123.123:32112");
  }

  lemma ParsesBareHost()
    ensures FromStr("mxc://domain/abcdefg") == Ok(MxcUri("domain", "abcdefg"))
  {
    ValidBareHost();
    RoundTrip(MxcUri("domain", "abcdefg"));
    WrittenBareHost();
  }

  lemma WrittenBareHost()
    ensures ToString(MxcUri("domain", "abcdefg")) == "mxc://domain/abcdefg"
  {
    WrittenAs("domain", "abcdefg", "mxc://domain/", "mxc://domain/abcdefg");
  }

  lemma ValidBareHost()
    ensures Valid(MxcUri("domain", "abcdefg"))
  {
    PlainId("abcdefg");
    PlainName("domain");
  }

  /** The scheme is compared after `urlparse` lower-cases it. */
  lemma AcceptsUpperCaseScheme()
    ensures FromStr("MXC://example.com/abcdef") == Ok(MxcUri("example.com", "abcdef"))
  {
    assert "MXC" + "://" + "example.com" + "/" + "abcdef" + "" == "MXC://example.com/abcdef";
    assert SpellsMxc("MXC");
    ValidExampleCom();
    ParseSpelling("MXC", MxcUri("example.com", "abcdef"), "");
  }

  /** An empty query is dropped, not rejected. */
  lemma AcceptsEmptyQuery()
    ensures FromStr("mxc://example.com/abcdef?") == Ok(MxcUri("example.com", "abcdef"))
  {
    assert "mxc" + "://" + "example.com" + "/" + "abcdef" + "?" == "mxc://example.com/abcdef?";
    MxcSpellsMxc();
    ValidExampleCom();
    ParseSpelling("mxc", MxcUri("example.com", "abcdef"), "?");
  }

  lemma ValidExampleCom()
    ensures Valid(MxcUri("example.com", "abcdef"))
  {
    PlainId("abcdef");
    PlainName("example.com");
  }

  /** `mxc` takes no parameters, so a `;` stays in the media id. */
  lemma KeepsSemicolonInMediaId()
    ensures FromStr("mxc://example.com/abc;def") == Ok(MxcUri("example.com", "abc;def"))
  {
    ValidSemicolon();
    RoundTrip(MxcUri("example.com", "abc;def"));
    WrittenSemicolon();
  }

  lemma WrittenSemicolon()
    ensures ToString(MxcUri("example.com", "abc;def")) == "mxc://example.com/abc;def"
  {
    WrittenAs("example.com", "abc;def", "mxc://example.com/", "mxc://example.com/abc;def");
  }

  lemma ValidSemicolon()
    ensures Valid(MxcUri("example.com", "abc;def"))
  {
    PlainId("abc;def");
    PlainName("example.com");
  }

  /** A port after a bracketed host is allowed. */
  lemma AcceptsBracketedHostWithPort()
    ensures FromStr("mxc://[::1]:8448/abcdef") == Ok(MxcUri("[::1]:8448", "abcdef"))
  {
    ValidBracketedHostWithPort();
    RoundTrip(MxcUri("[::1]:8448", "abcdef"));
    WrittenBracketedHostWithPort();
  }

  lemma WrittenBracketedHostWithPort()
    ensures ToString(MxcUri("[::1]:8448", "abcdef")) == "mxc://[::1]:8448/abcdef"
  {
    WrittenAs("[::1]:8448", "abcdef", "mxc://[::1]:8448/", "mxc://[::1]:8448/abcdef");
  }

  lemma ValidBracketedHostWithPort()
    ensures Valid(MxcUri("[::1]:8448", "abcdef"))
  {
    PlainId("abcdef");
    BracketedNameWithPort("[::1]:8448", 4);
  }

  /** Text before a `[` in the network location. */
  lemma RejectsTextBeforeBracket()
    ensures FromStr("mxc://a[b]/c") == Err(InvalidIpv6Url)
  {
    assert "mxc://" + "a[b]" + "/c" == "mxc://a[b]/c";
    assert NoUnsafe("a[b]") && NoUnsafe("/c");
    assert LastIndexOf("a[b]", '@') == -1;
    assert "a[b]"[1] == '[';
    BadBracketsRejected("a[b]", "/c");
  }

  /** Text other than a `:port` after the `]`. */
  lemma RejectsTextAfterBracket()
    ensures FromStr("mxc://[::1]x/c") == Err(InvalidIpv6Url)
  {
    var n := "[::1]x";
    assert "mxc://" + n + "/c" == "mxc://[::1]x/c";
    assert NoUnsafe(n) && NoUnsafe("/c");
    assert LastIndexOf(n, '@') == -1;
    assert IndexOf(n[1..], ']') == 3;
    BadBracketsRejected(n, "/c");
  }

  /** Not the `mxc` scheme. */
  lemma RejectsHttpScheme()
    ensures FromStr("http://example.com/abcdef").Err?
  {
    var s := "http://example.com/abcdef";
    assert NoUnsafe(s);
    assert LowerAscii(s[..3])[0] == 'h';
    WrongSchemeTextRejected(s);
  }

  /** Not the `mxc` scheme. */
  lemma RejectsMissingScheme()
    ensures FromStr("example.com/abc").Err?
  {
    var s := "example.com/abc";
    assert NoUnsafe(s);
    assert LowerAscii(s[..3])[0] == 'e';
    WrongSchemeTextRejected(s);
  }

  /** The empty string has no scheme. */
  lemma RejectsEmpty()
    ensures FromStr("").Err?
  {
    assert Clean("") == "";
    WrongSchemeRejected("");
  }

  /** Text that starts `mxc:///` has no server name, whatever follows. */
  lemma NoServerName(s: string)
    requires |s| >= 7 && s[..7] == "mxc:///"
    ensures FromStr(s).Err?
  {
    assert s == "mxc:///" + s[7..];
    MissingServerNameRejected(s[7..]);
  }

  /** No server name. */
  lemma RejectsHostInPath()
    ensures FromStr("mxc:///example.com/abcdef").Err?
  {
    NoServerName("mxc:///example.com/abcdef");
  }

  /** No server name. */
  lemma RejectsMediaIdOnly()
    ensures FromStr("mxc:///abcdef").Err?
  {
    NoServerName("mxc:///abcdef");
  }

  /** No server name. */
  lemma RejectsSlashesOnly()
    ensures FromStr("mxc:///").Err?
  {
    NoServerName("mxc:///");
  }

  lemma ExampleComServerName()
    ensures ValidServerName("example.com")
  {
  }

  /** No media id. */
  lemma RejectsNoPath()
    ensures FromStr("mxc://example.com").Err?
  {
    assert "mxc://" + "example.com" + "" == "mxc://example.com";
    ExampleComServerName();
    MissingMediaIdRejected("example.com", "");
  }

  /** No media id. */
  lemma RejectsBareSlash()
    ensures FromStr("mxc://example.com/").Err?
  {
    assert "mxc://" + "example.com" + "/" == "mxc://example.com/";
    ExampleComServerName();
    MissingMediaIdRejected("example.com", "/");
  }

  /** A `/` inside the media id. */
  lemma RejectsEmptySegment()
    ensures FromStr("mxc://example.com//abcdef").Err?
  {
    var m := "/abcdef";
    assert "mxc://" + "example.com" + "/" + m == "mxc://example.com//abcdef";
    assert NoUnsafe(m) && '/' in m;
    assert forall k :: 0 <= k < |m| ==> m[k] != '?' && m[k] != '#';
    ExampleComServerName();
    SlashInMediaIdRejected("example.com", m);
  }

  /** A `/` inside the media id. */
  lemma RejectsTrailingSlash()
    ensures FromStr("mxc://example.com/abcdef/").Err?
  {
    var m := "abcdef/";
    assert "mxc://" + "example.com" + "/" + m == "mxc://example.com/abcdef/";
    assert NoUnsafe(m) && '/' in m;
    assert forall k :: 0 <= k < |m| ==> m[k] != '?' && m[k] != '#';
    ExampleComServerName();
    SlashInMediaIdRejected("example.com", m);
  }

  /** A `/` inside the media id. */
  lemma RejectsTwoSegments()
    ensures FromStr("mxc://example.com/abc/abcdef").Err?
  {
    var m := "abc/abcdef";
    assert "mxc://" + "example.com" + "/" + m == "mxc://example.com/abc/abcdef";
    assert NoUnsafe(m) && '/' in m;
    assert forall k :: 0 <= k < |m| ==> m[k] != '?' && m[k] != '#';
    ExampleComServerName();
    SlashInMediaIdRejected("example.com", m);
  }
}
