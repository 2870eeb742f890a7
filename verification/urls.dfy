/** Joining a link onto the site's base URL, as `urllib.parse.urljoin(BASE_URL, ref)`
    does, and `make_absolute_url`. */
module Urls {
  /* The join follows CPython 3.12's `urlsplit`, `urlparse`, `urljoin` and
     `urlunparse`, specialised to the base `https://lewdcorner.com`, whose
     scheme is `https`, whose network location is the host and whose path,
     parameters, query and fragment are empty. A join can fail: a network
     location with an opening bracket but no closing one (or the reverse) is
     rejected as an invalid IPv6 address. The failure is the `None` result. */

  import opened Wrappers
  import opened Text
  import opened Config

  /** The two slashes that introduce a network location. */
  const Slashes: string := ['/', '/']

  /** The network location of `BASE_URL`. */
  const BaseHost: string := "lewdcorner.com"

  // ----- cleaning -----------------------------------------------------------

  /** The characters `urlsplit` strips from the front of a URL: C0 control
      characters and the space. */
  predicate IsC0OrSpace(c: char) { c <= ' ' }

  /** The characters `urlsplit` removes from anywhere in a URL: tab, carriage
      return and line feed. */
  predicate IsUnsafe(c: char) { c == '\t' || c == '\r' || c == '\n' }

  /** No character of `s` is one `urlsplit` removes. */
  predicate Safe(s: string) {
    forall i :: 0 <= i < |s| ==> !IsUnsafe(s[i])
  }

  /** `s.lstrip(_WHATWG_C0_CONTROL_OR_SPACE)`. */
  function LStripC0(s: string): (r: string)
    ensures |r| <= |s| && r == s[|s| - |r|..]
    ensures r == [] || !IsC0OrSpace(r[0])
    ensures forall i :: 0 <= i < |s| - |r| ==> IsC0OrSpace(s[i])
    decreases |s|
  {
    if |s| > 0 && IsC0OrSpace(s[0]) then LStripC0(s[1..]) else s
  }

  /** `s` with every tab, carriage return and line feed removed, the other
      characters kept in order. */
  function RemoveUnsafe(s: string): (r: string)
    ensures |r| <= |s| && Safe(r)
    ensures Safe(s) ==> r == s
    ensures |s| > 0 && !IsUnsafe(s[0]) ==> |r| > 0 && r[0] == s[0]
    decreases |s|
  {
    if s == [] then []
    else if IsUnsafe(s[0]) then RemoveUnsafe(s[1..])
    else [s[0]] + RemoveUnsafe(s[1..])
  }

  /** Removing works piece by piece: together with the one-character cases
      this fixes `RemoveUnsafe` completely. */
  lemma {:induction false} RemoveUnsafeAppend(a: string, b: string)
    ensures RemoveUnsafe(a + b) == RemoveUnsafe(a) + RemoveUnsafe(b)
    decreases |a|
  {
    var ab := a + b;
    if a == [] {
      assert ab == b;
    } else {
      assert ab[0] == a[0] && ab[1..] == a[1..] + b;
      RemoveUnsafeAppend(a[1..], b);
      if IsUnsafe(a[0]) {
        assert RemoveUnsafe(ab) == RemoveUnsafe(ab[1..]);
      } else {
        assert RemoveUnsafe(ab) == [a[0]] + RemoveUnsafe(ab[1..]);
        assert RemoveUnsafe(a) == [a[0]] + RemoveUnsafe(a[1..]);
      }
    }
  }

  /** What `urlsplit` works on. */
  function Clean(s: string): (r: string)
    ensures r == [] || !IsC0OrSpace(r[0])
    ensures Safe(r)
  {
    var t := LStripC0(s);
    assert t != [] ==> !IsUnsafe(t[0]);
    RemoveUnsafe(t)
  }

  /** A URL that starts with a visible character and has nothing to remove
      is its own cleaning. */
  lemma CleanKeeps(s: string)
    requires (s == [] || !IsC0OrSpace(s[0])) && Safe(s)
    ensures Clean(s) == s
  {
  }

  /** Cleaning twice is cleaning once. */
  lemma CleanClean(s: string)
    ensures Clean(Clean(s)) == Clean(s)
  {
    CleanKeeps(Clean(s));
  }

  // ----- splitting ----------------------------------------------------------

  predicate IsSchemeChar(c: char) { IsAlnum(c) || c == '+' || c == '-' || c == '.' }

  /** The index of the `:` that ends the scheme: the first `:`, when it is not
      the first character, the first character is a letter and everything
      before it is a scheme character. */
  function SchemeEnd(u: string): (r: Option<nat>)
    ensures r.Some? ==> 0 < r.value < |u| && u[r.value] == ':' && IsLetter(u[0])
    ensures r.Some? ==> forall x :: 0 <= x < r.value ==> IsSchemeChar(u[x]) && u[x] != ':'
  {
    match FindFrom(u, ":", 0)
    case None => None
    case Some(i) =>
      if i > 0 && IsLetter(u[0]) && AllScheme(u, i) then
        assert OccursAt(u, ":", i);
        assert u[i..i + 1][0] == u[i];
        Some(i)
      else None
  }

  predicate AllScheme(u: string, i: nat)
    requires i <= |u|
  {
    forall x :: 0 <= x < i ==> IsSchemeChar(u[x]) && u[x] != ':'
  }

  /** The network location of a scheme-less reference that starts with two slashes:
      everything up to the first `/`, `?` or `#`. */
  function Netloc(rest: string): (r: string)
    requires StartsWith(rest, Slashes)
    ensures |r| <= |rest| - 2 && r == rest[2..2 + |r|]
    ensures forall x :: 0 <= x < |r| ==> r[x] != '/' && r[x] != '?' && r[x] != '#'
    ensures 2 + |r| == |rest| || rest[2 + |r|] == '/' || rest[2 + |r|] == '?' || rest[2 + |r|] == '#'
  {
    NetlocFrom(rest, 2)
  }

  function NetlocFrom(s: string, i: nat): (r: string)
    requires i <= |s|
    ensures |r| <= |s| - i && r == s[i..i + |r|]
    ensures forall x :: 0 <= x < |r| ==> r[x] != '/' && r[x] != '?' && r[x] != '#'
    ensures i + |r| == |s| || s[i + |r|] == '/' || s[i + |r|] == '?' || s[i + |r|] == '#'
    decreases |s| - i
  {
    if i == |s| || s[i] == '/' || s[i] == '?' || s[i] == '#' then []
    else
      var t := NetlocFrom(s, i + 1);
      assert s[i..i + 1 + |t|] == [s[i]] + s[i + 1..i + 1 + |t|];
      [s[i]] + t
  }

  lemma {:induction false} NetlocStops(s: string, i: nat, j: nat)
    requires i <= j <= |s|
    requires forall x :: i <= x < j ==> s[x] != '/' && s[x] != '?' && s[x] != '#'
    requires j == |s| || s[j] == '/' || s[j] == '?' || s[j] == '#'
    ensures NetlocFrom(s, i) == s[i..j]
    decreases j - i
  {
    if i < j {
      NetlocStops(s, i + 1, j);
      assert s[i..j] == [s[i]] + s[i + 1..j];
    }
  }

  /** A network location is rejected when it has one kind of bracket only. */
  predicate BracketsBalanced(netloc: string) {
    ('[' in netloc) == (']' in netloc)
  }

  /** `s.split(c, 1)` when `c` occurs in `s`, and `s` with nothing after it
      when it does not. */
  function CutFirst(s: string, c: char): (r: (string, string))
    ensures c !in s ==> r == (s, [])
    ensures c in s ==> s == r.0 + [c] + r.1
    ensures c !in r.0
  {
    match IndexFrom(s, c, 0)
    case None => (s, [])
    case Some(i) =>
      assert s == s[..i] + [c] + s[i + 1..];
      (s[..i], s[i + 1..])
  }

  /** The index of the last `c` in `s`. */
  function LastIndex(s: string, c: char): (r: Option<nat>)
    ensures r.Some? ==> r.value < |s| && s[r.value] == c && c !in s[r.value + 1..]
    ensures r.None? ==> c !in s
    decreases |s|
  {
    if s == [] then None
    else if s[|s| - 1] == c then Some(|s| - 1)
    else
      var r := LastIndex(s[..|s| - 1], c);
      assert s == s[..|s| - 1] + [s[|s| - 1]];
      if r.Some? then assert s[r.value + 1..] == s[..|s| - 1][r.value + 1..] + [s[|s| - 1]]; r
      else r
  }

  /** The parameters sit after the last `/`: no `;` of `w` comes after its
      last `/`. */
  predicate ParamFree(w: string) {
    forall i :: 0 <= i < |w| && w[i] == ';' ==> '/' in w[i + 1..]
  }

  /** `_splitparams`: the parameters start at the first `;` after the last
      `/`, or at the first `;` when there is no `/`; a path without such a
      `;` has no parameters. */
  function SplitParams(s: string): (r: (string, string))
    ensures r.1 != [] ==> s == r.0 + [';'] + r.1
    ensures r.1 == [] ==> s == r.0 || s == r.0 + [';']
    ensures ParamFree(r.0) && '/' !in r.1
  {
    match LastIndex(s, '/')
    case Some(j) =>
      (match IndexFrom(s, ';', j)
       case None =>
         assert ParamFree(s) by {
           forall i | 0 <= i < |s| && s[i] == ';' ensures '/' in s[i + 1..] {
             assert s[j..][0] == '/';
             assert i < j;
             assert s[i + 1..][j - i - 1] == s[j];
           }
         }
         (s, [])
       case Some(i) =>
         assert s == s[..i] + [';'] + s[i + 1..];
         assert ParamFree(s[..i]) by {
           forall x | 0 <= x < i && s[..i][x] == ';' ensures '/' in s[..i][x + 1..] {
             assert x < j;
             assert s[..i][x + 1..][j - x - 1] == s[j];
           }
         }
         assert '/' !in s[i + 1..] by {
           assert s[i + 1..] == s[j + 1..][i - j..];
         }
         (s[..i], s[i + 1..]))
    case None =>
      match IndexFrom(s, ';', 0)
      case None => (s, [])
      case Some(i) =>
        assert s == s[..i] + [';'] + s[i + 1..];
        (s[..i], s[i + 1..])
  }

  /** The schemes that take parameters (`uses_params`). */
  const UsesParams: seq<string> := [
    "", "ftp", "hdl", "prospero", "http", "imap", "https", "shttp", "rtsp", "rtsps",
    "rtspu", "sip", "sips", "mms", "sftp", "tel"
  ]

  /** What `urlparse` returns. */
  datatype Parts = Parts(scheme: string, netloc: string, path: string, params: string, query: string, fragment: string)

  /** What `urlparse` promises of its pieces: nothing `urlsplit` removes is
      left, the network location stops at the first `/`, `?` or `#` and has
      both kinds of bracket or neither, the path and parameters stop at the
      first `?` or `#`, the query at the first `#`, and for a scheme that takes
      parameters these start after the last `/`. */
  predicate Parsed(p: Parts) {
    Safe(p.netloc) && Safe(p.path) && Safe(p.params) && Safe(p.query) && Safe(p.fragment)
    && (forall x :: 0 <= x < |p.netloc| ==> p.netloc[x] != '/' && p.netloc[x] != '?' && p.netloc[x] != '#')
    && BracketsBalanced(p.netloc)
    && '?' !in p.path && '#' !in p.path && '?' !in p.params && '#' !in p.params && '#' !in p.query
    && (p.scheme in UsesParams ==> ParamFree(p.path) && '/' !in p.params)
  }

  /** The scheme (lower-cased, or `default` when there is none) and what
      follows it. */
  function SplitScheme(u: string, default: string): (r: (string, string))
    ensures SchemeEnd(u).None? ==> r == (default, u)
    ensures SchemeEnd(u).Some? ==> r.1 == u[SchemeEnd(u).value + 1..]
  {
    match SchemeEnd(u)
    case Some(i) => (Lower(u[..i]), u[i + 1..])
    case None => (default, u)
  }

  /** The network location (empty when `rest` does not start with two
      slashes) and what follows it. */
  function SplitNetloc(rest: string): (r: (string, string))
    ensures StartsWith(rest, Slashes) ==> r.0 == Netloc(rest) && rest == Slashes + r.0 + r.1
    ensures !StartsWith(rest, Slashes) ==> r == ([], rest)
  {
    if StartsWith(rest, Slashes) then
      var n := Netloc(rest);
      assert rest == rest[..2] + rest[2..2 + |n|] + rest[2 + |n|..];
      (n, rest[2 + |n|..])
    else ([], rest)
  }

  /** Fragment, query and parameters cut from what follows the network
      location. */
  function SplitRest(scheme: string, netloc: string, after: string): (r: Parts)
    ensures r.scheme == scheme && r.netloc == netloc
  {
    var (beforeHash, fragment) := CutFirst(after, '#');
    var (pathAndParams, query) := CutFirst(beforeHash, '?');
    var (path, params) := if scheme in UsesParams then SplitParams(pathAndParams) else (pathAndParams, []);
    Parts(scheme, netloc, path, params, query, fragment)
  }

  /** `urlparse(url, default)`: `None` where it raises. */
  function Parse(url: string, default: string): (r: Option<Parts>)
    ensures r.Some? ==> Parsed(r.value)
    ensures r.Some? ==> r.value.scheme == SplitScheme(Clean(url), default).0
    ensures r.None? <==> !BracketsBalanced(SplitNetloc(SplitScheme(Clean(url), default).1).0)
  {
    var (scheme, rest) := SplitScheme(Clean(url), default);
    var (netloc, after) := SplitNetloc(rest);
    if !BracketsBalanced(netloc) then None
    else
      PiecesParsed(Clean(url), default);
      Some(SplitRest(scheme, netloc, after))
  }

  /** The pieces cut from a URL with nothing to remove are parsed ones. */
  lemma PiecesParsed(u: string, default: string)
    requires Safe(u)
    ensures var rest := SplitScheme(u, default).1;
      BracketsBalanced(SplitNetloc(rest).0) ==>
        Parsed(SplitRest(SplitScheme(u, default).0, SplitNetloc(rest).0, SplitNetloc(rest).1))
  {
    var (scheme, rest) := SplitScheme(u, default);
    assert Safe(rest) by {
      if SchemeEnd(u).Some? {
        var i := SchemeEnd(u).value;
        assert forall x :: 0 <= x < |rest| ==> rest[x] == u[i + 1 + x];
      }
    }
    var (netloc, after) := SplitNetloc(rest);
    if BracketsBalanced(netloc) {
      SplitRestParsed(scheme, netloc, after, rest);
    }
  }

  lemma SplitRestParsed(scheme: string, netloc: string, after: string, rest: string)
    requires Safe(rest) && BracketsBalanced(netloc)
    requires (StartsWith(rest, Slashes) && netloc == Netloc(rest) && rest == Slashes + netloc + after)
             || (netloc == [] && after == rest)
    ensures Parsed(SplitRest(scheme, netloc, after))
  {
    RestPiecesSafe(netloc, after, rest);
    AfterParsed(scheme, netloc, after);
  }

  /** The network location and what follows it keep the text's safety. */
  lemma RestPiecesSafe(netloc: string, after: string, rest: string)
    requires Safe(rest)
    requires (StartsWith(rest, Slashes) && netloc == Netloc(rest) && rest == Slashes + netloc + after)
             || (netloc == [] && after == rest)
    ensures Safe(after) && Safe(netloc)
    ensures forall x :: 0 <= x < |netloc| ==> netloc[x] != '/' && netloc[x] != '?' && netloc[x] != '#'
  {
    if netloc != [] || after != rest {
      assert forall x :: 0 <= x < |netloc| ==> netloc[x] == rest[2 + x];
      assert forall x :: 0 <= x < |after| ==> after[x] == rest[2 + |netloc| + x];
    }
  }

  /** Safe pieces cut after a well-formed network location are parsed. */
  lemma AfterParsed(scheme: string, netloc: string, after: string)
    requires Safe(after) && Safe(netloc) && BracketsBalanced(netloc)
    requires forall x :: 0 <= x < |netloc| ==> netloc[x] != '/' && netloc[x] != '?' && netloc[x] != '#'
    ensures Parsed(SplitRest(scheme, netloc, after))
  {
    var (beforeHash, fragment) := CutFirst(after, '#');
    var (pathAndParams, query) := CutFirst(beforeHash, '?');
    var (path, params) := if scheme in UsesParams then SplitParams(pathAndParams) else (pathAndParams, []);
    SafeParts(after, beforeHash, fragment, pathAndParams, query, path, params);
  }

  lemma SafeParts(after: string, beforeHash: string, fragment: string, pathAndParams: string, query: string,
                  path: string, params: string)
    requires Safe(after) && '#' !in beforeHash && '?' !in pathAndParams
    requires after == beforeHash || after == beforeHash + ['#'] + fragment
    requires after == beforeHash ==> fragment == []
    requires beforeHash == pathAndParams || beforeHash == pathAndParams + ['?'] + query
    requires beforeHash == pathAndParams ==> query == []
    requires pathAndParams == path || pathAndParams == path + [';'] + params || pathAndParams == path + [';']
    requires pathAndParams == path || pathAndParams == path + [';'] ==> params == []
    ensures Safe(path) && Safe(params) && Safe(query) && Safe(fragment)
    ensures '#' !in path && '#' !in params && '#' !in query && '?' !in path && '?' !in params
  {
    assert forall x :: 0 <= x < |beforeHash| ==> beforeHash[x] == after[x];
    assert forall x :: 0 <= x < |pathAndParams| ==> pathAndParams[x] == beforeHash[x];
    assert forall x :: 0 <= x < |path| ==> path[x] == pathAndParams[x];
    assert forall x :: 0 <= x < |params| ==> params[x] == pathAndParams[|path| + 1 + x];
    assert forall x :: 0 <= x < |query| ==> query[x] == beforeHash[|pathAndParams| + 1 + x];
    assert forall x :: 0 <= x < |fragment| ==> fragment[x] == after[|beforeHash| + 1 + x];
  }

  /** `urlunparse` of parts with a network location: the scheme, the two
      slashes and the network location, then the tail. */
  function Unparse(p: Parts): (r: string)
    requires p.netloc != []
  {
    p.scheme + ":" + Slashes + p.netloc + Tail(p)
  }

  /** What `urlunparse` writes after the network location: the path and
      parameters, then the query after a `?` and the fragment after a `#`,
      each only when it is not empty. */
  function Tail(p: Parts): (r: string)
    ensures r == [] || r[0] == '/' || r[0] == '?' || r[0] == '#'
  {
    PathPart(p) + Queried(p)
  }

  function Queried(p: Parts): (r: string)
    ensures r == [] || r[0] == '?' || r[0] == '#'
  {
    (if p.query != [] then ['?'] + p.query else [])
      + (if p.fragment != [] then ['#'] + p.fragment else [])
  }

  /** Path and parameters as `urlunparse` writes them after a network
      location. */
  function PathPart(p: Parts): (r: string)
    ensures r == [] || r[0] == '/'
  {
    var u := p.path + (if p.params != [] then [';'] + p.params else []);
    if u != [] && u[0] != '/' then ['/'] + u else u
  }

  // ----- resolving the path -------------------------------------------------

  /** `s.split(c)`: the pieces between the occurrences of `c`. */
  function Split(s: string, c: char): (r: seq<string>)
    ensures |r| >= 1
    ensures forall k :: 0 <= k < |r| ==> c !in r[k]
    decreases |s|
  {
    match IndexFrom(s, c, 0)
    case None => [s]
    case Some(i) => [s[..i]] + Split(s[i + 1..], c)
  }

  /** `c.join(parts)`. */
  function JoinWith(parts: seq<string>, c: char): string
    decreases |parts|
  {
    if parts == [] then []
    else if |parts| == 1 then parts[0]
    else parts[0] + [c] + JoinWith(parts[1..], c)
  }

  /** Joining the pieces of a split gives the text back. */
  lemma {:induction false} JoinSplit(s: string, c: char)
    ensures JoinWith(Split(s, c), c) == s
    decreases |s|
  {
    match IndexFrom(s, c, 0)
    case None =>
    case Some(i) =>
      var parts := Split(s, c);
      var rest := Split(s[i + 1..], c);
      assert parts == [s[..i]] + rest;
      ConsParts(s[..i], rest);
      JoinSplit(s[i + 1..], c);
      assert JoinWith(parts, c) == s[..i] + [c] + JoinWith(rest, c);
      assert s == s[..i] + [c] + s[i + 1..];
  }

  /** Splitting a join of pieces without the separator gives the pieces back. */
  lemma {:induction false} SplitJoin(parts: seq<string>, c: char)
    requires |parts| >= 1 && forall k :: 0 <= k < |parts| ==> c !in parts[k]
    ensures Split(JoinWith(parts, c), c) == parts
    decreases |parts|
  {
    var s := JoinWith(parts, c);
    if |parts| == 1 {
      assert s == parts[0];
      IndexFromAbsent(s, c, 0);
    } else {
      var rest := JoinWith(parts[1..], c);
      var n := |parts[0]|;
      assert s == parts[0] + [c] + rest;
      forall x | 0 <= x < n ensures s[x] != c {
        assert s[x] == parts[0][x];
      }
      IndexFromFirst(s, c, 0, n);
      assert s[..n] == parts[0];
      assert s[n + 1..] == rest;
      SplitJoin(parts[1..], c);
      assert Split(s, c) == [s[..n]] + Split(s[n + 1..], c);
      HeadTail(parts);
    }
  }

  /** A character the text lacks is in none of its pieces. */
  lemma {:induction false} SplitLacks(s: string, sep: char, c: char)
    requires c !in s
    ensures forall k :: 0 <= k < |Split(s, sep)| ==> c !in Split(s, sep)[k]
    decreases |s|
  {
    match IndexFrom(s, sep, 0)
    case None =>
    case Some(i) =>
      assert s == s[..i] + s[i..];
      assert s[i + 1..] == s[i..][1..];
      SplitLacks(s[i + 1..], sep, c);
  }

  /** The last piece of a split of a text whose parameters sit after the
      last `/` has no `;`. */
  lemma {:induction false} SplitLastParamFree(s: string)
    requires ParamFree(s)
    ensures var r := Split(s, '/'); ';' !in r[|r| - 1]
    decreases |s|
  {
    match IndexFrom(s, '/', 0)
    case None =>
      forall x | 0 <= x < |s| ensures s[x] != ';' {
        assert '/' !in s[x + 1..];
      }
    case Some(i) =>
      var t := s[i + 1..];
      forall x | 0 <= x < |t| && t[x] == ';' ensures '/' in t[x + 1..] {
        assert s[i + 1 + x] == ';';
        assert t[x + 1..] == s[i + 1 + x + 1..];
      }
      SplitLastParamFree(t);
  }

  /** A character none of the pieces has, other than the separator, is not
      in their join. */
  lemma {:induction false} JoinLacks(parts: seq<string>, sep: char, c: char)
    requires c != sep && forall k :: 0 <= k < |parts| ==> c !in parts[k]
    ensures c !in JoinWith(parts, sep)
    decreases |parts|
  {
    if |parts| > 1 {
      JoinLacks(parts[1..], sep, c);
    }
  }

  /** A join whose last piece has no `;` keeps its parameters, if any, after
      the last separator `/`. */
  lemma {:induction false} JoinParamFree(parts: seq<string>)
    requires |parts| >= 1 && ';' !in parts[|parts| - 1]
    ensures ParamFree(JoinWith(parts, '/'))
    decreases |parts|
  {
    var s := JoinWith(parts, '/');
    if |parts| > 1 {
      var rest := JoinWith(parts[1..], '/');
      JoinParamFree(parts[1..]);
      var n := |parts[0]|;
      assert s == parts[0] + ['/'] + rest;
      forall x | 0 <= x < |s| && s[x] == ';' ensures '/' in s[x + 1..] {
        if x < n {
          assert s[x + 1..][n - x - 1] == '/';
        } else {
          assert rest[x - n - 1] == ';';
          assert s[x + 1..] == rest[x - n..];
        }
      }
    }
  }

  /** `.` and `..`, the segments resolution removes. */
  predicate IsDot(seg: string) {
    seg == "." || seg == ".."
  }

  /** `filter(None, segs)`: the non-empty segments, in order. */
  function NonEmpty(segs: seq<string>): (r: seq<string>)
    ensures |r| <= |segs|
    ensures forall k :: 0 <= k < |r| ==> r[k] != [] && r[k] in segs
    ensures (forall k :: 0 <= k < |segs| ==> segs[k] != []) ==> r == segs
    decreases |segs|
  {
    if segs == [] then []
    else if segs[0] == [] then NonEmpty(segs[1..])
    else [segs[0]] + NonEmpty(segs[1..])
  }

  /** The segments `urljoin` resolves for a path against the base's empty
      path: all pieces of an absolute path; for a relative one an empty first
      segment, then the pieces but the last without the empty ones, then the
      last piece. */
  function Segments(path: string): (r: seq<string>)
    ensures |r| >= 1 && r[|r| - 1] == Split(path, '/')[|Split(path, '/')| - 1]
    ensures forall k :: 0 <= k < |r| ==> r[k] == [] || r[k] in Split(path, '/')
  {
    var pieces := Split(path, '/');
    if StartsWith(path, "/") then pieces
    else [[]] + (NonEmpty(pieces[..|pieces| - 1]) + [pieces[|pieces| - 1]])
  }

  /** The resolution loop: `..` drops the last segment kept (if any), `.` is
      skipped, any other segment is kept. */
  function Walk(segs: seq<string>, kept: seq<string>): (r: seq<string>)
    ensures forall k :: 0 <= k < |r| ==> r[k] in segs || r[k] in kept
    decreases |segs|
  {
    if segs == [] then kept
    else if segs[0] == ".." then Walk(segs[1..], if kept == [] then [] else kept[..|kept| - 1])
    else if segs[0] == "." then Walk(segs[1..], kept)
    else Walk(segs[1..], kept + [segs[0]])
  }

  /** The loop runs over a concatenation one part after the other. */
  lemma {:induction false} WalkAppend(a: seq<string>, b: seq<string>, kept: seq<string>)
    ensures Walk(a + b, kept) == Walk(b, Walk(a, kept))
    decreases |a|
  {
    var ab := a + b;
    if a == [] {
      assert ab == b;
    } else {
      assert ab[0] == a[0] && ab[1..] == a[1..] + b;
      var kept1 := if a[0] == ".." then (if kept == [] then [] else kept[..|kept| - 1])
                   else if a[0] == "." then kept else kept + [a[0]];
      assert Walk(ab, kept) == Walk(ab[1..], kept1);
      assert Walk(a, kept) == Walk(a[1..], kept1);
      WalkAppend(a[1..], b, kept1);
    }
  }

  /** Segments without dots are kept as they are. */
  lemma {:induction false} WalkPlain(segs: seq<string>, kept: seq<string>)
    requires forall k :: 0 <= k < |segs| ==> !IsDot(segs[k])
    ensures Walk(segs, kept) == kept + segs
    decreases |segs|
  {
    if segs != [] {
      WalkPlain(segs[1..], kept + [segs[0]]);
    }
  }

  /** The resolved segments: the loop's result, with an empty segment added
      when the last segment was a dot, so that the path ends in `/`. */
  function Resolve(segs: seq<string>): (r: seq<string>)
    requires |segs| >= 1
    ensures |r| >= 1
    ensures r[|r| - 1] == [] || r[|r| - 1] == segs[|segs| - 1]
    ensures forall k :: 0 <= k < |r| ==> r[k] == [] || r[k] in segs
  {
    var n := |segs|;
    var w := Walk(segs, []);
    if IsDot(segs[n - 1]) then w + [[]]
    else
      assert segs == segs[..n - 1] + [segs[n - 1]];
      WalkAppend(segs[..n - 1], [segs[n - 1]], []);
      w
  }

  /** No dot segment survives resolution. */
  lemma {:induction false} WalkNoDots(segs: seq<string>, kept: seq<string>)
    requires forall k :: 0 <= k < |kept| ==> !IsDot(kept[k])
    ensures forall k :: 0 <= k < |Walk(segs, kept)| ==> !IsDot(Walk(segs, kept)[k])
    decreases |segs|
  {
    if segs != [] {
      var kept1 := if segs[0] == ".." then (if kept == [] then [] else kept[..|kept| - 1])
                   else if segs[0] == "." then kept else kept + [segs[0]];
      WalkNoDots(segs[1..], kept1);
    }
  }

  /** The path of the joined URL: the resolved segments joined by `/`, or
      `/` when that is empty. */
  function ResolvePath(path: string): (r: string)
    ensures r != []
  {
    var j := JoinWith(Resolve(Segments(path)), '/');
    if j == [] then "/" else j
  }

  /** A resolved path has no `.` or `..` segment. */
  lemma ResolvedHasNoDots(path: string)
    ensures forall k :: 0 <= k < |Split(ResolvePath(path), '/')| ==> !IsDot(Split(ResolvePath(path), '/')[k])
  {
    var segs := Segments(path);
    var r := Resolve(segs);
    WalkNoDots(segs, []);
    assert forall k :: 0 <= k < |r| ==> !IsDot(r[k]);
    forall k | 0 <= k < |r| ensures '/' !in r[k] {
      assert r[k] == [] || r[k] in segs;
      if r[k] != [] {
        assert r[k] in Split(path, '/');
      }
    }
    if JoinWith(r, '/') == [] {
      assert Split("/", '/') == [[], []] by {
        SplitJoin([[], []], '/');
      }
    } else {
      SplitJoin(r, '/');
    }
  }

  /** An absolute path without dot segments resolves to itself. */
  lemma PlainPathResolves(path: string)
    requires StartsWith(path, "/")
    requires forall k :: 0 <= k < |Split(path, '/')| ==> !IsDot(Split(path, '/')[k])
    ensures ResolvePath(path) == path
  {
    var segs := Split(path, '/');
    WalkPlain(segs, []);
    assert Resolve(segs) == segs;
    JoinSplit(path, '/');
  }

  /** A relative path without dot segments or doubled slashes resolves to
      itself behind a `/`. */
  lemma PlainRelativeResolves(path: string)
    requires !StartsWith(path, "/")
    requires forall k :: 0 <= k < |Split(path, '/')| ==> !IsDot(Split(path, '/')[k])
    requires forall k :: 0 <= k < |Split(path, '/')| - 1 ==> Split(path, '/')[k] != []
    ensures ResolvePath(path) == "/" + path
  {
    PlainRelativeSegments(path);
    JoinSplit(path, '/');
    JoinBehindSlash(Split(path, '/'), path);
    ResolvePathJoins(path, ['/'] + path);
  }

  lemma PlainRelativeSegments(path: string)
    requires !StartsWith(path, "/")
    requires forall k :: 0 <= k < |Split(path, '/')| ==> !IsDot(Split(path, '/')[k])
    requires forall k :: 0 <= k < |Split(path, '/')| - 1 ==> Split(path, '/')[k] != []
    ensures Resolve(Segments(path)) == [[]] + Split(path, '/')
  {
    var pieces := Split(path, '/');
    var segs := [[]] + pieces;
    forall k | 0 <= k < |segs| ensures !IsDot(segs[k]) {
      if k > 0 {
        assert segs[k] == pieces[k - 1];
      }
    }
    RelativeSegments(path);
    PlainResolves(segs);
  }

  /** Segments without dots resolve to themselves. */
  lemma PlainResolves(segs: seq<string>)
    requires |segs| >= 1 && forall k :: 0 <= k < |segs| ==> !IsDot(segs[k])
    ensures Resolve(segs) == segs
  {
    WalkPlain(segs, []);
    assert [] + segs == segs;
  }

  lemma JoinBehindSlash(pieces: seq<string>, path: string)
    requires |pieces| >= 1 && JoinWith(pieces, '/') == path
    ensures JoinWith([[]] + pieces, '/') == ['/'] + path
  {
    var ps := [[]] + pieces;
    assert |ps| >= 2 && ps[0] == [] && ps[1..] == pieces;
    assert JoinWith(ps, '/') == ps[0] + ['/'] + JoinWith(ps[1..], '/');
  }

  lemma ResolvePathJoins(path: string, j: string)
    requires j == JoinWith(Resolve(Segments(path)), '/') && j != []
    ensures ResolvePath(path) == j
  {
  }


  lemma RelativeSegments(path: string)
    requires !StartsWith(path, "/")
    requires forall k :: 0 <= k < |Split(path, '/')| - 1 ==> Split(path, '/')[k] != []
    ensures Segments(path) == [[]] + Split(path, '/')
  {
    var pieces := Split(path, '/');
    var n := |pieces|;
    var init := pieces[..n - 1];
    forall k | 0 <= k < |init| ensures init[k] != [] {
      assert init[k] == pieces[k];
    }
    assert NonEmpty(init) == init;
    assert Segments(path) == [[]] + (NonEmpty(init) + [pieces[n - 1]]);
    InitLast(pieces);
  }

  lemma ConsParts<T>(x: T, xs: seq<T>)
    ensures ([x] + xs)[0] == x && ([x] + xs)[1..] == xs
  {
  }

  lemma HeadTail<T>(xs: seq<T>)
    requires |xs| >= 1
    ensures [xs[0]] + xs[1..] == xs
  {
  }

  lemma InitLast<T>(xs: seq<T>)
    requires |xs| >= 1
    ensures xs[..|xs| - 1] + [xs[|xs| - 1]] == xs
  {
  }

  /** A character the path lacks, other than `/`, is not in its resolution. */
  lemma ResolveLacks(path: string, c: char)
    requires c != '/' && c !in path
    ensures c !in ResolvePath(path)
  {
    var segs := Segments(path);
    var r := Resolve(segs);
    SplitLacks(path, '/', c);
    forall k | 0 <= k < |r| ensures c !in r[k] {
      if r[k] != [] {
        assert r[k] in Split(path, '/');
      }
    }
    JoinLacks(r, '/', c);
  }

  /** A path whose parameters sit after its last `/` resolves to one that
      keeps them there. */
  lemma ResolveParamFree(path: string)
    requires ParamFree(path)
    ensures ParamFree(ResolvePath(path))
  {
    var r := Resolve(Segments(path));
    SplitLastParamFree(path);
    assert ';' !in r[|r| - 1];
    JoinParamFree(r);
    assert ParamFree("/");
    assert ResolvePath(path) == JoinWith(r, '/') || ResolvePath(path) == "/";
  }

  // ----- joining ------------------------------------------------------------

  /** The parts `urljoin` writes out for a reference with the `https` scheme:
      a reference with a network location keeps its own parts; any other takes
      the base's host, and its path, when it has a path or parameters, is
      resolved against the base's empty path. */
  function Onto(p: Parts): (q: Parts)
    ensures q.scheme == p.scheme && q.netloc != []
    ensures q.params == p.params && q.query == p.query && q.fragment == p.fragment
    ensures p.netloc != [] ==> q == p
    ensures p.netloc == [] ==> q.netloc == BaseHost
  {
    if p.netloc != [] then p
    else if p.path == [] && p.params == [] then p.(netloc := BaseHost)
    else p.(netloc := BaseHost, path := ResolvePath(p.path))
  }

  /** `urljoin(BASE_URL, ref)`: an empty reference gives the base; a reference
      with a scheme other than `https` comes back unchanged; any other is
      written out from the parts `Onto` gives. */
  function JoinBase(ref: string): Option<string>
  {
    if ref == [] then Some(BaseUrl)
    else
      match Parse(ref, "https")
      case None => None
      case Some(p) => if p.scheme != "https" then Some(ref) else Some(Unparse(Onto(p)))
  }

  /** The URL is absolute: once cleaned, it carries a scheme. */
  predicate Absolute(u: string) {
    SchemeEnd(Clean(u)).Some?
  }

  /** Parts a join writes out: parsed ones with the `https` scheme and a
      network location. */
  predicate Rejoinable(q: Parts) {
    Parsed(q) && q.scheme == "https" && q.netloc != []
  }

  /** The base's host is a network location `urlsplit` keeps whole. */
  lemma BaseHostParsed()
    ensures Safe(BaseHost) && BracketsBalanced(BaseHost)
    ensures forall x :: 0 <= x < |BaseHost| ==> BaseHost[x] != '/' && BaseHost[x] != '?' && BaseHost[x] != '#'
  {
  }

  /** What a join with the `https` scheme writes out comes from rejoinable
      parts. */
  lemma OntoRejoinable(p: Parts)
    requires Parsed(p) && p.scheme == "https"
    ensures Rejoinable(Onto(p))
  {
    assert "https" in UsesParams;
    if p.netloc == [] {
      BaseHostParsed();
      if !(p.path == [] && p.params == []) {
        var r := ResolvePath(p.path);
        ResolveLacks(p.path, '?');
        ResolveLacks(p.path, '#');
        ResolveLacks(p.path, '\t');
        ResolveLacks(p.path, '\r');
        ResolveLacks(p.path, '\n');
        ResolveParamFree(p.path);
        assert Safe(r) by {
          forall x | 0 <= x < |r| ensures !IsUnsafe(r[x]) {
            assert r[x] in r;
          }
        }
      }
    }
  }

  /** The characters of the path-and-parameters part come from the path or
      the parameters, or are a `/` or `;`. */
  lemma PathPartChars(p: Parts, c: char)
    requires c != '/' && c != ';' && c !in p.path && c !in p.params
    ensures c !in PathPart(p)
  {
    var u := p.path + (if p.params != [] then [';'] + p.params else []);
    assert c !in u;
  }

  lemma SafeConcat(a: string, b: string)
    ensures Safe(a + b) <==> Safe(a) && Safe(b)
  {
    if Safe(a) && Safe(b) {
      forall x | 0 <= x < |a + b| ensures !IsUnsafe((a + b)[x]) {
        if x >= |a| {
          assert (a + b)[x] == b[x - |a|];
        }
      }
    }
    if Safe(a + b) {
      assert forall x :: 0 <= x < |a| ==> a[x] == (a + b)[x];
      assert forall x :: 0 <= x < |b| ==> b[x] == (a + b)[|a| + x];
    }
  }

  lemma SafeLacking(s: string)
    requires '\t' !in s && '\r' !in s && '\n' !in s
    ensures Safe(s)
  {
    assert forall x :: 0 <= x < |s| ==> s[x] in s;
  }

  /** A URL written from rejoinable parts has nothing `urlsplit` removes. */
  lemma UnparseSafe(q: Parts)
    requires Rejoinable(q)
    ensures Safe(Unparse(q))
  {
    PathPartChars(q, '\t');
    PathPartChars(q, '\r');
    PathPartChars(q, '\n');
    SafeLacking(PathPart(q));
    var qs := if q.query != [] then ['?'] + q.query else [];
    var fs := if q.fragment != [] then ['#'] + q.fragment else [];
    SafeConcat(['?'], q.query);
    SafeConcat(['#'], q.fragment);
    SafeConcat(qs, fs);
    SafeConcat(PathPart(q), Queried(q));
    var head := q.scheme + ":" + Slashes;
    assert Safe(head);
    SafeConcat(head, q.netloc);
    SafeConcat(head + q.netloc, Tail(q));
  }

  lemma SchemeWritten(scheme: string, tail: string)
    requires scheme == "https"
    ensures var s := scheme + ":" + tail;
      |s| >= 6 && s[0] == 'h' && s[..6] == "https:" && s[..5] == "https" && s[6..] == tail
  {
  }

  lemma LowerHttps()
    ensures Lower("https") == "https"
  {
  }

  /** A URL written from rejoinable parts is its own cleaning, and splitting
      its scheme gives `https` and the rest. */
  lemma UnparseScheme(q: Parts)
    requires Rejoinable(q)
    ensures Clean(Unparse(q)) == Unparse(q)
    ensures SplitScheme(Unparse(q), "https") == ("https", Slashes + q.netloc + Tail(q))
  {
    var s := Unparse(q);
    var tail := Slashes + q.netloc + Tail(q);
    UnparseSafe(q);
    UnparseShape(q);
    SchemeWritten(q.scheme, tail);
    CleanKeeps(s);
    HttpsSchemeEnd(s);
    assert s[6..] == tail;
  }

  lemma UnparseShape(q: Parts)
    requires q.netloc != []
    ensures Unparse(q) == q.scheme + ":" + (Slashes + q.netloc + Tail(q))
  {
  }

  /** A URL starting `https:` has the scheme `https`, ending at index 5. */
  lemma HttpsSchemeEnd(s: string)
    requires |s| >= 6 && s[..6] == "https:"
    ensures SchemeEnd(s) == Some(5) && Lower(s[..5]) == "https"
  {
    FirstColon(s);
    forall x | 0 <= x < 5 ensures IsSchemeChar(s[x]) && s[x] != ':' {
      assert s[x] == s[..6][x];
    }
    assert AllScheme(s, 5);
    assert s[0] == s[..6][0];
    assert s[..5] == s[..6][..5];
    LowerHttps();
  }

  /** The network location written after the two slashes is split off again,
      and what follows it is the tail. */
  lemma RejoinNetloc(q: Parts)
    requires Rejoinable(q)
    ensures SplitNetloc(Slashes + q.netloc + Tail(q)) == (q.netloc, Tail(q))
  {
    NetlocSplitsOff(q.netloc, Tail(q));
  }

  lemma NetlocSplitsOff(netloc: string, tail: string)
    requires forall x :: 0 <= x < |netloc| ==> netloc[x] != '/' && netloc[x] != '?' && netloc[x] != '#'
    requires tail == [] || tail[0] == '/' || tail[0] == '?' || tail[0] == '#'
    ensures SplitNetloc(Slashes + netloc + tail) == (netloc, tail)
  {
    var t := Slashes + netloc + tail;
    var n := |netloc|;
    assert StartsWith(t, Slashes);
    forall x | 2 <= x < 2 + n ensures t[x] != '/' && t[x] != '?' && t[x] != '#' {
      assert t[x] == netloc[x - 2];
    }
    assert 2 + n == |t| || t[2 + n] == tail[0];
    NetlocStops(t, 2, 2 + n);
    assert t[2..2 + n] == netloc;
    assert t[2 + n..] == tail;
  }

  /** Cutting at the first `c` undoes writing `c` and `b` after a text
      without `c`, and cuts off nothing when `b` is empty. */
  lemma CutTail(a: string, c: char, b: string)
    requires c !in a
    ensures CutFirst(a + (if b != [] then [c] + b else []), c) == (a, b)
  {
    var s := a + (if b != [] then [c] + b else []);
    if b != [] {
      assert s[|a|] == c;
      IndexFromFirst(s, c, 0, |a|);
      assert s[..|a|] == a;
      assert s[|a| + 1..] == b;
    } else {
      assert s == a;
    }
  }

  /** `_splitparams` undoes writing parameters after a path whose parameters
      would sit after its last `/`, when they contain no `/`. */
  lemma ParamsRejoin(path: string, params: string)
    requires ParamFree(path) && '/' !in params
    ensures SplitParams(path + (if params != [] then [';'] + params else [])) == (path, params)
  {
    var s := path + (if params != [] then [';'] + params else []);
    if params == [] {
      assert s == path;
      NoParamsRejoin(path);
    } else {
      assert s == path + [';'] + params;
      SomeParamsRejoin(path, params);
    }
  }

  lemma NoParamsRejoin(s: string)
    requires ParamFree(s)
    ensures SplitParams(s) == (s, [])
  {
    match LastIndex(s, '/')
    case Some(j) =>
      forall x | j <= x < |s| ensures s[x] != ';' {
        assert s[x + 1..] == s[j + 1..][x - j..];
      }
      IndexFromAbsent(s, ';', j);
    case None =>
      forall x | 0 <= x < |s| ensures s[x] != ';' {
        assert '/' !in s[x + 1..];
      }
      IndexFromAbsent(s, ';', 0);
  }

  lemma SomeParamsRejoin(path: string, params: string)
    requires ParamFree(path) && '/' !in params && params != []
    ensures SplitParams(path + [';'] + params) == (path, params)
  {
    var s := path + [';'] + params;
    var n := |path|;
    assert s[..n] == path;
    assert s[n + 1..] == params;
    assert s[n] == ';';
    forall x | 0 <= x < n ensures s[x] == path[x] {
    }
    match LastIndex(s, '/')
    case Some(j) =>
      forall y | n < y < |s| ensures s[y] != '/' {
        assert s[y] == params[y - n - 1];
      }
      assert j < n;
      forall x | j <= x < n ensures s[x] != ';' {
        assert path[x + 1..] == s[j + 1..][x - j..n - j - 1];
      }
      IndexFromFirst(s, ';', j, n);
    case None =>
      forall x | 0 <= x < n ensures s[x] != ';' {
        assert path[x + 1..] == s[x + 1..n];
      }
      IndexFromFirst(s, ';', 0, n);
  }

  /** The path `urlunparse` writes: a `/` put in front when the path and
      parameters are not empty and do not start with one. */
  function WrittenPath(p: Parts): (r: string)
    ensures PathPart(p) == r + (if p.params != [] then [';'] + p.params else [])
  {
    var u := p.path + (if p.params != [] then [';'] + p.params else []);
    if u != [] && u[0] != '/' then ['/'] + p.path else p.path
  }

  /** Fragment, query and parameters written after a rejoinable network
      location are cut apart again, the path with the `/` written in front. */
  lemma RejoinRest(q: Parts)
    requires Rejoinable(q)
    ensures SplitRest("https", q.netloc, Tail(q)) == q.(path := WrittenPath(q))
  {
    assert "https" in UsesParams;
    var w := WrittenPath(q);
    var pp := PathPart(q);
    var qs := if q.query != [] then ['?'] + q.query else [];
    PathPartChars(q, '#');
    PathPartChars(q, '?');
    TailCut(q, pp, qs);
    CutTail(pp + qs, '#', q.fragment);
    CutTail(pp, '?', q.query);
    SlashParamFree(q.path);
    ParamsRejoin(w, q.params);
  }

  /** A `/` in front keeps the parameters after the last `/`. */
  lemma SlashParamFree(path: string)
    requires ParamFree(path)
    ensures ParamFree(['/'] + path)
  {
    var w := ['/'] + path;
    forall x | 0 <= x < |w| && w[x] == ';' ensures '/' in w[x + 1..] {
      assert x >= 1;
      assert path[x - 1] == ';';
      assert w[x + 1..] == path[x..];
    }
  }

  lemma TailCut(q: Parts, pp: string, qs: string)
    requires pp == PathPart(q) && qs == (if q.query != [] then ['?'] + q.query else [])
    requires '#' !in pp && '#' !in q.query
    ensures '#' !in pp + qs
    ensures Tail(q) == pp + qs + (if q.fragment != [] then ['#'] + q.fragment else [])
  {
    var fs := if q.fragment != [] then ['#'] + q.fragment else [];
    assert '#' !in qs by {
      if q.query != [] {
        assert qs == ['?'] + q.query;
        NotInJoin(['?'], q.query, '#');
      }
    }
    NotInJoin(pp, qs, '#');
    assert Queried(q) == qs + fs;
    assert pp + (qs + fs) == pp + qs + fs;
  }

  /** A character in neither part is not in their concatenation. */
  lemma NotInJoin(a: string, b: string, c: char)
    requires c !in a && c !in b
    ensures c !in a + b
  {
    forall x | 0 <= x < |a + b| ensures (a + b)[x] != c {
      if x < |a| { assert (a + b)[x] == a[x]; } else { assert (a + b)[x] == b[x - |a|]; }
    }
  }

  /** Writing the path with its `/` changes nothing. */
  lemma WrittenPathKeeps(q: Parts)
    requires q.netloc != []
    ensures Unparse(q.(path := WrittenPath(q))) == Unparse(q)
  {
    assert PathPart(q.(path := WrittenPath(q))) == PathPart(q);
  }

  /** Rejoinable parts, written out and joined again, give the same URL. */
  lemma RejoinUnparse(q: Parts)
    requires Rejoinable(q)
    ensures JoinBase(Unparse(q)) == Some(Unparse(q))
  {
    var s := Unparse(q);
    UnparseScheme(q);
    RejoinNetloc(q);
    RejoinRest(q);
    WrittenPathKeeps(q);
    var q' := q.(path := WrittenPath(q));
    assert Parse(s, "https") == Some(q');
    assert Onto(q') == q';
  }

  /** Every successful join gives an absolute URL. */
  lemma JoinIsAbsolute(ref: string)
    requires JoinBase(ref).Some?
    ensures Absolute(JoinBase(ref).value)
  {
    if ref == [] {
      BaseIsJoined();
      UnparseScheme(BaseParts);
    } else {
      var p := Parse(ref, "https").value;
      if p.scheme == "https" {
        OntoRejoinable(p);
        UnparseScheme(Onto(p));
      }
    }
  }

  /** The parts of the base URL. */
  const BaseParts: Parts := Parts("https", BaseHost, [], [], [], [])

  lemma BaseIsJoined()
    ensures Rejoinable(BaseParts) && Unparse(BaseParts) == BaseUrl
  {
    BaseIsParsed();
    BaseWritten();
  }

  lemma BaseIsParsed()
    ensures Rejoinable(BaseParts)
  {
    BaseHostParsed();
    assert "https" in UsesParams;
    assert ParamFree([]);
  }

  lemma BaseWritten()
    ensures Unparse(BaseParts) == BaseUrl
  {
    assert PathPart(BaseParts) == [];
    assert Queried(BaseParts) == [];
    assert Tail(BaseParts) == [];
    assert Unparse(BaseParts) == "https" + ":" + Slashes + BaseHost;
    BaseUrlSpelled();
  }

  lemma BaseUrlSpelled()
    ensures "https" + ":" + Slashes + BaseHost == BaseUrl
  {
  }

  /** Whatever comes back from a join is returned unchanged by a second join. */
  lemma JoinIdempotent(ref: string)
    requires JoinBase(ref).Some?
    ensures JoinBase(JoinBase(ref).value) == JoinBase(ref)
  {
    if ref == [] {
      BaseIsJoined();
      RejoinUnparse(BaseParts);
    } else {
      var p := Parse(ref, "https").value;
      if p.scheme == "https" {
        OntoRejoinable(p);
        RejoinUnparse(Onto(p));
      }
    }
  }

  /** A join never gives the empty text. */
  lemma JoinNonEmpty(ref: string)
    requires JoinBase(ref).Some?
    ensures JoinBase(ref).value != []
  {
    JoinIsAbsolute(ref);
  }

  /** `make_absolute_url`: the empty text is kept, a URL starting with
      `http://` or `https://` is kept, anything else is joined onto the base. */
  function MakeAbsolute(url: string): (r: Option<string>)
    ensures url == [] ==> r == Some([])
    ensures StartsWith(url, "http:" + Slashes) || StartsWith(url, "https:" + Slashes) ==> r == Some(url)
    ensures url != [] && !StartsWith(url, "http:" + Slashes) && !StartsWith(url, "https:" + Slashes) ==> r == JoinBase(url)
  {
    if url == [] then Some([])
    else if StartsWith(url, "http:" + Slashes) || StartsWith(url, "https:" + Slashes) then Some(url)
    else JoinBase(url)
  }

  /** The listing parsers join a link only when it is non-empty and does not
      start with `http`. */
  function JoinIfRelative(url: string): (r: Option<string>)
    ensures url == [] || StartsWith(url, "http") ==> r == Some(url)
    ensures url != [] && !StartsWith(url, "http") ==> r == JoinBase(url)
    ensures r.Some? && r.value != url ==> Absolute(r.value)
  {
    assert url != [] && !StartsWith(url, "http") && JoinBase(url).Some? ==> Absolute(JoinBase(url).value) by {
      if url != [] && !StartsWith(url, "http") && JoinBase(url).Some? { JoinIsAbsolute(url); }
    }
    if url != [] && !StartsWith(url, "http") then JoinBase(url) else Some(url)
  }

  /** A URL made absolute stays as it is when made absolute again. */
  lemma MakeAbsoluteIdempotent(url: string)
    requires MakeAbsolute(url).Some?
    ensures MakeAbsolute(MakeAbsolute(url).value) == MakeAbsolute(url)
  {
    if url != [] && !StartsWith(url, "http:" + Slashes) && !StartsWith(url, "https:" + Slashes) {
      JoinIdempotent(url);
      JoinNonEmpty(url);
    }
  }

  lemma FirstColon(u: string)
    requires |u| >= 6 && u[..6] == "https:"
    ensures FindFrom(u, ":", 0) == Some(5)
  {
    assert OccursAt(u, ":", 5) by {
      assert u[5..6] == u[..6][5..6];
    }
    forall j | 0 <= j < 5 ensures !OccursAt(u, ":", j) {
      assert u[j] == u[..6][j];
      assert u[j..j + 1][0] == u[j];
    }
    var r := FindFrom(u, ":", 0);
    assert r.Some? && r.value <= 5;
  }
}
