/** Remote URLs: what `origin` says about the forge's host and the repository's path. */
module RemoteUrl {
  import opened Wrappers
  import opened Text

  // ----- Trimming -----

  predicate IsSpace(c: char) {
    || '\t' <= c <= '\r' || c == ' ' || c == '\U{85}' || c == '\U{A0}' || c == '\U{1680}'
    || '\U{2000}' <= c <= '\U{200A}' || c == '\U{2028}' || c == '\U{2029}' || c == '\U{202F}'
    || c == '\U{205F}' || c == '\U{3000}'
  }

  /** The characters that a trim takes off. */
  datatype Trimmed = Spaces | Slashes

  predicate Takes(t: Trimmed, c: char) {
    if t.Spaces? then IsSpace(c) else c == '/'
  }

  predicate AllTaken(t: Trimmed, s: string) {
    forall i :: 0 <= i < |s| ==> Takes(t, s[i])
  }

  function TrimStart(t: Trimmed, s: string): string {
    if s != "" && Takes(t, s[0]) then TrimStart(t, s[1..]) else s
  }

  function TrimEnd(t: Trimmed, s: string): string {
    if s != "" && Takes(t, s[|s| - 1]) then TrimEnd(t, s[..|s| - 1]) else s
  }

  function Trim(s: string): string {
    TrimEnd(Spaces, TrimStart(Spaces, s))
  }

  predicate StartsKept(t: Trimmed, s: string) {
    s != "" && !Takes(t, s[0])
  }

  predicate EndsKept(t: Trimmed, s: string) {
    s != "" && !Takes(t, s[|s| - 1])
  }

  lemma {:induction false} TrimStartOf(t: Trimmed, a: string, b: string)
    requires AllTaken(t, a) && (b == "" || StartsKept(t, b))
    ensures TrimStart(t, a + b) == b
  {
    if a == "" {
      assert a + b == b;
    } else {
      assert (a + b)[1..] == a[1..] + b;
      TrimStartOf(t, a[1..], b);
    }
  }

  lemma {:induction false} TrimEndOf(t: Trimmed, a: string, b: string)
    requires AllTaken(t, b) && (a == "" || EndsKept(t, a))
    ensures TrimEnd(t, a + b) == a
  {
    if b == "" {
      assert a + b == a;
    } else {
      assert (a + b)[..|a + b| - 1] == a + b[..|b| - 1];
      TrimEndOf(t, a, b[..|b| - 1]);
    }
  }

  /** What a trim leaves: a suffix, or a prefix, at whose end nothing is left to take. */
  lemma {:induction false} TrimStartLeaves(t: Trimmed, s: string)
    ensures var r := TrimStart(t, s);
            |r| <= |s| && r == s[|s| - |r|..] && (r == "" || StartsKept(t, r))
  {
    if s != "" && Takes(t, s[0]) {
      TrimStartLeaves(t, s[1..]);
    }
  }

  lemma {:induction false} TrimEndLeaves(t: Trimmed, s: string)
    ensures var r := TrimEnd(t, s);
            |r| <= |s| && r == s[..|r|] && (r == "" || EndsKept(t, r))
  {
    if s != "" && Takes(t, s[|s| - 1]) {
      TrimEndLeaves(t, s[..|s| - 1]);
    }
  }

  predicate EndsInGit(s: string) {
    |s| >= 4 && s[|s| - 4..] == ".git"
  }

  function StripGit(s: string): string {
    if EndsInGit(s) then s[..|s| - 4] else s
  }

  function TrimGitSuffix(s: string): string {
    TrimEnd(Slashes, StripGit(TrimEnd(Slashes, s)))
  }

  function RepositoryPath(pathPart: string): string {
    TrimGitSuffix(TrimStart(Slashes, pathPart))
  }

  // ----- Searching -----

  predicate SchemeAt(s: string, i: nat) {
    i + 2 < |s| && s[i] == ':' && s[i + 1] == '/' && s[i + 2] == '/'
  }

  /** Position of the first `://`, or the length when there is none. */
  function SchemeEnd(s: string): (i: nat)
    ensures i == |s| || SchemeAt(s, i)
  {
    if s == "" || SchemeAt(s, 0) then 0 else 1 + SchemeEnd(s[1..])
  }

  lemma {:induction false} SchemeEndIs(scheme: string, rest: string)
    requires ':' !in scheme
    ensures SchemeEnd(scheme + "://" + rest) == |scheme|
  {
    var s := scheme + "://" + rest;
    if scheme != "" {
      assert scheme[0] in scheme;
      assert s[1..] == scheme[1..] + "://" + rest;
      SchemeEndIs(scheme[1..], rest);
    }
  }

  // ----- The parser -----

  datatype Trust = FromUrl | Guessed

  datatype RemoteRef = RemoteRef(host: string, path: string, webOrigin: string, trust: Trust)

  datatype UrlError = NotAUrl | NoHost | NoPath

  predicate IsAlpha(c: char) {
    'a' <= c <= 'z' || 'A' <= c <= 'Z'
  }

  predicate IsDigits(s: string) {
    s != "" && forall i :: 0 <= i < |s| ==> '0' <= s[i] <= '9'
  }

  function LowerChar(c: char): char {
    if 'A' <= c <= 'Z' then c - 'A' + 'a' else c
  }

  function Lower(s: string): (r: string)
    ensures |r| == |s|
    ensures forall i :: 0 <= i < |s| ==> r[i] == LowerChar(s[i])
  {
    seq(|s|, i requires 0 <= i < |s| => LowerChar(s[i]))
  }

  /** A path such as `C:repo`: a drive letter and nothing that says otherwise. */
  predicate IsDrive(url: string) {
    '@' !in url && |url| >= 2 && url[1] == ':' && IsAlpha(url[0])
  }

  /** Where the `:` after an scp-like host stands; the length when there is none. */
  function ScpColon(hostPath: string): (i: nat)
    ensures i <= |hostPath|
    ensures i < |hostPath| ==> hostPath[i] == ':'
  {
    if hostPath != "" && hostPath[0] == '[' then
      var close := Find(hostPath, ']');
      close + Find(hostPath[close..], ':')
    else Find(hostPath, ':')
  }

  function UserLen(url: string): (n: nat)
    ensures n <= |url|
  {
    if Find(url, '@') < |url| then Find(url, '@') + 1 else 0
  }

  function HostEnd(url: string): (n: nat)
    ensures n == |url| || (UserLen(url) <= n < |url| && url[n] == ':')
  {
    UserLen(url) + ScpColon(url[UserLen(url)..])
  }

  function SplitScp(url: string): Option<(string, string)> {
    if IsDrive(url) then None
    else
      var hostEnd := HostEnd(url);
      if hostEnd == |url| then None else Some((url[..hostEnd], url[hostEnd + 1..]))
  }

  function SplitHostAndPath(url: string): Option<(string, string)> {
    var end := SchemeEnd(url);
    if end < |url| then
      var rest := url[end + 3..];
      var slash := Find(rest, '/');
      if slash == |rest| then None else Some((rest[..slash], rest[slash + 1..]))
    else SplitScp(url)
  }

  function PortColon(authority: string): (i: nat)
    ensures i <= |authority|
  {
    var close := FindLast(authority, ']');
    if close >= 0 then close + Find(authority[close..], ':')
    else if FindLast(authority, ':') >= 0 then FindLast(authority, ':')
    else |authority|
  }

  function HostPort(authority: string): (string, Option<string>) {
    var i := PortColon(authority);
    if i < |authority| && IsDigits(authority[i + 1..]) then (authority[..i], Some(authority[i + 1..]))
    else (authority, None)
  }

  function Canonical(host: string): string {
    if host == "ssh.github.com" then "github.com"
    else if host == "altssh.gitlab.com" then "gitlab.com"
    else host
  }

  function PortText(port: Option<string>): string {
    if port.Some? then ":" + port.value else ""
  }

  /** Only an `http` or `https` URL speaks for the web port. */
  predicate IsWeb(scheme: Option<string>) {
    scheme == Some("http") || scheme == Some("https")
  }

  function WebOrigin(scheme: Option<string>, host: string, port: Option<string>): string {
    (if IsWeb(scheme) then scheme.value else "https") + "://" + (host + PortText(if IsWeb(scheme) then port else None))
  }

  /** What the text of a URL says, before any alias is resolved. */
  datatype Parts = Parts(scheme: Option<string>, host: string, port: Option<string>, path: string)

  /** The reference those parts stand for. */
  function Reference(p: Parts): RemoteRef {
    var host := Canonical(p.host);
    RemoteRef(
      host, p.path, WebOrigin(p.scheme, host, p.port), if IsWeb(p.scheme) || host != p.host then FromUrl else Guessed)
  }

  function AfterUser(hostPart: string): string {
    hostPart[FindLast(hostPart, '@') + 1..]
  }

  function Locate(scheme: Option<string>, hostPart: string, pathPart: string): Result<Parts, UrlError> {
    var (host, port) := HostPort(AfterUser(hostPart));
    if host == "" then Err(NoHost)
    else
      var path := RepositoryPath(pathPart);
      if path == "" then Err(NoPath) else Ok(Parts(scheme, Lower(host), port, path))
  }

  function SchemeOf(url: string): Option<string> {
    if SchemeEnd(url) < |url| then Some(Lower(url[..SchemeEnd(url)])) else None
  }

  function PartsOfSplit(scheme: Option<string>, split: Option<(string, string)>): Result<Parts, UrlError> {
    if split.None? then Err(NotAUrl) else Locate(scheme, split.value.0, split.value.1)
  }

  function PartsOfTrimmed(url: string): Result<Parts, UrlError> {
    PartsOfSplit(SchemeOf(url), SplitHostAndPath(url))
  }

  function PartsOf(url: string): Result<Parts, UrlError> {
    PartsOfTrimmed(Trim(url))
  }

  function ParseRemoteUrl(url: string): Result<RemoteRef, UrlError> {
    match PartsOf(url)
    case Err(e) => Err(e)
    case Ok(parts) => Ok(Reference(parts))
  }

  function AfterScheme(origin: string): string {
    if SchemeEnd(origin) < |origin| then origin[SchemeEnd(origin) + 3..] else origin
  }

  /** `host[:port]`, read off the web origin. */
  function Authority(r: RemoteRef): string {
    TrimEnd(Slashes, AfterScheme(r.webOrigin))
  }

  // ----- The printed forms -----

  /** A host name, or an IPv6 literal in its brackets. */
  predicate IsHost(host: string) {
    && host != "" && '/' !in host && '@' !in host
    && if host[0] == '[' then ']' in host && Find(host, ']') == |host| - 1 else ':' !in host && ']' !in host
  }

  predicate IsPort(port: Option<string>) {
    port.Some? ==> IsDigits(port.value)
  }

  /** A repository path without padding. */
  predicate IsPath(path: string) {
    StartsKept(Slashes, path) && EndsKept(Slashes, path) && EndsKept(Spaces, path)
  }

  /** What may follow the path: slashes, with or without `.git` among them. */
  datatype Tail = Plain(slashes: string) | Git(before: string, after: string)

  predicate IsTail(tail: Tail) {
    match tail
    case Plain(slashes) => AllTaken(Slashes, slashes)
    case Git(before, after) => AllTaken(Slashes, before) && AllTaken(Slashes, after)
  }

  function TailText(tail: Tail): string {
    match tail
    case Plain(slashes) => slashes
    case Git(before, after) => before + ".git" + after
  }

  function UserText(user: Option<string>): string {
    if user.Some? then user.value + "@" else ""
  }

  // ----- Paths -----

  lemma {:induction false} StripGitTail(path: string, slashes: string)
    ensures StripGit(path + slashes + ".git") == path + slashes
  {
    var s := path + slashes + ".git";
    assert s[|s| - 4..] == ".git";
    assert s[..|s| - 4] == path + slashes;
  }

  /** The suffix goes, and the path stays whole exactly when its own end is not taken for
      the suffix. */
  lemma {:induction false} SuffixGoes(path: string, tail: Tail)
    requires EndsKept(Slashes, path) && IsTail(tail)
    ensures |TrimGitSuffix(path + TailText(tail))| <= |path|
    ensures TrimGitSuffix(path + TailText(tail)) == path <==> tail.Git? || !EndsInGit(path)
  {
    match tail
    case Plain(slashes) =>
      TrimEndOf(Slashes, path, slashes);
      TrimEndLeaves(Slashes, StripGit(path));
      if !EndsInGit(path) {
        TrimEndOf(Slashes, path, "");
        assert path + "" == path;
      }
    case Git(before, after) =>
      assert path + TailText(tail) == path + before + ".git" + after;
      TrimEndOf(Slashes, path + before + ".git", after);
      StripGitTail(path, before);
      TrimEndOf(Slashes, path, before);
  }

  lemma {:induction false} LeadGoes(lead: string, path: string, tail: Tail)
    requires AllTaken(Slashes, lead) && StartsKept(Slashes, path)
    ensures TrimStart(Slashes, lead + path + TailText(tail)) == path + TailText(tail)
  {
    assert lead + path + TailText(tail) == lead + (path + TailText(tail));
    TrimStartOf(Slashes, lead, path + TailText(tail));
  }

  // ----- Hosts -----

  lemma {:induction false} DigitsAreNot(digits: string, c: char)
    requires IsDigits(digits) && !('0' <= c <= '9')
    ensures c !in digits
  {
  }

  lemma {:induction false} UserGoes(user: Option<string>, hostPort: string)
    requires '@' !in hostPort
    ensures AfterUser(UserText(user) + hostPort) == hostPort
  {
    if user.Some? {
      FindLastIs(user.value, '@', hostPort);
    } else {
      assert UserText(user) + hostPort == hostPort;
      FindLastIs("", '@', hostPort);
      assert "" + hostPort == hostPort;
    }
  }

  lemma {:induction false} PortAt(host: string, digits: string)
    requires IsDigits(digits) && PortColon(host + ":" + digits) == |host|
    ensures HostPort(host + ":" + digits) == (host, Some(digits))
  {
    var s := host + ":" + digits;
    assert s[|host| + 1..] == digits && s[..|host|] == host;
  }

  lemma {:induction false} PlainPortColon(host: string, digits: string)
    requires ':' !in host && ']' !in host && ':' !in digits && ']' !in digits
    ensures PortColon(host + ":" + digits) == |host| && PortColon(host) == |host|
  {
    assert host + (":" + digits) == host + ":" + digits;
    FindLastIs(host, ']', ":" + digits);
    FindLastIs(host, ':', digits);
    assert host + "" == host;
    FindLastIs(host, ']', "");
    FindLastIs(host, ':', "");
  }

  lemma {:induction false} BracketPortColon(inner: string, rest: string)
    requires ']' !in rest
    ensures PortColon(inner + "]" + rest) == |inner| + 1 + Find(rest, ':')
  {
    var s := inner + "]" + rest;
    FindLastIs(inner, ']', rest);
    assert s[|inner|..] == "]" + rest;
    assert ("]" + rest)[1..] == rest;
  }

  lemma {:induction false} HostPortColon(host: string, digits: string)
    requires IsHost(host) && IsDigits(digits)
    ensures PortColon(host + ":" + digits) == |host| && PortColon(host) == |host|
  {
    DigitsAreNot(digits, ']');
    DigitsAreNot(digits, ':');
    if host[0] == '[' {
      var inner := host[..|host| - 1];
      assert host == inner + "]" == inner + "]" + "";
      BracketPortColon(inner, "");
      assert host + ":" + digits == inner + "]" + (":" + digits);
      BracketPortColon(inner, ":" + digits);
    } else {
      PlainPortColon(host, digits);
    }
  }

  lemma {:induction false} HostPortOf(host: string, port: Option<string>)
    requires IsHost(host) && IsPort(port)
    ensures HostPort(host + PortText(port)) == (host, port)
  {
    match port
    case Some(digits) =>
      HostPortColon(host, digits);
      PortAt(host, digits);
      assert host + PortText(port) == host + ":" + digits;
    case None =>
      HostPortColon(host, "0");
      assert host + PortText(port) == host;
  }

  // ----- Round trips -----

  /** A parse finds a given host, port and path exactly when each part gives it. */
  lemma {:induction false} LocateIff(
    scheme: Option<string>, hostPart: string, pathPart: string, host: string, port: Option<string>, path: string)
    requires HostPort(AfterUser(hostPart)) == (host, port)
    requires host != "" && path != ""
    ensures Locate(scheme, hostPart, pathPart) == Ok(Parts(scheme, Lower(host), port, path)) <==>
            RepositoryPath(pathPart) == path
  {
  }

  lemma {:induction false} AuthorityRoundTrip(user: Option<string>, host: string, port: Option<string>)
    requires IsHost(host) && IsPort(port)
    ensures var authority := UserText(user) + (host + PortText(port));
            HostPort(AfterUser(authority)) == (host, port)
  {
    if port.Some? {
      DigitsAreNot(port.value, '@');
    }
    UserGoes(user, host + PortText(port));
    HostPortOf(host, port);
  }

  lemma {:induction false} PathRoundTrip(lead: string, path: string, tail: Tail)
    requires AllTaken(Slashes, lead) && IsPath(path) && IsTail(tail)
    ensures RepositoryPath(lead + path + TailText(tail)) == path <==>
            tail.Git? || !EndsInGit(path)
  {
    LeadGoes(lead, path, tail);
    SuffixGoes(path, tail);
  }

  lemma {:induction false} LocateRoundTrip(
    scheme: Option<string>, authority: string, rest: string, user: Option<string>, host: string,
    port: Option<string>, lead: string, path: string, tail: Tail)
    requires IsHost(host) && IsPort(port) && AllTaken(Slashes, lead) && IsPath(path) && IsTail(tail)
    requires authority == UserText(user) + (host + PortText(port)) && rest == lead + path + TailText(tail)
    ensures Locate(scheme, authority, rest) == Ok(Parts(scheme, Lower(host), port, path)) <==>
            tail.Git? || !EndsInGit(path)
  {
    AuthorityRoundTrip(user, host, port);
    PathRoundTrip(lead, path, tail);
    LocateIff(scheme, authority, rest, host, port, path);
  }

  lemma {:induction false} SchemeSplit(scheme: string, authority: string, pathPart: string)
    requires ':' !in scheme && '/' !in authority
    ensures var url := scheme + "://" + (authority + "/" + pathPart);
            PartsOfTrimmed(url) == Locate(Some(Lower(scheme)), authority, pathPart)
  {
    var rest := authority + "/" + pathPart;
    var url := scheme + "://" + rest;
    SchemeEndIs(scheme, rest);
    FindFirst(authority, '/', pathPart);
    assert url[..|scheme|] == scheme && url[|scheme| + 3..] == rest;
    assert rest[..|authority|] == authority && rest[|authority| + 1..] == pathPart;
  }

  lemma {:induction false} TrimOf(before: string, url: string, after: string)
    requires AllTaken(Spaces, before) && AllTaken(Spaces, after)
    requires StartsKept(Spaces, url) && EndsKept(Spaces, url)
    ensures Trim(before + url + after) == url
  {
    assert before + url + after == before + (url + after);
    TrimStartOf(Spaces, before, url + after);
    TrimEndOf(Spaces, url, after);
  }

  lemma {:induction false} TrimNothing(url: string)
    requires StartsKept(Spaces, url) && EndsKept(Spaces, url)
    ensures Trim(url) == url
  {
  }

  lemma {:induction false} TailEnds(s: string, path: string, tail: Tail)
    requires IsPath(path) && IsTail(tail)
    ensures EndsKept(Spaces, s + path + TailText(tail))
  {
    var text := TailText(tail);
    var all := s + path + text;
    if text == "" {
      assert all[|all| - 1] == path[|path| - 1];
    } else {
      assert all[|all| - 1] == text[|text| - 1];
      assert tail.Git? && tail.after == "" ==> text[|text| - 1] == 't';
      assert tail.Git? && tail.after != "" ==> text[|text| - 1] == tail.after[|tail.after| - 1] == '/';
    }
  }

  lemma {:induction false} SchemeParse(before: string, scheme: string, authority: string, rest: string, after: string)
    requires AllTaken(Spaces, before) && AllTaken(Spaces, after)
    requires StartsKept(Spaces, scheme) && ':' !in scheme && '/' !in authority && EndsKept(Spaces, rest)
    ensures PartsOf(before + (scheme + "://" + (authority + "/" + rest)) + after) ==
            Locate(Some(Lower(scheme)), authority, rest)
  {
    var url := scheme + "://" + (authority + "/" + rest);
    assert url[0] == scheme[0] && url[|url| - 1] == rest[|rest| - 1];
    TrimOf(before, url, after);
    SchemeSplit(scheme, authority, rest);
  }

  /** Every URL with a scheme gives back its host and its path: whatever the user, the port,
      the padding around it, the slashes and the suffix. The one exception is a path that
      ends in `.git` itself and is printed without the suffix. */
  lemma {:induction false} UrlRoundTrip(
    before: string, scheme: string, user: Option<string>, host: string, port: Option<string>, lead: string,
    path: string, tail: Tail, after: string)
    requires AllTaken(Spaces, before) && AllTaken(Spaces, after)
    requires StartsKept(Spaces, scheme) && ':' !in scheme && '/' !in UserText(user)
    requires IsHost(host) && IsPort(port) && AllTaken(Slashes, lead) && IsPath(path) && IsTail(tail)
    ensures var authority := UserText(user) + (host + PortText(port));
            var url := scheme + "://" + (authority + "/" + (lead + path + TailText(tail)));
            PartsOf(before + url + after) == Ok(Parts(Some(Lower(scheme)), Lower(host), port, path)) <==>
            tail.Git? || !EndsInGit(path)
  {
    var authority, rest := UserText(user) + (host + PortText(port)), lead + path + TailText(tail);
    assert '/' !in PortText(port) by {
      if port.Some? { DigitsAreNot(port.value, '/'); }
    }
    TailEnds(lead, path, tail);
    SchemeParse(before, scheme, authority, rest, after);
    LocateRoundTrip(Some(Lower(scheme)), authority, rest, user, host, port, lead, path, tail);
  }

  lemma {:induction false} ScpColonOf(host: string, rest: string)
    requires IsHost(host)
    ensures ScpColon(host + ":" + rest) == |host|
  {
    var s := host + ":" + rest;
    if host[0] == '[' {
      var inner := host[..|host| - 1];
      FindIsFirst(host, ']');
      assert s == inner + "]" + (":" + rest);
      FindFirst(inner, ']', ":" + rest);
      assert s[|inner|..] == "]" + ":" + rest;
      FindFirst("]", ':', rest);
    } else {
      FindFirst(host, ':', rest);
    }
  }

  lemma {:induction false} ScpHostEnd(user: string, host: string, rest: string)
    requires '@' !in user && IsHost(host)
    ensures HostEnd(user + "@" + (host + ":" + rest)) == |user| + 1 + |host|
  {
    var tail := host + ":" + rest;
    FindFirst(user, '@', tail);
    assert (user + "@" + tail)[|user| + 1..] == tail;
    ScpColonOf(host, rest);
  }

  lemma {:induction false} SplitAt(authority: string, rest: string)
    requires '@' in authority && HostEnd(authority + ":" + rest) == |authority|
    ensures SplitScp(authority + ":" + rest) == Some((authority, rest))
  {
    var url := authority + ":" + rest;
    FindIsFirst(url, '@');
    assert '@' in url;
    assert url[..|authority|] == authority && url[|authority| + 1..] == rest;
  }

  lemma {:induction false} ScpSplit(user: string, host: string, rest: string)
    requires '@' !in user && IsHost(host)
    ensures SplitScp(user + "@" + host + ":" + rest) == Some((user + "@" + host, rest))
  {
    var authority := user + "@" + host;
    assert authority + ":" + rest == user + "@" + (host + ":" + rest);
    ScpHostEnd(user, host, rest);
    assert authority[|user|] == '@';
    SplitAt(authority, rest);
  }

  lemma {:induction false} ScpTrimmed(url: string)
    requires SchemeEnd(url) == |url| && StartsKept(Spaces, url) && EndsKept(Spaces, url)
    ensures PartsOf(url) == PartsOfSplit(None, SplitScp(url))
  {
    TrimNothing(url);
  }

  /** `user@host:path`. */
  lemma {:induction false} ScpRoundTrip(user: string, host: string, path: string, tail: Tail)
    requires '@' !in user && IsHost(host) && IsPath(path) && IsTail(tail)
    requires var url := user + "@" + host + ":" + (path + TailText(tail));
             SchemeEnd(url) == |url| && StartsKept(Spaces, url)
    ensures var url := user + "@" + host + ":" + (path + TailText(tail));
            PartsOf(url) == Ok(Parts(None, Lower(host), None, path)) <==> tail.Git? || !EndsInGit(path)
  {
    var authority, rest := user + "@" + host, path + TailText(tail);
    var url := authority + ":" + rest;
    PathEnds(authority + ":", path, tail, rest);
    ScpSplit(user, host, rest);
    ScpTrimmed(url);
    assert authority == UserText(Some(user)) + host;
    ScpLocated(authority, Some(user), host, path, tail, rest);
  }

  lemma {:induction false} TailHasNo(tail: Tail, c: char)
    requires IsTail(tail) && (c == '@' || c == ':')
    ensures c !in TailText(tail)
  {
    match tail
    case Plain(slashes) =>
    case Git(before, after) =>
      assert c !in before && c !in ".git" && c !in after;
  }

  lemma {:induction false} TailAlone(tail: Tail)
    requires IsTail(tail)
    ensures RepositoryPath(TailText(tail)) == ""
  {
    match tail
    case Plain(slashes) =>
      assert slashes + "" == slashes;
      TrimStartOf(Slashes, slashes, "");
    case Git(before, after) =>
      assert TailText(tail) == before + (".git" + after);
      TrimStartOf(Slashes, before, ".git" + after);
      TrimEndOf(Slashes, ".git", after);
  }

  /** A parse that starts further on in the path finds a shorter one. */
  lemma {:induction false} LaterStartIsShorter(path: string, tail: Tail, k: nat)
    requires IsPath(path) && IsTail(tail) && 1 <= k <= |path|
    ensures |RepositoryPath(path[k..] + TailText(tail))| < |path|
  {
    if k == |path| {
      assert path[k..] + TailText(tail) == TailText(tail);
      TailAlone(tail);
    } else {
      var rest := path[k..];
      var left := TrimStart(Slashes, rest);
      TrimStartLeaves(Slashes, rest);
      SomeLeft(rest);
      TrimStartMore(Slashes, rest, TailText(tail));
      SuffixGoes(left, tail);
    }
  }

  lemma {:induction false} SomeLeft(s: string)
    requires EndsKept(Slashes, s)
    ensures EndsKept(Slashes, TrimStart(Slashes, s))
  {
    if Takes(Slashes, s[0]) {
      SomeLeft(s[1..]);
    }
  }

  lemma {:induction false} TrimStartMore(t: Trimmed, s: string, more: string)
    requires TrimStart(t, s) != ""
    ensures TrimStart(t, s + more) == TrimStart(t, s) + more
  {
    if Takes(t, s[0]) {
      assert (s + more)[1..] == s[1..] + more;
      TrimStartMore(t, s[1..], more);
    }
  }

  lemma {:induction false} AtSignLate(host: string, rest: string, url: string)
    requires '@' !in host && '@' in rest && url == host + ":" + rest
    ensures |host| + 1 < UserLen(url) && url[|host| + 1..] == rest
  {
    FindBeyond(host + ":", '@', rest);
    FindIsFirst(rest, '@');
  }

  /** A colon inside the path cuts the path itself. */
  lemma {:induction false} PathCut(path: string, tail: Tail, rest: string, k: nat)
    requires IsPath(path) && IsTail(tail) && rest == path + TailText(tail)
    requires k < |rest| && rest[k] == ':'
    ensures |RepositoryPath(rest[k + 1..])| < |path|
  {
    TailHasNo(tail, ':');
    assert rest[k + 1..] == path[k + 1..] + TailText(tail);
    LaterStartIsShorter(path, tail, k + 1);
  }

  predicate IsDriveLetter(host: string) {
    |host| == 1 && IsAlpha(host[0])
  }

  lemma {:induction false} DriveIs(host: string, rest: string)
    requires IsHost(host) && '@' !in rest
    ensures IsDrive(host + ":" + rest) <==> IsDriveLetter(host)
  {
    var url := host + ":" + rest;
    assert '@' !in url && url[|host|] == ':';
    assert url[0] == host[0] && (|host| > 1 ==> url[1] == host[1]);
  }

  lemma {:induction false} BareScpSplit(host: string, rest: string)
    requires IsHost(host) && '@' !in rest
    ensures SplitScp(host + ":" + rest) == if IsDriveLetter(host) then None else Some((host, rest))
  {
    var url := host + ":" + rest;
    DriveIs(host, rest);
    assert '@' !in url && url[0..] == url;
    ScpColonOf(host, rest);
    assert url[..|host|] == host && url[|host| + 1..] == rest;
  }

  lemma {:induction false} PathOfSplit(split: Option<(string, string)>)
    ensures var r := PartsOfSplit(None, split);
            r.Ok? ==> split.Some? && r.value.path == RepositoryPath(split.value.1)
  {
  }

  lemma {:induction false} EndOfSplit(url: string) returns (i: nat)
    ensures i == |url| || (UserLen(url) <= i < |url| && url[i] == ':')
    ensures SplitScp(url).Some? ==> i < |url| && SplitScp(url).value.1 == url[i + 1..]
  {
    i := HostEnd(url);
  }

  lemma {:induction false} ScpPath(url: string) returns (i: nat)
    requires SchemeEnd(url) == |url| && StartsKept(Spaces, url) && EndsKept(Spaces, url)
    ensures i == |url| || (UserLen(url) <= i < |url| && url[i] == ':')
    ensures PartsOf(url).Ok? ==> i < |url| && PartsOf(url).value.path == RepositoryPath(url[i + 1..])
  {
    ScpTrimmed(url);
    PathOfSplit(SplitScp(url));
    i := EndOfSplit(url);
  }

  lemma {:induction false} PathCutAt(url: string, h: nat, i: nat, path: string, tail: Tail)
    requires IsPath(path) && IsTail(tail) && h <= i < |url| && url[i] == ':' && url[h..] == path + TailText(tail)
    ensures |RepositoryPath(url[i + 1..])| < |path|
  {
    var rest, k := url[h..], i - h;
    assert rest[k] == ':' && rest[k + 1..] == url[i + 1..];
    PathCut(path, tail, rest, k);
  }

  /** With the user's end past `h`, where the path starts, another path is found. */
  lemma {:induction false} LateCut(url: string, h: nat, path: string, tail: Tail)
    requires IsPath(path) && IsTail(tail) && h < UserLen(url) && url[h..] == path + TailText(tail)
    requires SchemeEnd(url) == |url| && StartsKept(Spaces, url) && EndsKept(Spaces, url)
    ensures PartsOf(url).Ok? ==> PartsOf(url).value.path != path
  {
    var i := ScpPath(url);
    if i < |url| {
      PathCutAt(url, h, i, path, tail);
    }
  }

  lemma {:induction false} BareParse(host: string, rest: string, url: string)
    requires IsHost(host) && '@' !in rest && url == host + ":" + rest
    requires SchemeEnd(url) == |url| && StartsKept(Spaces, url) && EndsKept(Spaces, url)
    ensures PartsOf(url) == if IsDriveLetter(host) then Err(NotAUrl) else Locate(None, host, rest)
  {
    ScpTrimmed(url);
    BareScpSplit(host, rest);
  }

  lemma {:induction false} BareWithout(host: string, path: string, tail: Tail, rest: string, r: Result<Parts, UrlError>)
    requires IsHost(host) && IsPath(path) && IsTail(tail) && rest == path + TailText(tail)
    requires r == if IsDriveLetter(host) then Err(NotAUrl) else Locate(None, host, rest)
    ensures r == Ok(Parts(None, Lower(host), None, path)) <==>
            (tail.Git? || !EndsInGit(path)) && !IsDriveLetter(host)
  {
    assert host == UserText(None) + host;
    ScpLocated(host, None, host, path, tail, rest);
  }

  /** `host:path`. Besides a drive letter, an `@` anywhere in the path spoils it: the text
      up to it is then taken for the user. */
  lemma {:induction false} BareScpRoundTrip(host: string, path: string, tail: Tail)
    requires IsHost(host) && IsPath(path) && IsTail(tail)
    requires var url := host + ":" + (path + TailText(tail)); SchemeEnd(url) == |url| && StartsKept(Spaces, url)
    ensures PartsOf(host + ":" + (path + TailText(tail))) == Ok(Parts(None, Lower(host), None, path)) <==>
            (tail.Git? || !EndsInGit(path)) && '@' !in path && !IsDriveLetter(host)
  {
    var rest := path + TailText(tail);
    var url := host + ":" + rest;
    PathEnds(host + ":", path, tail, rest);
    TailHasNo(tail, '@');
    if '@' in path {
      AtSignLate(host, rest, url);
      LateCut(url, |host| + 1, path, tail);
    } else {
      BareParse(host, rest, url);
      BareWithout(host, path, tail, rest, PartsOf(url));
    }
  }

  /** Without a colon behind the first `@` there is no path, whatever is in front of it. */
  lemma {:induction false} NoColonBehindUser(user: string, rest: string, url: string)
    requires '@' !in user && ':' !in rest && url == user + "@" + rest
    requires SchemeEnd(url) == |url| && StartsKept(Spaces, url) && EndsKept(Spaces, url)
    ensures ParseRemoteUrl(url) == Err(NotAUrl)
  {
    ScpTrimmed(url);
    FindFirst(user, '@', rest);
    assert url[|user| + 1..] == rest;
    NoScpColon(rest);
  }

  lemma {:induction false} NoScpColon(rest: string)
    requires ':' !in rest
    ensures ScpColon(rest) == |rest|
  {
    FindIsFirst(rest, ':');
    FindIsFirst(rest[Find(rest, ']')..], ':');
  }

  /** So `host:path` with an `@` in its path need not be recognised at all. */
  lemma {:induction false} AtSignInPath()
    ensures ParseRemoteUrl("git:o@2") == Err(NotAUrl)
  {
    var url := "git:o@2";
    assert url == "git:o" + "@" + "2";
    assert url[1..] == "it:o@2" && url[1..][1..] == "t:o@2" && url[1..][1..][1..] == ":o@2";
    NoColonBehindUser("git:o", "2", url);
  }

  lemma {:induction false} PathEnds(s: string, path: string, tail: Tail, rest: string)
    requires IsPath(path) && IsTail(tail) && rest == path + TailText(tail)
    ensures EndsKept(Spaces, s + rest)
  {
    TailEnds("", path, tail);
    assert "" + path + TailText(tail) == rest;
    assert (s + rest)[|s + rest| - 1] == rest[|rest| - 1];
  }

  lemma {:induction false} ScpLocated(
    authority: string, user: Option<string>, host: string, path: string, tail: Tail, rest: string)
    requires IsHost(host) && IsPath(path) && IsTail(tail)
    requires authority == UserText(user) + host && rest == path + TailText(tail)
    ensures Locate(None, authority, rest) == Ok(Parts(None, Lower(host), None, path)) <==>
            tail.Git? || !EndsInGit(path)
  {
    assert host == host + PortText(None);
    assert rest == "" + path + TailText(tail);
    LocateRoundTrip(None, authority, rest, user, host, None, "", path, tail);
  }

  // ----- What every parse gives -----

  lemma {:induction false} LowerKeeps(s: string, c: char)
    requires !IsAlpha(c)
    ensures c in Lower(s) <==> c in s
    ensures Find(Lower(s), c) == Find(s, c)
  {
    FindIsFirst(s, c);
    FindIsFirst(Lower(s), c);
    if s != "" {
      assert Lower(s)[1..] == Lower(s[1..]);
      LowerKeeps(s[1..], c);
    }
  }

  lemma {:induction false} LowerTwice(s: string)
    ensures Lower(Lower(s)) == Lower(s)
  {
  }

  lemma {:induction false} LowerLast(s: string, c: char)
    requires !IsAlpha(c)
    ensures FindLast(Lower(s), c) == FindLast(s, c)
  {
    var i, j := FindLast(s, c), FindLast(Lower(s), c);
    FindLastIsLast(s, c);
    FindLastIsLast(Lower(s), c);
    assert i >= 0 ==> Lower(s)[i] == c;
    assert j >= 0 ==> s[j] == c;
  }

  lemma {:induction false} LowerHost(host: string)
    requires IsHost(host)
    ensures IsHost(Lower(host))
  {
    LowerKeeps(host, '/');
    LowerKeeps(host, '@');
    LowerKeeps(host, ':');
    LowerKeeps(host, ']');
  }

  lemma {:induction false} KnownHosts()
    ensures IsHost("github.com") && IsHost("gitlab.com")
  {
  }

  lemma {:induction false} KnownAreLower()
    ensures Lower("github.com") == "github.com" && Lower("gitlab.com") == "gitlab.com"
  {
  }

  lemma {:induction false} CanonicalIsHost(host: string)
    ensures Canonical(host) == host || IsHost(Canonical(host))
    ensures Lower(host) == host ==> Lower(Canonical(host)) == Canonical(host)
  {
    KnownHosts();
    KnownAreLower();
  }

  lemma {:induction false} OriginAuthority(scheme: string, rest: string)
    requires ':' !in scheme && EndsKept(Slashes, rest)
    ensures TrimEnd(Slashes, AfterScheme(scheme + "://" + rest)) == rest
  {
    var origin := scheme + "://" + rest;
    SchemeEndIs(scheme, rest);
    assert origin[|scheme| + 3..] == rest == rest + "";
    TrimEndOf(Slashes, rest, "");
  }

  lemma {:induction false} HostEndsKept(host: string, port: Option<string>)
    requires IsHost(host) && IsPort(port)
    ensures EndsKept(Slashes, host + PortText(port)) && EndsKept(Slashes, host)
  {
    assert host[|host| - 1] in host;
    if port.Some? {
      assert (host + PortText(port))[|host + PortText(port)| - 1] == port.value[|port.value| - 1];
    } else {
      assert host + PortText(port) == host;
    }
  }

  lemma {:induction false} OriginIs(scheme: Option<string>, host: string, port: Option<string>)
    requires IsHost(host) && IsPort(port)
    ensures TrimEnd(Slashes, AfterScheme(WebOrigin(scheme, host, port))) ==
            host + PortText(if IsWeb(scheme) then port else None)
  {
    var webPort := if IsWeb(scheme) then port else None;
    HostEndsKept(host, webPort);
    OriginAuthority(if IsWeb(scheme) then scheme.value else "https", host + PortText(webPort));
  }

  /** The authority is the host, with the port where the web has one. */
  lemma {:induction false} AuthorityIs(parts: Parts)
    requires IsHost(parts.host) && IsPort(parts.port)
    ensures Authority(Reference(parts)) ==
            Canonical(parts.host) + PortText(if IsWeb(parts.scheme) then parts.port else None)
  {
    CanonicalIsHost(parts.host);
    OriginIs(parts.scheme, Canonical(parts.host), parts.port);
  }

  lemma {:induction false} NoneLeft(s: string, c: char, k: nat)
    requires k <= |s| && forall j :: k <= j < |s| ==> s[j] != c
    ensures c !in s[k..]
  {
  }

  lemma {:induction false} AfterUserHasNoAt(hostPart: string)
    ensures '@' !in AfterUser(hostPart)
  {
    FindLastIsLast(hostPart, '@');
    NoneLeft(hostPart, '@', FindLast(hostPart, '@') + 1);
  }

  lemma {:induction false} HostPortJoins(authority: string)
    ensures var (host, port) := HostPort(authority); IsPort(port) && host + PortText(port) == authority
  {
    var i := PortColon(authority);
    if i < |authority| {
      PortColonIsColon(authority);
      assert authority == authority[..i] + ":" + authority[i + 1..];
    }
  }

  lemma {:induction false} PortColonIsColon(authority: string)
    ensures PortColon(authority) < |authority| ==> authority[PortColon(authority)] == ':'
  {
  }

  lemma {:induction false} LowerPortColon(authority: string)
    ensures PortColon(Lower(authority)) == PortColon(authority)
  {
    LowerLast(authority, ']');
    LowerLast(authority, ':');
    var close := FindLast(authority, ']');
    if close >= 0 {
      assert Lower(authority)[close..] == Lower(authority[close..]);
      LowerKeeps(authority[close..], ':');
    }
  }

  /** Case does not move the port. */
  lemma {:induction false} LowerHostPort(authority: string)
    ensures var (host, port) := HostPort(authority); HostPort(Lower(authority)) == (Lower(host), port)
  {
    var low, i := Lower(authority), PortColon(authority);
    LowerPortColon(authority);
    if i < |authority| {
      assert low[..i] == Lower(authority[..i]);
      assert low[i + 1..] == Lower(authority[i + 1..]);
      LowerDigits(authority[i + 1..]);
    }
  }

  lemma {:induction false} LowerDigits(s: string)
    ensures IsDigits(Lower(s)) <==> IsDigits(s)
    ensures IsDigits(s) ==> Lower(s) == s
  {
    assert forall i :: 0 <= i < |s| ==> ('0' <= Lower(s)[i] <= '9' <==> '0' <= s[i] <= '9');
  }

  lemma {:induction false} LowerConcat(a: string, b: string)
    ensures Lower(a + b) == Lower(a) + Lower(b)
  {
  }

  lemma {:induction false} LowerPortText(port: Option<string>)
    requires IsPort(port)
    ensures Lower(PortText(port)) == PortText(port)
  {
    if port.Some? {
      assert forall i :: 0 <= i < |PortText(port)| ==> !IsAlpha(PortText(port)[i]);
    }
  }

  /** The lower-cased host and its port, joined, are read back. */
  lemma {:induction false} LowerReadBack(authority: string, host: string, port: Option<string>)
    requires '@' !in authority && '/' !in authority && HostPort(authority) == (host, port)
    ensures var again := Lower(host) + PortText(port);
            HostPort(again) == (Lower(host), port) && '@' !in again && '/' !in again
  {
    HostPortJoins(authority);
    LowerConcat(host, PortText(port));
    LowerPortText(port);
    LowerHostPort(authority);
    LowerKeeps(authority, '@');
    LowerKeeps(authority, '/');
  }

  // ----- Links -----

  lemma {:induction false} AfterUserAlone(authority: string)
    requires '@' !in authority
    ensures AfterUser(authority) == authority
  {
    assert authority + "" == authority;
    UserGoes(None, authority);
    assert UserText(None) + authority == authority;
  }

  /** How a link to what was located reads again. */
  predicate ReadsAgain(parts: Parts) {
    var name := Canonical(parts.host);
    var again := name + PortText(parts.port);
    HostPort(AfterUser(again)) == (name, parts.port) && '/' !in again && Lower(name) == name && name != ""
  }

  /** The authority of a generated link is read back as the host and port it was made of. */
  lemma {:induction false} LinkAuthority(authority: string, host: string, port: Option<string>, parts: Parts)
    requires '@' !in authority && '/' !in authority && HostPort(authority) == (host, port) && host != ""
    requires parts.host == Lower(host) && parts.port == port
    ensures ReadsAgain(parts)
  {
    var name := Canonical(Lower(host));
    CanonicalIsHost(Lower(host));
    LowerTwice(host);
    HostPortJoins(authority);
    if name == Lower(host) {
      LowerReadBack(authority, host, port);
      AfterUserAlone(name + PortText(port));
    } else {
      AuthorityRoundTrip(None, name, port);
      assert UserText(None) + (name + PortText(port)) == name + PortText(port);
      assert '/' !in PortText(port) by {
        if port.Some? { DigitsAreNot(port.value, '/'); }
      }
    }
  }

  lemma {:induction false} RepositoryPathIs(pathPart: string)
    ensures var path := RepositoryPath(pathPart);
            |path| <= |pathPart| && (path != "" ==> StartsKept(Slashes, path) && EndsKept(Slashes, path))
  {
    var s := TrimStart(Slashes, pathPart);
    TrimStartLeaves(Slashes, pathPart);
    TrimEndLeaves(Slashes, s);
    TrimEndLeaves(Slashes, StripGit(TrimEnd(Slashes, s)));
  }

  /** A path read once is read the same again exactly when nothing more comes off it. */
  lemma {:induction false} PathReadAgain(path: string)
    requires StartsKept(Slashes, path) && EndsKept(Slashes, path)
    ensures RepositoryPath(TrimEnd(Spaces, path)) == path <==> !EndsInGit(path) && EndsKept(Spaces, path)
  {
    if EndsKept(Spaces, path) {
      PathAlone(path);
    } else {
      PathShrinks(path);
    }
  }

  lemma {:induction false} PathShrinks(path: string)
    requires path != "" && !EndsKept(Spaces, path)
    ensures |RepositoryPath(TrimEnd(Spaces, path))| < |path|
  {
    TrimEndLeaves(Spaces, path[..|path| - 1]);
    RepositoryPathIs(TrimEnd(Spaces, path));
  }

  lemma {:induction false} PathAlone(path: string)
    requires IsPath(path)
    ensures RepositoryPath(path) == path <==> !EndsInGit(path)
  {
    assert "" + path + TailText(Plain("")) == path;
    PathRoundTrip("", path, Plain(""));
  }

  lemma {:induction false} TrimLink(origin: string, path: string)
    requires StartsKept(Spaces, origin)
    ensures Trim(origin + "/" + path) == origin + "/" + TrimEnd(Spaces, path)
  {
    var url, left := origin + "/" + path, TrimEnd(Spaces, path);
    TrimEndLeaves(Spaces, path);
    assert "" + url == url;
    TrimStartOf(Spaces, "", url);
    TrimmedOff(Spaces, path);
    var kept := origin + "/" + left;
    assert url == kept + path[|left|..];
    assert kept[|kept| - 1] == if left == "" then '/' else left[|left| - 1];
    TrimEndOf(Spaces, kept, path[|left|..]);
  }

  lemma {:induction false} TrimmedOff(t: Trimmed, s: string)
    ensures |TrimEnd(t, s)| <= |s| && AllTaken(t, s[|TrimEnd(t, s)|..])
  {
    if s != "" && Takes(t, s[|s| - 1]) {
      TrimmedOff(t, s[..|s| - 1]);
      assert forall i :: |TrimEnd(t, s)| <= i < |s| - 1 ==> s[i] == s[..|s| - 1][i];
    }
  }

  lemma {:induction false} LocatedParts(
    scheme: Option<string>, hostPart: string, pathPart: string, host: string, port: Option<string>, r: Parts)
    requires HostPort(AfterUser(hostPart)) == (host, port) && Locate(scheme, hostPart, pathPart) == Ok(r)
    ensures host != "" && RepositoryPath(pathPart) != ""
    ensures r == Parts(scheme, Lower(host), port, RepositoryPath(pathPart))
  {
  }

  /** Whatever the URL, what comes out is lower-cased, free of a user, and unpadded. */
  lemma {:induction false} ParsedIsCanonical(url: string)
    requires PartsOf(url).Ok?
    ensures var parts := PartsOf(url).value;
            && parts.host != "" && Lower(parts.host) == parts.host && '@' !in parts.host && IsPort(parts.port)
            && StartsKept(Slashes, parts.path) && EndsKept(Slashes, parts.path)
  {
    var split := SplitHostAndPath(Trim(url)).value;
    var authority := AfterUser(split.0);
    var (host, port) := HostPort(authority);
    LocatedParts(SchemeOf(Trim(url)), split.0, split.1, host, port, PartsOf(url).value);
    AfterUserHasNoAt(split.0);
    HostPortJoins(authority);
    LowerTwice(host);
    LowerKeeps(host, '@');
    RepositoryPathIs(split.1);
  }

  lemma {:induction false} SchemeHasNoSlash(url: string)
    requires SchemeOf(url).Some? && SplitHostAndPath(url).Some?
    ensures '/' !in SplitHostAndPath(url).value.0
  {
    FindIsFirst(url[SchemeEnd(url) + 3..], '/');
  }

  lemma {:induction false} ReferenceAgain(parts: Parts)
    requires IsWeb(parts.scheme)
    ensures Reference(Parts(parts.scheme, Canonical(parts.host), parts.port, parts.path)) == Reference(parts)
  {
  }

  /** The link to a web remote, read as a remote URL itself. */
  lemma {:induction false} LinkParse(scheme: string, authority: string, path: string, origin: string)
    requires StartsKept(Spaces, scheme) && ':' !in scheme && '/' !in authority
    requires origin == scheme + "://" + authority
    ensures PartsOf(origin + "/" + path) == Locate(Some(Lower(scheme)), authority, TrimEnd(Spaces, path))
  {
    TrimLink(origin, path);
    SchemeSplitOf(scheme, authority, TrimEnd(Spaces, path), origin);
  }

  lemma {:induction false} SchemeSplitOf(scheme: string, authority: string, rest: string, origin: string)
    requires ':' !in scheme && '/' !in authority && origin == scheme + "://" + authority
    ensures PartsOfTrimmed(origin + "/" + rest) == Locate(Some(Lower(scheme)), authority, rest)
  {
    assert origin + "/" + rest == scheme + "://" + (authority + "/" + rest);
    SchemeSplit(scheme, authority, rest);
  }

  lemma {:induction false} LinkParts(parts: Parts, again: string, name: string, origin: string)
    requires IsWeb(parts.scheme) && name != "" && StartsKept(Slashes, parts.path) && EndsKept(Slashes, parts.path)
    requires HostPort(AfterUser(again)) == (name, parts.port) && '/' !in again && Lower(name) == name
    requires origin == parts.scheme.value + "://" + again
    ensures PartsOf(origin + "/" + parts.path) ==
            Locate(parts.scheme, again, TrimEnd(Spaces, parts.path))
    ensures Locate(parts.scheme, again, TrimEnd(Spaces, parts.path)) ==
            Ok(Parts(parts.scheme, name, parts.port, parts.path)) <==>
            !EndsInGit(parts.path) && EndsKept(Spaces, parts.path)
  {
    WebSchemes(parts.scheme.value);
    LinkParse(parts.scheme.value, again, parts.path, origin);
    LocateIff(parts.scheme, again, TrimEnd(Spaces, parts.path), name, parts.port, parts.path);
    PathReadAgain(parts.path);
  }

  lemma {:induction false} WebSchemes(scheme: string)
    requires IsWeb(Some(scheme))
    ensures StartsKept(Spaces, scheme) && ':' !in scheme && Lower(scheme) == scheme
  {
  }

  lemma {:induction false} NoSlashAfterUser(hostPart: string)
    requires '/' !in hostPart
    ensures '/' !in AfterUser(hostPart)
  {
  }

  lemma {:induction false} LocatedReadsAgain(scheme: Option<string>, hostPart: string, pathPart: string)
    requires Locate(scheme, hostPart, pathPart).Ok? && '/' !in hostPart
    ensures ReadsAgain(Locate(scheme, hostPart, pathPart).value)
  {
    var authority := AfterUser(hostPart);
    var (host, port) := HostPort(authority);
    LocatedParts(scheme, hostPart, pathPart, host, port, Locate(scheme, hostPart, pathPart).value);
    AfterUserHasNoAt(hostPart);
    NoSlashAfterUser(hostPart);
    LinkAuthority(authority, host, port, Locate(scheme, hostPart, pathPart).value);
  }

  lemma {:induction false} WebReadsAgain(url: string)
    requires PartsOf(url).Ok? && PartsOf(url).value.scheme.Some?
    ensures ReadsAgain(PartsOf(url).value)
  {
    var u := Trim(url);
    var split := SplitHostAndPath(u).value;
    SchemeHasNoSlash(u);
    LocatedReadsAgain(SchemeOf(u), split.0, split.1);
  }

  /** A link built from a web remote names that same remote, unless its path ends in what a
      parse takes off: a second `.git`, or space that the suffix had covered. */
  lemma {:induction false} WebLinkReadsBack(url: string)
    requires PartsOf(url).Ok? && IsWeb(PartsOf(url).value.scheme)
    ensures var parts := PartsOf(url).value;
            var host := Canonical(parts.host);
            PartsOf(WebOrigin(parts.scheme, host, parts.port) + "/" + parts.path) ==
            Ok(Parts(parts.scheme, host, parts.port, parts.path)) <==>
            !EndsInGit(parts.path) && EndsKept(Spaces, parts.path)
  {
    var parts := PartsOf(url).value;
    var name := Canonical(parts.host);
    WebReadsAgain(url);
    ParsedIsCanonical(url);
    LinkParts(parts, name + PortText(parts.port), name, WebOrigin(parts.scheme, name, parts.port));
  }

  /** And then it is the same reference in every field. */
  lemma {:induction false} WebLinkIsTheSameReference(url: string)
    requires PartsOf(url).Ok? && IsWeb(PartsOf(url).value.scheme)
    requires var path := PartsOf(url).value.path; !EndsInGit(path) && EndsKept(Spaces, path)
    ensures var r := ParseRemoteUrl(url).value; ParseRemoteUrl(r.webOrigin + "/" + r.path) == Ok(r)
  {
    var parts := PartsOf(url).value;
    WebLinkReadsBack(url);
    ReferenceAgain(parts);
  }

  // ----- The reference -----

  /** What a remote with these parts refers to. A host that only serves ssh stands for the
      forge's own; a web remote is reached at its own scheme and port, any other one over
      https; and only a web remote or such an ssh host is beyond a guess. */
  predicate Describes(r: RemoteRef, scheme: Option<string>, host: string, port: Option<string>, path: string) {
    && (host == "ssh.github.com" ==> r.host == "github.com")
    && (host == "altssh.gitlab.com" ==> r.host == "gitlab.com")
    && (host != "ssh.github.com" && host != "altssh.gitlab.com" ==> r.host == host)
    && r.path == path
    && (scheme == Some("http") || scheme == Some("https") ==>
          r.webOrigin == scheme.value + "://" + r.host + if port.Some? then ":" + port.value else "")
    && (scheme != Some("http") && scheme != Some("https") ==> r.webOrigin == "https://" + r.host)
    && (r.trust == FromUrl <==>
          scheme == Some("http") || scheme == Some("https") || host == "ssh.github.com" || host == "altssh.gitlab.com")
  }

  lemma {:induction false} ReferenceDescribes(p: Parts)
    ensures Describes(Reference(p), p.scheme, p.host, p.port, p.path)
  {
    var host := Canonical(p.host);
    var port := if IsWeb(p.scheme) then PortText(p.port) else "";
    var scheme := if IsWeb(p.scheme) then p.scheme.value else "https";
    assert scheme + "://" + host + port == scheme + "://" + (host + port);
    assert "https" + "://" + host + "" == "https://" + host;
    assert "github.com" != "ssh.github.com" && "gitlab.com" != "altssh.gitlab.com";
  }

  /** Read with `ParseRemoteUrl`, a printed URL names its host, its repository, and the
      authority a forge's tool is pointed at. */
  lemma {:induction false} UrlNamesRepository(
    before: string, scheme: string, user: Option<string>, host: string, port: Option<string>, lead: string,
    path: string, tail: Tail, after: string)
    requires AllTaken(Spaces, before) && AllTaken(Spaces, after)
    requires StartsKept(Spaces, scheme) && ':' !in scheme && '/' !in UserText(user)
    requires IsHost(host) && IsPort(port) && AllTaken(Slashes, lead) && IsPath(path) && IsTail(tail)
    requires tail.Git? || !EndsInGit(path)
    ensures var authority := UserText(user) + (host + PortText(port));
            var url := scheme + "://" + (authority + "/" + (lead + path + TailText(tail)));
            var r := ParseRemoteUrl(before + url + after);
            && r.Ok? && Describes(r.value, Some(Lower(scheme)), Lower(host), port, path)
            && Authority(r.value) == r.value.host + PortText(if IsWeb(Some(Lower(scheme))) then port else None)
  {
    var parts := Parts(Some(Lower(scheme)), Lower(host), port, path);
    UrlRoundTrip(before, scheme, user, host, port, lead, path, tail, after);
    LowerHost(host);
    AuthorityIs(parts);
    ReferenceDescribes(parts);
  }

  /** So does `user@host:path`, with nothing said about a port. */
  lemma {:induction false} ScpNamesRepository(user: string, host: string, path: string, tail: Tail)
    requires '@' !in user && IsHost(host) && IsPath(path) && IsTail(tail) && (tail.Git? || !EndsInGit(path))
    requires var url := user + "@" + host + ":" + (path + TailText(tail));
             SchemeEnd(url) == |url| && StartsKept(Spaces, url)
    ensures var r := ParseRemoteUrl(user + "@" + host + ":" + (path + TailText(tail)));
            r.Ok? && Describes(r.value, None, Lower(host), None, path)
  {
    ScpRoundTrip(user, host, path, tail);
    ReferenceDescribes(Parts(None, Lower(host), None, path));
  }

  // ----- Remotes that are refused -----

  lemma {:induction false} TrimmedUrl(scheme: string, rest: string)
    requires StartsKept(Spaces, scheme) && EndsKept(Spaces, rest)
    ensures Trim(scheme + "://" + rest) == scheme + "://" + rest
  {
    var url := scheme + "://" + rest;
    assert url[0] == scheme[0] && url[|url| - 1] == rest[|rest| - 1];
    TrimNothing(url);
  }

  /** Without a slash behind the scheme there is no host to tell from a path. */
  lemma {:induction false} UrlWithoutSlash(scheme: string, rest: string)
    requires StartsKept(Spaces, scheme) && ':' !in scheme && EndsKept(Spaces, rest) && '/' !in rest
    ensures ParseRemoteUrl(scheme + "://" + rest) == Err(NotAUrl)
  {
    var url := scheme + "://" + rest;
    TrimmedUrl(scheme, rest);
    SchemeEndIs(scheme, rest);
    FindIsFirst(rest, '/');
    assert url[|scheme| + 3..] == rest;
  }

  lemma {:induction false} AuthorityParse(scheme: string, authority: string, rest: string)
    requires StartsKept(Spaces, scheme) && ':' !in scheme && '/' !in authority && (rest == "" || EndsKept(Spaces, rest))
    ensures PartsOf(scheme + "://" + (authority + "/" + rest)) == Locate(Some(Lower(scheme)), authority, rest)
  {
    var whole := authority + "/" + rest;
    assert whole[|whole| - 1] == if rest == "" then '/' else rest[|rest| - 1];
    TrimmedUrl(scheme, whole);
    SchemeSplit(scheme, authority, rest);
  }

  /** An authority that is only a user, only a port or nothing names no host. */
  lemma {:induction false} UrlWithoutHost(scheme: string, user: Option<string>, port: Option<string>, rest: string)
    requires StartsKept(Spaces, scheme) && ':' !in scheme && '/' !in UserText(user) && IsPort(port)
    requires rest == "" || EndsKept(Spaces, rest)
    ensures ParseRemoteUrl(scheme + "://" + (UserText(user) + PortText(port) + "/" + rest)) == Err(NoHost)
  {
    var authority := UserText(user) + PortText(port);
    HostlessAuthority(user, port, authority);
    AuthorityParse(scheme, authority, rest);
    NothingButPort(port);
  }

  lemma {:induction false} HostlessAuthority(user: Option<string>, port: Option<string>, authority: string)
    requires '/' !in UserText(user) && IsPort(port) && authority == UserText(user) + PortText(port)
    ensures '/' !in authority && AfterUser(authority) == PortText(port)
  {
    if port.Some? {
      DigitsAreNot(port.value, '/');
      DigitsAreNot(port.value, '@');
    }
    UserGoes(user, PortText(port));
  }

  lemma {:induction false} NothingButPort(port: Option<string>)
    requires IsPort(port)
    ensures HostPort(PortText(port)) == ("", port)
  {
    if port.Some? {
      DigitsAreNot(port.value, ':');
      DigitsAreNot(port.value, ']');
      PlainPortColon("", port.value);
      PortAt("", port.value);
      assert "" + ":" + port.value == PortText(port);
    }
  }

  /** A path that is only slashes and a suffix names no repository. */
  lemma {:induction false} UrlWithoutPath(
    scheme: string, user: Option<string>, host: string, port: Option<string>, tail: Tail)
    requires StartsKept(Spaces, scheme) && ':' !in scheme && '/' !in UserText(user)
    requires IsHost(host) && IsPort(port) && IsTail(tail)
    ensures ParseRemoteUrl(scheme + "://" + (UserText(user) + (host + PortText(port)) + "/" + TailText(tail))) ==
            Err(NoPath)
  {
    var authority := UserText(user) + (host + PortText(port));
    if port.Some? {
      DigitsAreNot(port.value, '/');
    }
    TailEndsKept(tail);
    AuthorityParse(scheme, authority, TailText(tail));
    AuthorityRoundTrip(user, host, port);
    TailAlone(tail);
  }

  lemma {:induction false} TailEndsKept(tail: Tail)
    requires IsTail(tail)
    ensures TailText(tail) == "" || EndsKept(Spaces, TailText(tail))
  {
    var text := TailText(tail);
    if tail.Git? {
      assert text[|text| - 1] == if tail.after == "" then 't' else tail.after[|tail.after| - 1];
    }
  }

  // ----- Characters -----

  /** The white space that is trimmed: the characters with the Unicode property of that
      name. */
  lemma {:induction false} SpacesAre(c: char)
    ensures Takes(Spaces, c) <==>
            c as int in {
              0x09, 0x0a, 0x0b, 0x0c, 0x0d, 0x20, 0x85, 0xa0, 0x1680, 0x2000, 0x2001, 0x2002, 0x2003, 0x2004, 0x2005,
              0x2006, 0x2007, 0x2008, 0x2009, 0x200a, 0x2028, 0x2029, 0x202f, 0x205f, 0x3000}
  {
  }

  /** Lower case changes the ASCII capitals, each to its small letter, and nothing else. */
  lemma {:induction false} LowerIs(s: string, i: nat)
    requires i < |s|
    ensures |Lower(s)| == |s|
    ensures forall n :: 0 <= n < 26 && s[i] == "ABCDEFGHIJKLMNOPQRSTUVWXYZ"[n] ==>
              Lower(s)[i] == "abcdefghijklmnopqrstuvwxyz"[n]
    ensures s[i] !in "ABCDEFGHIJKLMNOPQRSTUVWXYZ" ==> Lower(s)[i] == s[i]
  {
    var capitals, letters := "ABCDEFGHIJKLMNOPQRSTUVWXYZ", "abcdefghijklmnopqrstuvwxyz";
    forall n | 0 <= n < 26
      ensures capitals[n] as int == 'A' as int + n && letters[n] as int == 'a' as int + n
    {
    }
    if 'A' <= s[i] <= 'Z' {
      assert capitals[s[i] as int - 'A' as int] == s[i];
    }
  }
}
