/** How the proxy finds the service for a request (internal/proxy/route.go). */
module Routing {
  import opened Text
  import opened Wrappers
  import opened Services
  import opened Hosts
  import opened Keyed
  import opened Registry

  // ----- the Host header --------------------------------------------------------------------

  /** unicode.IsSpace */
  predicate IsSpace(c: char) {
    '\t' <= c <= '\r' || c == ' ' || c == '\U{0085}' || c == '\U{00A0}' || c == '\U{1680}'
    || '\U{2000}' <= c <= '\U{200A}' || c in "\U{2028}\U{2029}\U{202F}\U{205F}\U{3000}"
  }

  function TrimSpace(s: string): string {
    if s != "" && IsSpace(s[0]) then TrimSpace(s[1..])
    else if s != "" && IsSpace(s[|s| - 1]) then TrimSpace(s[..|s| - 1])
    else s
  }

  function IndexChar(s: string, c: char): (i: int)
    ensures -1 <= i < |s|
    ensures i >= 0 ==> s[i] == c
    ensures i < 0 <==> c !in s
  {
    if s == "" then -1
    else if s[0] == c then 0
    else
      var i := IndexChar(s[1..], c);
      if i < 0 then -1 else i + 1
  }

  function LastIndexChar(s: string, c: char): (i: int)
    ensures -1 <= i < |s|
    ensures i >= 0 ==> s[i] == c
    ensures i < 0 <==> c !in s
  {
    if s == "" then -1
    else if s[|s| - 1] == c then |s| - 1
    else LastIndexChar(s[..|s| - 1], c)
  }

  /** The host that net.SplitHostPort finds in s, if it accepts s. */
  function SplitHostPort(s: string): Option<string> {
    var i := LastIndexChar(s, ':');
    if i < 0 then None
    else if s[0] == '[' then
      var end := IndexChar(s, ']');
      if end < 0 || end + 1 != i then None
      else if '[' in s[1..] || ']' in s[end + 1..] then None
      else Some(s[1..end])
    else if ':' in s[..i] || '[' in s || ']' in s then None
    else Some(s[..i])
  }

  function TrimSuffix(s: string, p: string): string {
    if HasSuffix(s, p) then s[..|s| - |p|] else s
  }

  function TrimPrefix(s: string, p: string): string {
    if HasPrefix(s, p) then s[|p|..] else s
  }

  function NormalizeHost(host: string): string {
    var h := TrimSpace(host);
    var h1 := match SplitHostPort(h) case Some(hostOnly) => hostOnly case None => h;
    ToLower(TrimSuffix(TrimPrefix(TrimSuffix(h1, "."), "["), "]"))
  }

  /** A lower-case host name without port or final dot is left alone. */
  lemma NormalizeHostFixes(host: string)
    requires host != "" && HostChars(host) && host[|host| - 1] != '.'
    ensures NormalizeHost(host) == host
  {
    hide IsSpace, NameChar, SplitHostPort, TrimSpace;
    NoSpaceAtEnds(host);
    NoPort(host);
    PlainHost(host);
    LowerOfLower(host);
  }

  lemma NoSpaceAtEnds(s: string)
    requires s != "" && HostChars(s)
    ensures TrimSpace(s) == s
  {
  }

  lemma NoPort(s: string)
    requires HostChars(s)
    ensures SplitHostPort(s) == None
  {
    assert ':' !in s;
  }

  lemma PlainHost(s: string)
    requires HostChars(s)
    ensures IsLower(s) && !HasPrefix(s, "[") && !HasSuffix(s, "]")
  {
    if s != "" {
      assert s[0] != '[' && s[|s| - 1] != ']';
      assert s[|s| - 1..][0] == s[|s| - 1];
    }
  }

  lemma {:induction false} SpaceAround(pre: string, s: string, post: string)
    requires s != "" && !IsSpace(s[0]) && !IsSpace(s[|s| - 1])
    requires forall i | 0 <= i < |pre| :: IsSpace(pre[i])
    requires forall i | 0 <= i < |post| :: IsSpace(post[i])
    ensures TrimSpace(pre + s + post) == s
    decreases |pre| + |post|
  {
    hide IsSpace;
    var t := pre + s + post;
    if pre != "" {
      assert t[1..] == pre[1..] + s + post;
      SpaceAround(pre[1..], s, post);
    } else if post != "" {
      assert t[..|t| - 1] == pre + s + post[..|post| - 1] && t[|t| - 1] == post[|post| - 1];
      SpaceAround(pre, s, post[..|post| - 1]);
    } else {
      assert t == s;
    }
  }

  lemma {:induction false} LastIndexIs(s: string, c: char, k: nat)
    requires k < |s| && s[k] == c && forall i | k < i < |s| :: s[i] != c
    ensures LastIndexChar(s, c) == k
  {
    if k < |s| - 1 {
      LastIndexIs(s[..|s| - 1], c, k);
    }
  }

  /** No space, colon or bracket. */
  predicate PlainChar(c: char) {
    !IsSpace(c) && c != ':' && c != '[' && c != ']'
  }

  lemma LetterIsPlain(c: char)
    requires NameChar(LowerChar(c)) || LowerChar(c) == '.'
    ensures PlainChar(c)
  {
  }

  /** Letters of either case, digits, dashes and dots. */
  predicate HostCharsAnyCase(name: string) {
    forall i | 0 <= i < |name| :: NameChar(LowerChar(name[i])) || LowerChar(name[i]) == '.'
  }

  lemma AnyCaseHost(name: string)
    requires HostCharsAnyCase(name)
    ensures forall i | 0 <= i < |name| :: PlainChar(name[i])
  {
    hide NameChar, IsSpace, PlainChar, LowerChar;
    forall i | 0 <= i < |name|
      ensures PlainChar(name[i])
    {
      LetterIsPlain(name[i]);
    }
  }

  predicate PortPart(port: string) {
    port == "" || (port[0] == ':' && forall i | 1 <= i < |port| :: '0' <= port[i] <= '9')
  }

  lemma HostBeforePort(name: string, port: string)
    requires name != "" && PortPart(port)
    requires forall i | 0 <= i < |name| :: PlainChar(name[i])
    ensures SplitHostPort(name + port) == if port == "" then None else Some(name)
  {
    hide IsSpace, LastIndexChar, IndexChar;
    var s := name + port;
    assert forall i | 0 <= i < |s| :: s[i] == if i < |name| then name[i] else port[i - |name|];
    if port == "" {
      assert s == name && ':' !in s;
    } else {
      LastIndexIs(s, ':', |name|);
      assert s[..|name|] == name;
      assert '[' !in s && ']' !in s && ':' !in name && s[0] == name[0];
    }
  }

  /** Case, a final dot, a port and blanks around the host make no difference. */
  lemma NormalizeHostForms(pre: string, name: string, dot: bool, port: string, post: string)
    requires name != "" && HostCharsAnyCase(name) && name[|name| - 1] != '.' && PortPart(port)
    requires forall c | c in pre + post :: c == ' ' || c == '\t'
    ensures NormalizeHost(pre + (name + (if dot then "." else "") + port) + post) == ToLower(name)
  {
    hide NormalizeHost, NameChar, IsSpace, PlainChar, ToLower, LowerChar, HostCharsAnyCase, PortPart,
         TrimSuffix, TrimPrefix, SplitHostPort, TrimSpace;
    var host := name + if dot then "." else "";
    BlanksAreSpace(pre, post);
    PlainHostPart(name, dot);
    CorePart(pre, host, port, post);
    NormalizedFrom(pre + (host + port) + post, host + port, host);
  }

  lemma PlainHostPart(name: string, dot: bool)
    requires name != "" && HostCharsAnyCase(name) && name[|name| - 1] != '.'
    ensures var host := name + if dot then "." else "";
            && (forall i | 0 <= i < |host| :: PlainChar(host[i]))
            && TrimSuffix(TrimPrefix(TrimSuffix(host, "."), "["), "]") == name
  {
    AnyCaseHost(name);
    PlainIsPlain('.');
    hide NameChar, IsSpace, LowerChar;
    StripsDot(name, dot);
    hide TrimSuffix, TrimPrefix;
    var host := name + if dot then "." else "";
    assert forall i | 0 <= i < |host| :: host[i] == if i < |name| then name[i] else '.';
  }

  /** What is left between the blanks, and of that before the port. */
  lemma CorePart(pre: string, host: string, port: string, post: string)
    requires host != "" && PortPart(port) && forall i | 0 <= i < |host| :: PlainChar(host[i])
    requires forall i | 0 <= i < |pre| :: IsSpace(pre[i])
    requires forall i | 0 <= i < |post| :: IsSpace(post[i])
    ensures TrimSpace(pre + (host + port) + post) == host + port
    ensures SplitHostPort(host + port) == if port == "" then None else Some(host)
    ensures port == "" ==> host + port == host
  {
    hide IsSpace, SplitHostPort, TrimSpace;
    var core := host + port;
    PlainIsPlain(core[|core| - 1]);
    assert core[0] == host[0] && (port == "" ==> core == host);
    HostBeforePort(host, port);
    SpaceAround(pre, core, post);
  }

  lemma BlanksAreSpace(pre: string, post: string)
    requires forall c | c in pre + post :: c == ' ' || c == '\t'
    ensures forall i | 0 <= i < |pre| :: IsSpace(pre[i])
    ensures forall i | 0 <= i < |post| :: IsSpace(post[i])
  {
    assert forall i | 0 <= i < |pre| :: pre[i] in pre + post;
    assert forall i | 0 <= i < |post| :: post[i] in pre + post;
  }

  lemma PlainIsPlain(c: char)
    ensures c == '.' || '0' <= c <= '9' ==> PlainChar(c)
    ensures c == ':' ==> !IsSpace(c)
  {
  }

  lemma StripsDot(name: string, dot: bool)
    requires name != "" && name[|name| - 1] != '.'
    requires forall i | 0 <= i < |name| :: name[i] != '[' && name[i] != ']'
    ensures TrimSuffix(TrimPrefix(TrimSuffix(name + (if dot then "." else ""), "."), "["), "]") == name
  {
    var s := name + if dot then "." else "";
    assert s[|s| - 1..] == [s[|s| - 1]];
    assert name[|name| - 1..] == [name[|name| - 1]];
    assert TrimSuffix(s, ".") == name;
    assert name[0] != '[';
  }

  lemma {:induction false} IndexIs(s: string, c: char, k: nat)
    requires k < |s| && s[k] == c && forall i | 0 <= i < k :: s[i] != c
    ensures IndexChar(s, c) == k
  {
    if k > 0 {
      IndexIs(s[1..], c, k - 1);
    }
  }

  lemma CharsOfBracketed(name: string, port: string, i: nat)
    requires i < |name| + 2 + |port|
    ensures var n := |name| + 1;
            ("[" + name + "]" + port)[i] ==
            if i == 0 then '[' else if i < n then name[i - 1] else if i == n then ']' else port[i - n - 1]
  {
  }

  lemma BracketIndices(name: string, port: string)
    requires port != "" && PortPart(port) && forall i | 0 <= i < |name| :: name[i] != '[' && name[i] != ']'
    ensures var s, n := "[" + name + "]" + port, |name| + 1;
            IndexChar(s, ']') == n && LastIndexChar(s, ':') == n + 1
  {
    hide LastIndexChar, IndexChar;
    var s, n := "[" + name + "]" + port, |name| + 1;
    forall i | 0 <= i < |s|
      ensures s[i] == if i == 0 then '[' else if i < n then name[i - 1] else if i == n then ']' else port[i - n - 1]
    {
      CharsOfBracketed(name, port, i);
    }
    IndexIs(s, ']', n);
    LastIndexIs(s, ':', n + 1);
  }

  lemma BracketSlices(name: string, port: string)
    requires PortPart(port) && forall i | 0 <= i < |name| :: name[i] != '[' && name[i] != ']'
    ensures var s, n := "[" + name + "]" + port, |name| + 1;
            s[0] == '[' && s[1..n] == name && s[n + 1..] == port && '[' !in s[1..] && ']' !in s[n + 1..]
  {
    var s, n := "[" + name + "]" + port, |name| + 1;
    assert s[1..] == name + "]" + port;
  }

  lemma BracketsAndPort(name: string, port: string)
    requires port != "" && PortPart(port) && forall i | 0 <= i < |name| :: name[i] != '[' && name[i] != ']'
    ensures SplitHostPort("[" + name + "]" + port) == Some(name)
  {
    hide LastIndexChar, IndexChar, PortPart;
    BracketIndices(name, port);
    BracketSlices(name, port);
  }

  lemma BracketsNoPort(name: string)
    requires forall i | 0 <= i < |name| :: name[i] != '[' && name[i] != ']'
    ensures SplitHostPort("[" + name + "]") == None
  {
    hide LastIndexChar, IndexChar;
    var s, n := "[" + name + "]", |name| + 1;
    assert s[0] == '[' && s[n] == ']';
    assert forall i | 1 <= i < n :: s[i] == name[i - 1];
    IndexIs(s, ']', n);
    assert LastIndexChar(s, ':') <= n;
  }

  lemma BracketsAlone(name: string)
    requires name != "" && name[0] != '[' && name[|name| - 1] != '.' && name[|name| - 1] != ']'
    ensures TrimSuffix(TrimPrefix(TrimSuffix("[" + name + "]", "."), "["), "]") == name
    ensures TrimSuffix(TrimPrefix(TrimSuffix(name, "."), "["), "]") == name
  {
    var s := "[" + name + "]";
    assert s[|s| - 1..] == "]" && s[0] == '[' && s[1..] == name + "]";
    assert (name + "]")[|name|..] == "]";
    assert name[|name| - 1..] == [name[|name| - 1]];
  }

  lemma NormalizedFrom(host: string, core: string, name: string)
    requires TrimSpace(host) == core
    requires SplitHostPort(core) == Some(name) || (SplitHostPort(core) == None && core == name)
    ensures NormalizeHost(host) == ToLower(TrimSuffix(TrimPrefix(TrimSuffix(name, "."), "["), "]"))
  {
    hide ToLower, TrimSuffix, TrimPrefix, SplitHostPort, TrimSpace;
  }

  /** Brackets around an address, with a port or without, are taken off. */
  lemma BracketedHost(name: string, port: string)
    requires name != "" && PortPart(port) && name[|name| - 1] != '.'
    requires forall i | 0 <= i < |name| :: name[i] != '[' && name[i] != ']'
    ensures NormalizeHost("[" + name + "]" + port) == ToLower(name)
  {
    hide NormalizeHost, IsSpace, ToLower, TrimSuffix, TrimPrefix, SplitHostPort, TrimSpace;
    var s := "[" + name + "]" + port;
    BracketsAlone(name);
    EndsOfBracketed(name, port);
    NoSpaceInBrackets(s);
    if port == "" {
      assert s == "[" + name + "]";
      BracketsNoPort(name);
      NormalizedFrom(s, s, s);
    } else {
      BracketsAndPort(name, port);
      NormalizedFrom(s, s, name);
    }
  }

  lemma EndsOfBracketed(name: string, port: string)
    requires PortPart(port)
    ensures var s := "[" + name + "]" + port;
            s[0] == '[' && (s[|s| - 1] == ']' || s[|s| - 1] == ':' || '0' <= s[|s| - 1] <= '9')
  {
    var s := "[" + name + "]" + port;
    CharsOfBracketed(name, port, |s| - 1);
  }

  lemma NoSpaceInBrackets(s: string)
    requires s != "" && s[0] == '['
    requires s[|s| - 1] == ']' || s[|s| - 1] == ':' || '0' <= s[|s| - 1] <= '9'
    ensures TrimSpace(s) == s
  {
  }

  // ----- path mounts ------------------------------------------------------------------------

  predicate PathHasPrefix(path: string, mount: string) {
    path == mount || HasPrefix(path, mount + "/")
  }

  /** A mount covers a path when the mount's segments are the path's first segments. */
  lemma CoverIsSegmentPrefix(path: string, mount: string)
    ensures PathHasPrefix(path, mount) <==> Split(mount, '/') <= Split(path, '/')
  {
    PrefixIsPartsPrefix(path, mount, '/');
  }

  function Mount(s: Service): string {
    NormalizePath(s.path)
  }

  predicate Covers(s: Service, path: string) {
    Mount(s) != "" && PathHasPrefix(path, Mount(s))
  }

  /** Among the first n services: services[i] covers the path, no mount that does is longer, and no
      earlier one is as long. */
  predicate IsBestOf(services: seq<Service>, path: string, n: nat, i: int)
    requires n <= |services|
  {
    && 0 <= i < n && Covers(services[i], path)
    && (forall j | 0 <= j < n && Covers(services[j], path) ::
          |Mount(services[j])| <= |Mount(services[i])|)
    && (forall j | 0 <= j < i && Covers(services[j], path) ::
          |Mount(services[j])| < |Mount(services[i])|)
  }

  predicate IsBest(services: seq<Service>, path: string, i: int) {
    IsBestOf(services, path, |services|, i)
  }

  predicate NoneCovers(services: seq<Service>, path: string, n: nat)
    requires n <= |services|
  {
    forall j | 0 <= j < n :: !Covers(services[j], path)
  }

  /** One round of the loop over the services: at is the best of the first n, or -1. */
  lemma BestStep(services: seq<Service>, path: string, n: nat, at: int)
    requires n < |services|
    requires if at < 0 then NoneCovers(services, path, n) else IsBestOf(services, path, n, at)
    ensures var svc := services[n];
            if Covers(svc, path) && (at < 0 || |Mount(svc)| > |Mount(services[at])|)
            then IsBestOf(services, path, n + 1, n)
            else if at < 0 then NoneCovers(services, path, n + 1)
            else IsBestOf(services, path, n + 1, at)
  {
    hide Covers, Mount;
  }

  /** Mounts that cover the same path and are equally long are the same. */
  lemma EqualLengthSameMount(path: string, a: string, b: string)
    requires PathHasPrefix(path, a) && PathHasPrefix(path, b) && |a| == |b|
    ensures a == b
  {
    assert a == path[..|a|] && b == path[..|b|];
  }

  lemma {:induction false} BestExists(services: seq<Service>, path: string, n: nat)
    requires n <= |services|
    ensures NoneCovers(services, path, n) || exists i :: IsBestOf(services, path, n, i)
  {
    hide IsBestOf, Covers, Mount;
    if n > 0 {
      BestExists(services, path, n - 1);
      if NoneCovers(services, path, n - 1) {
        BestStep(services, path, n - 1, -1);
      } else {
        var i :| IsBestOf(services, path, n - 1, i);
        BestIsCover(services, path, n - 1, i);
        BestStep(services, path, n - 1, i);
      }
    }
  }

  lemma BestIsCover(services: seq<Service>, path: string, n: nat, i: int)
    requires n <= |services| && IsBestOf(services, path, n, i)
    ensures 0 <= i < n && !NoneCovers(services, path, n)
  {
  }

  /** The index of the service matchPath picks, or -1. */
  ghost function BestIndex(services: seq<Service>, path: string): (i: int)
    ensures if i >= 0 then IsBest(services, path, i) else NoneCovers(services, path, |services|)
  {
    BestExists(services, path, |services|);
    if NoneCovers(services, path, |services|) then -1
    else
      var i :| IsBestOf(services, path, |services|, i);
      i
  }

  lemma BestIsUnique(services: seq<Service>, path: string, i: int)
    requires if i < 0 then NoneCovers(services, path, |services|) else IsBest(services, path, i)
    ensures i < 0 ==> BestIndex(services, path) == -1
    ensures i >= 0 ==> BestIndex(services, path) == i
  {
  }

  const NO_SERVICE := Service("", 0, "", false, 0)
  const NO_APP := App("", [])

  method MatchPath(app: App, path: string) returns (best: Service, bestMount: string, found: bool)
    ensures var i := BestIndex(app.services, path);
            && found == (i >= 0)
            && best == (if i >= 0 then app.services[i] else NO_SERVICE)
            && bestMount == (if i >= 0 then Mount(app.services[i]) else "")
  {
    hide Covers, IsBestOf, BestIndex;
    best, bestMount, found := NO_SERVICE, "", false;
    ghost var at := -1;
    for k := 0 to |app.services|
      invariant found == (at >= 0) && -1 <= at < k
      invariant best == (if found then app.services[at] else NO_SERVICE)
      invariant bestMount == if found then Mount(app.services[at]) else ""
      invariant if found then IsBestOf(app.services, path, k, at) else NoneCovers(app.services, path, k)
    {
      BestStep(app.services, path, k, at);
      var svc := app.services[k];
      var mount := NormalizePath(svc.path);
      CoversMeans(svc, path);
      if mount == "" || !PathHasPrefix(path, mount) {
        continue;
      }
      if !found || |mount| > |bestMount| {
        best, bestMount, found := svc, mount, true;
        at := k;
      }
    }
    BestIsUnique(app.services, path, at);
  }

  lemma CoversMeans(s: Service, path: string)
    ensures Covers(s, path) <==> NormalizePath(s.path) != "" && PathHasPrefix(path, NormalizePath(s.path))
  {
  }

  // ----- resolve ----------------------------------------------------------------------------

  datatype Kind = Proxy | Apex | UnknownHost | UnknownApp | UnknownService | NoDefault

  /** The result record; the zero values stand for what was not determined. */
  datatype Route = Route(kind: Kind, host: string, appName: string, svcName: string,
                         app: App, svc: Service, mount: string)

  /** Where in the domain a normalized host points: the labels before the domain, if there are any
      and the host is under the domain. */
  function SubLabels(h: string, domain: string): Option<seq<string>> {
    if HasSuffix(h, "." + domain) && |h| > |domain| + 1 then Some(Labels(h[..|h| - |domain| - 1])) else None
  }

  /** The route to a service of a known app: the one named by the host, or else the best mount, or
      else the default service. */
  ghost function RouteInApp(h: string, a: App, svcName: string, path: string): Route {
    var best := BestIndex(a.services, path);
    if svcName != "" then
      match Lookup(a.services, SvcName, svcName)
      case Some(s) => Route(Proxy, h, a.name, svcName, a, s, "")
      case None => Route(UnknownService, h, a.name, svcName, a, NO_SERVICE, "")
    else if best >= 0 then
      Route(Proxy, h, a.name, a.services[best].name, a, a.services[best], Mount(a.services[best]))
    else
      match Lookup(a.services, SvcName, DEFAULT_SERVICE)
      case Some(s) => Route(Proxy, h, a.name, s.name, a, s, "")
      case None => Route(NoDefault, h, a.name, DEFAULT_SERVICE, a, NO_SERVICE, "")
  }

  ghost function ResolveTo(apps: seq<App>, domain: string, host: string, path: string): Route {
    var h := NormalizeHost(host);
    if h == domain then Route(Apex, h, "", "", NO_APP, NO_SERVICE, "")
    else
      match SubLabels(h, domain)
      case None => Route(UnknownHost, h, "", "", NO_APP, NO_SERVICE, "")
      case Some(labels) =>
        if |labels| > 2 then Route(UnknownHost, h, "", "", NO_APP, NO_SERVICE, "")
        else
          var appName, svcName := labels[|labels| - 1], if |labels| == 2 then labels[0] else "";
          match Lookup(apps, AppName, appName)
          case None => Route(UnknownApp, h, appName, svcName, NO_APP, NO_SERVICE, "")
          case Some(a) => RouteInApp(h, a, svcName, path)
  }

  method Resolve(apps: seq<App>, domain: string, host: string, path: string) returns (r: Route)
    ensures r == ResolveTo(apps, domain, host, path)
  {
    hide NormalizeHost, Split, Find;
    var h := NormalizeHost(host);
    r := Route(UnknownHost, h, "", "", NO_APP, NO_SERVICE, "");
    if h == domain {
      return r.(kind := Apex);
    }
    var suffix := "." + domain;
    if !HasSuffix(h, suffix) || |h| == |suffix| {
      return r;
    }
    var labels := Split(h[..|h| - |suffix|], '.');
    if |labels| == 1 {
      r := r.(appName := labels[0]);
    } else if |labels| == 2 {
      r := r.(svcName := labels[0], appName := labels[1]);
    } else {
      return r;
    }
    var app := Lookup(apps, AppName, r.appName);
    if app.None? {
      return r.(kind := UnknownApp);
    }
    r := r.(app := app.value);
    if r.svcName != "" {
      var svc := Lookup(r.app.services, SvcName, r.svcName);
      if svc.None? {
        return r.(kind := UnknownService);
      }
      return r.(kind := Proxy, svc := svc.value);
    }
    var svc, mount, ok := MatchPath(r.app, path);
    if ok {
      return r.(kind := Proxy, svc := svc, svcName := svc.name, mount := mount);
    }
    var default_ := Lookup(r.app.services, SvcName, DEFAULT_SERVICE);
    if default_.Some? {
      return r.(kind := Proxy, svc := default_.value, svcName := default_.value.name);
    }
    return r.(kind := NoDefault, svcName := DEFAULT_SERVICE);
  }

  /** A route by a mount has the longest covering mount of the app, that of its service, and the path
      lies under it; on every other route there is none. So a prefix is only ever stripped from a
      path that has it. */
  lemma RoutedMount(apps: seq<App>, domain: string, host: string, path: string)
    ensures var r := ResolveTo(apps, domain, host, path);
            r.mount != "" ==>
              && r.kind == Proxy && r.svc in r.app.services && r.mount == Mount(r.svc)
              && Split(r.mount, '/') <= Split(path, '/')
              && forall s | s in r.app.services && Covers(s, path) :: |Mount(s)| <= |r.mount|
  {
    hide NormalizeHost, Labels, Find, Split;
    var r := ResolveTo(apps, domain, host, path);
    CoverIsSegmentPrefix(path, r.mount);
  }

  // ----- routable hosts and certificates ----------------------------------------------------

  lemma FoundName<T>(s: seq<T>, key: T -> string, k: string)
    requires Lookup(s, key, k).Some?
    ensures Lookup(s, key, k).value in s && key(Lookup(s, key, k).value) == k
  {
  }

  /** A host that leads to a service is the domain with one or two labels in front: an app's name,
      with a service's name before it, or with nothing before its dot. */
  lemma RoutedHostLabels(apps: seq<App>, domain: string, host: string, path: string)
    requires WellFormed(apps)
    requires ResolveTo(apps, domain, host, path).kind == Proxy
    ensures var h := NormalizeHost(host);
            && HasSuffix(h, "." + domain)
            && var labels := Labels(h[..|h| - |domain| - 1]);
               && 1 <= |labels| <= 2 && ValidName(labels[|labels| - 1])
               && (|labels| == 2 ==> labels[0] == "" || ValidName(labels[0]))
  {
    hide NormalizeHost, Split, Find, ValidName;
    var h := NormalizeHost(host);
    var labels := SubLabels(h, domain).value;
    FoundName(apps, AppName, labels[|labels| - 1]);
    var a := Lookup(apps, AppName, labels[|labels| - 1]).value;
    assert WellFormedApp(a);
    if |labels| == 2 && labels[0] != "" {
      FoundName(a.services, SvcName, labels[0]);
      assert ValidService(Lookup(a.services, SvcName, labels[0]).value);
    }
  }

  lemma LabelledIsCertifiable(h: string, domain: string, front: string)
    requires ValidDomain(domain) && h == front + "." + domain
    requires var labels := Labels(front);
             && 1 <= |labels| <= 2 && ValidName(labels[|labels| - 1])
             && (|labels| == 2 ==> labels[0] == "" || ValidName(labels[0]))
    ensures Certifiable(h, domain) <==> |h| <= MAX_HOST && !HasPrefix(h, ".")
  {
    hide Split, ValidName, ValidDomainLabel;
    NoEmptyName();
    if front == "" { SplitWhole(front, '.'); }
    EndsOfLabels(front);
    assert h[..|front|] == front && h[|front|..] == "." + domain;
    assert h[0] == front[0] && (HasPrefix(h, ".") <==> h[0] == '.');
  }

  lemma NoEmptyName()
    ensures !ValidName("")
  {
  }

  /** The hosts the proxy answers and the hosts the issuer certifies: every host that leads somewhere
      gets a certificate, unless it is too long or begins with a dot. */
  lemma RoutableIsCertifiable(apps: seq<App>, domain: string, host: string, path: string)
    requires ValidDomain(domain) && WellFormed(apps)
    requires var kind := ResolveTo(apps, domain, host, path).kind; kind == Proxy || kind == Apex
    ensures var h := ResolveTo(apps, domain, host, path).host;
            Certifiable(h, domain) <==> |h| <= 253 && !HasPrefix(h, ".")
  {
    hide NormalizeHost, Labels, Find, ValidName, WellFormed, ValidDomain, ResolveTo, Certifiable;
    var r := ResolveTo(apps, domain, host, path);
    HostOfRoute(apps, domain, host, path);
    if r.kind == Proxy {
      RoutedHostLabels(apps, domain, host, path);
      var front := r.host[..|r.host| - |domain| - 1];
      assert r.host == front + ("." + domain);
      assert front + ("." + domain) == front + "." + domain;
      LabelledIsCertifiable(r.host, domain, front);
    } else {
      ApexIsCertifiable(domain);
    }
  }

  lemma HostOfRoute(apps: seq<App>, domain: string, host: string, path: string)
    ensures var r := ResolveTo(apps, domain, host, path);
            r.host == NormalizeHost(host) && (r.kind == Apex <==> r.host == domain)
  {
    hide NormalizeHost, Labels, Find;
  }

  lemma ApexIsCertifiable(domain: string)
    requires ValidDomain(domain)
    ensures Certifiable(domain, domain) && !HasPrefix(domain, ".") && |domain| <= MAX_HOST
  {
    hide Split;
    DomainShape(domain);
  }

  lemma AppShape(apps: seq<App>, a: App)
    requires WellFormed(apps) && a in apps
    ensures Lookup(apps, AppName, a.name) == Some(a)
    ensures ValidName(a.name) && HostChars(a.name) && '.' !in a.name && Labels(a.name) == [a.name]
  {
    hide Split, Find;
    SortedIsUnique(apps, AppName);
    var i :| 0 <= i < |apps| && apps[i] == a;
    LookupAt(apps, AppName, i);
    assert WellFormedApp(a);
    SplitWhole(a.name, '.');
  }

  /** What resolve sees of a host in front of the domain. */
  lemma HostUnderDomain(domain: string, front: string)
    requires ValidDomain(domain) && front != "" && HostChars(front)
    ensures var h := front + "." + domain;
            NormalizeHost(h) == h && h != domain && SubLabels(h, domain) == Some(Labels(front))
  {
    hide Split, NormalizeHost, ValidDomainLabel;
    DomainShape(domain);
    var h := front + "." + domain;
    assert forall i | 0 <= i < |h| ::
        h[i] == if i < |front| then front[i] else if i == |front| then '.' else domain[i - |front| - 1];
    NormalizeHostFixes(h);
    assert h[..|h| - |domain| - 1] == front && h[|front|..] == "." + domain;
  }

  // ----- every kind of host -----------------------------------------------------------------

  /** A registered app under a valid domain. */
  ghost predicate RegisteredApp(apps: seq<App>, domain: string, a: App) {
    ValidDomain(domain) && WellFormed(apps) && a in apps
  }

  /** What resolve does with a host of one or two labels in front of the domain. */
  lemma HostOfLabels(apps: seq<App>, domain: string, front: string, path: string)
    requires ValidDomain(domain) && front != "" && HostChars(front)
    ensures var h, labels := front + "." + domain, Labels(front);
            var r := ResolveTo(apps, domain, h, path);
            && (|labels| > 2 ==> r.kind == UnknownHost)
            && (|labels| <= 2 ==>
                  var name, svc := labels[|labels| - 1], if |labels| == 2 then labels[0] else "";
                  match Lookup(apps, AppName, name)
                  case None => r.kind == UnknownApp && r.appName == name
                  case Some(a) => r == RouteInApp(h, a, svc, path))
  {
    hide NormalizeHost, Find, ValidDomain, Split, RouteInApp;
    HostUnderDomain(domain, front);
  }

  lemma AppHostRoute(apps: seq<App>, domain: string, a: App, path: string)
    requires RegisteredApp(apps, domain, a)
    ensures ResolveTo(apps, domain, a.name + "." + domain, path) == RouteInApp(a.name + "." + domain, a, "", path)
  {
    hide ResolveTo, Find, ValidDomain, Split, RouteInApp, WellFormed, ValidName;
    AppShape(apps, a);
    NoEmptyName();
    HostOfLabels(apps, domain, a.name, path);
  }

  /** A path under a mount of the app is routed by the longest mount that covers it, the first in the
      registry's order of equal ones, and by no other. */
  lemma PathUnderMount(apps: seq<App>, domain: string, a: App, path: string, i: nat)
    requires RegisteredApp(apps, domain, a) && i < |a.services|
    ensures var h, s := a.name + "." + domain, a.services[i];
            (ResolveTo(apps, domain, h, path) == Route(Proxy, h, a.name, s.name, a, s, Mount(s)) && Mount(s) != "") <==>
            IsBest(a.services, path, i)
  {
    hide ResolveTo, Find, ValidDomain, WellFormed, Mount;
    AppHostRoute(apps, domain, a, path);
    var b := BestIndex(a.services, path);
    if b >= 0 && a.services[b] == a.services[i] {
      assert WellFormed(apps) && a in apps;
      UniqueServices(apps, a, b, i);
    }
    if IsBest(a.services, path, i) { BestIsUnique(a.services, path, i); }
    CoversHasMount(a.services[i], path);
  }

  lemma CoversHasMount(s: Service, path: string)
    ensures Covers(s, path) ==> Mount(s) != ""
  {
  }

  lemma UniqueServices(apps: seq<App>, a: App, i: int, j: int)
    requires WellFormed(apps) && a in apps && 0 <= i < |a.services| && 0 <= j < |a.services|
    requires a.services[i] == a.services[j]
    ensures i == j
  {
    assert WellFormedApp(a);
    SortedIsUnique(a.services, SvcName);
  }

  /** A path under no mount goes to the service web, if the app has one. */
  lemma PathUnderNoMount(apps: seq<App>, domain: string, a: App, path: string)
    requires RegisteredApp(apps, domain, a)
    requires forall s | s in a.services :: !Covers(s, path)
    ensures var h := a.name + "." + domain;
            var r := ResolveTo(apps, domain, h, path);
            && (forall s | s in a.services && s.name == "web" :: r == Route(Proxy, h, a.name, "web", a, s, ""))
            && ((forall s | s in a.services :: s.name != "web") ==>
                  r.kind == NoDefault && r.app == a && r.svcName == "web")
  {
    hide ResolveTo, ValidDomain, Covers, ValidName, ValidService;
    AppHostRoute(apps, domain, a, path);
    BestIsUnique(a.services, path, -1);
    assert WellFormedApp(a);
    SortedIsUnique(a.services, SvcName);
    forall s | s in a.services && s.name == "web"
      ensures Lookup(a.services, SvcName, "web") == Some(s)
    {
      var i :| 0 <= i < |a.services| && a.services[i] == s;
      LookupAt(a.services, SvcName, i);
    }
    hide WellFormed, WellFormedApp, BestIndex;
  }

  /** A label that is no service of the app, and a name that is no app. */
  lemma Unregistered(apps: seq<App>, domain: string, a: App, svc: string, name: string, path: string)
    requires RegisteredApp(apps, domain, a)
    requires svc != "" && HostChars(svc) && '.' !in svc && forall s | s in a.services :: s.name != svc
    requires name != "" && HostChars(name) && '.' !in name && forall b | b in apps :: b.name != name
    ensures var r := ResolveTo(apps, domain, svc + "." + a.name + "." + domain, path);
            r.kind == UnknownService && r.app == a && r.svcName == svc
    ensures ResolveTo(apps, domain, name + "." + domain, path).kind == UnknownApp
    ensures ResolveTo(apps, domain, svc + "." + name + "." + domain, path).kind == UnknownApp
  {
    hide ResolveTo, ValidDomain, WellFormed, Split, BestIndex;
    AppShape(apps, a);
    SplitWhole(svc, '.');
    SplitWhole(name, '.');
    SplitConcat(svc, a.name, '.');
    SplitConcat(svc, name, '.');
    HostOfLabels(apps, domain, svc + "." + a.name, path);
    HostOfLabels(apps, domain, name, path);
    HostOfLabels(apps, domain, svc + "." + name, path);
  }

  /** Hosts outside the domain, or with three labels and more in front of it, lead nowhere; the domain
      itself is the apex. */
  lemma OtherHosts(apps: seq<App>, domain: string, host: string, path: string)
    requires ValidDomain(domain)
    ensures var h, r := NormalizeHost(host), ResolveTo(apps, domain, host, path);
            && (r.kind == Apex <==> h == domain)
            && (r.kind == UnknownHost <==>
                  h != domain && (!(PartsSuffix(Labels(domain), Labels(h)) && h != "." + domain)
                                  || |Labels(h)| > |Labels(domain)| + 2))
  {
    hide NormalizeHost, Find, ValidDomain, Split, RouteInApp;
    var h := NormalizeHost(host);
    SuffixIsPartsSuffix(h, domain, '.');
    if HasSuffix(h, "." + domain) {
      UnderDomainLabels(h, domain);
    }
    KindInApp();
  }

  lemma KindInApp()
    ensures forall h, a, svcName, path :: RouteInApp(h, a, svcName, path).kind != UnknownHost
                                          && RouteInApp(h, a, svcName, path).kind != Apex
  {
  }

  /** A host with a leading dot leads where the app's own host does, whatever the path, and is refused
      a certificate. */
  lemma LeadingDotRoutes(apps: seq<App>, domain: string, a: App, path: string)
    requires RegisteredApp(apps, domain, a)
    ensures var h := a.name + "." + domain;
            && ResolveTo(apps, domain, "." + h, path) == ResolveTo(apps, domain, h, path).(host := "." + h)
            && !Certifiable("." + h, domain)
  {
    hide ResolveTo, Find, ValidDomain, ValidName, Split, WellFormed, Certifiable, BestIndex;
    var front := "." + a.name;
    AppShape(apps, a);
    NoEmptyName();
    assert "" + ['.'] + a.name == front;
    SplitConcat("", a.name, '.');
    SplitWhole("", '.');
    assert Labels(front) == ["", a.name];
    HostOfLabels(apps, domain, front, path);
    HostOfLabels(apps, domain, a.name, path);
    assert front + "." + domain == "." + (a.name + "." + domain);
    LabelledIsCertifiable(front + "." + domain, domain, front);
  }
}
