/** The addresses a registration advertises (internal/registry/registry.go, URLs) lead back to the
    service that advertised them (internal/proxy/route.go). */
module AdvertisedUrls {
  import opened Text
  import opened Wrappers
  import opened Services
  import opened Hosts
  import opened Keyed
  import opened Registry
  import opened Routing
  import opened PathEncoding

  /** A registered service: services[i] of an app of a well-formed registry, under a valid domain. */
  ghost predicate Registered(apps: seq<App>, domain: string, a: App, i: int) {
    ValidDomain(domain) && WellFormed(apps) && a in apps && 0 <= i < |a.services|
  }

  lemma RegisteredService(apps: seq<App>, domain: string, a: App, i: int)
    requires Registered(apps, domain, a, i)
    ensures var s := a.services[i];
            && ValidName(s.name) && ValidPath(s.path) && Mount(s) == s.path && Normalized(s.path)
            && Lookup(a.services, SvcName, s.name) == Some(s)
            && HostChars(s.name) && '.' !in s.name && Labels(s.name) == [s.name]
  {
    hide Split, Find;
    assert WellFormedApp(a);
    var s := a.services[i];
    assert ValidService(s) && Normalized(s.path);
    NormalizePathNormalizes(s.path);
    SortedIsUnique(a.services, SvcName);
    LookupAt(a.services, SvcName, i);
    SplitWhole(s.name, '.');
  }

  /** No mount captures the root path. */
  lemma RootIsUncovered(apps: seq<App>, domain: string, a: App, i: int)
    requires Registered(apps, domain, a, i)
    ensures BestIndex(a.services, "/") == -1
  {
    hide WellFormed, ValidDomain;
    forall j | 0 <= j < |a.services|
      ensures !Covers(a.services[j], "/")
    {
      assert Registered(apps, domain, a, j) by { OtherRegistered(apps, domain, a, i, j); }
      RegisteredService(apps, domain, a, j);
    }
    BestIsUnique(a.services, "/", -1);
  }

  lemma OtherRegistered(apps: seq<App>, domain: string, a: App, i: int, j: int)
    requires Registered(apps, domain, a, i) && 0 <= j < |a.services|
    ensures Registered(apps, domain, a, j)
  {
  }

  /** What resolve does with the app's own host. */
  lemma AppHostRoutes(apps: seq<App>, domain: string, a: App, i: int, path: string)
    requires Registered(apps, domain, a, i)
    ensures var h := a.name + "." + domain;
            ResolveTo(apps, domain, h, path) == RouteInApp(h, a, "", path)
  {
    hide ResolveTo, RouteInApp, WellFormed, ValidDomain;
    AppHostRoute(apps, domain, a, path);
  }

  /** The service's own host leads to it whatever the path. */
  lemma ServiceHostRoutes(apps: seq<App>, domain: string, a: App, i: int, path: string)
    requires Registered(apps, domain, a, i)
    ensures var s, h := a.services[i], a.services[i].name + "." + a.name + "." + domain;
            ResolveTo(apps, domain, h, path) == Route(Proxy, h, a.name, s.name, a, s, "")
  {
    hide NormalizeHost, Find, WellFormed, ValidDomain, ValidName, BestIndex, Split;
    var s := a.services[i];
    AppShape(apps, a);
    RegisteredService(apps, domain, a, i);
    NoEmptyName();
    var front := s.name + "." + a.name;
    SplitConcat(s.name, a.name, '.');
    assert Labels(front) == [s.name, a.name];
    HostUnderDomain(domain, front);
  }

  /** What is advertised: the app's own host for the default service, the service's host always, and
      the app's host with the mount if there is one. The three are different, so none is left out
      as a repetition. */
  lemma AdvertisedAddresses(s: Service, app: string, domain: string)
    requires ValidService(s)
    ensures var host := app + "." + domain;
            URLs(s, app, domain) ==
              (if s.name == DEFAULT_SERVICE then [Url(host, "/")] else [])
              + [Url(s.name + "." + host, "/")]
              + (if Mount(s) != "" then [Url(host, Mount(s) + "/")] else [])
  {
    var host := app + "." + domain;
    assert s.name + "." + app + "." + domain == s.name + "." + host;
    assert |s.name + "." + host| > |host|;
    NormalizePathNormalizes(s.path);
  }

  /** Both addresses without a mount lead to the service. */
  lemma HostUrlsWork(apps: seq<App>, domain: string, a: App, i: int, u: Url)
    requires Registered(apps, domain, a, i)
    requires u in URLs(a.services[i], a.name, domain) && u.path == "/"
    ensures var r := ResolveTo(apps, domain, u.host, u.path);
            r.kind == Proxy && r.app == a && r.svc == a.services[i] && r.mount == ""
  {
    hide ResolveTo, Find, BestIndex, WellFormed, ValidDomain, Mount;
    var s := a.services[i];
    RegisteredService(apps, domain, a, i);
    if u.host == s.name + "." + a.name + "." + domain {
      ServiceHostRoutes(apps, domain, a, i, "/");
    } else {
      MountUrlIsNotRoot(s, u);
      assert s.name == DEFAULT_SERVICE && u.host == a.name + "." + domain;
      AppHostRoutes(apps, domain, a, i, "/");
      RootIsUncovered(apps, domain, a, i);
    }
  }

  lemma MountUrlIsNotRoot(s: Service, u: Url)
    requires u.path == "/"
    ensures NormalizePath(s.path) != "" ==> u.path != NormalizePath(s.path) + "/"
  {
  }

  /** The address with the mount, when its path is requested as it stands, leads to the service by
      its mount if and only if no earlier service of the app has the same mount. */
  lemma MountUrlWorks(apps: seq<App>, domain: string, a: App, i: int)
    requires Registered(apps, domain, a, i) && Mount(a.services[i]) != ""
    ensures var s, path := a.services[i], Mount(a.services[i]) + "/";
            var r := ResolveTo(apps, domain, a.name + "." + domain, path);
            (r.kind == Proxy && r.svc == s && r.mount == Mount(s))
              <==> forall j | 0 <= j < i :: Mount(a.services[j]) != Mount(s)
  {
    hide ResolveTo, Find, BestIndex, WellFormed, ValidDomain, Mount;
    var s, mount := a.services[i], Mount(a.services[i]);
    AppHostRoutes(apps, domain, a, i, mount + "/");
    var b := BestIndex(a.services, mount + "/");
    MountCovers(a.services[i], mount);
    assert b >= 0;
    OtherRegistered(apps, domain, a, i, b);
    RegisteredService(apps, domain, a, b);
    RegisteredService(apps, domain, a, i);
    CoveringMount(a.services[b], mount);
    SameServiceSameIndex(apps, domain, a, b, i);
    assert Mount(a.services[b]) == mount;
    forall j | 0 <= j < |a.services| && Mount(a.services[j]) == mount
      ensures b <= j
    {
      MountCovers(a.services[j], mount);
    }
  }

  lemma MountCovers(s: Service, mount: string)
    requires Mount(s) == mount != ""
    ensures Covers(s, mount + "/")
  {
  }

  /** A mount that covers another one's address is not longer. */
  lemma CoveringMount(s: Service, mount: string)
    requires Covers(s, mount + "/") && Normalized(Mount(s))
    ensures |Mount(s)| <= |mount| && (|Mount(s)| == |mount| ==> Mount(s) == mount)
  {
    assert (mount + "/")[..|mount|] == mount;
    if mount + "/" != Mount(s) {
      assert Mount(s) == (mount + "/")[..|Mount(s)|];
    }
  }

  lemma SameServiceSameIndex(apps: seq<App>, domain: string, a: App, i: int, j: int)
    requires Registered(apps, domain, a, i) && Registered(apps, domain, a, j)
    ensures a.services[i] == a.services[j] ==> i == j
  {
    assert WellFormedApp(a);
    SortedIsUnique(a.services, SvcName);
  }

  /** What the proxy sees is the decoded path. The address with the mount, sent as it was advertised,
      leads to the service by its mount if and only if, in addition, the mount contains neither a
      percent sign nor a control character. */
  lemma EncodedMountUrlWorks(apps: seq<App>, domain: string, a: App, i: int)
    requires Registered(apps, domain, a, i) && Mount(a.services[i]) != ""
    ensures var s, decoded := a.services[i], RequestPath(Mount(a.services[i]) + "/");
            (&& decoded.Some?
             && var r := ResolveTo(apps, domain, a.name + "." + domain, decoded.value);
                r.kind == Proxy && r.svc == s && r.mount == Mount(s))
              <==> && (forall c | c in Mount(s) :: c != '%' && !Control(c))
                   && forall j | 0 <= j < i :: Mount(a.services[j]) != Mount(s)
  {
    hide ResolveTo, Find, BestIndex, WellFormed, ValidDomain, Mount, Decode;
    var s, mount := a.services[i], Mount(a.services[i]);
    assert forall c :: c in mount + "/" <==> c in mount || c == '/';
    DecodesToItself(mount + "/");
    MountUrlWorks(apps, domain, a, i);
    var decoded := RequestPath(mount + "/");
    if decoded.Some? && '%' in mount {
      DecodedIsShorter(mount);
      AppHostRoutes(apps, domain, a, i, decoded.value);
      if BestIndex(a.services, decoded.value) >= 0 {
        CoversOnlyLonger(a.services[BestIndex(a.services, decoded.value)], decoded.value);
      }
    }
  }

  lemma DecodedIsShorter(mount: string)
    requires '%' in mount && Decode(mount + "/").Some?
    ensures |Decode(mount + "/").value| < |mount|
  {
    DecodesToItself("/");
    DecodedRestIsLonger(mount, "/");
  }

  lemma CoversOnlyLonger(s: Service, path: string)
    requires Covers(s, path)
    ensures |Mount(s)| <= |path|
  {
  }

  // ----- the slice of addresses -------------------------------------------------------------

  function Rendered(urls: seq<Url>): seq<string> {
    seq(|urls|, i requires 0 <= i < |urls| => urls[i].Render())
  }

  predicate Separable(u: Url) {
    '/' !in u.host && u.path != "" && u.path[0] == '/'
  }

  /** Leaving out repeated strings is leaving out repeated addresses. */
  lemma AddRendered(urls: seq<Url>, u: Url)
    requires Separable(u) && forall x | x in urls :: Separable(x)
    ensures Rendered(Add(urls, u)) == Add(Rendered(urls), u.Render())
    ensures forall x | x in Add(urls, u) :: Separable(x)
  {
    if u in urls {
      var i :| 0 <= i < |urls| && urls[i] == u;
      assert Rendered(urls)[i] == u.Render();
    } else {
      forall i | 0 <= i < |urls|
        ensures Rendered(urls)[i] != u.Render()
      {
        assert urls[i] in urls;
        if urls[i].Render() == u.Render() { RenderInjective(urls[i], u); }
      }
    }
  }

  lemma SeparableHosts(s: Service, app: string, domain: string)
    requires ValidService(s) && ValidName(app) && ValidDomain(domain)
    ensures Separable(Url(app + "." + domain, "/"))
    ensures Separable(Url(s.name + "." + app + "." + domain, "/"))
    ensures NormalizePath(s.path) != "" ==> Separable(Url(app + "." + domain, NormalizePath(s.path) + "/"))
  {
    DomainShape(domain);
    NormalizePathNormalizes(s.path);
    assert '/' !in domain && '/' !in app && '/' !in s.name;
  }

  method BuildURLs(s: Service, app: string, domain: string) returns (urls: seq<string>)
    requires ValidService(s) && ValidName(app) && ValidDomain(domain)
    ensures urls == Rendered(URLs(s, app, domain))
  {
    hide ValidService, ValidName, ValidDomain, NormalizePath, Separable, Rendered, Add;
    SeparableHosts(s, app, domain);
    ghost var list: seq<Url> := [];
    urls := [];
    NothingRendered();
    if s.name == DEFAULT_SERVICE {
      var u := Url(app + "." + domain, "/");
      AddRendered(list, u);
      urls, list := Add(urls, u.Render()), Add(list, u);
    }
    var v := Url(s.name + "." + app + "." + domain, "/");
    AddRendered(list, v);
    urls, list := Add(urls, v.Render()), Add(list, v);
    var p := NormalizePath(s.path);
    if p != "" {
      var w := Url(app + "." + domain, p + "/");
      AddRendered(list, w);
      urls, list := Add(urls, w.Render()), Add(list, w);
    }
  }

  /** The strings: https addresses of the app for its service web, of the service, and of its mount,
      which is its path without final slashes, if anything is left of it. */
  lemma RenderedAddresses(s: Service, app: string, domain: string, mount: string)
    requires ValidService(s) && WithoutFinalSlashes(s.path, mount)
    ensures var host := app + "." + domain;
            Rendered(URLs(s, app, domain)) ==
              (if s.name == "web" then ["https://" + host + "/"] else [])
              + ["https://" + (s.name + "." + host) + "/"]
              + (if exists i :: 0 <= i < |s.path| && s.path[i] != '/' then ["https://" + host + (mount + "/")] else [])
  {
    AdvertisedAddresses(s, app, domain);
    NormalizePathTrims(s.path);
    WithoutFinalSlashesUnique(s.path, mount, NormalizePath(s.path));
    PathIsMount(s.path);
    hide URLs, NormalizePath, ValidName, ValidPath, WithoutFinalSlashes;
  }

  lemma NothingRendered()
    ensures Rendered([]) == []
  {
  }
}
