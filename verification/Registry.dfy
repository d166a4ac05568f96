/** The registry as a value: a list of apps sorted by name, each with a list of services sorted by
    name (internal/registry/store.go). It stands for a finite map from (app, service) to records,
    and the store's updates are updates of that map. */
module Registry {
  import opened Wrappers
  import opened Services
  import opened Keyed

  function AppName(a: App): string { a.name }

  function SvcName(s: Service): string { s.name }

  /** Store.App followed by App.Service. */
  function Get(apps: seq<App>, app: string, service: string): Option<Service> {
    match Lookup(apps, AppName, app)
    case None => None
    case Some(a) => Lookup(a.services, SvcName, service)
  }

  /** Both levels strictly sorted, names valid, records valid with normalized paths, and no app
      without services. */
  ghost predicate WellFormed(apps: seq<App>) {
    && Sorted(apps, AppName)
    && forall a | a in apps :: WellFormedApp(a)
  }

  ghost predicate WellFormedApp(a: App) {
    && ValidName(a.name) && a.services != []
    && Sorted(a.services, SvcName)
    && forall s | s in a.services :: ValidService(s) && Normalized(s.path)
  }

  // ----- updates, as the store makes them on its private copy -------------------------------

  function SortServices(a: App): App {
    App(a.name, Sort(a.services, SvcName))
  }

  /** sortApps */
  function SortApps(apps: seq<App>): seq<App> {
    var sorted := Sort(apps, AppName);
    seq(|sorted|, i requires 0 <= i < |sorted| => SortServices(sorted[i]))
  }

  /** The services of app after an upsert. */
  function WithService(apps: seq<App>, app: string, svc: Service): App {
    var i := Find(apps, AppName, app);
    App(app, if i < 0 then [svc] else Upsert(apps[i].services, SvcName, svc))
  }

  function Put(apps: seq<App>, app: string, svc: Service): seq<App> {
    SortApps(Upsert(apps, AppName, WithService(apps, app, svc)))
  }

  function RemoveApp(apps: seq<App>, i: nat): seq<App>
    requires i < |apps|
  {
    SortApps(RemoveAt(apps, i))
  }

  function RemoveService(apps: seq<App>, i: nat, j: nat): seq<App>
    requires i < |apps| && j < |apps[i].services|
  {
    var rest := RemoveAt(apps[i].services, j);
    SortApps(if rest == [] then RemoveAt(apps, i) else apps[i := App(apps[i].name, rest)])
  }

  // ----- committing a candidate -------------------------------------------------------------

  /** A candidate with unique names and valid records, not yet sorted. */
  ghost predicate Acceptable(apps: seq<App>) {
    && Unique(apps, AppName)
    && forall a | a in apps :: AcceptableApp(a)
  }

  ghost predicate AcceptableApp(a: App) {
    && ValidName(a.name) && a.services != []
    && Unique(a.services, SvcName)
    && forall s | s in a.services :: ValidService(s) && Normalized(s.path)
  }

  lemma WellFormedIsAcceptable(apps: seq<App>)
    requires WellFormed(apps)
    ensures Acceptable(apps)
  {
    hide ValidName, ValidService, Normalized;
    SortedIsUnique(apps, AppName);
    forall a | a in apps
      ensures AcceptableApp(a)
    {
      SortedIsUnique(a.services, SvcName);
    }
  }

  lemma SortedAppWellFormed(a: App)
    requires AcceptableApp(a)
    ensures WellFormedApp(SortServices(a))
  {
    hide ValidName, ValidService, Normalized;
    SortSorts(a.services, SvcName);
    SortMembers(a.services, SvcName, a.services[0]);
    forall s | s in SortServices(a).services
      ensures s in a.services
    {
      SortMembers(a.services, SvcName, s);
    }
  }

  /** What commitLocked publishes is well-formed and stands for the candidate's map. */
  lemma CommitKeepsMap(apps: seq<App>, app: string, service: string)
    requires Acceptable(apps)
    ensures WellFormed(SortApps(apps))
    ensures Get(SortApps(apps), app, service) == Get(apps, app, service)
  {
    hide AcceptableApp, WellFormedApp;
    var sorted, result := Sort(apps, AppName), SortApps(apps);
    SortSorts(apps, AppName);
    forall i | 0 <= i < |result|
      ensures sorted[i] in apps && WellFormedApp(result[i])
    {
      SortMembers(apps, AppName, sorted[i]);
      SortedAppWellFormed(sorted[i]);
    }
    SortKeepsMap(apps, AppName, app);
    SameNamesSameIndex(sorted, result, app);
    var i := Find(sorted, AppName, app);
    if i >= 0 {
      SortKeepsServices(sorted[i], service);
    }
  }

  lemma SortKeepsServices(a: App, service: string)
    requires AcceptableApp(a)
    ensures Lookup(SortServices(a).services, SvcName, service) == Lookup(a.services, SvcName, service)
  {
    SortKeepsMap(a.services, SvcName, service);
  }

  lemma {:induction false} SameNamesSameIndex(s: seq<App>, t: seq<App>, name: string)
    requires |s| == |t| && forall i | 0 <= i < |s| :: s[i].name == t[i].name
    ensures Find(s, AppName, name) == Find(t, AppName, name)
  {
    if s != [] {
      SameNamesSameIndex(s[1..], t[1..], name);
    }
  }

  // ----- the updates refine updates of the map ----------------------------------------------

  lemma WithServiceAcceptable(apps: seq<App>, app: string, svc: Service, s: string)
    requires Acceptable(apps) && ValidName(app) && ValidService(svc) && Normalized(svc.path)
    ensures AcceptableApp(WithService(apps, app, svc))
    ensures Lookup(WithService(apps, app, svc).services, SvcName, s)
            == if s == svc.name then Some(svc) else Get(apps, app, s)
  {
    hide ValidName, ValidService, Normalized;
    var i := Find(apps, AppName, app);
    if i >= 0 {
      assert AcceptableApp(apps[i]);
      UpsertUpdates(apps[i].services, SvcName, svc, s);
    }
  }

  /** Put sets one entry of the map and leaves every other one alone. */
  lemma PutRefinesUpdate(apps: seq<App>, app: string, svc: Service, a: string, s: string)
    requires WellFormed(apps) && ValidName(app) && ValidService(svc) && Normalized(svc.path)
    ensures WellFormed(Put(apps, app, svc))
    ensures Get(Put(apps, app, svc), a, s) == if a == app && s == svc.name then Some(svc) else Get(apps, a, s)
  {
    hide WellFormed, AcceptableApp, ValidName, ValidService, Normalized;
    WellFormedIsAcceptable(apps);
    WithServiceAcceptable(apps, app, svc, s);
    var x := WithService(apps, app, svc);
    UpsertUpdates(apps, AppName, x, a);
    CommitKeepsMap(Upsert(apps, AppName, x), a, s);
  }

  /** RemoveApp deletes an app's entries of the map and no others. */
  lemma RemoveAppRefinesDelete(apps: seq<App>, i: nat, a: string, s: string)
    requires WellFormed(apps) && i < |apps|
    ensures WellFormed(RemoveApp(apps, i))
    ensures Get(RemoveApp(apps, i), a, s) == if a == apps[i].name then None else Get(apps, a, s)
  {
    hide WellFormed, AcceptableApp;
    WellFormedIsAcceptable(apps);
    RemoveAtDeletes(apps, AppName, i, a);
    CommitKeepsMap(RemoveAt(apps, i), a, s);
  }

  lemma ReplaceServices(apps: seq<App>, i: nat, rest: seq<Service>, a: string, s: string)
    requires Acceptable(apps) && i < |apps| && AcceptableApp(App(apps[i].name, rest))
    ensures var t := apps[i := App(apps[i].name, rest)];
            && Acceptable(t)
            && Get(t, a, s) == if a == apps[i].name then Lookup(rest, SvcName, s) else Get(apps, a, s)
  {
    hide AcceptableApp;
    var x := App(apps[i].name, rest);
    LookupAt(apps, AppName, i);
    UpsertUpdates(apps, AppName, x, a);
    assert Upsert(apps, AppName, x) == apps[i := x];
  }

  /** RemoveService deletes one entry of the map, and the app with its last one. */
  lemma RemoveServiceRefinesDelete(apps: seq<App>, i: nat, j: nat, a: string, s: string)
    requires WellFormed(apps) && i < |apps| && j < |apps[i].services|
    ensures WellFormed(RemoveService(apps, i, j))
    ensures Get(RemoveService(apps, i, j), a, s)
            == if a == apps[i].name && s == apps[i].services[j].name then None else Get(apps, a, s)
  {
    hide WellFormed;
    WellFormedIsAcceptable(apps);
    var rest := RemoveAt(apps[i].services, j);
    assert AcceptableApp(apps[i]);
    RemoveAtDeletes(apps[i].services, SvcName, j, s);
    LookupAt(apps, AppName, i);
    if rest == [] {
      RemoveAtDeletes(apps, AppName, i, a);
      OnlyService(apps[i].services, j, s);
      CommitKeepsMap(RemoveAt(apps, i), a, s);
    } else {
      assert AcceptableApp(App(apps[i].name, rest));
      ReplaceServices(apps, i, rest, a, s);
      CommitKeepsMap(apps[i := App(apps[i].name, rest)], a, s);
    }
  }

  lemma OnlyService(services: seq<Service>, j: nat, s: string)
    requires j < |services| && RemoveAt(services, j) == [] && Unique(services, SvcName)
    ensures s != services[j].name ==> Lookup(services, SvcName, s) == None
  {
    RemoveAtDeletes(services, SvcName, j, s);
  }

  // ----- the representation is canonical ----------------------------------------------------

  lemma SortAppsOfWellFormed(apps: seq<App>)
    requires WellFormed(apps)
    ensures SortApps(apps) == apps
  {
    SortOfSorted(apps, AppName);
    forall i | 0 <= i < |apps|
      ensures SortServices(apps[i]) == apps[i]
    {
      assert WellFormedApp(apps[i]);
      SortOfSorted(apps[i].services, SvcName);
    }
  }

  /** A well-formed registry is determined by the map it stands for. */
  lemma WellFormedIsCanonical(x: seq<App>, y: seq<App>)
    requires WellFormed(x) && WellFormed(y)
    requires forall a, s :: Get(x, a, s) == Get(y, a, s)
    ensures x == y
  {
    hide WellFormedApp;
    forall a
      ensures Lookup(x, AppName, a) == Lookup(y, AppName, a)
    {
      SameApp(x, y, a);
    }
    SortedIsCanonical(x, y, AppName);
  }

  lemma SameApp(x: seq<App>, y: seq<App>, a: string)
    requires forall b | b in x :: WellFormedApp(b)
    requires forall b | b in y :: WellFormedApp(b)
    requires forall b, s :: Get(x, b, s) == Get(y, b, s)
    ensures Lookup(x, AppName, a) == Lookup(y, AppName, a)
  {
    hide ValidName, ValidService, Normalized;
    var i, j := Find(x, AppName, a), Find(y, AppName, a);
    if i >= 0 {
      HasAService(x[i]);
      assert Get(x, a, x[i].services[0].name) == Get(y, a, x[i].services[0].name);
    }
    if j >= 0 {
      HasAService(y[j]);
      assert Get(x, a, y[j].services[0].name) == Get(y, a, y[j].services[0].name);
    }
    if i >= 0 && j >= 0 {
      forall s
        ensures Lookup(x[i].services, SvcName, s) == Lookup(y[j].services, SvcName, s)
      {
        assert Get(x, a, s) == Get(y, a, s);
      }
      SortedIsCanonical(x[i].services, y[j].services, SvcName);
    }
  }

  lemma HasAService(a: App)
    requires WellFormedApp(a)
    ensures Lookup(a.services, SvcName, a.services[0].name) == Some(a.services[0])
  {
    SortedIsUnique(a.services, SvcName);
    LookupAt(a.services, SvcName, 0);
  }

  // ----- the order --------------------------------------------------------------------------

  /** Apps, and the services of each app, are in ascending order of their names. */
  lemma NamesAscend(apps: seq<App>)
    requires WellFormed(apps)
    ensures forall i, j | 0 <= i < j < |apps| :: Before(apps[i].name, apps[j].name)
    ensures forall a, i, j | a in apps && 0 <= i < j < |a.services| :: Before(a.services[i].name, a.services[j].name)
  {
    hide ValidName, ValidService, Normalized, Less, Before;
    forall i, j | 0 <= i < j < |apps|
      ensures Before(apps[i].name, apps[j].name)
    {
      LessIsBefore(apps[i].name, apps[j].name);
    }
    forall a, i, j | a in apps && 0 <= i < j < |a.services|
      ensures Before(a.services[i].name, a.services[j].name)
    {
      assert WellFormedApp(a);
      LessIsBefore(a.services[i].name, a.services[j].name);
    }
  }

  /** Whatever is sorted, no app, and no service of an app, comes out behind one with a later name. */
  lemma SortAppsAscends(apps: seq<App>)
    ensures var sorted := SortApps(apps);
            && |sorted| == |apps|
            && (forall i, j | 0 <= i < j < |sorted| :: !Before(sorted[j].name, sorted[i].name))
            && (forall a, i, j | a in sorted && 0 <= i < j < |a.services| ::
                  !Before(a.services[j].name, a.services[i].name))
  {
    hide Less, Before, Sort;
    var sorted := SortApps(apps);
    SortAscends(apps, AppName);
    SortLength(apps, AppName);
    forall i, j | 0 <= i < j < |sorted|
      ensures !Before(sorted[j].name, sorted[i].name)
    {
      LessIsBefore(sorted[j].name, sorted[i].name);
      assert !Less(AppName(Sort(apps, AppName)[j]), AppName(Sort(apps, AppName)[i]));
    }
    forall a, i, j | a in sorted && 0 <= i < j < |a.services|
      ensures !Before(a.services[j].name, a.services[i].name)
    {
      var k :| 0 <= k < |sorted| && sorted[k] == a;
      SortAscends(Sort(apps, AppName)[k].services, SvcName);
      LessIsBefore(a.services[j].name, a.services[i].name);
      assert !Less(SvcName(a.services[j]), SvcName(a.services[i]));
    }
  }
}
