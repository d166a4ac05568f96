/** The registry as the program holds it (internal/registry/store.go, Store): app structs with
    slices of services, edited on a private copy, persisted, and only then published. */
module RegistryStore {
  import opened Wrappers
  import opened Services
  import opened Keyed
  import R = Registry

  /** An App struct: its services are the first len elements of arr. */
  datatype AppRef = AppRef(name: string, arr: array<Service>, len: nat)

  ghost predicate Fits(h: AppRef) {
    h.len <= h.arr.Length
  }

  /** Every slice lies within its array, and no two share one. */
  ghost predicate Slices(apps: seq<AppRef>) {
    && (forall i | 0 <= i < |apps| :: Fits(apps[i]))
    && (forall i, j | 0 <= i < j < |apps| :: apps[i].arr != apps[j].arr)
  }

  ghost function Arrays(apps: seq<AppRef>): set<array<Service>> {
    set h | h in apps :: h.arr
  }

  ghost function Val(h: AppRef): App
    requires Fits(h)
    reads h.arr
  {
    App(h.name, h.arr[..h.len])
  }

  ghost function Vals(apps: seq<AppRef>): (vals: seq<App>)
    requires Slices(apps)
    reads Arrays(apps)
    ensures |vals| == |apps| && forall i | 0 <= i < |apps| :: vals[i] == Val(apps[i])
  {
    if apps == [] then [] else Vals(apps[..|apps| - 1]) + [Val(apps[|apps| - 1])]
  }

  /** cloneApps: the same values in arrays of their own. */
  method CloneApps(apps: seq<AppRef>) returns (out: seq<AppRef>)
    requires Slices(apps)
    ensures Slices(out) && Vals(out) == Vals(apps)
    ensures fresh(Arrays(out))
  {
    hide Vals;
    out := [];
    for k := 0 to |apps|
      invariant Slices(out) && |out| == k
      invariant forall i | 0 <= i < k :: fresh(out[i].arr)
      invariant forall i | 0 <= i < k :: Val(out[i]) == Val(apps[i])
    {
      var a := CopyOf(apps[k]);
      out := out + [AppRef(apps[k].name, a, apps[k].len)];
    }
  }

  method CopyOf(h: AppRef) returns (a: array<Service>)
    requires Fits(h)
    ensures fresh(a) && a.Length == h.len && a[..] == h.arr[..h.len]
  {
    a := new Service[h.len];
    forall i | 0 <= i < h.len {
      a[i] := h.arr[i];
    }
  }

  /** indexLocked */
  method IndexOf(apps: seq<AppRef>, name: string) returns (i: int)
    requires Slices(apps)
    ensures i == Find(Vals(apps), R.AppName, name)
  {
    i := 0;
    while i < |apps|
      invariant 0 <= i <= |apps|
      invariant forall j | 0 <= j < i :: apps[j].name != name
    {
      if apps[i].name == name {
        return;
      }
      i := i + 1;
    }
    i := -1;
  }

  /** The services loop of Put and RemoveService. */
  method IndexOfService(h: AppRef, name: string) returns (j: int)
    requires Fits(h)
    ensures j == Find(Val(h).services, R.SvcName, name)
  {
    j := 0;
    while j < h.len
      invariant 0 <= j <= h.len
      invariant forall k | 0 <= k < j :: h.arr[k].name != name
    {
      if h.arr[j].name == name {
        return;
      }
      j := j + 1;
    }
    j := -1;
  }

  /** Sets services[j] in place, or appends to the slice. */
  method UpsertInto(h: AppRef, svc: Service) returns (h': AppRef)
    requires Fits(h)
    modifies h.arr
    ensures Fits(h') && Val(h') == App(h.name, Upsert(old(Val(h)).services, R.SvcName, svc))
    ensures h'.arr == h.arr || fresh(h'.arr)
  {
    var j := IndexOfService(h, svc.name);
    if j >= 0 {
      h.arr[j] := svc;
      return h;
    }
    var a := new Service[h.len + 1];
    forall i | 0 <= i < h.len {
      a[i] := h.arr[i];
    }
    a[h.len] := svc;
    h' := AppRef(h.name, a, h.len + 1);
  }

  /** append(svcs[:j], svcs[j+1:]...): moves the rest down within the same array. */
  method RemoveFrom(h: AppRef, j: nat) returns (h': AppRef)
    requires Fits(h) && j < h.len
    modifies h.arr
    ensures Fits(h') && h'.arr == h.arr
    ensures Val(h') == App(h.name, RemoveAt(old(Val(h)).services, j))
  {
    ghost var s := h.arr[..h.len];
    var k := j;
    while k + 1 < h.len
      invariant j <= k < h.len
      invariant h.arr[..k] == RemoveAt(s, j)[..k] && h.arr[k..h.len] == s[k..]
    {
      assert h.arr[k + 1] == s[k + 1] == RemoveAt(s, j)[k];
      h.arr[k] := h.arr[k + 1];
      k := k + 1;
    }
    h' := AppRef(h.name, h.arr, h.len - 1);
  }

  lemma ReplacedVals(apps: seq<AppRef>, i: nat, h: AppRef)
    requires Slices(apps) && i < |apps| && Fits(h)
    requires forall j | 0 <= j < |apps| && j != i :: apps[j].arr != h.arr
    ensures Slices(apps[i := h]) && Vals(apps[i := h]) == Vals(apps)[i := Val(h)]
  {
    hide Vals;
  }

  lemma AddedVals(apps: seq<AppRef>, h: AppRef)
    requires Slices(apps) && Fits(h) && h.arr !in Arrays(apps)
    ensures Slices(apps + [h]) && Vals(apps + [h]) == Vals(apps) + [Val(h)]
    ensures Arrays(apps + [h]) == Arrays(apps) + {h.arr}
  {
    hide Vals;
    assert forall j | 0 <= j < |apps| :: apps[j].arr in Arrays(apps);
  }

  /** Appends an app with one service to a private copy. */
  method AddApp(copy: seq<AppRef>, name: string, svc: Service) returns (out: seq<AppRef>)
    requires Slices(copy)
    ensures Slices(out) && fresh(Arrays(out) - Arrays(copy))
    ensures Vals(out) == Vals(copy) + [App(name, [svc])]
  {
    hide Vals;
    var a := new Service[1];
    a[0] := svc;
    assert a[..1] == [svc];
    AddedVals(copy, AppRef(name, a, 1));
    out := copy + [AppRef(name, a, 1)];
  }

  /** Upserts a service of one app of a private copy. */
  method UpsertAt(copy: seq<AppRef>, i: nat, svc: Service) returns (out: seq<AppRef>)
    requires Slices(copy) && i < |copy|
    modifies copy[i].arr
    ensures Slices(out) && fresh(Arrays(out) - Arrays(copy))
    ensures Vals(out) == old(Vals(copy))[i := App(copy[i].name, Upsert(old(Vals(copy))[i].services, R.SvcName, svc))]
  {
    hide Vals, Upsert;
    var h := UpsertInto(copy[i], svc);
    assert Vals(copy)[..i] == old(Vals(copy))[..i] && Vals(copy)[i + 1..] == old(Vals(copy))[i + 1..];
    ReplacedVals(copy, i, h);
    out := copy[i := h];
    forall a | a in Arrays(out)
      ensures a in Arrays(copy) || a == h.arr
    {
    }
  }

  /** Removes a service of one app of a private copy, in place. */
  method RemoveServiceAt(copy: seq<AppRef>, i: nat, j: nat) returns (out: seq<AppRef>)
    requires Slices(copy) && i < |copy| && j < copy[i].len
    modifies copy[i].arr
    ensures Slices(out) && Arrays(out) == Arrays(copy)
    ensures |out| == |copy| && out[i].len == copy[i].len - 1
    ensures Vals(out) == old(Vals(copy))[i := App(copy[i].name, RemoveAt(old(Vals(copy))[i].services, j))]
  {
    hide Vals;
    var h := RemoveFrom(copy[i], j);
    assert Vals(copy)[..i] == old(Vals(copy))[..i] && Vals(copy)[i + 1..] == old(Vals(copy))[i + 1..];
    ReplacedVals(copy, i, h);
    out := copy[i := h];
    forall a
      ensures a in Arrays(out) <==> a in Arrays(copy)
    {
      ReplacedArrays(copy, i, h, a);
    }
  }

  lemma ReplacedArrays(apps: seq<AppRef>, i: nat, h: AppRef, a: array<Service>)
    requires i < |apps| && h.arr == apps[i].arr
    ensures a in Arrays(apps[i := h]) <==> a in Arrays(apps)
  {
    if x :| x in apps && x.arr == a {
      var k :| 0 <= k < |apps| && apps[k] == x;
      assert apps[i := h][k] in apps[i := h] && apps[i := h][k].arr == a;
    }
  }

  /** append(apps[:i], apps[i+1:]...) on a private copy. */
  method DropAt(copy: seq<AppRef>, i: nat) returns (out: seq<AppRef>)
    requires Slices(copy) && i < |copy|
    ensures Slices(out) && Arrays(out) <= Arrays(copy)
    ensures Vals(out) == RemoveAt(Vals(copy), i)
  {
    hide Vals;
    out := copy[..i] + copy[i + 1..];
    assert forall k | 0 <= k < |out| :: out[k] == copy[if k < i then k else k + 1];
  }

  method CloneWithout(apps: seq<AppRef>, i: nat) returns (out: seq<AppRef>)
    requires Slices(apps) && i < |apps|
    ensures Slices(out) && fresh(Arrays(out))
    ensures Vals(out) == RemoveAt(Vals(apps), i)
  {
    hide Vals, RemoveAt;
    ghost var v := Vals(apps);
    var clone := CloneApps(apps);
    assert Vals(clone) == v;
    out := DropAt(clone, i);
    assert Vals(clone) == v && Vals(apps) == v;
  }

  // ----- sorting a private copy -------------------------------------------------------------

  function RefName(h: AppRef): string { h.name }

  lemma {:induction false} InsertKeepsSlices(x: AppRef, s: seq<AppRef>)
    requires Slices(s) && Fits(x) && forall i | 0 <= i < |s| :: s[i].arr != x.arr
    ensures Slices(Insert(x, s, RefName))
  {
    if s != [] && !Less(x.name, s[0].name) {
      var t := Insert(x, s[1..], RefName);
      InsertKeepsSlices(x, s[1..]);
      forall i | 0 <= i < |t|
        ensures t[i] == x || t[i] in s[1..]
      {
        InsertMembers(x, s[1..], RefName, t[i]);
      }
    }
  }

  lemma {:induction false} SortKeepsSlices(s: seq<AppRef>)
    requires Slices(s)
    ensures Slices(Sort(s, RefName))
  {
    if s != [] {
      var t := Sort(s[1..], RefName);
      SortKeepsSlices(s[1..]);
      forall i | 0 <= i < |t|
        ensures t[i] in s[1..]
      {
        SortMembers(s[1..], RefName, t[i]);
      }
      InsertKeepsSlices(s[0], t);
    }
  }

  lemma SortKeepsArrays(s: seq<AppRef>)
    ensures Arrays(Sort(s, RefName)) == Arrays(s)
  {
    forall h: AppRef {
      SortMembers(s, RefName, h);
    }
  }

  /** vals are the values of the structs. */
  ghost predicate ValuesOf(s: seq<AppRef>, vals: seq<App>)
    reads Arrays(s)
  {
    |vals| == |s| && forall i | 0 <= i < |s| :: Fits(s[i]) && vals[i] == Val(s[i])
  }

  lemma {:induction false} InsertCommutes(x: AppRef, s: seq<AppRef>, vals: seq<App>)
    requires Fits(x) && ValuesOf(s, vals)
    ensures ValuesOf(Insert(x, s, RefName), Insert(Val(x), vals, R.AppName))
  {
    if s != [] {
      assert ValuesOf(s[1..], vals[1..]);
      InsertCommutes(x, s[1..], vals[1..]);
    }
  }

  lemma {:induction false} SortCommutes(s: seq<AppRef>, vals: seq<App>)
    requires ValuesOf(s, vals)
    ensures ValuesOf(Sort(s, RefName), Sort(vals, R.AppName))
  {
    if s != [] {
      assert ValuesOf(s[1..], vals[1..]);
      SortCommutes(s[1..], vals[1..]);
      InsertCommutes(s[0], Sort(s[1..], RefName), Sort(vals[1..], R.AppName));
    }
  }

  /** sort.Slice on one app's services. */
  method SortSlice(h: AppRef)
    requires Fits(h)
    modifies h.arr
    ensures Val(h) == R.SortServices(old(Val(h)))
  {
    var sorted := Sort(h.arr[..h.len], R.SvcName);
    SortLength(h.arr[..h.len], R.SvcName);
    forall i | 0 <= i < h.len {
      h.arr[i] := sorted[i];
    }
    assert h.arr[..h.len] == sorted;
  }

  /** The second loop of sortApps. */
  method SortSlices(apps: seq<AppRef>)
    requires Slices(apps)
    modifies Arrays(apps)
    ensures forall i | 0 <= i < |apps| :: Val(apps[i]) == R.SortServices(old(Val(apps[i])))
  {
    hide Sort;
    for k := 0 to |apps|
      invariant forall i | 0 <= i < k :: Val(apps[i]) == R.SortServices(old(Val(apps[i])))
      invariant forall i | k <= i < |apps| :: Val(apps[i]) == old(Val(apps[i]))
    {
      assert apps[k].arr in Arrays(apps);
      SortSlice(apps[k]);
    }
  }

  /** sortApps on a private copy. */
  method SortApps(copy: seq<AppRef>) returns (sorted: seq<AppRef>)
    requires Slices(copy)
    modifies Arrays(copy)
    ensures Slices(sorted) && Arrays(sorted) == Arrays(copy)
    ensures Vals(sorted) == R.SortApps(old(Vals(copy)))
  {
    sorted := Sort(copy, RefName);
    SortKeepsSlices(copy);
    SortKeepsArrays(copy);
    SortCommutes(copy, Vals(copy));
    hide Sort, Arrays;
    SortSlices(sorted);
  }

  // ----- the state directory ----------------------------------------------------------------

  /** What can go wrong in saveLocked. Encoding the registry cannot. */
  datatype Fault = MkdirFails | CreateTempFails | WriteFails | SyncFails | CloseFails | RenameFails

  /** registry.json, holding the encoded apps, and the temporary files beside it. seen is every
      content registry.json has had: what a crash at some moment would leave. */
  class Disk {
    var file: Option<seq<App>>
    var temps: nat
    ghost var seen: set<Option<seq<App>>>

    /** saveLocked: writes a temporary file and renames it. */
    method Save(apps: seq<App>, fault: Option<Fault>) returns (ok: bool)
      requires file in seen
      modifies this
      ensures ok <==> fault == None
      ensures file == if ok then Some(apps) else old(file)
      ensures temps == old(temps)
      ensures seen == old(seen) + {file}
    {
      if fault == Some(MkdirFails) || fault == Some(CreateTempFails) {
        return false;
      }
      temps := temps + 1;
      if fault.Some? { // writing, syncing, closing or renaming it failed
        temps := temps - 1; // the deferred os.Remove
        return false;
      }
      file := Some(apps);
      temps := temps - 1; // the temporary file is registry.json now
      seen := seen + {file};
      return true;
    }
  }

  // ----- the store --------------------------------------------------------------------------

  datatype Error = Invalid(code: Code) | NotSaved

  class Store {
    const path: string
    const disk: Disk
    var apps: seq<AppRef>

    ghost predicate Valid()
      reads this`apps, disk`file, disk`seen
    {
      Slices(apps) && disk.file in disk.seen
    }

    ghost function View(): seq<App>
      requires Slices(apps)
      reads this`apps, Arrays(apps)
    {
      Vals(apps)
    }

    /** Memory and registry.json hold the same well-formed registry; before the first write both are
        empty. A store without a path is not persisted. */
    ghost predicate Consistent()
      requires Slices(apps)
      reads this`apps, disk`file, Arrays(apps)
    {
      && R.WellFormed(View())
      && (path != "" ==> disk.file == Some(View()) || (disk.file == None && View() == []))
    }

    /** Open, for a registry.json that is absent, empty (None) or decodes to loaded. */
    constructor (path: string, disk: Disk, loaded: Option<seq<App>>)
      requires disk.file in disk.seen && disk.file == loaded
      ensures this.path == path && this.disk == disk
      ensures Valid() && fresh(Arrays(apps))
      ensures View() == R.SortApps(if loaded.Some? then loaded.value else [])
      ensures loaded.None? || R.WellFormed(loaded.value) ==> Consistent()
    {
      hide R.SortApps, Vals;
      ghost var vals := if loaded.Some? then loaded.value else [];
      if R.WellFormed(vals) { R.SortAppsOfWellFormed(vals); }
      this.path := path;
      this.disk := disk;
      var decoded := Decode(if loaded.Some? then loaded.value else []);
      var sorted := SortApps(decoded);
      apps := sorted;
    }

    // ----- reading ------------------------------------------------------------------------

    /** Apps: a copy that shares no array with the store. */
    method Apps() returns (copy: seq<AppRef>)
      requires Valid()
      ensures Slices(copy) && Vals(copy) == View()
      ensures fresh(Arrays(copy))
      ensures R.WellFormed(View()) ==>
                forall i, j | 0 <= i < j < |View()| :: Before(View()[i].name, View()[j].name)
    {
      hide Vals, Before, R.WellFormed;
      ghost var v := View();
      if R.WellFormed(v) { R.NamesAscend(v); }
      copy := CloneApps(apps);
      assert View() == v;
    }

    /** App: likewise a copy, of one app. */
    method App(name: string) returns (found: Option<AppRef>)
      requires Valid()
      ensures match Lookup(View(), R.AppName, name)
              case None => found == None
              case Some(a) => found.Some? && Fits(found.value) && Val(found.value) == a && fresh(found.value.arr)
    {
      var i := IndexOf(apps, name);
      if i < 0 {
        return None;
      }
      var a := CopyOf(apps[i]);
      assert Val(apps[i]) == View()[i];
      return Some(AppRef(apps[i].name, a, apps[i].len));
    }

    // ----- committing ---------------------------------------------------------------------

    /** commitLocked: sorts the private copy, persists it, and publishes it only if that worked. */
    method Commit(copy: seq<AppRef>, fault: Option<Fault>) returns (ok: bool)
      requires Valid() && Slices(copy) && Arrays(copy) !! Arrays(apps)
      modifies this`apps, disk, Arrays(copy)
      ensures Valid()
      ensures ok <==> path == "" || fault == None
      ensures ok ==> View() == R.SortApps(old(Vals(copy))) && Arrays(apps) == Arrays(copy)
      ensures !ok ==> apps == old(apps)
      ensures disk.file == if ok && path != "" then Some(View()) else old(disk.file)
      ensures disk.temps == old(disk.temps)
      ensures disk.seen == old(disk.seen) + {disk.file}
    {
      hide Vals, R.SortApps;
      var sorted := SortApps(copy);
      if path != "" {
        var vals := Contents(sorted);
        var saved := disk.Save(vals, fault);
        if !saved {
          return false;
        }
      }
      apps := sorted;
      return true;
    }

    /** The array values handed to the encoder. */
    method Contents(apps: seq<AppRef>) returns (vals: seq<App>)
      requires Slices(apps)
      ensures vals == Vals(apps)
    {
      vals := [];
      for k := 0 to |apps|
        invariant |vals| == k && forall i | 0 <= i < k :: vals[i] == Val(apps[i])
      {
        vals := vals + [Services.App(apps[k].name, apps[k].arr[..apps[k].len])];
      }
    }

    // ----- updates ------------------------------------------------------------------------

    /** The state after an update that would make the registry next. */
    twostate predicate Updated(next: seq<Services.App>, ok: bool)
      requires old(Slices(apps)) && Slices(apps)
      reads this, disk, Arrays(apps)
    {
      && View() == (if ok then next else old(View()))
      && disk.file == (if ok && path != "" then Some(View()) else old(disk.file))
      && disk.temps == old(disk.temps)
      && disk.seen == old(disk.seen) + {disk.file}
    }

    /** Put: an invalid request changes nothing, a valid one is an upsert of its normalized record,
        and a failed save leaves memory and disk as they were. No array that existed before the
        call is written to, so earlier copies are unaffected; and whatever the store holds that it
        did not hold before is new, so writing to an earlier copy does not affect the store. */
    method Put(app: string, svc: Service, fault: Option<Fault>) returns (r: Result<Service, Error>)
      requires Valid()
      modifies this`apps, disk
      ensures Valid() && (old(Consistent()) ==> Consistent())
      ensures !ValidName(app) ==> r == Err(Invalid(InvalidName))
      ensures ValidName(app) && Validate(svc).Some? ==> r == Err(Invalid(Validate(svc).value))
      ensures r.Err? && r.error.Invalid? ==> apps == old(apps) && unchanged(disk)
      ensures ValidName(app) && ValidService(svc) ==>
                && r == (if path == "" || fault == None then Ok(svc.(path := NormalizePath(svc.path))) else Err(NotSaved))
                && Updated(R.Put(old(View()), app, svc.(path := NormalizePath(svc.path))), r.Ok?)
      ensures fresh(Arrays(apps) - old(Arrays(apps)))
      ensures r.Ok? ==> WithoutFinalSlashes(svc.path, r.value.path)
    {
      hide Vals, R.WellFormed, R.Get, R.SortApps, R.WithService, Upsert, NormalizePath, WithoutFinalSlashes;
      NormalizePathTrims(svc.path);
      if !ValidName(app) {
        return Err(Invalid(InvalidName));
      }
      if Validate(svc).Some? {
        return Err(Invalid(Validate(svc).value));
      }
      var svc' := svc.(path := NormalizePath(svc.path));
      NormalizePathNormalizes(svc.path);
      if R.WellFormed(View()) { R.PutRefinesUpdate(View(), app, svc', app, svc.name); }
      var copy := CandidateWith(app, svc');
      var ok := Commit(copy, fault);
      return if ok then Ok(svc') else Err(NotSaved);
    }

    /** RemoveApp: true if there was such an app. */
    method RemoveApp(app: string, fault: Option<Fault>) returns (r: Result<bool, Error>)
      requires Valid()
      modifies this`apps, disk
      ensures Valid() && (old(Consistent()) ==> Consistent())
      ensures var i := Find(old(View()), R.AppName, app);
              if i < 0 then r == Ok(false) && apps == old(apps) && unchanged(disk)
              else && r == (if path == "" || fault == None then Ok(true) else Err(NotSaved))
                   && Updated(R.RemoveApp(old(View()), i), r.Ok?)
      ensures fresh(Arrays(apps) - old(Arrays(apps)))
    {
      hide Vals, Find, R.WellFormed, R.Get, R.SortApps, RemoveAt;
      ghost var v := View();
      var i := IndexOf(apps, app);
      assert View() == v;
      if i < 0 {
        return Ok(false);
      }
      if R.WellFormed(View()) { R.RemoveAppRefinesDelete(View(), i, app, app); }
      var copy := CloneWithout(apps, i);
      var ok := Commit(copy, fault);
      return if ok then Ok(true) else Err(NotSaved);
    }

    /** RemoveService: true if there was such a service. Its app goes with the last one. */
    method RemoveService(app: string, service: string, fault: Option<Fault>) returns (r: Result<bool, Error>)
      requires Valid()
      modifies this`apps, disk
      ensures Valid() && (old(Consistent()) ==> Consistent())
      ensures var i := Find(old(View()), R.AppName, app);
              var j := if i < 0 then -1 else Find(old(View())[i].services, R.SvcName, service);
              if j < 0 then r == Ok(false) && apps == old(apps) && unchanged(disk)
              else && r == (if path == "" || fault == None then Ok(true) else Err(NotSaved))
                   && Updated(R.RemoveService(old(View()), i, j), r.Ok?)
      ensures fresh(Arrays(apps) - old(Arrays(apps)))
    {
      hide Vals, Find, R.WellFormed, R.Get, R.SortApps, RemoveAt;
      ghost var v := View();
      var i := IndexOf(apps, app);
      assert View() == v;
      if i < 0 {
        return Ok(false);
      }
      assert v[i] == Val(apps[i]);
      var j := IndexOfService(apps[i], service);
      assert View() == v;
      if j < 0 {
        return Ok(false);
      }
      if R.WellFormed(View()) { R.RemoveServiceRefinesDelete(View(), i, j, app, service); }
      var copy := CandidateWithout(i, j);
      var ok := Commit(copy, fault);
      return if ok then Ok(true) else Err(NotSaved);
    }

    /** The private copy that RemoveService commits. */
    method CandidateWithout(i: nat, j: nat) returns (copy: seq<AppRef>)
      requires Valid() && i < |apps| && j < apps[i].len
      ensures Slices(copy) && fresh(Arrays(copy))
      ensures var rest := RemoveAt(View()[i].services, j);
              Vals(copy) == if rest == [] then RemoveAt(View(), i) else View()[i := Services.App(View()[i].name, rest)]
    {
      hide Vals, RemoveAt;
      ghost var v := View();
      var clone := CloneApps(apps);
      assert Vals(clone) == v && Val(clone[i]) == v[i] && Val(apps[i]) == v[i];
      assert clone[i].arr in Arrays(clone);
      RemovedLength(v, i, j, Services.App(v[i].name, RemoveAt(v[i].services, j)));
      copy := RemoveServiceAt(clone, i, j);
      assert |Vals(copy)[i].services| == |v[i].services| - 1;
      if copy[i].len == 0 {
        copy := DropAt(copy, i);
      }
      assert View() == v;
    }

    /** The private copy that Put commits. */
    method CandidateWith(app: string, svc: Service) returns (copy: seq<AppRef>)
      requires Valid()
      ensures Slices(copy) && fresh(Arrays(copy))
      ensures Vals(copy) == Upsert(View(), R.AppName, R.WithService(View(), app, svc))
    {
      hide Vals, Upsert, Find, R.WithService;
      ghost var v := View();
      UpsertShape(v, app, svc);
      var i := IndexOf(apps, app);
      assert View() == v;
      if i < 0 {
        copy := CloneWithApp(app, svc);
      } else {
        copy := CloneWithService(i, svc);
      }
      assert View() == v;
    }

    method CloneWithApp(app: string, svc: Service) returns (copy: seq<AppRef>)
      requires Valid()
      ensures Slices(copy) && fresh(Arrays(copy))
      ensures Vals(copy) == View() + [Services.App(app, [svc])]
    {
      hide Vals;
      ghost var v := View();
      var clone := CloneApps(apps);
      assert Vals(clone) == v;
      copy := AddApp(clone, app, svc);
      assert View() == v;
      FreshTogether(copy, clone);
    }

    method CloneWithService(i: nat, svc: Service) returns (copy: seq<AppRef>)
      requires Valid() && i < |apps|
      ensures Slices(copy) && fresh(Arrays(copy))
      ensures Vals(copy) == View()[i := Services.App(View()[i].name, Upsert(View()[i].services, R.SvcName, svc))]
    {
      hide Vals, Upsert;
      ghost var v := View();
      var clone := CloneApps(apps);
      assert Vals(clone) == v;
      assert clone[i].arr in Arrays(clone) && clone[i].name == v[i].name;
      copy := UpsertAt(clone, i, svc);
      assert View() == v;
      FreshTogether(copy, clone);
    }
  }

  // ----- opening ----------------------------------------------------------------------------

  /** What reading registry.json can find. */
  datatype Content = Absent | Unreadable | Empty | Garbage | Holds(apps: seq<App>)

  datatype OpenError = NotRead | NotParsed

  /** Open: a file that cannot be read or parsed is an error, a missing or empty one is an empty
      registry. */
  method Open(path: string, disk: Disk, content: Content) returns (r: Result<Store, OpenError>)
    requires disk.file in disk.seen
    requires content.Holds? ==> disk.file == Some(content.apps)
    requires content.Absent? || content.Empty? ==> disk.file == None
    ensures content.Unreadable? ==> r == Err(NotRead)
    ensures content.Garbage? ==> r == Err(NotParsed)
    ensures !content.Unreadable? && !content.Garbage? ==>
              var vals := if content.Holds? then content.apps else [];
              && r.Ok? && fresh(r.value) && r.value.path == path && r.value.disk == disk
              && r.value.Valid() && fresh(Arrays(r.value.apps))
              && r.value.View() == R.SortApps(vals)
              && (R.WellFormed(vals) ==> r.value.Consistent())
  {
    hide R.SortApps, R.WellFormed, Vals;
    match content
    case Unreadable => return Err(NotRead);
    case Garbage => return Err(NotParsed);
    case Holds(apps) =>
      var store := new Store(path, disk, Some(apps));
      return Ok(store);
    case _ =>
      var store := new Store(path, disk, None);
      return Ok(store);
  }

  /** New arrays and arrays of a fresh copy are new. */
  twostate lemma FreshTogether(new out: seq<AppRef>, new copy: seq<AppRef>)
    requires fresh(Arrays(copy)) && fresh(Arrays(out) - Arrays(copy))
    ensures fresh(Arrays(out))
  {
  }

  lemma RemovedLength(apps: seq<App>, i: nat, j: nat, a: App)
    requires i < |apps| && j < |apps[i].services|
    ensures |RemoveAt(apps[i].services, j)| == |apps[i].services| - 1
    ensures RemoveAt(apps[i := a], i) == RemoveAt(apps, i)
  {
  }

  lemma UpsertShape(apps: seq<App>, app: string, svc: Service)
    ensures var i := Find(apps, R.AppName, app);
            Upsert(apps, R.AppName, R.WithService(apps, app, svc))
            == if i < 0 then apps + [App(app, [svc])]
               else apps[i := App(apps[i].name, Upsert(apps[i].services, R.SvcName, svc))]
  {
  }

  /** json.Unmarshal: the decoded apps in arrays of their own. */
  method Decode(vals: seq<App>) returns (out: seq<AppRef>)
    ensures Slices(out) && Vals(out) == vals
    ensures fresh(Arrays(out))
  {
    hide Vals;
    out := [];
    for k := 0 to |vals|
      invariant Slices(out) && |out| == k
      invariant forall i | 0 <= i < k :: fresh(out[i].arr)
      invariant forall i | 0 <= i < k :: Val(out[i]) == vals[i]
    {
      var svcs := vals[k].services;
      var a := new Service[|svcs|];
      forall i | 0 <= i < |svcs| {
        a[i] := svcs[i];
      }
      assert a[..] == svcs;
      out := out + [AppRef(vals[k].name, a, |svcs|)];
    }
  }
}
