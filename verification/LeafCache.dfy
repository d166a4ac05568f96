/** Leaf certificates: issued on demand, cached in memory and on disk, renewed in time
    (internal/ca/leaf.go). Times are whole seconds. */
module LeafCache {
  import opened Text
  import opened Wrappers
  import opened Hosts
  import D = Decimal

  const DAY := 24 * 60 * 60
  const LEAF_VALIDITY := 90 * DAY
  const RENEW_BEFORE := 30 * DAY
  const BACKDATE := 60 * 60

  /** A certificate: the DNS names it carries, who signed it, its validity, and its public key. */
  datatype Cert = Cert(names: set<string>, issuer: nat, notBefore: int, notAfter: int, key: nat)

  // ----- hosts that look like addresses -----------------------------------------------------

  predicate IsDigit(c: char) { '0' <= c <= '9' }

  predicate IsOctet(s: string) {
    && 1 <= |s| <= 3 && (forall i | 0 <= i < |s| :: IsDigit(s[i]))
    && (|s| > 1 ==> s[0] != '0')
    && (|s| == 3 ==> s[0] == '1' || (s[0] == '2' && (s[1] < '5' || (s[1] == '5' && s[2] <= '5'))))
  }

  /** net.ParseIP accepts the host; of the hosts under a domain, it accepts these only. */
  predicate IsIPv4(host: string) {
    var octets := Labels(host);
    |octets| == 4 && forall i | 0 <= i < 4 :: IsOctet(octets[i])
  }

  /** An octet is a number up to 255 without leading zeros. */
  lemma OctetMeans(s: string)
    ensures IsOctet(s) <==> exists n: nat :: n <= 255 && s == D.FormatUint(n)
  {
    if IsOctet(s) {
      var n := OctetValue(s);
    }
    forall n: nat | n <= 255
      ensures IsOctet(D.FormatUint(n))
    {
      SmallNumber(n);
    }
  }

  lemma OctetValue(s: string) returns (n: nat)
    requires IsOctet(s)
    ensures n <= 255 && s == D.FormatUint(n)
  {
    var d := seq(|s|, i requires 0 <= i < |s| => s[i] as int - '0' as int);
    if |s| == 1 {
      n := d[0];
      assert s == D.FormatUint(n);
    } else if |s| == 2 {
      n := 10 * d[0] + d[1];
      assert n / 10 == d[0] && n % 10 == d[1];
      assert D.FormatUint(n / 10) == [s[0]];
    } else {
      n := 100 * d[0] + 10 * d[1] + d[2];
      assert n / 10 == 10 * d[0] + d[1] && n % 10 == d[2];
      assert n / 10 / 10 == d[0] && n / 10 % 10 == d[1];
      assert D.FormatUint(n / 10 / 10) == [s[0]];
      assert D.FormatUint(n / 10) == [s[0], s[1]];
    }
  }

  lemma SmallNumber(n: nat)
    requires n <= 255
    ensures IsOctet(D.FormatUint(n))
  {
    var s := D.FormatUint(n);
    if n >= 100 {
      assert s == D.FormatUint(n / 10) + [('0' as int + n % 10) as char];
      assert D.FormatUint(n / 10) == D.FormatUint(n / 10 / 10) + [('0' as int + n / 10 % 10) as char];
    } else if n >= 10 {
      assert s == D.FormatUint(n / 10) + [('0' as int + n % 10) as char];
    }
  }

  /** Four such numbers with dots between them. */
  predicate DottedQuad(host: string, a: nat, b: nat, c: nat, d: nat) {
    && a <= 255 && b <= 255 && c <= 255 && d <= 255
    && host == D.FormatUint(a) + "." + D.FormatUint(b) + "." + D.FormatUint(c) + "." + D.FormatUint(d)
  }

  lemma IPv4Means(host: string)
    ensures IsIPv4(host) <==> exists a: nat, b: nat, c: nat, d: nat :: DottedQuad(host, a, b, c, d)
  {
    hide IsOctet, D.FormatUint, Split, Join;
    if IsIPv4(host) {
      var s := Labels(host);
      var a := OctetValue(s[0]);
      var b := OctetValue(s[1]);
      var c := OctetValue(s[2]);
      var d := OctetValue(s[3]);
      JoinSplit(host, '.');
      JoinFour(s[0], s[1], s[2], s[3]);
      assert s == [s[0], s[1], s[2], s[3]];
      assert DottedQuad(host, a, b, c, d);
    }
    forall a: nat, b: nat, c: nat, d: nat | DottedQuad(host, a, b, c, d)
      ensures IsIPv4(host)
    {
      SmallNumber(a);
      SmallNumber(b);
      SmallNumber(c);
      SmallNumber(d);
      FourLabels(D.FormatUint(a), D.FormatUint(b), D.FormatUint(c), D.FormatUint(d));
    }
  }

  lemma JoinFour(a: string, b: string, c: string, d: string)
    ensures Join([a, b, c, d], '.') == a + "." + b + "." + c + "." + d
  {
    hide Join;
    JoinOne(a);
    JoinOne(b);
    JoinOne(c);
    JoinOne(d);
    assert [a] + [b] == [a, b] && [a, b] + [c] == [a, b, c] && [a, b, c] + [d] == [a, b, c, d];
    JoinConcat([a], [b], '.');
    JoinConcat([a, b], [c], '.');
    JoinConcat([a, b, c], [d], '.');
  }

  lemma FourLabels(a: string, b: string, c: string, d: string)
    requires IsOctet(a) && IsOctet(b) && IsOctet(c) && IsOctet(d)
    ensures Labels(a + "." + b + "." + c + "." + d) == [a, b, c, d]
  {
    hide Split;
    OctetIsOneLabel(a);
    OctetIsOneLabel(b);
    OctetIsOneLabel(c);
    OctetIsOneLabel(d);
    hide IsOctet;
    SplitConcat(a, b, '.');
    SplitConcat(a + "." + b, c, '.');
    SplitConcat(a + "." + b + "." + c, d, '.');
  }

  lemma OctetIsOneLabel(s: string)
    requires IsOctet(s)
    ensures Split(s, '.') == [s]
  {
    assert '.' !in s;
    SplitWhole(s, '.');
  }

  /** x509's VerifyHostname, for a certificate with DNS names only: a host that parses as an address
      is compared with the certificate's addresses, of which there are none. */
  predicate VerifiesHost(c: Cert, host: string) {
    !IsIPv4(host) && host in c.names
  }

  predicate Usable(c: Cert, host: string, now: int, root: nat) {
    && !(now < c.notBefore || now + RENEW_BEFORE > c.notAfter)
    && VerifiesHost(c, host)
    && c.issuer == root
  }

  // ----- one request, on the caches as values -----------------------------------------------

  /** What can go wrong when issuing. The key file is written before the certificate file. */
  datatype Fault = GenerateFails | SignFails | KeyFileFails | CertFileFails

  datatype Error = InvalidHost(reason: HostError) | IssueFailed(fault: Fault)

  /** The memory cache, and the certificate and key files by host. */
  datatype State = State(cache: map<string, Cert>, certs: map<string, Cert>, keys: map<string, nat>)

  /** What the world contributes to one request: the time, whether the cache files can be read, a
      new key, and a fault should a certificate have to be issued. */
  datatype World = World(now: int, readable: bool, key: nat, fault: Option<Fault>)

  /** loadLeaf: the two files must be there and belong together. */
  function LoadLeaf(s: State, host: string, w: World): Option<Cert> {
    if w.readable && host in s.certs && host in s.keys && s.certs[host].key == s.keys[host]
    then Some(s.certs[host]) else None
  }

  function NewLeaf(host: string, root: nat, w: World): Cert {
    Cert({host}, root, w.now - BACKDATE, w.now + LEAF_VALIDITY, w.key)
  }

  datatype Outcome = Outcome(state: State, result: Result<Cert, Error>, issued: bool)

  function IssueLeaf(s: State, host: string, root: nat, w: World): Outcome {
    var leaf := NewLeaf(host, root, w);
    match w.fault
    case Some(CertFileFails) => Outcome(s.(keys := s.keys[host := w.key]), Err(IssueFailed(CertFileFails)), false)
    case Some(f) => Outcome(s, Err(IssueFailed(f)), false)
    case None =>
      Outcome(State(s.cache[host := leaf], s.certs[host := leaf], s.keys[host := w.key]), Ok(leaf), true)
  }

  function Request(s: State, domain: string, root: nat, host: string, w: World): Outcome {
    match ValidateHost(host, domain)
    case Some(e) => Outcome(s, Err(InvalidHost(e)), false)
    case None =>
      if host in s.cache && Usable(s.cache[host], host, w.now, root) then Outcome(s, Ok(s.cache[host]), false)
      else
        match LoadLeaf(s, host, w)
        case Some(c) =>
          if Usable(c, host, w.now, root) then Outcome(s.(cache := s.cache[host := c]), Ok(c), false)
          else IssueLeaf(s, host, root, w)
        case None => IssueLeaf(s, host, root, w)
  }

  /** Whatever the caches hold, a returned leaf names the host, is signed by the current root, is
      valid now, and stays so for 30 days at least. */
  lemma ReturnedLeafIsGood(s: State, domain: string, root: nat, host: string, w: World)
    ensures match Request(s, domain, root, host, w).result
            case Ok(c) => && host in c.names && c.issuer == root
                          && c.notBefore <= w.now && w.now + 30 * 86400 <= c.notAfter
                          && Certifiable(host, domain)
            case Err(_) => true
  {
    hide IsIPv4, ValidateHost;
  }

  /** When nothing fails, exactly the certifiable hosts are served; a usable certificate is returned
      as it is, from memory before disk, and a new one issued only when there is none. */
  lemma ServedWithoutNeedlessIssuing(s: State, domain: string, root: nat, host: string, w: World)
    requires w.fault == None
    ensures var o, loaded := Request(s, domain, root, host, w), LoadLeaf(s, host, w);
            && (o.result.Ok? <==> Certifiable(host, domain))
            && (o.result.Ok? && host in s.cache && Usable(s.cache[host], host, w.now, root) ==>
                  !o.issued && o.result.value == s.cache[host])
            && (o.result.Ok? && loaded.Some? && Usable(loaded.value, host, w.now, root) ==> !o.issued)
            && (o.issued ==> o.result == Ok(NewLeaf(host, root, w)))
            && (o.result.Ok? ==> host in o.state.cache && o.state.cache[host] == o.result.value)
  {
    hide Usable, ValidateHost;
  }

  /** A new certificate is for the host alone, valid from an hour ago for 90 days from now, with the
      key that was written. */
  lemma NewLeafIsFor90Days(s: State, host: string, root: nat, w: World)
    requires w.fault == None
    ensures var o := IssueLeaf(s, host, root, w);
            && o.result == Ok(Cert({host}, root, w.now - 3600, w.now + 90 * 86400, w.key))
            && host in o.state.certs && o.state.certs[host] == o.result.value
            && host in o.state.keys && o.state.keys[host] == o.result.value.key
  {
  }

  /** A host is refused, for the reason given, exactly if it is not certifiable; nothing changes then. */
  lemma RefusedHosts(s: State, domain: string, root: nat, host: string, w: World, e: HostError)
    ensures var o := Request(s, domain, root, host, w);
            && (o.result == Err(InvalidHost(e)) <==> ValidateHost(host, domain) == Some(e))
            && (o.result == Err(InvalidHost(e)) ==> o.state == s && !o.issued)
  {
    hide Usable, ValidateHost;
  }

  /** A certificate is issued exactly if the host is certifiable, nothing fails, and neither the memory
      cache nor a readable pair of files that belong together holds a usable one. */
  lemma IssuedIfNoneUsable(s: State, domain: string, root: nat, host: string, w: World)
    ensures Request(s, domain, root, host, w).issued <==>
            && Certifiable(host, domain) && w.fault == None
            && !(host in s.cache && Usable(s.cache[host], host, w.now, root))
            && !(w.readable && host in s.certs && host in s.keys && s.certs[host].key == s.keys[host]
                 && Usable(s.certs[host], host, w.now, root))
  {
    hide Usable, ValidateHost;
  }

  /** What a failed issuance leaves: the memory cache and the certificate file as they were, and the key
      file too unless writing the certificate was all that failed. */
  lemma FailedIssuance(s: State, host: string, root: nat, w: World)
    requires w.fault.Some?
    ensures var o := IssueLeaf(s, host, root, w);
            && o.result == Err(IssueFailed(w.fault.value)) && !o.issued
            && o.state.cache == s.cache && o.state.certs == s.certs
            && o.state.keys == if w.fault == Some(CertFileFails) then s.keys[host := w.key] else s.keys
  {
  }

  /** A certificate is served from disk only with the key it was issued for; after a failure between
      the two files, the host's is not served until a pair has been written again. */
  lemma ServedWithItsKey(s: State, domain: string, root: nat, host: string, w: World)
    ensures var o := Request(s, domain, root, host, w);
            o.result.Ok? && !o.issued && !(host in s.cache && s.cache[host] == o.result.value) ==>
              && host in s.certs && s.certs[host] == o.result.value
              && host in s.keys && s.keys[host] == o.result.value.key
  {
    hide Usable, ValidateHost;
  }

  // ----- runs -------------------------------------------------------------------------------

  datatype Event =
    | Get(host: string, world: World)
    | Restart                          // the memory cache is gone, the files are not

  datatype Issuance = Issuance(host: string, time: int, key: nat)

  /** The caches, the clock, and every certificate issued so far. */
  datatype History = History(state: State, now: int, log: seq<Issuance>)

  function Step(h: History, e: Event, domain: string, root: nat): History {
    match e
    case Restart => h.(state := h.state.(cache := map[]))
    case Get(host, w) =>
      var o := Request(h.state, domain, root, host, w);
      History(o.state, w.now, if o.issued then h.log + [Issuance(host, w.now, w.key)] else h.log)
  }

  /** The clock does not run backwards, and the disk works. */
  predicate Ordinary(h: History, e: Event) {
    e.Get? ==> h.now <= e.world.now && e.world.readable && e.world.fault == None
  }

  ghost function Run(start: State, now: int, events: seq<Event>, domain: string, root: nat): History {
    if events == [] then History(start, now, [])
    else Step(Run(start, now, events[..|events| - 1], domain, root), events[|events| - 1], domain, root)
  }

  ghost predicate OrdinaryRun(start: State, now: int, events: seq<Event>, domain: string, root: nat) {
    forall k | 0 <= k < |events| :: Ordinary(Run(start, now, events[..k], domain, root), events[k])
  }

  /** The last certificate issued for a host is what both caches hold for it, the memory cache
      possibly nothing. */
  predicate CachesHold(h: History, root: nat, i: Issuance) {
    var leaf := Cert({i.host}, root, i.time - BACKDATE, i.time + LEAF_VALIDITY, i.key);
    && i.host in h.state.certs && h.state.certs[i.host] == leaf
    && i.host in h.state.keys && h.state.keys[i.host] == i.key
    && (i.host in h.state.cache ==> h.state.cache[i.host] == leaf)
  }

  predicate IsLast(log: seq<Issuance>, k: int) {
    0 <= k < |log| && forall j | k < j < |log| :: log[j].host != log[k].host
  }

  /** Certificates for one host are issued more than 60 days apart. */
  predicate Spaced(log: seq<Issuance>) {
    forall i, j | 0 <= i < j < |log| && log[i].host == log[j].host && !IsIPv4(log[i].host) ::
      log[j].time > log[i].time + 60 * 86400
  }

  predicate Invariant(h: History, root: nat) {
    && (forall i | 0 <= i < |h.log| :: h.log[i].time <= h.now)
    && (forall k | 0 <= k < |h.log| && IsLast(h.log, k) :: CachesHold(h, root, h.log[k]))
    && Spaced(h.log)
  }

  /** While a cached certificate has more than 30 days left none is issued. */
  lemma IssuedMeansExpiring(h: History, root: nat, domain: string, host: string, w: World, i: Issuance)
    requires CachesHold(h, root, i) && i.host == host && !IsIPv4(host)
    requires i.time <= w.now && w.readable && w.fault == None
    ensures Request(h.state, domain, root, host, w).issued ==> w.now > i.time + LEAF_VALIDITY - RENEW_BEFORE
  {
    hide IsIPv4, ValidateHost;
  }

  lemma RequestKeepsOthers(h: History, root: nat, domain: string, host: string, w: World, i: Issuance)
    requires CachesHold(h, root, i)
    requires i.host != host || !Request(h.state, domain, root, host, w).issued
    requires w.fault == None
    ensures CachesHold(Step(h, Get(host, w), domain, root), root, i)
  {
    hide IsIPv4, ValidateHost, Usable;
  }

  lemma IssuedIsHeld(h: History, root: nat, domain: string, host: string, w: World)
    requires Request(h.state, domain, root, host, w).issued
    ensures CachesHold(Step(h, Get(host, w), domain, root), root, Issuance(host, w.now, w.key))
  {
    hide IsIPv4, ValidateHost, Usable;
  }

  /** The last issuance for a host, if there is one. */
  lemma {:induction false} LastExists(log: seq<Issuance>, i: nat)
    requires i < |log|
    ensures exists k :: i <= k && IsLast(log, k) && log[k].host == log[i].host
    decreases |log| - i
  {
    if j :| i < j < |log| && log[j].host == log[i].host {
      LastExists(log, j);
    } else {
      assert IsLast(log, i);
    }
  }

  lemma NewIssuanceSpaced(h: History, root: nat, domain: string, host: string, w: World)
    requires Invariant(h, root) && Ordinary(h, Get(host, w))
    requires Request(h.state, domain, root, host, w).issued
    ensures Spaced(h.log + [Issuance(host, w.now, w.key)])
  {
    hide IsIPv4, Request, CachesHold;
    forall i | 0 <= i < |h.log| && h.log[i].host == host && !IsIPv4(host)
      ensures w.now > h.log[i].time + LEAF_VALIDITY - RENEW_BEFORE
    {
      LastExists(h.log, i);
      var k :| i <= k && IsLast(h.log, k) && h.log[k].host == h.log[i].host;
      IssuedMeansExpiring(h, root, domain, host, w, h.log[k]);
    }
  }

  lemma StepKeepsInvariant(h: History, root: nat, domain: string, e: Event)
    requires Invariant(h, root) && Ordinary(h, e)
    ensures Invariant(Step(h, e, domain, root), root)
  {
    var h' := Step(h, e, domain, root);
    if e.Get? {
      hide IsIPv4, Request, CachesHold, Spaced;
      var issued := Request(h.state, domain, root, e.host, e.world).issued;
      if issued { NewIssuanceSpaced(h, root, domain, e.host, e.world); }
      forall k | IsLast(h'.log, k)
        ensures CachesHold(h', root, h'.log[k])
      {
        if k == |h.log| {
          IssuedIsHeld(h, root, domain, e.host, e.world);
        } else {
          StillLast(h.log, h'.log, k);
          RequestKeepsOthers(h, root, domain, e.host, e.world, h.log[k]);
        }
      }
    }
  }

  lemma StillLast(log: seq<Issuance>, log': seq<Issuance>, k: int)
    requires IsLast(log', k) && k < |log| && log <= log'
    ensures IsLast(log, k)
    ensures |log'| > |log| ==> log'[|log|].host != log[k].host
  {
    assert forall j | 0 <= j < |log| :: log[j] == log'[j];
  }

  /** Across any requests and restarts, from whatever the caches held at first, certificates for one
      host are issued more than 60 days apart, unless the host looks like an IPv4 address. */
  lemma {:induction false} RenewalSpacing(start: State, now: int, events: seq<Event>, domain: string, root: nat)
    requires OrdinaryRun(start, now, events, domain, root)
    ensures Invariant(Run(start, now, events, domain, root), root)
    ensures Spaced(Run(start, now, events, domain, root).log)
  {
    hide Invariant, Ordinary, Spaced;
    if events == [] {
      NothingIssued(start, now, root);
    } else {
      var init := events[..|events| - 1];
      forall k | 0 <= k < |init|
        ensures Ordinary(Run(start, now, init[..k], domain, root), init[k])
      {
        assert init[..k] == events[..k];
      }
      RenewalSpacing(start, now, init, domain, root);
      StepKeepsInvariant(Run(start, now, init, domain, root), root, domain, events[|events| - 1]);
    }
    SpacedFromInvariant(Run(start, now, events, domain, root), root);
  }

  lemma NothingIssued(start: State, now: int, root: nat)
    ensures Invariant(History(start, now, []), root)
  {
  }

  lemma SpacedFromInvariant(h: History, root: nat)
    requires Invariant(h, root)
    ensures Spaced(h.log)
  {
  }

  /** For a host that looks like an address, every request issues a certificate. */
  lemma AddressesAreNeverCached(s: State, domain: string, root: nat, host: string, w: World)
    requires Certifiable(host, domain) && IsIPv4(host) && w.fault == None
    ensures Request(s, domain, root, host, w).issued
  {
    hide IsIPv4, ValidateHost;
  }

  // ----- the issuer -------------------------------------------------------------------------

  /** certsDir: one certificate and one key file per host. */
  class CertsDir {
    var certs: map<string, Cert>
    var keys: map<string, nat>
  }

  class CA {
    const domain: string
    const root: nat
    const dir: CertsDir
    var cache: map<string, Cert>

    ghost function Shown(): State
      reads this, dir
    {
      State(cache, dir.certs, dir.keys)
    }

    constructor (domain: string, root: nat, dir: CertsDir)
      ensures this.domain == domain && this.root == root && this.dir == dir && cache == map[]
    {
      this.domain, this.root, this.dir, cache := domain, root, dir, map[];
    }

    method CertificateFor(host: string, w: World) returns (r: Result<Cert, Error>)
      modifies this, dir
      ensures var o := Request(old(Shown()), domain, root, host, w);
              Shown() == o.state && r == o.result
    {
      hide Usable, ValidateHost, IsIPv4;
      var e := ValidateHost(host, domain);
      if e.Some? {
        return Err(InvalidHost(e.value));
      }
      if host in cache && Usable(cache[host], host, w.now, root) {
        return Ok(cache[host]);
      }
      if w.readable && host in dir.certs && host in dir.keys && dir.certs[host].key == dir.keys[host] {
        var c := dir.certs[host];
        if Usable(c, host, w.now, root) {
          cache := cache[host := c];
          return Ok(c);
        }
      }
      r := Issue(host, w);
      if r.Ok? {
        cache := cache[host := r.value];
      }
    }

    /** issueLeaf. The key file goes first; when the certificate file then fails, the pair on disk no
        longer matches and will not be loaded. */
    method Issue(host: string, w: World) returns (r: Result<Cert, Error>)
      modifies dir
      ensures var o := IssueLeaf(old(Shown()), host, root, w);
              r == o.result && dir.certs == o.state.certs && dir.keys == o.state.keys
    {
      if w.fault == Some(GenerateFails) || w.fault == Some(SignFails) {
        return Err(IssueFailed(w.fault.value));
      }
      var leaf := NewLeaf(host, root, w);
      if w.fault == Some(KeyFileFails) {
        return Err(IssueFailed(KeyFileFails));
      }
      dir.keys := dir.keys[host := w.key];
      if w.fault == Some(CertFileFails) {
        return Err(IssueFailed(CertFileFails));
      }
      dir.certs := dir.certs[host := leaf];
      return Ok(leaf);
    }
  }
}
