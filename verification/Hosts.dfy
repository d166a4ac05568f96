/** The host names the daemon deals with, as three components recognise them: the configured domain
    (internal/domain/domain.go), the certificate issuer (internal/ca/name.go) and the DNS server
    (internal/dnsd/dnsd.go). */
module Hosts {
  import opened Text
  import opened Wrappers
  import opened Services

  const MAX_HOST := 253

  function Labels(name: string): seq<string> {
    Split(name, '.')
  }

  // ----- the configured domain --------------------------------------------------------------

  predicate ValidDomainLabel(part: string) {
    ValidName(part) && part[0] != '-' && part[|part| - 1] != '-'
  }

  predicate ValidDomain(name: string) {
    1 <= |name| <= MAX_HOST && forall i | 0 <= i < |Labels(name)| :: ValidDomainLabel(Labels(name)[i])
  }

  /** Letters, digits, dashes and dots: what names under a valid domain are made of. */
  predicate HostChars(name: string) {
    forall i | 0 <= i < |name| :: NameChar(name[i]) || name[i] == '.'
  }

  lemma {:induction false} HostCharsOfLabels(name: string)
    requires forall i, j | 0 <= i < |Labels(name)| && 0 <= j < |Labels(name)[i]| :: NameChar(Labels(name)[i][j])
    ensures HostChars(name)
  {
    if name != "" {
      var rest := Labels(name[1..]);
      var parts := Labels(name);
      forall i, j | 0 <= i < |rest| && 0 <= j < |rest[i]|
        ensures NameChar(rest[i][j])
      {
        if name[0] == '.' {
          assert parts[i + 1] == rest[i];
        } else if i > 0 {
          assert parts[i] == rest[i];
        } else {
          assert parts[0][j + 1] == rest[0][j];
        }
      }
      HostCharsOfLabels(name[1..]);
      assert name[0] == '.' || parts[0][0] == name[0];
      forall i | 0 <= i < |name|
        ensures NameChar(name[i]) || name[i] == '.'
      {
        assert i > 0 ==> name[i] == name[1..][i - 1];
      }
    }
  }

  lemma {:induction false} EndsOfLabels(name: string)
    requires name != ""
    ensures Labels(name)[0] == "" <==> name[0] == '.'
    ensures Labels(name)[|Labels(name)| - 1] == "" <==> name[|name| - 1] == '.'
  {
    if |name| > 1 {
      EndsOfLabels(name[1..]);
    } else {
      assert Labels(name[1..]) == [""];
    }
  }

  lemma DomainShape(domain: string)
    requires ValidDomain(domain)
    ensures HostChars(domain) && domain[0] != '.' && domain[|domain| - 1] != '.'
  {
    hide Split, ValidName;
    EndsOfLabels(domain);
    forall i | 0 <= i < |Labels(domain)|
      ensures Labels(domain)[i] != "" && forall j | 0 <= j < |Labels(domain)[i]| :: NameChar(Labels(domain)[i][j])
    {
      LabelChars(Labels(domain)[i]);
    }
    HostCharsOfLabels(domain);
  }

  lemma LabelChars(part: string)
    requires ValidDomainLabel(part)
    ensures part != "" && forall j | 0 <= j < |part| :: NameChar(part[j])
  {
  }

  // ----- the certificate issuer -------------------------------------------------------------

  datatype HostError = EmptyHost | TooLong | NotUnderDomain | BadLabel

  predicate AllValid(labels: seq<string>) {
    forall i | 0 <= i < |labels| :: ValidName(labels[i])
  }

  /** validateHost. A label is valid exactly when it is a valid service name. */
  function ValidateHost(host: string, domain: string): Option<HostError> {
    if host == "" then Some(EmptyHost)
    else if |host| > MAX_HOST then Some(TooLong)
    else if host == domain then None
    else if !HasSuffix(host, "." + domain) then Some(NotUnderDomain)
    else if !AllValid(Labels(host[..|host| - |domain| - 1])) then Some(BadLabel)
    else None
  }

  predicate Certifiable(host: string, domain: string) {
    ValidateHost(host, domain) == None
  }

  /** The dNSName form of a name constraint, section 4.2.1.10 of RFC 5280: the host is the
      constraint with zero or more labels added on its left. */
  predicate WithinConstraint(host: string, domain: string) {
    PartsSuffix(Labels(domain), Labels(host))
  }

  lemma UnderDomainLabels(host: string, domain: string)
    requires HasSuffix(host, "." + domain)
    ensures Labels(host) == Labels(host[..|host| - |domain| - 1]) + Labels(domain)
  {
    var front := host[..|host| - |domain| - 1];
    assert host == front + ['.'] + domain;
    SplitConcat(front, domain, '.');
  }

  /** A host is certified exactly when it is not too long and consists of the domain's labels with
      zero or more valid labels before them. */
  lemma CertifiableIsLabelled(host: string, domain: string)
    requires ValidDomain(domain)
    ensures Certifiable(host, domain) <==>
            && |host| <= 253
            && WithinConstraint(host, domain)
            && forall i | 0 <= i < |Labels(host)| - |Labels(domain)| :: ValidName(Labels(host)[i])
  {
    hide Split, ValidName, ValidDomainLabel;
    SuffixIsPartsSuffix(host, domain, '.');
    if host != domain && HasSuffix(host, "." + domain) {
      UnderDomainLabels(host, domain);
    }
  }

  /** Each reason is given exactly when it is the first that applies. */
  lemma HostErrors(host: string, domain: string)
    requires ValidDomain(domain)
    ensures ValidateHost(host, domain) == Some(EmptyHost) <==> host == ""
    ensures ValidateHost(host, domain) == Some(TooLong) <==> |host| > 253
    ensures ValidateHost(host, domain) == Some(NotUnderDomain) <==>
            host != "" && |host| <= 253 && !WithinConstraint(host, domain)
    ensures ValidateHost(host, domain) == Some(BadLabel) <==>
            && host != "" && |host| <= 253 && WithinConstraint(host, domain)
            && exists i :: 0 <= i < |Labels(host)| - |Labels(domain)| && !ValidName(Labels(host)[i])
  {
    hide Split, ValidName, ValidDomainLabel;
    SuffixIsPartsSuffix(host, domain, '.');
    if host != domain && HasSuffix(host, "." + domain) {
      UnderDomainLabels(host, domain);
    }
  }

  /** A configured domain is at most 253 characters of labels that are valid names without a dash at
      either end. */
  lemma ValidDomainMeans(name: string)
    ensures ValidDomain(name) <==>
            && 0 < |name| < 254
            && forall part | part in Labels(name) :: ValidName(part) && !HasPrefix(part, "-") && !HasSuffix(part, "-")
  {
    hide Split, ValidName;
    forall part | part in Labels(name)
      ensures ValidDomainLabel(part) <==> ValidName(part) && !HasPrefix(part, "-") && !HasSuffix(part, "-")
    {
      NoDashAtEnds(part);
    }
  }

  lemma NoDashAtEnds(part: string)
    ensures ValidDomainLabel(part) <==> ValidName(part) && !HasPrefix(part, "-") && !HasSuffix(part, "-")
  {
    if part != "" {
      assert HasPrefix(part, "-") <==> part[0] == '-';
      assert part[|part| - 1..] == [part[|part| - 1]];
    }
  }

  // ----- the DNS server ---------------------------------------------------------------------

  function TrailingBackslashes(s: string): nat {
    if s != "" && s[|s| - 1] == '\\' then 1 + TrailingBackslashes(s[..|s| - 1]) else 0
  }

  /** dns.IsFqdn: the name ends with a dot that is not escaped. */
  predicate IsFqdn(s: string) {
    s != "" && s[|s| - 1] == '.' && TrailingBackslashes(s[..|s| - 1]) % 2 == 0
  }

  function Fqdn(s: string): string {
    if IsFqdn(s) then s else s + "."
  }

  /** match: the server's domain is the FQDN of the configured one. */
  predicate DnsMatch(name: string, domain: string) {
    var n := ToLower(Fqdn(name));
    n == Fqdn(domain) || HasSuffix(n, "." + Fqdn(domain))
  }

  /** The part of a query name before its final dot. */
  function WithoutDot(name: string): string {
    if IsFqdn(name) then name[..|name| - 1] else name
  }

  /** The labels of a DNS name: a dot behind a backslash belongs to its label. */
  function DnsLabels(name: string): (labels: seq<string>)
    ensures labels != []
  {
    if name == "" then [""]
    else if name[0] == '\\' && |name| > 1 then
      var rest := DnsLabels(name[2..]);
      [name[..2] + rest[0]] + rest[1..]
    else Glue(name[0], DnsLabels(name[1..]), '.')
  }

  /** What precedes the domain in w ends with an escaped character. */
  predicate BehindEscape(w: string, domain: string) {
    |w| > |domain| && TrailingBackslashes(w[..|w| - |domain| - 1]) % 2 == 1
  }

  lemma {:induction false} TrailingInTail(s: string, k: nat)
    requires k <= |s|
    ensures TrailingBackslashes(s[k..]) <= |s| - k
    ensures TrailingBackslashes(s[k..]) < |s| - k ==> TrailingBackslashes(s) == TrailingBackslashes(s[k..])
    ensures TrailingBackslashes(s[k..]) == |s| - k ==>
              TrailingBackslashes(s) == |s| - k + TrailingBackslashes(s[..k])
    decreases |s|
  {
    if k < |s| {
      var n := |s| - 1;
      assert s[k..][..n - k] == s[..n][k..] && s[..n][..k] == s[..k];
      TrailingInTail(s[..n], k);
    } else {
      assert s[..k] == s;
    }
  }

  lemma DnsLabelsEscape(e: string, s: string)
    requires |e| == 2 && e[0] == '\\'
    ensures DnsLabels(e + s) == [e + DnsLabels(s)[0]] + DnsLabels(s)[1..]
  {
    assert (e + s)[2..] == s && (e + s)[..2] == e;
  }

  lemma DnsLabelsPlain(c: char, s: string)
    requires c != '\\'
    ensures DnsLabels([c] + s) == Glue(c, DnsLabels(s), '.')
    ensures c == '.' ==> DnsLabels([c] + s) == [""] + DnsLabels(s)
  {
    assert ([c] + s)[1..] == s;
  }

  /** An unescaped dot separates labels. */
  lemma {:induction false} DnsLabelsAtDot(a: string, b: string)
    requires TrailingBackslashes(a) % 2 == 0
    ensures DnsLabels(a + "." + b) == DnsLabels(a) + DnsLabels(b)
    decreases |a|
  {
    hide TrailingBackslashes, DnsLabels, Glue;
    if a == "" {
      DnsLabelsPlain('.', b);
      assert a + "." + b == ['.'] + b;
      NothingEscaped("");
      assert Labels("") == [""];
    } else if a[0] == '\\' && |a| > 1 {
      EscapeSkipped(a);
      DnsLabelsAtDot(a[2..], b);
      assert a == a[..2] + a[2..] && a + "." + b == a[..2] + (a[2..] + "." + b);
      DnsLabelsEscape(a[..2], a[2..]);
      DnsLabelsEscape(a[..2], a[2..] + "." + b);
    } else {
      PlainSkipped(a);
      DnsLabelsAtDot(a[1..], b);
      assert a == [a[0]] + a[1..] && a + "." + b == [a[0]] + (a[1..] + "." + b);
      DnsLabelsPlain(a[0], a[1..]);
      DnsLabelsPlain(a[0], a[1..] + "." + b);
      GlueConcat(a[0], DnsLabels(a[1..]), DnsLabels(b), '.');
    }
  }

  lemma EscapeSkipped(a: string)
    requires |a| > 1 && a[0] == '\\'
    ensures TrailingBackslashes(a) % 2 == TrailingBackslashes(a[2..]) % 2
  {
    TrailingInTail(a, 2);
  }

  lemma PlainSkipped(a: string)
    requires a != "" && (a[0] != '\\' || |a| == 1)
    requires TrailingBackslashes(a) % 2 == 0
    ensures a[0] != '\\' && TrailingBackslashes(a[1..]) % 2 == 0
  {
    TrailingInTail(a, 1);
    assert a[..1][..0] == "";
  }

  lemma {:induction false} NothingEscaped(s: string)
    requires '\\' !in s
    ensures DnsLabels(s) == Labels(s) && TrailingBackslashes(s) == 0
  {
    if s != "" {
      assert forall c | c in s[1..] :: c in s;
      NothingEscaped(s[1..]);
    }
  }

  lemma JoinFirst(a: string, parts: seq<string>)
    requires parts != []
    ensures Join([a + parts[0]] + parts[1..], '.') == a + Join(parts, '.')
  {
    assert ([a + parts[0]] + parts[1..])[1..] == parts[1..];
  }

  lemma {:induction false} JoinDnsLabels(s: string)
    ensures Join(DnsLabels(s), '.') == s
    decreases |s|
  {
    hide Join;
    if s == "" {
      JoinOne("");
    } else if s[0] == '\\' && |s| > 1 {
      JoinDnsLabels(s[2..]);
      JoinFirst(s[..2], DnsLabels(s[2..]));
    } else {
      JoinDnsLabels(s[1..]);
      JoinGlue(s[0], DnsLabels(s[1..]), '.');
    }
  }

  lemma JoinOne(s: string)
    ensures Join([s], '.') == s
  {
  }

  /** Every separating dot is unescaped. */
  lemma {:induction false} FrontIsUnescaped(s: string, m: nat)
    requires 0 < m < |DnsLabels(s)|
    ensures TrailingBackslashes(Join(DnsLabels(s)[..m], '.')) % 2 == 0
    decreases |s|
  {
    hide Join, TrailingBackslashes;
    if s[0] == '\\' && |s| > 1 {
      var rest := DnsLabels(s[2..]);
      FrontIsUnescaped(s[2..], m);
      assert DnsLabels(s)[..m] == [s[..2] + rest[..m][0]] + rest[..m][1..];
      JoinFirst(s[..2], rest[..m]);
      EscapePrefixed(s[..2], Join(rest[..m], '.'));
    } else {
      var rest := DnsLabels(s[1..]);
      if s == "\\" { assert s[1..] == ""; }
      if s[0] == '.' {
        if m > 1 {
          FrontIsUnescaped(s[1..], m - 1);
          assert DnsLabels(s)[..m] == Glue(s[0], rest[..m - 1], '.');
          JoinGlue(s[0], rest[..m - 1], '.');
          PlainPrefixed(s[0], Join(rest[..m - 1], '.'));
        } else {
          assert DnsLabels(s)[..m] == [""];
          JoinOne("");
          NothingEscaped("");
        }
      } else {
        FrontIsUnescaped(s[1..], m);
        assert DnsLabels(s)[..m] == Glue(s[0], rest[..m], '.');
        JoinGlue(s[0], rest[..m], '.');
        PlainPrefixed(s[0], Join(rest[..m], '.'));
      }
    }
  }

  lemma EscapePrefixed(e: string, s: string)
    requires |e| == 2 && e[0] == '\\'
    ensures TrailingBackslashes(e + s) % 2 == TrailingBackslashes(s) % 2
  {
    EscapeSkipped(e + s);
    assert (e + s)[2..] == s;
  }

  lemma PlainPrefixed(c: char, s: string)
    requires c != '\\'
    ensures TrailingBackslashes([c] + s) == TrailingBackslashes(s)
  {
    TrailingInTail([c] + s, 1);
    assert ([c] + s)[1..] == s && ([c] + s)[..1] == [c];
    assert [c][..0] == "";
  }

  lemma UnescapedDotGivesLabels(front: string, domain: string)
    requires '\\' !in domain && TrailingBackslashes(front) % 2 == 0
    ensures PartsSuffix(Labels(domain), DnsLabels(front + "." + domain))
  {
    hide DnsLabels, Split, TrailingBackslashes;
    NothingEscaped(domain);
    DnsLabelsAtDot(front, domain);
  }

  lemma LabelsGiveUnescapedDot(w: string, domain: string) returns (front: string)
    requires '\\' !in domain && PartsSuffix(Labels(domain), DnsLabels(w)) && w != domain
    ensures w == front + "." + domain && TrailingBackslashes(front) % 2 == 0
  {
    hide DnsLabels, Split, TrailingBackslashes, Join;
    var ps, ss := DnsLabels(domain), DnsLabels(w);
    NothingEscaped(domain);
    JoinDnsLabels(domain);
    JoinDnsLabels(w);
    var m := |ss| - |ps|;
    front := Join(ss[..m], '.');
    assert ss == ss[..m] + ps;
    assert m > 0;
    JoinConcat(ss[..m], ps, '.');
    FrontIsUnescaped(w, m);
  }

  /** w ends with the domain behind an unescaped dot. */
  predicate UnderUnescapedDot(w: string, domain: string) {
    HasSuffix(w, "." + domain) && !BehindEscape(w, domain)
  }

  lemma UnderUnescapedDotMeans(w: string, domain: string)
    requires UnderUnescapedDot(w, domain)
    ensures w == w[..|w| - |domain| - 1] + "." + domain
    ensures TrailingBackslashes(w[..|w| - |domain| - 1]) % 2 == 0
  {
    hide TrailingBackslashes;
  }

  lemma BehindUnescapedDot(front: string, domain: string)
    requires TrailingBackslashes(front) % 2 == 0
    ensures UnderUnescapedDot(front + "." + domain, domain)
  {
    hide TrailingBackslashes;
    var w := front + "." + domain;
    assert w[..|front|] == front && w[|front|..] == "." + domain;
  }

  /** Having the domain's labels last is being the domain, or ending with it behind an unescaped dot. */
  lemma DnsSuffixIsLabels(w: string, domain: string)
    requires '\\' !in domain
    ensures PartsSuffix(Labels(domain), DnsLabels(w)) <==> w == domain || UnderUnescapedDot(w, domain)
  {
    NothingEscaped(domain);
    PartsSuffixRefl(Labels(domain));
    hide DnsLabels, Labels, TrailingBackslashes, PartsSuffix, UnderUnescapedDot;
    if UnderUnescapedDot(w, domain) {
      UnderUnescapedDotMeans(w, domain);
      UnescapedDotGivesLabels(w[..|w| - |domain| - 1], domain);
    } else if PartsSuffix(Labels(domain), DnsLabels(w)) && w != domain {
      var front := LabelsGiveUnescapedDot(w, domain);
      BehindUnescapedDot(front, domain);
    }
  }

  lemma PartsSuffixRefl(parts: seq<string>)
    ensures PartsSuffix(parts, parts)
  {
  }

  /** The server answers a name if and only if, in lower case and without the final dot, it is the
      domain or ends with a dot and the domain. */
  lemma DnsMatchIsSuffix(name: string, domain: string)
    requires ValidDomain(domain)
    ensures var w := ToLower(WithoutDot(name));
            DnsMatch(name, domain) <==> w == domain || HasSuffix(w, "." + domain)
  {
    var w := ToLower(WithoutDot(name));
    LowerFqdn(name);
    DomainFqdn(domain);
    hide ToLower, Fqdn, WithoutDot, ValidDomain, HasSuffix;
    SuffixWithDot(w, "." + domain);
    assert (w + ".")[..|w|] == w && (domain + ".")[..|domain|] == domain;
    assert "." + (domain + ".") == ("." + domain) + ".";
  }

  lemma LowerFqdn(name: string)
    ensures ToLower(Fqdn(name)) == ToLower(WithoutDot(name)) + "."
  {
    hide TrailingBackslashes;
  }

  lemma DomainFqdn(domain: string)
    requires ValidDomain(domain)
    ensures Fqdn(domain) == domain + "."
  {
    hide TrailingBackslashes, ValidDomain;
    DomainShape(domain);
  }

  /** The names that satisfy the certificate constraint of the domain, label by label, are those the
      server answers in which the dot before the domain, if there is one, is not escaped. */
  lemma DnsMatchIsConstraint(name: string, domain: string)
    requires ValidDomain(domain)
    ensures var w := ToLower(WithoutDot(name));
            PartsSuffix(Labels(domain), DnsLabels(w)) <==>
            DnsMatch(name, domain) && !BehindEscape(w, domain)
  {
    hide DnsLabels, Labels, ValidDomain, TrailingBackslashes, PartsSuffix, DnsMatch, BehindEscape,
         WithoutDot, ToLower, HasSuffix;
    DomainHasNoEscape(domain);
    DnsMatchIsSuffix(name, domain);
    NotBehindItself(domain);
    DnsSuffixIsLabels(ToLower(WithoutDot(name)), domain);
  }

  lemma DomainHasNoEscape(domain: string)
    requires ValidDomain(domain)
    ensures '\\' !in domain
  {
    hide ValidDomain;
    DomainShape(domain);
  }

  /** A name is fully qualified exactly if an unescaped dot ends it: its last label is empty. */
  lemma FullyQualifiedMeans(name: string)
    ensures IsFqdn(name) <==> |DnsLabels(name)| > 1 && DnsLabels(name)[|DnsLabels(name)| - 1] == ""
  {
    hide DnsLabels, TrailingBackslashes, Join;
    var labels := DnsLabels(name);
    if IsFqdn(name) {
      var front := name[..|name| - 1];
      assert name == front + "." + "";
      DnsLabelsAtDot(front, "");
      NothingEscaped("");
      assert Labels("") == [""];
    }
    if |labels| > 1 && labels[|labels| - 1] == "" {
      var m := |labels| - 1;
      JoinDnsLabels(name);
      assert labels == labels[..m] + [""];
      JoinConcat(labels[..m], [""], '.');
      JoinOne("");
      FrontIsUnescaped(name, m);
      assert name == Join(labels[..m], '.') + "." && name[..|name| - 1] == Join(labels[..m], '.');
    }
  }

  lemma NotBehindItself(domain: string)
    ensures !BehindEscape(domain, domain)
  {
  }

  /** The server also answers a single label that ends in the domain, such as a\.localapp. */
  lemma EscapedDotIsAnswered(c: char, domain: string)
    requires ValidDomain(domain) && NameChar(c)
    ensures var name := [c] + "\\." + domain;
            && DnsMatch(name, domain) && !PartsSuffix(Labels(domain), DnsLabels(ToLower(WithoutDot(name))))
  {
    hide DnsLabels, Split, ValidName, PartsSuffix, DnsMatch;
    DomainShape(domain);
    var name := [c] + "\\." + domain;
    assert name[|name| - 1] == domain[|domain| - 1];
    assert IsLower(name);
    LowerOfLower(name);
    DnsMatchIsSuffix(name, domain);
    DnsMatchIsConstraint(name, domain);
    assert name[2..] == "." + domain && name[..2] == [c, '\\'] && [c, '\\'][..1] == [c];
    OneBackslash(c);
  }

  lemma OneBackslash(c: char)
    requires c != '\\'
    ensures TrailingBackslashes([c, '\\']) == 1
  {
    assert [c, '\\'][..1] == [c] && [c][..0] == "";
  }

  lemma SuffixWithDot(s: string, p: string)
    ensures HasSuffix(s + ".", p + ".") <==> HasSuffix(s, p)
  {
    if |p| <= |s| {
      assert (s + ".")[|s| - |p|..] == s[|s| - |p|..] + ".";
      assert (s[|s| - |p|..] + ".")[..|p|] == s[|s| - |p|..];
      assert (p + ".")[..|p|] == p;
    }
  }

  /** Every host a certificate is issued for is answered by the DNS server and lies within the name
      constraint of the root certificate. */
  lemma CertifiableIsAnswered(host: string, domain: string)
    requires ValidDomain(domain) && Certifiable(host, domain)
    ensures DnsMatch(host, domain)
    ensures WithinConstraint(host, domain)
  {
    hide Split, ValidName, ValidDomainLabel;
    CertifiableIsLabelled(host, domain);
    CertifiableShape(host, domain);
    LowerOfLower(host);
    SuffixIsPartsSuffix(host, domain, '.');
    DnsMatchIsSuffix(host, domain);
  }

  lemma CertifiableShape(host: string, domain: string)
    requires ValidDomain(domain) && Certifiable(host, domain)
    ensures HostChars(host) && host[0] != '.' && host[|host| - 1] != '.'
    ensures IsLower(host) && !IsFqdn(host)
  {
    hide Split, TrailingBackslashes;
    DomainShape(domain);
    if host != domain {
      var front := host[..|host| - |domain| - 1];
      assert host == front + ['.'] + domain;
      HostCharsOfLabels(front);
      if front != "" { EndsOfLabels(front); } else { SplitWhole(front, '.'); }
      assert forall i | 0 <= i < |host| ::
          host[i] == if i < |front| then front[i] else if i == |front| then '.' else domain[i - |front| - 1];
    }
  }
}
