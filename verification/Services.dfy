/** Apps and services: the records of the registry, their validation, and the names and URLs
    derived from them (internal/registry/registry.go). */
module Services {
  import opened Text
  import opened Wrappers

  const DEFAULT_SERVICE := "web"

  datatype Service = Service(name: string, port: int, path: string, stripPath: bool, pid: int)

  datatype App = App(name: string, services: seq<Service>)

  datatype Code = InvalidName | InvalidPort | InvalidPath | InvalidPid

  // ----- validation -------------------------------------------------------------------------

  predicate Alnum(c: char) {
    'a' <= c <= 'z' || '0' <= c <= '9'
  }

  predicate NameChar(c: char) {
    Alnum(c) || c == '-'
  }

  /** nameRe: ^[a-z0-9-]{1,63}$ */
  predicate ValidName(s: string) {
    1 <= |s| <= 63 && forall i | 0 <= i < |s| :: NameChar(s[i])
  }

  predicate ValidPath(p: string) {
    p == "" || (p[0] == '/' && forall i | 0 <= i < |p| :: p[i] !in "?# \t\r\n")
  }

  /** Service.Validate: the first check that fails. */
  function Validate(s: Service): Option<Code> {
    if !ValidName(s.name) then Some(InvalidName)
    else if s.port < 1 || s.port > 65535 then Some(InvalidPort)
    else if !ValidPath(s.path) then Some(InvalidPath)
    else if s.pid < 0 then Some(InvalidPid)
    else None
  }

  predicate ValidService(s: Service) {
    Validate(s) == None
  }

  /** Lower-case ASCII letters (codes 97 to 122), digits (48 to 57) and the dash (45), 1 to 63 of them. */
  lemma ValidNameMeans(s: string)
    ensures ValidName(s) <==>
            && 0 < |s| < 64
            && forall i | 0 <= i < |s| :: var c := s[i] as int; 97 <= c <= 122 || 48 <= c <= 57 || c == 45
  {
  }

  /** Each error is reported exactly when its check is the first to fail. */
  lemma ValidateReports(s: Service)
    ensures ValidService(s) <==> ValidName(s.name) && 0 < s.port < 65536 && ValidPath(s.path) && 0 <= s.pid
    ensures Validate(s) == Some(InvalidName) <==> !ValidName(s.name)
    ensures Validate(s) == Some(InvalidPort) <==> ValidName(s.name) && !(0 < s.port < 65536)
    ensures Validate(s) == Some(InvalidPath) <==>
            ValidName(s.name) && 0 < s.port < 65536 && !ValidPath(s.path)
    ensures Validate(s) == Some(InvalidPid) <==>
            ValidName(s.name) && 0 < s.port < 65536 && ValidPath(s.path) && s.pid < 0
  {
    hide ValidName, ValidPath;
  }

  /** A path is empty, or begins with a slash and has no query, fragment or white space. */
  lemma ValidPathMeans(p: string)
    ensures ValidPath(p) <==>
            p == "" || ("/" <= p && forall i | 0 <= i < |p| ::
              p[i] != '?' && p[i] != '#' && p[i] != ' ' && p[i] != '\t' && p[i] != '\r' && p[i] != '\n')
  {
    assert p != "" ==> ("/" <= p <==> p[0] == '/');
  }

  // ----- trimming ---------------------------------------------------------------------------

  /** strings.TrimRight(s, c) for one character. */
  function TrimRight(s: string, c: char): (t: string)
    ensures t <= s
    ensures t != "" ==> t[|t| - 1] != c
    ensures forall i | |t| <= i < |s| :: s[i] == c
  {
    if s != "" && s[|s| - 1] == c then TrimRight(s[..|s| - 1], c) else s
  }

  /** strings.TrimLeft(s, c) for one character. */
  function TrimLeft(s: string, c: char): (t: string)
    ensures |t| <= |s| && t == s[|s| - |t|..]
    ensures t != "" ==> t[0] != c
    ensures forall i | 0 <= i < |s| - |t| :: s[i] == c
  {
    if s != "" && s[0] == c then TrimLeft(s[1..], c) else s
  }

  function Trim(s: string, c: char): string {
    TrimRight(TrimLeft(s, c), c)
  }

  // ----- path mounts ------------------------------------------------------------------------

  function NormalizePath(p: string): string {
    TrimRight(p, '/')
  }

  /** A registered path is empty, or a mount: it begins with a slash, goes on, and does not end with
      one. Normalizing it again changes nothing, so "no mount" and "mount" are decided once. */
  predicate Normalized(p: string) {
    p == "" || (|p| >= 2 && p[0] == '/' && p[|p| - 1] != '/')
  }

  lemma NormalizePathNormalizes(p: string)
    requires ValidPath(p)
    ensures ValidPath(NormalizePath(p)) && Normalized(NormalizePath(p))
    ensures NormalizePath(NormalizePath(p)) == NormalizePath(p)
    ensures NormalizePath(p) == p <==> Normalized(p)
  {
    var q := NormalizePath(p);
    if q != "" {
      assert q[0] == p[0];
    }
  }

  /** q is p without the slashes at its end. */
  predicate WithoutFinalSlashes(p: string, q: string) {
    && q <= p && (q != "" ==> q[|q| - 1] != '/')
    && forall i | |q| <= i < |p| :: p[i] == '/'
  }

  lemma NormalizePathTrims(p: string)
    ensures WithoutFinalSlashes(p, NormalizePath(p))
  {
  }

  lemma WithoutFinalSlashesUnique(p: string, q: string, r: string)
    requires WithoutFinalSlashes(p, q) && WithoutFinalSlashes(p, r)
    ensures q == r
  {
  }

  /** A valid path is a mount exactly if it has any other character than slashes. */
  lemma PathIsMount(p: string)
    requires ValidPath(p)
    ensures NormalizePath(p) != "" <==> exists i :: 0 <= i < |p| && p[i] != '/'
  {
    hide NormalizePath;
    NormalizePathTrims(p);
    var q := NormalizePath(p);
    if q != "" {
      assert p[|q| - 1] != '/';
    }
  }

  // ----- NormalizeName ----------------------------------------------------------------------

  /** Every run of characters other than a-z and 0-9 becomes one dash; prev tells that the character
      before s became one already. */
  function Dashed(s: string, prev: bool): string {
    if s == "" then ""
    else if Alnum(s[0]) then [s[0]] + Dashed(s[1..], false)
    else if prev then Dashed(s[1..], true)
    else ['-'] + Dashed(s[1..], true)
  }

  function NormalName(s: string): string {
    var out := Trim(Dashed(ToLower(s), false), '-');
    if |out| > 63 then Trim(out[..63], '-') else out
  }

  method NormalizeName(s: string) returns (out: string)
    ensures out == NormalName(s)
  {
    var t := ToLower(s);
    var b, prevDash := "", false;
    var i := 0;
    while i < |t|
      invariant 0 <= i <= |t|
      invariant b + Dashed(t[i..], prevDash) == Dashed(t, false)
    {
      assert t[i..][1..] == t[i + 1..];
      if Alnum(t[i]) {
        assert b + ([t[i]] + Dashed(t[i + 1..], false)) == (b + [t[i]]) + Dashed(t[i + 1..], false);
        b := b + [t[i]];
        prevDash := false;
      } else if !prevDash {
        assert b + (['-'] + Dashed(t[i + 1..], true)) == (b + ['-']) + Dashed(t[i + 1..], true);
        b := b + ['-'];
        prevDash := true;
      }
      i := i + 1;
    }
    assert b == Dashed(t, false);
    out := Trim(b, '-');
    if |out| > 63 {
      out := Trim(out[..63], '-');
    }
  }

  /** Name characters only, and no two dashes in a row. */
  predicate SingleDashes(s: string) {
    && (forall i | 0 <= i < |s| :: NameChar(s[i]))
    && forall i | 0 < i < |s| :: s[i - 1] != '-' || s[i] != '-'
  }

  /** A name that normalization would leave alone. */
  predicate CleanName(s: string) {
    SingleDashes(s) && (s != "" ==> s[0] != '-' && s[|s| - 1] != '-')
  }

  lemma {:induction false} DashedHasSingleDashes(s: string, prev: bool)
    ensures SingleDashes(Dashed(s, prev))
    ensures prev && Dashed(s, prev) != "" ==> Dashed(s, prev)[0] != '-'
  {
    if s != "" {
      DashedHasSingleDashes(s[1..], !Alnum(s[0]));
    }
  }

  lemma TrimCleans(s: string)
    requires SingleDashes(s)
    ensures CleanName(Trim(s, '-'))
    ensures |Trim(s, '-')| <= |s|
  {
    hide TrimLeft, TrimRight, NameChar;
    var t := TrimLeft(s, '-');
    var u := TrimRight(t, '-');
    assert forall i | 0 <= i < |t| :: t[i] == s[|s| - |t| + i];
    assert forall i | 0 <= i < |u| :: u[i] == t[i];
  }

  /** The result is empty or a valid name, without leading, trailing or doubled dashes. */
  lemma NormalNameIsClean(s: string)
    ensures CleanName(NormalName(s))
    ensures NormalName(s) == "" || ValidName(NormalName(s))
  {
    hide Dashed, Trim, NameChar;
    var d := Dashed(ToLower(s), false);
    DashedHasSingleDashes(ToLower(s), false);
    TrimCleans(d);
    var out := Trim(d, '-');
    if |out| > 63 {
      TrimCleans(out[..63]);
    }
  }

  lemma {:induction false} DashedOfClean(s: string, prev: bool)
    requires SingleDashes(s) && (prev && s != "" ==> s[0] != '-')
    ensures Dashed(s, prev) == s
  {
    if s != "" {
      assert forall i | 0 <= i < |s| - 1 :: s[1..][i] == s[i + 1];
      DashedOfClean(s[1..], s[0] == '-');
    }
  }

  lemma TrimOfClean(s: string)
    requires CleanName(s)
    ensures Trim(s, '-') == s
  {
  }

  /** Exactly the clean names of at most 63 characters are left alone, so normalizing is a
      projection onto them. */
  lemma NormalNameFixes(s: string)
    ensures NormalName(s) == s <==> CleanName(s) && |s| <= 63
    ensures NormalName(NormalName(s)) == NormalName(s)
  {
    NormalNameIsClean(s);
    NormalNameIsClean(NormalName(s));
    if CleanName(s) && |s| <= 63 { CleanIsFixed(s); }
    CleanIsFixed(NormalName(s));
  }

  lemma CleanIsFixed(s: string)
    requires CleanName(s) && |s| <= 63
    ensures NormalName(s) == s
  {
    LowerOfLower(s);
    DashedOfClean(s, false);
    TrimOfClean(s);
  }

  /** The words of s: its maximal runs of letters and digits. */
  function Words(s: string): seq<string> {
    if s == "" then []
    else if !Alnum(s[0]) then Words(s[1..])
    else if |s| > 1 && Alnum(s[1]) then Longer(s[0], Words(s[1..]))
    else [[s[0]]] + Words(s[1..])
  }

  /** Puts c in front of the first word. */
  function Longer(c: char, words: seq<string>): seq<string> {
    if words == [] then [[c]] else [[c] + words[0]] + words[1..]
  }

  lemma JoinLonger(c: char, words: seq<string>)
    ensures Join(Longer(c, words), '-') == [c] + Join(words, '-')
  {
    if |words| > 1 {
      assert [c] + (words[0] + ['-'] + Join(words[1..], '-')) == ([c] + words[0]) + ['-'] + Join(words[1..], '-');
    }
  }

  lemma JoinFirst(w: string, words: seq<string>)
    ensures Join([w] + words, '-') == if words == [] then w else w + ['-'] + Join(words, '-')
  {
    assert ([w] + words)[1..] == words;
  }

  lemma {:induction false} TrimRightCons(c: char, s: string)
    ensures TrimRight([c] + s, '-') ==
            if c == '-' && TrimRight(s, '-') == "" then "" else [c] + TrimRight(s, '-')
  {
    var t := [c] + s;
    if s == "" {
      assert t == [c] && t[..0] == "";
    } else if s[|s| - 1] == '-' {
      assert t[..|t| - 1] == [c] + s[..|s| - 1];
      TrimRightCons(c, s[..|s| - 1]);
    }
  }

  /** Behind a dash, what is written are the words with single dashes between them. */
  lemma {:induction false} DashedIsWords(s: string)
    ensures TrimRight(Dashed(s, true), '-') == Join(Words(s), '-')
    ensures (Words(s) == [] <==> Join(Words(s), '-') == "") && (Words(s) != [] ==> Join(Words(s), '-')[0] != '-')
  {
    hide TrimRight, Join, Words, Dashed;
    if s == "" {
      NoWords();
    } else {
      var rest := s[1..];
      DashedIsWords(rest);
      if Alnum(s[0]) {
        WordBegins(s);
      } else {
        SkipsSeparator(s);
      }
    }
  }

  lemma DashInside(c: char, w: string)
    ensures [c] + (['-'] + w) == [c] + ['-'] + w && [c] + "" == [c] && ([c] + w)[0] == c
  {
  }

  /** What is written from a letter or digit on, up to the dashes at the end. */
  lemma WrittenFrom(s: string, w: string)
    requires s != "" && Alnum(s[0]) && w == TrimRight(Dashed(s[1..], true), '-')
    ensures TrimRight(Dashed(s, true), '-') ==
            if |s| > 1 && !Alnum(s[1]) && w != "" then [s[0]] + ['-'] + w else [s[0]] + w
  {
    assert s[0] != '-';
    DashedFirst(s);
    hide TrimRight, Dashed, Alnum;
    TrimRightCons(s[0], Dashed(s[1..], false));
    DashedAfterWord(s[1..]);
    DashInside(s[0], w);
  }

  lemma WordBegins(s: string)
    requires s != "" && Alnum(s[0])
    requires TrimRight(Dashed(s[1..], true), '-') == Join(Words(s[1..]), '-')
    requires Words(s[1..]) == [] <==> Join(Words(s[1..]), '-') == ""
    ensures TrimRight(Dashed(s, true), '-') == Join(Words(s), '-')
    ensures Words(s) != [] && Join(Words(s), '-') != "" && Join(Words(s), '-')[0] != '-'
  {
    assert s[0] != '-';
    var w := Join(Words(s[1..]), '-');
    if |s| == 1 { NoWords(); }
    WrittenFrom(s, w);
    FirstWord(s);
    DashInside(s[0], w);
    hide TrimRight, Join, Words, Dashed, Alnum;
  }

  lemma NoWords()
    ensures Words("") == [] && Dashed("", true) == "" && Join([], '-') == "" && TrimRight("", '-') == ""
  {
    assert TrimRight("", '-') <= "";
  }

  lemma SkipsSeparator(s: string)
    requires s != "" && !Alnum(s[0])
    ensures Words(s) == Words(s[1..]) && Dashed(s, true) == Dashed(s[1..], true)
  {
  }

  lemma DashedFirst(s: string)
    requires s != "" && Alnum(s[0])
    ensures Dashed(s, true) == [s[0]] + Dashed(s[1..], false)
  {
  }

  /** A letter or digit begins a word, or makes the following one longer. */
  lemma FirstWord(s: string)
    requires s != "" && Alnum(s[0])
    ensures var rest := s[1..];
            && Words(s) != []
            && Join(Words(s), '-') ==
               if rest != "" && Alnum(rest[0]) then [s[0]] + Join(Words(rest), '-')
               else if Words(rest) == [] then [s[0]] else [s[0]] + ['-'] + Join(Words(rest), '-')
  {
    hide Join;
    var rest := s[1..];
    if rest != "" && Alnum(rest[0]) {
      JoinLonger(s[0], Words(rest));
    } else {
      JoinFirst([s[0]], Words(rest));
    }
  }

  /** Behind a letter, a dash comes before the next word. */
  lemma DashedAfterWord(rest: string)
    ensures TrimRight(Dashed(rest, false), '-') ==
            if rest != "" && !Alnum(rest[0]) && TrimRight(Dashed(rest, true), '-') != ""
            then ['-'] + TrimRight(Dashed(rest, true), '-') else TrimRight(Dashed(rest, true), '-')
  {
    hide TrimRight;
    if rest != "" && !Alnum(rest[0]) {
      TrimRightCons('-', Dashed(rest[1..], true));
    }
  }

  /** The name made of a string: its lower-case words joined by dashes, cut at 63 characters without
      leaving a dash at the end. */
  lemma NormalNameIsWords(s: string)
    ensures var name := Join(Words(ToLower(s)), '-');
            NormalName(s) == if |name| <= 63 then name else TrimRight(name[..63], '-')
  {
    hide Dashed, TrimRight, TrimLeft, Words;
    var t := ToLower(s);
    var name := Join(Words(t), '-');
    DashedIsWords(t);
    TrimOfDashed(t);
    if |name| > 63 {
      assert name[..63][0] == name[0] != '-';
      NothingToTrim(name[..63]);
    }
  }

  lemma NothingToTrim(s: string)
    requires s != "" ==> s[0] != '-'
    ensures TrimLeft(s, '-') == s
  {
  }

  lemma TrimOfDashed(t: string)
    ensures Trim(Dashed(t, false), '-') == TrimRight(Dashed(t, true), '-')
  {
    LeadingDash(t);
    hide Dashed, TrimRight, TrimLeft;
  }

  lemma LeadingDash(t: string)
    ensures TrimLeft(Dashed(t, false), '-') == Dashed(t, true)
  {
    hide TrimLeft;
    DashedHasSingleDashes(t, true);
    if t == "" || Alnum(t[0]) {
      NothingToTrim(Dashed(t, false));
    } else {
      var d := Dashed(t[1..], true);
      DashedHasSingleDashes(t[1..], true);
      NothingToTrim(d);
      TrimOneDash(d);
    }
  }

  lemma TrimOneDash(s: string)
    ensures TrimLeft(['-'] + s, '-') == TrimLeft(s, '-')
  {
    assert (['-'] + s)[1..] == s;
  }

  // ----- URLs -------------------------------------------------------------------------------

  /** An address without port, query or fragment. */
  datatype Url = Url(host: string, path: string) {
    function Render(): string {
      "https://" + host + path
    }
  }

  /** The host and path of a rendered address can be told apart: the path begins with the first
      slash. */
  lemma RenderInjective(a: Url, b: Url)
    requires '/' !in a.host && '/' !in b.host
    requires a.path != "" && a.path[0] == '/' && b.path != "" && b.path[0] == '/'
    requires a.Render() == b.Render()
    ensures a == b
  {
    var s := a.host + a.path;
    assert a.Render()[8..] == s && b.Render()[8..] == b.host + b.path;
    assert s == b.host + b.path;
    assert s[|a.host|] == '/' && s[|b.host|] == '/';
    assert forall k | 0 <= k < |a.host| :: s[k] == a.host[k];
    assert forall k | 0 <= k < |b.host| :: s[k] == b.host[k];
    assert a.host == s[..|a.host|] && a.path == s[|a.host|..];
  }

  function Add<T(==)>(s: seq<T>, x: T): seq<T> {
    if x in s then s else s + [x]
  }

  /** The advertised addresses of a service, the primary one first. */
  function URLs(s: Service, app: string, domain: string): seq<Url> {
    var none: seq<Url> := [];
    var a := if s.name == DEFAULT_SERVICE then Add(none, Url(app + "." + domain, "/")) else none;
    var b := Add(a, Url(s.name + "." + app + "." + domain, "/"));
    var p := NormalizePath(s.path);
    if p != "" then Add(b, Url(app + "." + domain, p + "/")) else b
  }
}
