/** Percent-encoded paths, and taking a mount off a request path (internal/proxy/proxy.go,
    stripMount). Paths are byte strings: every char is one byte. */
module PathEncoding {
  import opened Text
  import opened Wrappers
  import opened Services
  import opened Routing

  function HexDigit(c: char): (d: int)
    ensures -1 <= d < 16
  {
    if '0' <= c <= '9' then c as int - '0' as int
    else if 'a' <= c <= 'f' then c as int - 'a' as int + 10
    else if 'A' <= c <= 'F' then c as int - 'A' as int + 10
    else -1
  }

  /** url.PathUnescape, section 2.1 of RFC 3986. */
  function Decode(s: string): Option<string> {
    if s == "" then Some("")
    else if s[0] != '%' then
      match Decode(s[1..])
      case None => None
      case Some(t) => Some([s[0]] + t)
    else if |s| < 3 || HexDigit(s[1]) < 0 || HexDigit(s[2]) < 0 then None
    else
      match Decode(s[3..])
      case None => None
      case Some(t) => Some([(16 * HexDigit(s[1]) + HexDigit(s[2])) as char] + t)
  }

  /** A control character in ASCII. */
  predicate Control(c: char) {
    c < ' ' || c == '\U{7F}'
  }

  lemma ControlMeans(c: char)
    ensures Control(c) <==> c as int <= 31 || c as int == 127
  {
  }

  /** The path of a request target without a query, as net/url reads it. */
  function RequestPath(target: string): Option<string> {
    if exists c | c in target :: Control(c) then None else Decode(target)
  }

  /** Text without a percent sign stands for itself, in front of anything. */
  lemma {:induction false} DecodePlainPrefix(a: string, b: string)
    requires '%' !in a
    ensures Decode(a + b) == if Decode(b).Some? then Some(a + Decode(b).value) else None
  {
    if a == "" {
      assert a + b == b;
      assert Decode(b).Some? ==> "" + Decode(b).value == Decode(b).value;
    } else {
      assert (a + b)[1..] == a[1..] + b;
      assert a == [a[0]] + a[1..];
      DecodePlainPrefix(a[1..], b);
      assert Decode(b).Some? ==> [a[0]] + (a[1..] + Decode(b).value) == a + Decode(b).value;
    }
  }

  /** Decoding what follows a gives at least what it contributes to the whole, and two bytes more
      for every escape that a holds or cuts. */
  lemma {:induction false} DecodedRestIsLonger(a: string, b: string)
    requires Decode(a + b).Some? && Decode(b).Some?
    ensures |Decode(b).value| + |a| >= |Decode(a + b).value|
    ensures '%' in a ==> |Decode(b).value| + |a| >= |Decode(a + b).value| + 2
    decreases |a|
  {
    if a == "" {
      assert a + b == b;
    } else if a[0] != '%' {
      assert (a + b)[1..] == a[1..] + b;
      DecodedRestIsLonger(a[1..], b);
      assert a == [a[0]] + a[1..];
    } else if |a| >= 3 {
      assert (a + b)[3..] == a[3..] + b;
      DecodedRestIsLonger(a[3..], b);
    } else {
      CutEscape(a, b);
    }
  }

  lemma CutEscape(a: string, b: string)
    requires 1 <= |a| <= 2 && a[0] == '%'
    requires Decode(a + b).Some? && Decode(b).Some?
    ensures |Decode(b).value| + |a| == |Decode(a + b).value| + 2
  {
    var s, k := a + b, 3 - |a|;
    assert s[3..] == b[k..];
    assert b[0] == s[|a|] && (k == 2 ==> b[1] == s[2]);
    PlainDigits(b, k);
  }

  /** The rest of a cut escape is one or two digits, which stand for themselves. */
  lemma PlainDigits(b: string, k: nat)
    requires 1 <= k <= 2 <= |b| + 2 - k && forall i | 0 <= i < k :: HexDigit(b[i]) >= 0
    requires Decode(b).Some? && Decode(b[k..]).Some?
    ensures |Decode(b).value| == k + |Decode(b[k..]).value|
  {
    assert b == b[..k] + b[k..];
    DecodePlainPrefix(b[..k], b[k..]);
  }

  // ----- stripMount -------------------------------------------------------------------------

  /** What strings.CutPrefix leaves, with "/" for nothing. */
  function Cut(s: string, mount: string): string
    requires HasPrefix(s, mount)
  {
    if s == mount then "/" else s[|mount|..]
  }

  class RequestUrl {
    var path: string
    var rawPath: string

    method StripMount(mount: string)
      modifies this
      ensures !HasPrefix(old(path), mount) ==> path == old(path) && rawPath == old(rawPath)
      ensures HasPrefix(old(path), mount) ==> path == Cut(old(path), mount) && rawPath == CutRaw(old(rawPath), mount)
    {
      if !HasPrefix(path, mount) {
        return;
      }
      var p := path[|mount|..];
      if p == "" {
        p := "/";
      }
      path := p;
      if rawPath == "" {
        return;
      }
      if HasPrefix(rawPath, mount) {
        var rp := rawPath[|mount|..];
        if rp == "" {
          rp := "/";
        }
        rawPath := rp;
        return;
      }
      // The encoded path does not match the mount: it will be encoded again from path.
      rawPath := "";
    }

    /** The last part of rewrite: a mount is taken off only where the service asks for it. */
    method Forward(rt: Route)
      modifies this
      ensures rt.mount == "" || !rt.svc.stripPath ==> path == old(path) && rawPath == old(rawPath)
      ensures rt.mount != "" && rt.svc.stripPath && PathHasPrefix(old(path), rt.mount) ==>
                && HasPrefix(path, "/")
                && (if old(path) == rt.mount then path == "/" else old(path) == rt.mount + path)
                && rawPath == CutRaw(old(rawPath), rt.mount)
    {
      if rt.mount != "" && rt.svc.stripPath {
        if PathHasPrefix(path, rt.mount) { StrippedPath(path, rt.mount); }
        StripMount(rt.mount);
      }
    }
  }

  /** The mount of a resolved route does cover the path it was resolved for. */
  lemma ForwardedUnderMount(apps: seq<App>, domain: string, host: string, path: string)
    ensures var rt := ResolveTo(apps, domain, host, path);
            rt.mount != "" ==> PathHasPrefix(path, rt.mount)
  {
    hide ResolveTo;
    RoutedMount(apps, domain, host, path);
    CoverIsSegmentPrefix(path, ResolveTo(apps, domain, host, path).mount);
  }

  function CutRaw(raw: string, mount: string): string {
    if raw != "" && HasPrefix(raw, mount) then Cut(raw, mount) else ""
  }

  /** On a matched mount the new path is absolute, and the old one is the mount followed by it,
      unless it was the mount itself. */
  lemma StrippedPath(path: string, mount: string)
    requires PathHasPrefix(path, mount)
    ensures HasPrefix(path, mount) && HasPrefix(Cut(path, mount), "/")
    ensures if path == mount then Cut(path, mount) == "/" else path == mount + Cut(path, mount)
  {
    assert (mount + "/")[..|mount|] == mount;
    if path != mount {
      assert path[|mount|] == '/';
    }
  }

  /** The raw path is dropped or stands for the path. */
  predicate Agree(path: string, raw: string) {
    raw == "" || Decode(raw) == Some(path)
  }

  /** Stripping keeps path and raw path in agreement, exactly if the mount contains no percent sign
      or is not a prefix of the raw path. */
  lemma StrippingCommutesWithDecoding(path: string, raw: string, mount: string)
    requires PathHasPrefix(path, mount) && raw != "" && Decode(raw) == Some(path)
    ensures HasPrefix(path, mount)
    ensures Agree(Cut(path, mount), CutRaw(raw, mount)) <==> '%' !in mount || !HasPrefix(raw, mount)
  {
    StrippedPath(path, mount);
    if HasPrefix(raw, mount) {
      var rest := raw[|mount|..];
      assert raw == mount + rest;
      if '%' !in mount {
        PlainMountCommutes(path, rest, mount);
      } else {
        PercentMountFails(path, rest, mount);
      }
    }
  }

  lemma PlainMountCommutes(path: string, rest: string, mount: string)
    requires HasPrefix(path, mount) && '%' !in mount && Decode(mount + rest) == Some(path)
    ensures rest == "" ==> path == mount
    ensures rest != "" ==> path != mount && Decode(rest) == Some(path[|mount|..])
    ensures Decode("/") == Some("/")
  {
    DecodePlainPrefix(mount, rest);
    DecodePlainPrefix("/", "");
    assert "/" + "" == "/" && mount + "" == mount;
    if rest != "" {
      assert Decode(rest).value != "";
    }
  }

  lemma PercentMountFails(path: string, rest: string, mount: string)
    requires HasPrefix(path, mount) && '%' in mount && Decode(mount + rest) == Some(path)
    ensures rest != "" && Decode(rest) != Some(Cut(path, mount))
  {
    if Decode(rest).Some? {
      DecodedRestIsLonger(mount, rest);
    }
  }

  /** A raw path under the mount is kept: it is the mount followed by what is left, which is at least a
      slash. Any other raw path is dropped. */
  lemma KeptUnderMount(raw: string, mount: string)
    ensures HasPrefix(raw, mount) && raw != "" ==>
              && CutRaw(raw, mount) != ""
              && (if raw == mount then CutRaw(raw, mount) == "/" else mount + CutRaw(raw, mount) == raw)
    ensures !HasPrefix(raw, mount) ==> CutRaw(raw, mount) == ""
  {
  }

  // ----- requests ---------------------------------------------------------------------------

  function HexChar(d: nat): char
    requires d < 16
  {
    "0123456789ABCDEF"[d]
  }

  /** The bytes net/url leaves as they are in a path. */
  predicate PathByte(c: char) {
    'a' <= c <= 'z' || 'A' <= c <= 'Z' || '0' <= c <= '9' || c in "-_.~$&+,/:;=@"
  }

  /** The default encoding of a path in net/url. */
  function Encode(path: string): string {
    if path == "" then "" else EncodeByte(path[0]) + Encode(path[1..])
  }

  function EncodeByte(c: char): string {
    var n := c as int % 256;
    if PathByte(c) then [c] else ['%', HexChar(n / 16), HexChar(n % 16)]
  }

  /** net/url keeps a request's raw path only if it is not the default encoding. */
  function KeptRaw(raw: string, path: string): string {
    if raw == Encode(path) then "" else raw
  }

  /** For a request whose raw path decodes to path: after stripping the two agree, exactly if the
      raw path was not kept, or the mount contains no percent sign or is not a prefix of it. */
  lemma StrippedRequestAgrees(path: string, raw: string, mount: string)
    requires PathHasPrefix(path, mount) && Decode(raw) == Some(path)
    ensures HasPrefix(path, mount)
    ensures Agree(Cut(path, mount), CutRaw(KeptRaw(raw, path), mount)) <==>
            raw == Encode(path) || '%' !in mount || !HasPrefix(raw, mount)
  {
    hide Encode;
    StrippedPath(path, mount);
    if raw != "" {
      StrippingCommutesWithDecoding(path, raw, mount);
    }
  }

  lemma PlainByte(c: char)
    ensures PathByte(c) ==> EncodeByte(c) == [c]
    ensures EncodeByte('%') == ['%', '2', '5']
  {
  }

  lemma {:induction false} EncodePlainPrefix(a: string, b: string)
    requires forall i | 0 <= i < |a| :: PathByte(a[i])
    ensures Encode(a + b) == a + Encode(b)
  {
    hide PathByte, EncodeByte;
    if a == "" {
      assert a + b == b;
    } else {
      assert (a + b)[1..] == a[1..] + b;
      EncodePlainPrefix(a[1..], b);
      PlainByte(a[0]);
      assert [a[0]] + (a[1..] + Encode(b)) == a + Encode(b);
    }
  }

  lemma DecodeEscape(h: char, l: char, rest: string)
    requires HexDigit(h) >= 0 && HexDigit(l) >= 0 && Decode(rest).Some?
    ensures Decode(['%', h, l] + rest) == Some([(16 * HexDigit(h) + HexDigit(l)) as char] + Decode(rest).value)
  {
    assert (['%', h, l] + rest)[3..] == rest;
  }

  /** Digits of either case stand for 0 to 15; no other character is one. */
  lemma HexDigitMeans(c: char)
    ensures var n := c as int;
            HexDigit(c) == if 48 <= n <= 57 then n - 48 else if 65 <= n <= 70 then n - 55
                           else if 97 <= n <= 102 then n - 87 else -1
  {
  }

  /** Left as they are: letters, digits, and the characters - _ . ~ $ & + , / : ; = @. */
  lemma PathByteMeans(c: char)
    ensures var n := c as int;
            PathByte(c) <==> || 97 <= n <= 122 || 65 <= n <= 90 || 48 <= n <= 57
                             || n in {45, 95, 46, 126, 36, 38, 43, 44, 47, 58, 59, 61, 64}
  {
    assert c in "-_.~$&+,/:;=@" <==>
        || c == '-' || c == '_' || c == '.' || c == '~' || c == '$' || c == '&' || c == '+'
        || c == ',' || c == '/' || c == ':' || c == ';' || c == '=' || c == '@';
  }

  lemma EncodedByte(c: char)
    ensures if PathByte(c) then EncodeByte(c) == [c] && c != '%'
            else EncodeByte(c) == ['%', HexChar(c as int % 256 / 16), HexChar(c as int % 256 % 16)]
  {
    PathByteMeans(c);
    hide PathByte, HexChar;
  }

  lemma DecodePlain(c: char, rest: string)
    requires c != '%' && Decode(rest).Some?
    ensures Decode([c] + rest) == Some([c] + Decode(rest).value)
  {
    assert ([c] + rest)[1..] == rest;
  }

  lemma Nibbles(n: nat)
    requires n < 256
    ensures n % 256 == n && n / 16 < 16 && 16 * (n / 16) + n % 16 == n
  {
  }

  lemma DecodeHexByte(c: char, rest: string)
    requires c as int < 256 && Decode(rest).Some?
    ensures c as int / 16 < 16
    ensures Decode(['%', HexChar(c as int / 16), HexChar(c as int % 16)] + rest) == Some([c] + Decode(rest).value)
  {
    var n := c as int;
    Nibbles(n);
    HexCharDigit(n / 16);
    HexCharDigit(n % 16);
    hide Decode, HexChar, HexDigit;
    DecodeEscape(HexChar(n / 16), HexChar(n % 16), rest);
  }

  lemma DecodeEncodedByte(c: char, rest: string)
    requires c as int < 256 && Decode(rest).Some?
    ensures Decode(EncodeByte(c) + rest) == Some([c] + Decode(rest).value)
  {
    Nibbles(c as int);
    EncodedByte(c);
    hide Decode, EncodeByte, PathByte, HexChar, HexDigit;
    if PathByte(c) {
      DecodePlain(c, rest);
    } else {
      DecodeHexByte(c, rest);
    }
  }

  lemma HexCharDigit(d: nat)
    requires d < 16
    ensures HexDigit(HexChar(d)) == d
  {
  }

  /** Encoding any bytes and decoding them gives them back. */
  lemma {:induction false} EncodeRoundTrip(path: string)
    requires forall i | 0 <= i < |path| :: path[i] as int < 256
    ensures Decode(Encode(path)) == Some(path)
  {
    hide Decode, EncodeByte;
    if path == "" {
      NothingEncoded();
    } else {
      EncodeRoundTrip(path[1..]);
      DecodeEncodedByte(path[0], Encode(path[1..]));
      assert [path[0]] + path[1..] == path;
    }
  }

  lemma EncodePercent(rest: string)
    ensures Encode(['%'] + rest) == ['%', '2', '5'] + Encode(rest)
  {
    hide PathByte, EncodeByte;
    PlainByte('%');
    assert (['%'] + rest)[1..] == rest;
  }

  lemma NothingEncoded()
    ensures Encode("") == "" && Decode("") == Some("")
  {
  }

  lemma WitnessDecoded()
    ensures Decode("25/b%2Fc") == Some("25/b/c") && Decode("/a%2525/b%2Fc") == Some("/a%25/b/c")
  {
    hide Decode, HexDigit;
    HexValues();
    NothingEncoded();
    DecodePlainPrefix("c", "");
    assert "c" + "" == "c";
    DecodeEscape('2', 'F', "c");
    assert ['%', '2', 'F'] + "c" == "%2Fc" && [47 as char] + "c" == "/c";
    DecodePlainPrefix("25/b", "%2Fc");
    assert "25/b" + "%2Fc" == "25/b%2Fc" && "25/b" + "/c" == "25/b/c";
    DecodeEscape('2', '5', "25/b%2Fc");
    assert ['%', '2', '5'] + "25/b%2Fc" == "%2525/b%2Fc" && [37 as char] + "25/b/c" == "%25/b/c";
    DecodePlainPrefix("/a", "%2525/b%2Fc");
    assert "/a" + "%2525/b%2Fc" == "/a%2525/b%2Fc" && "/a" + "%25/b/c" == "/a%25/b/c";
  }

  lemma HexValues()
    ensures HexDigit('2') == 2 && HexDigit('5') == 5 && HexDigit('F') == 15
  {
  }

  lemma WitnessEncoded()
    ensures |Encode("/a%25/b/c")| == 11
  {
    hide Encode, EncodeByte;
    NothingEncoded();
    EncodePlainPrefix("25/b/c", "");
    assert "25/b/c" + "" == "25/b/c";
    EncodePercent("25/b/c");
    assert ['%'] + "25/b/c" == "%25/b/c";
    EncodePlainPrefix("/a", "%25/b/c");
    assert "/a" + "%25/b/c" == "/a%25/b/c";
  }

  /** A request that fails: under the mount "/a%25" the raw path "/a%2525/b%2Fc" of "/a%25/b/c" is
      kept, because of its encoded slash, and is cut in the middle of an escape. */
  lemma PercentMountDisagrees()
    ensures var path, raw, mount := "/a%25/b/c", "/a%2525/b%2Fc", "/a%25";
            && PathHasPrefix(path, mount) && Decode(raw) == Some(path) && KeptRaw(raw, path) == raw
            && Cut(path, mount) == "/b/c"
            && CutRaw(raw, mount) == "25/b%2Fc" && Decode(CutRaw(raw, mount)) == Some("25/b/c")
  {
    hide Decode, Encode;
    WitnessDecoded();
    WitnessEncoded();
    var path, raw, mount := "/a%25/b/c", "/a%2525/b%2Fc", "/a%25";
    assert path[..|mount|] == mount && path[|mount|..] == "/b/c" && path[..|mount| + 1] == mount + "/";
    assert raw[..|mount|] == mount && raw[|mount|..] == "25/b%2Fc";
  }

  /** A path without a percent sign, and only such a path, is its own encoding. */
  lemma DecodesToItself(path: string)
    ensures Decode(path) == Some(path) <==> '%' !in path
  {
    assert path + "" == path;
    if '%' !in path {
      DecodePlainPrefix(path, "");
    } else if Decode(path).Some? {
      assert Decode("") == Some("");
      DecodedRestIsLonger(path, "");
    }
  }
}
