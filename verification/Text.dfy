/** Separated strings: the parts of Go's strings package that host names and paths are taken apart
    with. A host is a sequence of labels, a path a sequence of segments; the lemmas relate what the
    code tests on strings to those sequences. */
module Text {

  /** strings.Split(s, sep) for a one-character separator. */
  function Split(s: string, sep: char): (parts: seq<string>)
    ensures parts != []
  {
    if s == "" then [""] else Glue(s[0], Split(s[1..], sep), sep)
  }

  /** Puts c in front: it begins the first part, or separates an empty one from it. */
  function Glue(c: char, parts: seq<string>, sep: char): (r: seq<string>)
    requires parts != []
    ensures r != []
  {
    if c == sep then [""] + parts else [[c] + parts[0]] + parts[1..]
  }

  lemma GlueConcat(c: char, a: seq<string>, b: seq<string>, sep: char)
    requires a != []
    ensures Glue(c, a + b, sep) == Glue(c, a, sep) + b
  {
    assert (a + b)[1..] == a[1..] + b;
  }

  /** strings.Join(parts, sep) */
  function Join(parts: seq<string>, sep: char): string {
    if parts == [] then ""
    else if |parts| == 1 then parts[0]
    else parts[0] + [sep] + Join(parts[1..], sep)
  }

  function HasPrefix(s: string, p: string): bool {
    p <= s
  }

  function HasSuffix(s: string, p: string): bool {
    |p| <= |s| && s[|s| - |p|..] == p
  }

  lemma {:induction false} SplitConcat(a: string, b: string, sep: char)
    ensures Split(a + [sep] + b, sep) == Split(a, sep) + Split(b, sep)
  {
    var whole := a + [sep] + b;
    if a == "" {
      assert whole[1..] == b;
      assert Split(whole, sep) == Glue(sep, Split(b, sep), sep);
    } else {
      hide Glue;
      assert whole[1..] == a[1..] + [sep] + b;
      SplitConcat(a[1..], b, sep);
      GlueConcat(a[0], Split(a[1..], sep), Split(b, sep), sep);
    }
  }

  lemma {:induction false} SplitWhole(s: string, sep: char)
    requires sep !in s
    ensures Split(s, sep) == [s]
  {
    if s != "" {
      assert forall c | c in s[1..] :: c in s;
      SplitWhole(s[1..], sep);
      assert [s[0]] + s[1..] == s;
    }
  }

  lemma JoinGlue(c: char, parts: seq<string>, sep: char)
    requires parts != []
    ensures Join(Glue(c, parts, sep), sep) == [c] + Join(parts, sep)
  {
    var glued := Glue(c, parts, sep);
    if c == sep {
      assert glued[1..] == parts;
    } else {
      assert glued[1..] == parts[1..];
    }
  }

  lemma {:induction false} JoinSplit(s: string, sep: char)
    ensures Join(Split(s, sep), sep) == s
  {
    if s != "" {
      JoinSplit(s[1..], sep);
      JoinGlue(s[0], Split(s[1..], sep), sep);
    }
  }

  lemma {:induction false} JoinConcat(a: seq<string>, b: seq<string>, sep: char)
    requires a != [] && b != []
    ensures Join(a + b, sep) == Join(a, sep) + [sep] + Join(b, sep)
  {
    if |a| == 1 {
      assert (a + b)[1..] == b;
    } else {
      assert (a + b)[1..] == a[1..] + b;
      JoinConcat(a[1..], b, sep);
    }
  }

  lemma SplitInjective(a: string, b: string, sep: char)
    requires Split(a, sep) == Split(b, sep)
    ensures a == b
  {
    JoinSplit(a, sep);
    JoinSplit(b, sep);
  }

  lemma {:induction false} PartsHaveNoSeparator(s: string, sep: char)
    ensures forall i | 0 <= i < |Split(s, sep)| :: sep !in Split(s, sep)[i]
  {
    if s != "" {
      PartsHaveNoSeparator(s[1..], sep);
    }
  }

  lemma StringPrefixGivesParts(s: string, p: string, sep: char)
    requires s == p || HasPrefix(s, p + [sep])
    ensures Split(p, sep) <= Split(s, sep)
  {
    hide Split;
    if s != p {
      var rest := s[|p| + 1..];
      assert s == p + [sep] + rest;
      SplitConcat(p, rest, sep);
    }
  }

  lemma PartsPrefixGivesString(s: string, p: string, sep: char)
    requires Split(p, sep) <= Split(s, sep)
    ensures s == p || HasPrefix(s, p + [sep])
  {
    hide Split, Join;
    var ps, ss := Split(p, sep), Split(s, sep);
    if |ps| == |ss| {
      SplitInjective(p, s, sep);
    } else {
      var rest := ss[|ps|..];
      assert ss == ps + rest;
      JoinConcat(ps, rest, sep);
      JoinSplit(p, sep);
      JoinSplit(s, sep);
    }
  }

  /** Being p or beginning with p and a separator is having p's parts first. */
  lemma PrefixIsPartsPrefix(s: string, p: string, sep: char)
    ensures s == p || HasPrefix(s, p + [sep]) <==> Split(p, sep) <= Split(s, sep)
  {
    if Split(p, sep) <= Split(s, sep) {
      PartsPrefixGivesString(s, p, sep);
    }
    if s == p || HasPrefix(s, p + [sep]) {
      StringPrefixGivesParts(s, p, sep);
    }
  }

  predicate PartsSuffix(p: seq<string>, s: seq<string>) {
    |p| <= |s| && s[|s| - |p|..] == p
  }

  lemma StringSuffixGivesParts(s: string, p: string, sep: char)
    requires s == p || HasSuffix(s, [sep] + p)
    ensures PartsSuffix(Split(p, sep), Split(s, sep))
  {
    hide Split;
    if s != p {
      var front := s[..|s| - |p| - 1];
      assert s == front + [sep] + p;
      SplitConcat(front, p, sep);
    }
  }

  lemma PartsSuffixGivesString(s: string, p: string, sep: char)
    requires PartsSuffix(Split(p, sep), Split(s, sep))
    ensures s == p || HasSuffix(s, [sep] + p)
  {
    hide Split, Join;
    var ps, ss := Split(p, sep), Split(s, sep);
    if |ps| == |ss| {
      SplitInjective(p, s, sep);
    } else {
      var front := ss[..|ss| - |ps|];
      assert ss == front + ps;
      JoinConcat(front, ps, sep);
      JoinSplit(p, sep);
      JoinSplit(s, sep);
      assert s == Join(front, sep) + ([sep] + p);
    }
  }

  /** Being p or ending with a separator and p is having p's parts last. */
  lemma SuffixIsPartsSuffix(s: string, p: string, sep: char)
    ensures s == p || HasSuffix(s, [sep] + p) <==> PartsSuffix(Split(p, sep), Split(s, sep))
  {
    if PartsSuffix(Split(p, sep), Split(s, sep)) {
      PartsSuffixGivesString(s, p, sep);
    }
    if s == p || HasSuffix(s, [sep] + p) {
      StringSuffixGivesParts(s, p, sep);
    }
  }

  // ----- letter case ------------------------------------------------------------------------

  /** unicode.ToLower on one character. Only U+0130 and U+212A have an ASCII lower case outside
      A-Z; any other non-ASCII character stays non-ASCII, which is all that is used here. */
  function LowerChar(c: char): char {
    if 'A' <= c <= 'Z' then c - 'A' + 'a'
    else if c == '\U{0130}' then 'i'
    else if c == '\U{212A}' then 'k'
    else c
  }

  /** On ASCII, the letters A to Z (codes 65 to 90) become a to z, and nothing else changes. */
  lemma LowerCharMeans(c: char)
    requires c as int < 128
    ensures LowerChar(c) as int == if 65 <= c as int <= 90 then c as int + 32 else c as int
  {
  }

  /** strings.ToLower(s) */
  function ToLower(s: string): (t: string)
    ensures |t| == |s|
    ensures forall i | 0 <= i < |s| :: t[i] == LowerChar(s[i])
  {
    if s == "" then "" else [LowerChar(s[0])] + ToLower(s[1..])
  }

  predicate IsLower(s: string) {
    forall i | 0 <= i < |s| :: LowerChar(s[i]) == s[i]
  }

  lemma LowerOfLower(s: string)
    requires IsLower(s)
    ensures ToLower(s) == s
  {
  }
}
