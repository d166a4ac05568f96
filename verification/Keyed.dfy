/** Sequences of records that carry a name: search, sorting by name, and the finite map from names to
    records that such a sequence stands for. */
module Keyed {
  import opened Wrappers

  // ----- the order of names -----------------------------------------------------------------

  /** Go's < on strings. */
  predicate Less(a: string, b: string) {
    b != "" && (a == "" || a[0] < b[0] || (a[0] == b[0] && Less(a[1..], b[1..])))
  }

  lemma {:induction false} LessIrreflexive(a: string)
    ensures !Less(a, a)
  {
    if a != "" { LessIrreflexive(a[1..]); }
  }

  lemma {:induction false} LessTransitive(a: string, b: string, c: string)
    requires Less(a, b) && Less(b, c)
    ensures Less(a, c)
  {
    if a != "" && a[0] == b[0] == c[0] {
      LessTransitive(a[1..], b[1..], c[1..]);
    }
  }

  lemma {:induction false} LessTotal(a: string, b: string)
    ensures Less(a, b) || Less(b, a) || a == b
  {
    if a != "" && b != "" && a[0] == b[0] {
      LessTotal(a[1..], b[1..]);
      assert a == [a[0]] + a[1..] && b == [b[0]] + b[1..];
    }
  }

  /** a and b agree before k and differ there, or a ends there. */
  predicate DifferAt(a: string, b: string, k: nat) {
    && k <= |a| && k < |b| && a[..k] == b[..k]
    && (k < |a| ==> a[k] != b[k])
  }

  /** a before b in a dictionary: a proper beginning of it, or smaller where the two first differ. */
  ghost predicate Before(a: string, b: string) {
    exists k: nat :: DifferAt(a, b, k) && (k == |a| || a[k] < b[k])
  }

  lemma {:induction false} LessIsBefore(a: string, b: string)
    ensures Less(a, b) <==> Before(a, b)
  {
    if a == "" {
      assert b != "" ==> DifferAt(a, b, 0);
    } else if b != "" {
      if a[0] != b[0] {
        assert DifferAt(a, b, 0);
        forall k: nat | DifferAt(a, b, k)
          ensures k == 0
        {
          FirstDiffers(a, b, k);
        }
      } else {
        LessIsBefore(a[1..], b[1..]);
        DifferOneLater(a, b);
        if k: nat :| DifferAt(a, b, k) && (k == |a| || a[k] < b[k]) {
          assert DifferAt(a[1..], b[1..], k - 1);
        }
        if k: nat :| DifferAt(a[1..], b[1..], k) && (k == |a| - 1 || a[1..][k] < b[1..][k]) {
          assert DifferAt(a, b, k + 1);
        }
      }
    }
  }

  lemma FirstDiffers(a: string, b: string, k: nat)
    requires a != "" && b != "" && a[0] != b[0] && DifferAt(a, b, k)
    ensures k == 0
  {
  }

  lemma DifferOneLater(a: string, b: string)
    requires a != "" && b != "" && a[0] == b[0]
    ensures !DifferAt(a, b, 0)
    ensures forall k: nat :: DifferAt(a[1..], b[1..], k) <==> DifferAt(a, b, k + 1)
  {
    forall k: nat
      ensures DifferAt(a[1..], b[1..], k) <==> DifferAt(a, b, k + 1)
    {
      if k <= |a| - 1 && k <= |b| - 1 {
        assert a[..k + 1] == [a[0]] + a[1..][..k] && b[..k + 1] == [b[0]] + b[1..][..k];
        assert a[..k + 1] == b[..k + 1] ==> a[..k + 1][1..] == b[..k + 1][1..];
      }
    }
  }

  // ----- search -----------------------------------------------------------------------------

  /** The index of the first record with the name, or -1. */
  function Find<T>(s: seq<T>, key: T -> string, k: string): (i: int)
    ensures -1 <= i < |s|
    ensures i >= 0 ==> key(s[i]) == k
    ensures forall j | 0 <= j < (if i < 0 then |s| else i) :: key(s[j]) != k
  {
    if s == [] then -1
    else if key(s[0]) == k then 0
    else
      var i := Find(s[1..], key, k);
      if i < 0 then -1 else i + 1
  }

  /** The map the sequence stands for. */
  function Lookup<T>(s: seq<T>, key: T -> string, k: string): Option<T> {
    var i := Find(s, key, k);
    if i < 0 then None else Some(s[i])
  }

  ghost predicate Unique<T>(s: seq<T>, key: T -> string) {
    forall i, j | 0 <= i < j < |s| :: key(s[i]) != key(s[j])
  }

  ghost predicate Sorted<T>(s: seq<T>, key: T -> string) {
    forall i, j | 0 <= i < j < |s| :: Less(key(s[i]), key(s[j]))
  }

  lemma SortedIsUnique<T>(s: seq<T>, key: T -> string)
    requires Sorted(s, key)
    ensures Unique(s, key)
  {
    forall i, j | 0 <= i < j < |s|
      ensures key(s[i]) != key(s[j])
    {
      LessIrreflexive(key(s[i]));
    }
  }

  /** With unique names, what is in the sequence is what is found in it. */
  lemma LookupAt<T>(s: seq<T>, key: T -> string, i: nat)
    requires Unique(s, key) && i < |s|
    ensures Find(s, key, key(s[i])) == i
    ensures Lookup(s, key, key(s[i])) == Some(s[i])
  {
    hide Find;
  }

  /** Sequences with unique names and the same records stand for the same map. */
  lemma SameRecordsSameMap<T>(s: seq<T>, t: seq<T>, key: T -> string, k: string)
    requires Unique(s, key) && Unique(t, key)
    requires forall x :: x in s <==> x in t
    ensures Lookup(s, key, k) == Lookup(t, key, k)
  {
    hide Find;
    var i, j := Find(s, key, k), Find(t, key, k);
    if i >= 0 {
      assert s[i] in t;
    }
    if j >= 0 {
      assert t[j] in s;
    }
  }

  // ----- update -----------------------------------------------------------------------------

  /** Replaces the record of the same name, or appends. */
  function Upsert<T>(s: seq<T>, key: T -> string, x: T): seq<T> {
    var i := Find(s, key, key(x));
    if i < 0 then s + [x] else s[i := x]
  }

  function RemoveAt<T>(s: seq<T>, i: nat): seq<T>
    requires i < |s|
  {
    s[..i] + s[i + 1..]
  }

  lemma UpsertUpdates<T>(s: seq<T>, key: T -> string, x: T, k: string)
    requires Unique(s, key)
    ensures Unique(Upsert(s, key, x), key)
    ensures Lookup(Upsert(s, key, x), key, k) == if k == key(x) then Some(x) else Lookup(s, key, k)
    ensures x in Upsert(s, key, x)
    ensures forall y | y in Upsert(s, key, x) :: y == x || (y in s && key(y) != key(x))
  {
    hide Find;
    var i, t := Find(s, key, key(x)), Upsert(s, key, x);
    assert t[if i < 0 then |s| else i] == x;
    var j := Find(t, key, k);
    var n := Find(s, key, k);
    if k != key(x) {
      assert j >= 0 ==> t[j] == s[j];
      assert n >= 0 ==> t[n] == s[n];
    } else {
      LookupAt(t, key, if i < 0 then |s| else i);
    }
  }

  lemma RemoveAtDeletes<T>(s: seq<T>, key: T -> string, i: nat, k: string)
    requires Unique(s, key) && i < |s|
    ensures Unique(RemoveAt(s, i), key)
    ensures Lookup(RemoveAt(s, i), key, k) == if k == key(s[i]) then None else Lookup(s, key, k)
    ensures forall y | y in RemoveAt(s, i) :: y in s
  {
    hide Find;
    var t := RemoveAt(s, i);
    assert forall j | 0 <= j < |t| :: t[j] == if j < i then s[j] else s[j + 1];
    var j, n := Find(t, key, k), Find(s, key, k);
    if n >= 0 && n != i {
      LookupAt(t, key, if n < i then n else n - 1);
    }
  }

  // ----- sorting ----------------------------------------------------------------------------

  function Insert<T>(x: T, s: seq<T>, key: T -> string): seq<T> {
    if s == [] || Less(key(x), key(s[0])) then [x] + s else [s[0]] + Insert(x, s[1..], key)
  }

  /** sort.Slice by name. Go does not say in what order it leaves records of the same name; the
      registry never holds two. */
  function Sort<T>(s: seq<T>, key: T -> string): seq<T> {
    if s == [] then [] else Insert(s[0], Sort(s[1..], key), key)
  }

  lemma {:induction false} InsertMembers<T>(x: T, s: seq<T>, key: T -> string, y: T)
    ensures y in Insert(x, s, key) <==> y == x || y in s
  {
    if s != [] {
      InsertMembers(x, s[1..], key, y);
      assert s == [s[0]] + s[1..];
    }
  }

  lemma {:induction false} InsertSorts<T>(x: T, s: seq<T>, key: T -> string)
    requires Sorted(s, key) && forall y | y in s :: key(y) != key(x)
    ensures Sorted(Insert(x, s, key), key)
  {
    if s != [] {
      LessTotal(key(x), key(s[0]));
      if Less(key(x), key(s[0])) {
        forall j | 0 <= j < |s|
          ensures Less(key(x), key(s[j]))
        {
          if j > 0 { LessTransitive(key(x), key(s[0]), key(s[j])); }
        }
      } else {
        InsertSorts(x, s[1..], key);
        var t := Insert(x, s[1..], key);
        forall j | 0 <= j < |t|
          ensures Less(key(s[0]), key(t[j]))
        {
          InsertMembers(x, s[1..], key, t[j]);
        }
      }
    }
  }

  lemma {:induction false} SortMembers<T>(s: seq<T>, key: T -> string, y: T)
    ensures y in Sort(s, key) <==> y in s
  {
    if s != [] {
      SortMembers(s[1..], key, y);
      InsertMembers(s[0], Sort(s[1..], key), key, y);
      assert s == [s[0]] + s[1..];
    }
  }

  lemma {:induction false} SortSorts<T>(s: seq<T>, key: T -> string)
    requires Unique(s, key)
    ensures Sorted(Sort(s, key), key)
  {
    if s != [] {
      SortSorts(s[1..], key);
      forall y | y in Sort(s[1..], key)
        ensures key(y) != key(s[0])
      {
        SortMembers(s[1..], key, y);
      }
      InsertSorts(s[0], Sort(s[1..], key), key);
    }
  }

  lemma {:induction false} SortOfSorted<T>(s: seq<T>, key: T -> string)
    requires Sorted(s, key)
    ensures Sort(s, key) == s
  {
    if s != [] {
      SortOfSorted(s[1..], key);
      assert |s| > 1 ==> Less(key(s[0]), key(s[1]));
    }
  }

  lemma {:induction false} SortLength<T>(s: seq<T>, key: T -> string)
    ensures |Sort(s, key)| == |s|
  {
    if s != [] {
      SortLength(s[1..], key);
      InsertLength(s[0], Sort(s[1..], key), key);
    }
  }

  lemma {:induction false} InsertLength<T>(x: T, s: seq<T>, key: T -> string)
    ensures |Insert(x, s, key)| == |s| + 1
  {
    if s != [] && !Less(key(x), key(s[0])) {
      InsertLength(x, s[1..], key);
    }
  }

  /** No record stands behind a later one. */
  ghost predicate Ascending<T>(s: seq<T>, key: T -> string) {
    forall i, j | 0 <= i < j < |s| :: !Less(key(s[j]), key(s[i]))
  }

  lemma {:induction false} InsertAscends<T>(x: T, s: seq<T>, key: T -> string)
    requires Ascending(s, key)
    ensures Ascending(Insert(x, s, key), key)
  {
    if s != [] {
      if Less(key(x), key(s[0])) {
        forall j | 0 <= j < |s|
          ensures !Less(key(s[j]), key(x))
        {
          if Less(key(s[j]), key(x)) {
            LessTransitive(key(s[j]), key(x), key(s[0]));
            LessIrreflexive(key(s[0]));
          }
        }
      } else {
        InsertAscends(x, s[1..], key);
        var t := Insert(x, s[1..], key);
        forall j | 0 <= j < |t|
          ensures !Less(key(t[j]), key(s[0]))
        {
          InsertMembers(x, s[1..], key, t[j]);
        }
      }
    }
  }

  lemma {:induction false} SortAscends<T>(s: seq<T>, key: T -> string)
    ensures Ascending(Sort(s, key), key)
  {
    if s != [] {
      SortAscends(s[1..], key);
      InsertAscends(s[0], Sort(s[1..], key), key);
    }
  }

  /** Sorting keeps the map. */
  lemma SortKeepsMap<T>(s: seq<T>, key: T -> string, k: string)
    requires Unique(s, key)
    ensures Sorted(Sort(s, key), key)
    ensures Lookup(Sort(s, key), key, k) == Lookup(s, key, k)
  {
    SortSorts(s, key);
    SortedIsUnique(Sort(s, key), key);
    forall y {
      SortMembers(s, key, y);
    }
    SameRecordsSameMap(Sort(s, key), s, key, k);
  }

  /** A sorted sequence is determined by its map. */
  lemma {:induction false} SortedIsCanonical<T>(s: seq<T>, t: seq<T>, key: T -> string)
    requires Sorted(s, key) && Sorted(t, key)
    requires forall k :: Lookup(s, key, k) == Lookup(t, key, k)
    ensures s == t
  {
    SortedIsUnique(s, key);
    SortedIsUnique(t, key);
    if s == [] {
      if t != [] { LookupAt(t, key, 0); }
    } else if t == [] {
      LookupAt(s, key, 0);
    } else {
      HeadOfSorted(s, t, key);
      assert s[0] == t[0];
      forall k
        ensures Lookup(s[1..], key, k) == Lookup(t[1..], key, k)
      {
        TailOfMap(s, key, k);
        TailOfMap(t, key, k);
      }
      SortedIsCanonical(s[1..], t[1..], key);
    }
  }

  lemma TailOfMap<T>(s: seq<T>, key: T -> string, k: string)
    requires s != [] && Unique(s, key)
    ensures Lookup(s[1..], key, k) == if k == key(s[0]) then None else Lookup(s, key, k)
  {
    RemoveAtDeletes(s, key, 0, k);
    assert RemoveAt(s, 0) == s[1..];
  }

  lemma HeadOfSorted<T>(s: seq<T>, t: seq<T>, key: T -> string)
    requires s != [] && t != [] && Sorted(s, key) && Sorted(t, key)
    requires forall k :: Lookup(s, key, k) == Lookup(t, key, k)
    ensures s[0] == t[0]
  {
    SortedIsUnique(s, key);
    SortedIsUnique(t, key);
    LookupAt(s, key, 0);
    LookupAt(t, key, 0);
    var i, j := Find(t, key, key(s[0])), Find(s, key, key(t[0]));
    if i > 0 && j > 0 {
      LessTransitive(key(t[0]), key(t[i]), key(t[0]));
      LessIrreflexive(key(t[0]));
    }
  }
}
