/** The order of a directory listing: directories before files, and within
    each group names in ascending byte order (std::string's operator<, which
    compares bytes as unsigned values; no case folding). */
module Ordering {
  import opened Bytes

  /** One entry of a listed directory: its file name and whether it is a directory. */
  datatype Entry = Entry(name: ByteString, isDirectory: bool)

  /** Lexicographic byte order: a proper prefix comes first, otherwise the
      first differing byte decides. */
  predicate ByteLess(a: ByteString, b: ByteString)
  {
    if a == [] then b != []
    else if b == [] then false
    else if a[0] != b[0] then a[0] < b[0]
    else ByteLess(a[1..], b[1..])
  }

  lemma {:induction false} ByteLessIrreflexive(a: ByteString)
    ensures !ByteLess(a, a)
  {
    if a != [] {
      ByteLessIrreflexive(a[1..]);
    }
  }

  lemma {:induction false} ByteLessAsymmetric(a: ByteString, b: ByteString)
    requires ByteLess(a, b)
    ensures !ByteLess(b, a)
  {
    if a != [] && b != [] && a[0] == b[0] {
      ByteLessAsymmetric(a[1..], b[1..]);
    }
  }

  lemma {:induction false} ByteLessTransitive(a: ByteString, b: ByteString, c: ByteString)
    requires ByteLess(a, b) && ByteLess(b, c)
    ensures ByteLess(a, c)
  {
    if a != [] && a[0] == b[0] && b[0] == c[0] {
      ByteLessTransitive(a[1..], b[1..], c[1..]);
    }
  }

  /** Any two different names are ordered one way or the other. */
  lemma {:induction false} ByteLessTotal(a: ByteString, b: ByteString)
    requires a != b
    ensures ByteLess(a, b) || ByteLess(b, a)
  {
    if a != [] && b != [] && a[0] == b[0] {
      assert a == [a[0]] + a[1..] && b == [b[0]] + b[1..];
      ByteLessTotal(a[1..], b[1..]);
    }
  }

  /** The comparator handed to std::sort. */
  predicate EntryLess(a: Entry, b: Entry)
  {
    if a.isDirectory != b.isDirectory then a.isDirectory else ByteLess(a.name, b.name)
  }

  /** `a` may come before `b`: `b` is not less than `a`. */
  predicate LessEq(a: Entry, b: Entry)
  {
    !EntryLess(b, a)
  }

  /** The comparator is a strict total order: irreflexive, transitive, and
      any two different entries are comparable. */
  lemma EntryLessStrictTotal(a: Entry, b: Entry, c: Entry)
    ensures !EntryLess(a, a)
    ensures EntryLess(a, b) ==> !EntryLess(b, a)
    ensures EntryLess(a, b) && EntryLess(b, c) ==> EntryLess(a, c)
    ensures a != b ==> EntryLess(a, b) || EntryLess(b, a)
  {
    ByteLessIrreflexive(a.name);
    if EntryLess(a, b) && a.isDirectory == b.isDirectory {
      ByteLessAsymmetric(a.name, b.name);
    }
    if EntryLess(a, b) && EntryLess(b, c) && a.isDirectory == b.isDirectory == c.isDirectory {
      ByteLessTransitive(a.name, b.name, c.name);
    }
    if a != b && a.isDirectory == b.isDirectory {
      ByteLessTotal(a.name, b.name);
    }
  }

  lemma LessEqTransitive(a: Entry, b: Entry, c: Entry)
    requires LessEq(a, b) && LessEq(b, c)
    ensures LessEq(a, c)
  {
    EntryLessStrictTotal(a, b, c);
    EntryLessStrictTotal(c, a, b);
    EntryLessStrictTotal(b, c, a);
    if a != b && b != c && a != c {
      EntryLessStrictTotal(c, b, a);
    }
  }

  lemma LessEqTotal(a: Entry, b: Entry)
    ensures LessEq(a, b) || LessEq(b, a)
  {
    EntryLessStrictTotal(a, b, a);
  }

  lemma LessEqAntisymmetric(a: Entry, b: Entry)
    requires LessEq(a, b) && LessEq(b, a)
    ensures a == b
  {
    EntryLessStrictTotal(a, b, a);
  }

  /** Every entry may come before every later one. */
  ghost predicate Sorted(s: seq<Entry>)
  {
    forall i, j :: 0 <= i < j < |s| ==> LessEq(s[i], s[j])
  }

  /** In a sorted listing every directory comes before every file, and
      entries of the same kind are in ascending byte order of their names. */
  lemma SortedListing(s: seq<Entry>, i: nat, j: nat)
    requires Sorted(s) && i < j < |s|
    ensures s[j].isDirectory ==> s[i].isDirectory
    ensures s[i].isDirectory == s[j].isDirectory ==> !ByteLess(s[j].name, s[i].name)
  {
    assert LessEq(s[i], s[j]);
  }

  /** `x` placed into a sorted sequence before the first entry it may precede. */
  function Insert(x: Entry, s: seq<Entry>): (r: seq<Entry>)
    ensures multiset(r) == multiset(s) + multiset{x}
    ensures |r| == |s| + 1
  {
    if s == [] then [x]
    else if EntryLess(s[0], x) then
      assert s == [s[0]] + s[1..];
      [s[0]] + Insert(x, s[1..])
    else [x] + s
  }

  lemma {:induction false} InsertSorted(x: Entry, s: seq<Entry>)
    requires Sorted(s)
    ensures Sorted(Insert(x, s))
  {
    if s != [] && EntryLess(s[0], x) {
      assert Sorted(s[1..]);
      InsertSorted(x, s[1..]);
      var r := Insert(x, s);
      var rest := Insert(x, s[1..]);
      assert r == [s[0]] + rest;
      EntryLessStrictTotal(s[0], x, s[0]);
      forall k | 0 <= k < |rest| ensures LessEq(s[0], rest[k]) {
        assert rest[k] in multiset(rest);
        assert rest[k] == x || rest[k] in multiset(s[1..]);
        if rest[k] != x {
          var m :| 0 <= m < |s[1..]| && s[1..][m] == rest[k];
          assert s[1 + m] == rest[k];
        }
      }
      ConsSorted(s[0], rest);
    } else if s != [] {
      var r := Insert(x, s);
      assert r == [x] + s;
      LessEqTotal(s[0], x);
      forall k | 0 <= k < |s| ensures LessEq(x, s[k]) {
        if k > 0 {
          LessEqTransitive(x, s[0], s[k]);
        }
      }
      ConsSorted(x, s);
    }
  }

  /** An entry that precedes every entry of a sorted listing can head it. */
  lemma ConsSorted(y: Entry, t: seq<Entry>)
    requires Sorted(t) && forall k :: 0 <= k < |t| ==> LessEq(y, t[k])
    ensures Sorted([y] + t)
  {
    var r := [y] + t;
    forall i, j | 0 <= i < j < |r|
      ensures LessEq(r[i], r[j])
    {
      if i == 0 {
        assert r[j] == t[j - 1];
      } else {
        assert r[i] == t[i - 1] && r[j] == t[j - 1];
      }
    }
  }

  /** The listing order of a sequence of entries, by insertion. */
  function SortedEntries(entries: seq<Entry>): (r: seq<Entry>)
    ensures multiset(r) == multiset(entries)
  {
    if entries == [] then []
    else
      assert entries == entries[..|entries| - 1] + [entries[|entries| - 1]];
      Insert(entries[|entries| - 1], SortedEntries(entries[..|entries| - 1]))
  }

  lemma {:induction false} SortedEntriesSorted(entries: seq<Entry>)
    ensures Sorted(SortedEntries(entries))
  {
    if entries != [] {
      SortedEntriesSorted(entries[..|entries| - 1]);
      InsertSorted(entries[|entries| - 1], SortedEntries(entries[..|entries| - 1]));
    }
  }

  /** The least entry of a sorted sequence is its first. */
  lemma SortedFirstIsLeast(s: seq<Entry>, x: Entry)
    requires Sorted(s) && x in multiset(s)
    ensures LessEq(s[0], x)
  {
    var k :| 0 <= k < |s| && s[k] == x;
    if k > 0 {
      assert LessEq(s[0], s[k]);
    } else {
      EntryLessStrictTotal(x, x, x);
    }
  }

  /** Two sorted arrangements of the same entries start alike, and what
      follows holds the same entries. */
  lemma SameFirst(s: seq<Entry>, t: seq<Entry>)
    requires Sorted(s) && Sorted(t) && multiset(s) == multiset(t) && s != []
    ensures t != [] && s[0] == t[0] && multiset(s[1..]) == multiset(t[1..])
  {
    assert |multiset(t)| == |t|;
    assert s[0] in multiset(t) && t[0] in multiset(s);
    SortedFirstIsLeast(s, t[0]);
    SortedFirstIsLeast(t, s[0]);
    LessEqAntisymmetric(s[0], t[0]);
    SameRest(s, t);
  }

  /** Removing equal first elements from sequences with the same elements
      leaves sequences with the same elements. */
  lemma SameRest(s: seq<Entry>, t: seq<Entry>)
    requires s != [] && t != [] && s[0] == t[0] && multiset(s) == multiset(t)
    ensures multiset(s[1..]) == multiset(t[1..])
  {
    assert s == [s[0]] + s[1..] && t == [t[0]] + t[1..];
    assert multiset(s[1..]) == multiset(s) - multiset{s[0]};
    assert multiset(t[1..]) == multiset(t) - multiset{t[0]};
  }

  lemma SortedTail(s: seq<Entry>)
    requires Sorted(s) && s != []
    ensures Sorted(s[1..])
  {
    forall k, l | 0 <= k < l < |s| - 1 ensures LessEq(s[1..][k], s[1..][l]) {
      assert s[1..][k] == s[k + 1] && s[1..][l] == s[l + 1];
    }
  }

  /** A sorted arrangement of a collection of entries is unique. */
  lemma {:induction false} SortedUnique(s: seq<Entry>, t: seq<Entry>)
    requires Sorted(s) && Sorted(t) && multiset(s) == multiset(t)
    ensures s == t
    decreases |s|
  {
    if s != [] {
      SameFirst(s, t);
      SortedTail(s);
      SortedTail(t);
      SortedUnique(s[1..], t[1..]);
      assert s == [s[0]] + s[1..] && t == [t[0]] + t[1..];
    } else {
      assert |multiset(t)| == |t|;
    }
  }

  /** Midway through inserting s[j]: the other entries are in order, and
      s[j] may precede every entry after it. */
  ghost predicate Inserting(s: seq<Entry>, j: nat)
  {
    && j < |s|
    && (forall k, l :: 0 <= k < l < |s| && k != j && l != j ==> LessEq(s[k], s[l]))
    && (forall l :: j < l < |s| ==> LessEq(s[j], s[l]))
  }

  /** s with the entries at i and j exchanged. */
  function Swapped(s: seq<Entry>, i: nat, j: nat): (r: seq<Entry>)
    requires i < |s| && j < |s|
    ensures |r| == |s| && r[i] == s[j] && r[j] == s[i]
    ensures forall k :: 0 <= k < |s| && k != i && k != j ==> r[k] == s[k]
    ensures multiset(r) == multiset(s)
  {
    s[i := s[j]][j := s[i]]
  }

  lemma StartInserting(s: seq<Entry>)
    requires |s| > 0 && Sorted(s[..|s| - 1])
    ensures Inserting(s, |s| - 1)
  {
    forall k, l | 0 <= k < l < |s| && k != |s| - 1 && l != |s| - 1
      ensures LessEq(s[k], s[l])
    {
      assert s[k] == s[..|s| - 1][k] && s[l] == s[..|s| - 1][l];
    }
  }

  /** Moving the entry being inserted one place to the left, past an entry
      it must precede, keeps the insertion invariant. */
  lemma SwapStep(s: seq<Entry>, j: nat)
    requires 0 < j && Inserting(s, j) && EntryLess(s[j], s[j - 1])
    ensures Inserting(Swapped(s, j - 1, j), j - 1)
  {
    var t := Swapped(s, j - 1, j);
    EntryLessStrictTotal(s[j], s[j - 1], s[j]);
    forall l | j - 1 < l < |t| ensures LessEq(t[j - 1], t[l]) {
      if l > j {
        assert LessEq(s[j], s[l]);
      }
    }
    forall k, l | 0 <= k < l < |t| && k != j - 1 && l != j - 1
      ensures LessEq(t[k], t[l])
    {
      if k == j {
        assert LessEq(s[j - 1], s[l]);
      } else if l == j {
        assert LessEq(s[k], s[j - 1]);
      } else {
        assert LessEq(s[k], s[l]);
      }
    }
  }

  /** Once the entry being inserted may follow its left neighbour, the
      whole prefix is sorted. */
  lemma FinishInserting(s: seq<Entry>, j: nat)
    requires Inserting(s, j) && (j == 0 || LessEq(s[j - 1], s[j]))
    ensures Sorted(s)
  {
    forall k, l | 0 <= k < l < |s| ensures LessEq(s[k], s[l]) {
      if l == j && k < j - 1 {
        assert LessEq(s[k], s[j - 1]);
        LessEqTransitive(s[k], s[j - 1], s[j]);
      }
    }
  }

  /** The listing sort, in place: insertion sort with the listing comparator.
      The result is the one sorted arrangement of the entries, so it does not
      depend on which sorting algorithm is used. */
  method SortEntries(a: array<Entry>)
    modifies a
    ensures Sorted(a[..])
    ensures multiset(a[..]) == multiset(old(a[..]))
    ensures a[..] == SortedEntries(old(a[..]))
  {
    var i := 0;
    while i < a.Length
      invariant 0 <= i <= a.Length
      invariant Sorted(a[..i])
      invariant multiset(a[..]) == multiset(old(a[..]))
    {
      assert a[..i + 1][..i] == a[..i];
      StartInserting(a[..i + 1]);
      var j := i;
      while j > 0 && EntryLess(a[j], a[j - 1])
        invariant 0 <= j <= i
        invariant Inserting(a[..i + 1], j)
        invariant multiset(a[..]) == multiset(old(a[..]))
      {
        ghost var before := a[..];
        SwapStep(a[..i + 1], j);
        a[j - 1], a[j] := a[j], a[j - 1];
        assert a[..] == Swapped(before, j - 1, j);
        assert a[..i + 1] == Swapped(before[..i + 1], j - 1, j);
        j := j - 1;
      }
      FinishInserting(a[..i + 1], j);
      i := i + 1;
    }
    assert a[..a.Length] == a[..];
    SortedEntriesSorted(old(a[..]));
    SortedUnique(a[..], SortedEntries(old(a[..])));
  }
}
