/** Upload naming: sanitizeUploadFilename reduces a client-supplied file name
    to one safe file name, and chooseUploadDestination finds a free path for
    it in the uploads directory, trying `name`, then `stem_1.ext`,
    `stem_2.ext`, ... The directory is given as the finite set of paths that
    exist, and the existence check's error reports as the set of paths whose
    check fails. */
module Uploads {
  import opened Bytes
  import opened Paths
  import opened Strings

  /** The file name an upload is stored under, when it has one: the last name
      of the normal form of the input, provided some name survives
      normalisation, none of them is "..", and the input does not end as a
      directory. */
  function SanitizedName(input: ByteString): (r: Option<ByteString>)
    ensures r.Some? ==>
              && r.value != [] && r.value != "." && r.value != ".."
              && '/' !in r.value && '\\' !in r.value
  {
    var n := LexicallyNormal(Slashed(input));
    NormalizedNamesHaveNoBackslash(input);
    if n.segs != [] && ".." !in n.segs && !n.trailing then Some(Last(n.segs)) else None
  }

  /** normalizeRelativePath followed by filename(), read off the normal form
      of the input. */
  lemma NormalizedFilename(input: ByteString)
    ensures var n := LexicallyNormal(Slashed(input));
            var normalized := NormalizeRelativePath(input);
            && (normalized == [] <==> n.segs == [])
            && (ContainsParentTraversal(normalized) <==> ".." in n.segs)
            && (n.segs != [] ==> Filename(normalized) == if n.trailing then [] else Last(n.segs))
  {
    var n := LexicallyNormal(Slashed(input));
    NormalizedShape(input);
    TraversalAfterNormalize(input);
    if n.segs != [] {
      SplitRelativeString(n.segs, n.trailing);
    }
  }

  /** The checks of sanitizeUploadFilename, in its order, decide the same
      as SanitizedName, and the accepted name is the file name of the
      normalised input. */
  lemma SanitizeSteps(input: ByteString)
    ensures var normalized := NormalizeRelativePath(input);
            var name := Filename(normalized);
            && (SanitizedName(input).Some? <==>
                  && normalized != [] && !ContainsParentTraversal(normalized)
                  && name != [] && name != "." && name != "..")
            && (SanitizedName(input).Some? ==> SanitizedName(input).value == name)
  {
    NormalizedFilename(input);
  }

  const Separators: set<Byte> := {'/', '\\'}

  /** sanitizeUploadFilename. */
  method SanitizeUploadFilename(input: ByteString) returns (ok: bool, sanitized: ByteString)
    ensures ok <==> SanitizedName(input).Some?
    ensures sanitized == if ok then SanitizedName(input).value else []
  {
    var normalized := NormalizeRelativePath(input);
    var name := Filename(normalized);
    SanitizeSteps(input);
    if normalized == [] || ContainsParentTraversal(normalized) {
      return false, [];
    }
    if name == [] || name == "." || name == ".." {
      return false, [];
    }
    sanitized := UnderscoredCopy(name, Separators);
    UnderscoredUnchanged(name, Separators);
    ok := true;
  }

  /** A plain file name (non-empty, not "." or "..", no separator of either
      kind) is accepted as it is. */
  lemma PlainNameAccepted(name: ByteString)
    requires name != [] && name != "." && name != ".."
    requires '/' !in name && '\\' !in name
    ensures SanitizedName(name) == Some(name)
  {
    assert Slashed(name) == name;
    SplitNoSeparator(name);
    assert Collapse(false, [name]) == Push(false, Collapse(false, []), name);
  }

  /** A name that sanitising accepts is accepted again, unchanged. */
  lemma SanitizeIdempotent(input: ByteString)
    requires SanitizedName(input).Some?
    ensures SanitizedName(SanitizedName(input).value) == SanitizedName(input)
  {
    PlainNameAccepted(SanitizedName(input).value);
  }

  /** A name is rejected when nothing survives normalisation, when a ".."
      survives, or when it names a directory. */
  lemma SanitizeRejects(input: ByteString)
    ensures var n := LexicallyNormal(Slashed(input));
            SanitizedName(input).None? <==> n.segs == [] || ".." in n.segs || n.trailing
  {
  }

  /** The candidate names for `name`: the name itself, then stem_k.ext. */
  function Candidate(name: ByteString, k: nat): ByteString
  {
    if k == 0 then name else Stem(name) + "_" + NatToDecimal(k) + Extension(name)
  }

  /** The k-th destination tried for `sanitized` in `dir`; stem and extension
      are those of `dir / sanitized`. */
  function Destination(dir: ByteString, sanitized: ByteString, k: nat): ByteString
  {
    var base := JoinPath(dir, sanitized);
    if k == 0 then base else JoinPath(dir, Candidate(Filename(base), k))
  }

  /** For a plain file name the destinations are `dir / Candidate(name, k)`. */
  lemma DestinationOfName(dir: ByteString, name: ByteString, k: nat)
    requires name != [] && '/' !in name
    ensures Destination(dir, name, k) == JoinPath(dir, Candidate(name, k))
    ensures Filename(Destination(dir, name, k)) == Candidate(name, k)
  {
    FilenameOfJoin(dir, name);
    if k > 0 {
      CandidateIsFileName(name, k);
      FilenameOfJoin(dir, Candidate(name, k));
    }
  }

  /** A numbered candidate of a name without separators is a non-empty name
      without separators; it keeps the extension. */
  lemma CandidateIsFileName(name: ByteString, k: nat)
    requires k > 0 && '/' !in name
    ensures Candidate(name, k) != [] && '/' !in Candidate(name, k)
  {
    StemExtension(name);
    var d := NatToDecimal(k);
    assert forall c :: c in Stem(name) ==> c in name;
    assert forall c :: c in Extension(name) ==> c in name;
    assert forall i :: 0 <= i < |d| ==> d[i] != '/';
  }

  lemma CandidateNotRooted(name: ByteString, k: nat)
    requires k > 0 && '/' !in name
    ensures !Rooted(Candidate(name, k))
  {
    StemExtension(name);
    if Stem(name) != [] {
      assert Candidate(name, k)[0] == Stem(name)[0] == name[0];
    }
  }

  lemma {:induction false} LastDotAppend(s: ByteString, t: ByteString)
    requires '.' !in t
    ensures LastDot(s + t) == LastDot(s)
    decreases |t|
  {
    if t != [] {
      var init := t[..|t| - 1];
      assert (s + t)[..|s + t| - 1] == s + init;
      LastDotAppend(s, init);
    } else {
      assert s + t == s;
    }
  }

  lemma NoDotInCounter(k: nat)
    ensures '.' !in "_" + NatToDecimal(k)
  {
    var d := NatToDecimal(k);
    assert forall i :: 0 <= i < |d| ==> IsDigit(d[i]);
  }

  lemma KeepsNonEmptyExtension(stem: ByteString, ext: ByteString, k: nat)
    requires ext != [] && ext[0] == '.' && '.' !in ext[1..] && stem != []
    ensures Extension(stem + "_" + NatToDecimal(k) + ext) == ext
  {
    var d := NatToDecimal(k);
    var c := stem + "_" + d + ext;
    var at := |stem| + 1 + |d|;
    assert c == (stem + "_" + d + ".") + ext[1..];
    LastDotAppend(stem + "_" + d + ".", ext[1..]);
    assert LastDot(c) == Some(at);
    assert c[at..] == ext;
  }

  /** A name without an extension has no '.' or only a leading one. */
  lemma NoExtensionDot(name: ByteString)
    requires Extension(name) == [] && name != ".."
    ensures LastDot(name).None? || LastDot(name) == Some(0)
  {
    if 0 < |name| <= 2 && name[0] == '.' {
      if |name| == 2 {
        assert name[1] != '.';
        assert name[..1] == ".";
      }
    }
  }

  lemma KeepsEmptyExtension(name: ByteString, k: nat)
    requires Extension(name) == [] && name != ".."
    ensures Extension(name + "_" + NatToDecimal(k)) == []
  {
    var tail := "_" + NatToDecimal(k);
    var c := name + tail;
    NoDotInCounter(k);
    assert name + "_" + NatToDecimal(k) == c;
    LastDotAppend(name, tail);
    NoExtensionDot(name);
    assert |c| > 2 || c[0] == '_';
  }

  /** A numbered copy keeps the extension of the name (for any name but "..",
      whose copy ".._1" would gain the extension "._1"). */
  lemma CandidateKeepsExtension(name: ByteString, k: nat)
    requires name != ".."
    ensures Extension(Candidate(name, k)) == Extension(name)
  {
    if k > 0 {
      var stem, ext, d := Stem(name), Extension(name), NatToDecimal(k);
      var c := stem + "_" + d + ext;
      assert Candidate(name, k) == c;
      if ext != [] {
        StemExtension(name);
        KeepsNonEmptyExtension(stem, ext, k);
        assert Extension(c) == ext;
      } else {
        StemWithoutExtension(name);
        KeepsEmptyExtension(name, k);
        assert c == name + "_" + d;
        assert Extension(c) == ext;
      }
    }
  }

  /** A name without extension is its own stem. */
  lemma StemWithoutExtension(name: ByteString)
    requires Extension(name) == []
    ensures Stem(name) == name
  {
  }

  lemma JoinPathInjective(dir: ByteString, x: ByteString, y: ByteString)
    requires !Rooted(x) && !Rooted(y)
    requires JoinPath(dir, x) == JoinPath(dir, y)
    ensures x == y
  {
    var prefix := if dir != [] && Last(dir) != '/' then dir + "/" else dir;
    assert JoinPath(dir, x) == prefix + x && JoinPath(dir, y) == prefix + y;
    assert x == (prefix + x)[|prefix|..];
    assert y == (prefix + y)[|prefix|..];
  }

  /** Numbered candidates differ for different numbers. */
  lemma CandidateInjective(name: ByteString, j: nat, k: nat)
    requires j > 0 && k > 0 && Candidate(name, j) == Candidate(name, k)
    ensures j == k
  {
    var a := Stem(name) + "_";
    var e := Extension(name);
    var dj := NatToDecimal(j);
    var dk := NatToDecimal(k);
    assert Candidate(name, j) == a + dj + e;
    assert Candidate(name, k) == a + dk + e;
    assert |dj| == |dk|;
    assert dj == (a + dj + e)[|a|..|a| + |dj|];
    assert dk == (a + dk + e)[|a|..|a| + |dk|];
    DecimalInjective(j, k);
  }

  /** Numbered destinations differ for different numbers. */
  lemma DestinationInjective(dir: ByteString, sanitized: ByteString, j: nat, k: nat)
    requires j > 0 && k > 0
    requires Destination(dir, sanitized, j) == Destination(dir, sanitized, k)
    ensures j == k
  {
    var f := Filename(JoinPath(dir, sanitized));
    CandidateNotRooted(f, j);
    CandidateNotRooted(f, k);
    JoinPathInjective(dir, Candidate(f, j), Candidate(f, k));
    CandidateInjective(f, j, k);
  }

  /** The values of f at 1..m. */
  function Image<T>(f: nat -> T, m: nat): set<T>
  {
    if m == 0 then {} else Image(f, m - 1) + {f(m)}
  }

  /** f takes distinct values at distinct positive arguments. */
  ghost predicate InjectiveFromOne<T>(f: nat -> T)
  {
    forall j: nat, k: nat :: 0 < j && 0 < k && f(j) == f(k) ==> j == k
  }

  lemma {:induction false} ImageExcludesLater<T>(f: nat -> T, m: nat, n: nat)
    requires InjectiveFromOne(f) && n > m
    ensures f(n) !in Image(f, m)
  {
    if m > 0 {
      ImageExcludesLater(f, m - 1, n);
    }
  }

  lemma {:induction false} ImageSize<T>(f: nat -> T, m: nat)
    requires InjectiveFromOne(f)
    ensures |Image(f, m)| == m
  {
    if m > 0 {
      ImageSize(f, m - 1);
      ImageExcludesLater(f, m - 1, m);
    }
  }

  lemma {:induction false} ImageWithin<T>(f: nat -> T, existing: set<T>, m: nat)
    requires forall k :: 1 <= k <= m ==> f(k) in existing
    ensures Image(f, m) <= existing
  {
    if m > 0 {
      ImageWithin(f, existing, m - 1);
    }
  }

  /** Pigeonhole: a finite directory can hold at most |existing| of the
      numbered destinations, so destinations 0..m all exist only when
      m <= |existing|. */
  lemma AllTakenBound(dir: ByteString, sanitized: ByteString, existing: set<ByteString>, m: nat)
    requires TakenBefore(dir, sanitized, existing, m + 1)
    ensures m <= |existing|
  {
    var f := (k: nat) => Destination(dir, sanitized, k);
    forall j: nat, k: nat | 0 < j && 0 < k && f(j) == f(k)
      ensures j == k
    {
      DestinationInjective(dir, sanitized, j, k);
    }
    forall k | 1 <= k <= m
      ensures f(k) in existing
    {
      assert Taken(dir, sanitized, existing)(k);
    }
    ImageWithin(f, existing, m);
    ImageSize(f, m);
    SubsetSize(Image(f, m), existing);
  }

  lemma {:induction false} SubsetSize<T>(a: set<T>, b: set<T>)
    requires a <= b
    ensures |a| <= |b|
    decreases |a|
  {
    if a != {} {
      var x :| x in a;
      SubsetSize(a - {x}, b - {x});
    }
  }

  /** The search for the first index from k on that is not taken; it stops
      at `bound` whatever it finds there. */
  function FirstFree(taken: nat -> bool, bound: nat, k: nat): nat
    requires k <= bound
    decreases bound - k
  {
    if !taken(k) || k == bound then k else FirstFree(taken, bound, k + 1)
  }

  /** Given an index `free` that is not taken, between k and the bound, the
      search finds the first index that is not taken. */
  lemma {:induction false} FirstFreeSpec(taken: nat -> bool, bound: nat, k: nat, free: nat)
    requires k <= free <= bound && !taken(free)
    requires forall j :: 0 <= j < k ==> taken(j)
    ensures var r := FirstFree(taken, bound, k);
            && !taken(r)
            && forall j :: 0 <= j < r ==> taken(j)
    decreases bound - k
  {
    if taken(k) {
      FirstFreeSpec(taken, bound, k + 1, free);
    }
  }

  /** p holds at 0..m-1. */
  ghost predicate AllBelow(p: nat -> bool, m: nat)
  {
    forall j: nat :: j < m ==> p(j)
  }

  lemma AllBelowStep(p: nat -> bool, m: nat)
    requires AllBelow(p, m) && p(m)
    ensures AllBelow(p, m + 1)
  {
  }

  /** Whether the k-th destination exists. */
  function Taken(dir: ByteString, sanitized: ByteString, existing: set<ByteString>): nat -> bool
  {
    (k: nat) => Destination(dir, sanitized, k) in existing
  }

  /** Whether the existence check of the k-th destination succeeds. */
  function Clear(dir: ByteString, sanitized: ByteString, failing: set<ByteString>): nat -> bool
  {
    (k: nat) => Destination(dir, sanitized, k) !in failing
  }

  /** The destinations 0..m-1 all exist. */
  ghost predicate TakenBefore(dir: ByteString, sanitized: ByteString, existing: set<ByteString>, m: nat)
  {
    AllBelow(Taken(dir, sanitized, existing), m)
  }

  /** The existence checks of destinations 0..m-1 all succeed. */
  ghost predicate ClearBefore(dir: ByteString, sanitized: ByteString, failing: set<ByteString>, m: nat)
  {
    AllBelow(Clear(dir, sanitized, failing), m)
  }

  /** The index of the destination the upload is stored under: the search
      never needs to go past |existing| + 1. */
  function FreeIndex(dir: ByteString, sanitized: ByteString, existing: set<ByteString>): nat
  {
    FirstFree(Taken(dir, sanitized, existing), |existing| + 1, 0)
  }

  /** The destination chosen is free, and every destination tried before it
      is taken: it is the first free one. */
  lemma FreeIndexSpec(dir: ByteString, sanitized: ByteString, existing: set<ByteString>)
    ensures var k := FreeIndex(dir, sanitized, existing);
            && Destination(dir, sanitized, k) !in existing
            && forall j :: 0 <= j < k ==> Destination(dir, sanitized, j) in existing
  {
    var taken := Taken(dir, sanitized, existing);
    var bound := |existing| + 1;
    if TakenBefore(dir, sanitized, existing, bound + 1) {
      AllTakenBound(dir, sanitized, existing, bound);
    }
    var free: nat :| free <= bound && !taken(free);
    FirstFreeSpec(taken, bound, 0, free);
    var r := FirstFree(taken, bound, 0);
    assert !taken(r);
    forall j | 0 <= j < r
      ensures Destination(dir, sanitized, j) in existing
    {
      assert taken(j);
    }
  }

  /** The first free index is the only index that is free with all earlier ones taken. */
  lemma FreeIndexUnique(dir: ByteString, sanitized: ByteString, existing: set<ByteString>, k: nat)
    requires Destination(dir, sanitized, k) !in existing
    requires forall j :: 0 <= j < k ==> Destination(dir, sanitized, j) in existing
    ensures FreeIndex(dir, sanitized, existing) == k
  {
    FreeIndexSpec(dir, sanitized, existing);
  }

  lemma TakenBeforeMeans(dir: ByteString, sanitized: ByteString, existing: set<ByteString>, m: nat)
    ensures TakenBefore(dir, sanitized, existing, m)
            <==> forall j :: 0 <= j < m ==> Destination(dir, sanitized, j) in existing
  {
    var taken := Taken(dir, sanitized, existing);
    if TakenBefore(dir, sanitized, existing, m) {
      forall j | 0 <= j < m
        ensures Destination(dir, sanitized, j) in existing
      {
        assert taken(j);
      }
    }
    if forall j :: 0 <= j < m ==> Destination(dir, sanitized, j) in existing {
      forall j: nat | j < m
        ensures taken(j)
      {
        assert Destination(dir, sanitized, j) in existing;
      }
    }
  }

  lemma ClearBeforeMeans(dir: ByteString, sanitized: ByteString, failing: set<ByteString>, m: nat)
    ensures ClearBefore(dir, sanitized, failing, m)
            <==> forall j :: 0 <= j < m ==> Destination(dir, sanitized, j) !in failing
  {
    var clear := Clear(dir, sanitized, failing);
    if ClearBefore(dir, sanitized, failing, m) {
      forall j | 0 <= j < m
        ensures Destination(dir, sanitized, j) !in failing
      {
        assert clear(j);
      }
    }
    if forall j :: 0 <= j < m ==> Destination(dir, sanitized, j) !in failing {
      forall j: nat | j < m
        ensures clear(j)
      {
        assert Destination(dir, sanitized, j) !in failing;
      }
    }
  }

  /** One more destination probed and found taken, without an error. */
  lemma ProbeTaken(dir: ByteString, sanitized: ByteString, existing: set<ByteString>, failing: set<ByteString>, m: nat)
    requires TakenBefore(dir, sanitized, existing, m) && ClearBefore(dir, sanitized, failing, m)
    requires Destination(dir, sanitized, m) in existing && Destination(dir, sanitized, m) !in failing
    ensures TakenBefore(dir, sanitized, existing, m + 1) && ClearBefore(dir, sanitized, failing, m + 1)
    ensures m <= |existing|
  {
    AllBelowStep(Taken(dir, sanitized, existing), m);
    AllBelowStep(Clear(dir, sanitized, failing), m);
    AllTakenBound(dir, sanitized, existing, m);
  }

  /** A taken destination whose check fails comes before the free one. */
  lemma ProbeFails(dir: ByteString, sanitized: ByteString, existing: set<ByteString>, failing: set<ByteString>, m: nat)
    requires TakenBefore(dir, sanitized, existing, m)
    requires Destination(dir, sanitized, m) in existing && Destination(dir, sanitized, m) in failing
    ensures !forall j :: 0 <= j <= FreeIndex(dir, sanitized, existing) ==> Destination(dir, sanitized, j) !in failing
  {
    FreeIndexSpec(dir, sanitized, existing);
    TakenBeforeMeans(dir, sanitized, existing, m);
    var k := FreeIndex(dir, sanitized, existing);
    assert 0 <= m <= k;
  }

  /** A free destination after taken ones is the first free one. */
  lemma ProbeFree(dir: ByteString, sanitized: ByteString, existing: set<ByteString>, failing: set<ByteString>, m: nat)
    requires TakenBefore(dir, sanitized, existing, m) && ClearBefore(dir, sanitized, failing, m)
    requires Destination(dir, sanitized, m) !in existing
    ensures FreeIndex(dir, sanitized, existing) == m
    ensures (forall j :: 0 <= j <= m ==> Destination(dir, sanitized, j) !in failing)
            <==> Destination(dir, sanitized, m) !in failing
  {
    TakenBeforeMeans(dir, sanitized, existing, m);
    FreeIndexUnique(dir, sanitized, existing, m);
    ClearThrough(dir, sanitized, failing, m);
  }

  lemma ClearThrough(dir: ByteString, sanitized: ByteString, failing: set<ByteString>, m: nat)
    requires ClearBefore(dir, sanitized, failing, m)
    ensures (forall j :: 0 <= j <= m ==> Destination(dir, sanitized, j) !in failing)
            <==> Destination(dir, sanitized, m) !in failing
  {
    ClearBeforeMeans(dir, sanitized, failing, m);
  }

  lemma NumberedDestination(dir: ByteString, sanitized: ByteString, k: nat)
    requires k > 0
    ensures var f := Filename(JoinPath(dir, sanitized));
            Destination(dir, sanitized, k) == JoinPath(dir, Stem(f) + "_" + NatToDecimal(k) + Extension(f))
  {
  }

  /** The path the loop of chooseUploadDestination tries after `suffix`
      taken ones: the stem and extension of `base`, numbered, in `dir`. */
  method NumberedProbe(dir: ByteString, sanitized: ByteString, base: ByteString, suffix: nat)
    returns (destination: ByteString)
    requires base == JoinPath(dir, sanitized) && suffix > 0
    ensures destination == Destination(dir, sanitized, suffix)
  {
    var stem := Stem(Filename(base));
    var extension := Extension(Filename(base));
    destination := JoinPath(dir, stem + "_" + NatToDecimal(suffix) + extension);
    NumberedDestination(dir, sanitized, suffix);
  }

  /** chooseUploadDestination: probes `dir / sanitized`, then the numbered
      candidates, until one does not exist; an error of the existence check
      on any probed path makes it fail with no path. */
  method ChooseUploadDestination(dir: ByteString, sanitized: ByteString,
                                 existing: set<ByteString>, failing: set<ByteString>)
    returns (ok: bool, destination: ByteString)
    ensures ok <==> forall j :: 0 <= j <= FreeIndex(dir, sanitized, existing) ==>
                      Destination(dir, sanitized, j) !in failing
    ensures ok ==> destination == Destination(dir, sanitized, FreeIndex(dir, sanitized, existing))
    ensures ok ==> destination !in existing
    ensures !ok ==> destination == []
  {
    var base := JoinPath(dir, sanitized);
    destination := base;
    var suffix: nat := 1;
    while destination in existing
      invariant 1 <= suffix <= |existing| + 2
      invariant destination == Destination(dir, sanitized, suffix - 1)
      invariant TakenBefore(dir, sanitized, existing, suffix - 1)
      invariant ClearBefore(dir, sanitized, failing, suffix - 1)
      decreases |existing| + 2 - suffix
    {
      if destination in failing {
        ProbeFails(dir, sanitized, existing, failing, suffix - 1);
        return false, [];
      }
      ProbeTaken(dir, sanitized, existing, failing, suffix - 1);
      destination := NumberedProbe(dir, sanitized, base, suffix);
      suffix := suffix + 1;
    }
    ProbeFree(dir, sanitized, existing, failing, suffix - 1);
    if destination in failing {
      return false, [];
    }
    return true, destination;
  }
}
