/** Lexical path handling of the server, after the POSIX behaviour of
    std::filesystem::path: a leading '/' is the root directory, '/' separates
    file names, repeated separators count as one, and a path that ends in a
    separator has an empty last file name. */
module Paths {
  import opened Bytes

  /** The pieces of `s` between separators, empty pieces included. */
  function Split(s: ByteString): (r: seq<ByteString>)
    ensures |r| >= 1
    ensures forall i :: 0 <= i < |r| ==> '/' !in r[i]
    ensures forall i :: 0 <= i < |r| ==> forall c :: c in r[i] ==> c in s
    decreases |s|
  {
    if s == [] then [[]]
    else if s[0] == '/' then [[]] + Split(s[1..])
    else
      var rest := Split(s[1..]);
      [[s[0]] + rest[0]] + rest[1..]
  }

  /** The pieces joined with single separators. */
  function Join(pieces: seq<ByteString>): ByteString
  {
    if pieces == [] then []
    else if |pieces| == 1 then pieces[0]
    else pieces[0] + "/" + Join(pieces[1..])
  }

  lemma {:induction false} SplitNoSeparator(a: ByteString)
    requires '/' !in a
    ensures Split(a) == [a]
    decreases |a|
  {
    if a != [] {
      SplitNoSeparator(a[1..]);
      assert [a[0]] + a[1..] == a;
    }
  }

  lemma {:induction false} SplitAfterPiece(a: ByteString, t: ByteString)
    requires '/' !in a
    ensures Split(a + "/" + t) == [a] + Split(t)
    decreases |a|
  {
    var s := a + "/" + t;
    if a == [] {
      assert s == "/" + t && s[1..] == t;
    } else {
      assert s[1..] == a[1..] + "/" + t;
      SplitAfterPiece(a[1..], t);
      assert [a[0]] + a[1..] == a;
    }
  }

  /** Splitting undoes joining pieces that hold no separator. */
  lemma {:induction false} SplitJoin(pieces: seq<ByteString>)
    requires |pieces| >= 1
    requires forall i :: 0 <= i < |pieces| ==> '/' !in pieces[i]
    ensures Split(Join(pieces)) == pieces
    decreases |pieces|
  {
    if |pieces| == 1 {
      SplitNoSeparator(pieces[0]);
    } else {
      SplitJoin(pieces[1..]);
      SplitAfterPiece(pieces[0], Join(pieces[1..]));
      assert [pieces[0]] + pieces[1..] == pieces;
    }
  }

  function Last<T>(s: seq<T>): T
    requires |s| > 0
  {
    s[|s| - 1]
  }

  lemma InitLast<T>(s: seq<T>)
    requires |s| > 0
    ensures s == s[..|s| - 1] + [Last(s)]
  {
  }

  /** Every '\' turned into '/', as std::replace does before normalising. */
  function Slashed(s: ByteString): (r: ByteString)
    ensures |r| == |s| && '\\' !in r
    ensures forall i :: 0 <= i < |s| && s[i] != '\\' ==> r[i] == s[i]
  {
    seq(|s|, i requires 0 <= i < |s| => if s[i] == '\\' then '/' else s[i])
  }

  predicate Rooted(s: ByteString) {
    |s| > 0 && s[0] == '/'
  }

  /** One step of lexical normalisation: `stack` is the normal form so far. */
  function Push(rooted: bool, stack: seq<ByteString>, name: ByteString): seq<ByteString>
  {
    if name == [] || name == "." then stack
    else if name == ".." then
      if |stack| > 0 && Last(stack) != ".." then stack[..|stack| - 1]
      else if rooted then stack
      else stack + [".."]
    else stack + [name]
  }

  /** A sequence of file names in normal form: no empty or "." name, every
      ".." before every other name, and no ".." at all under a root. */
  ghost predicate IsNormal(rooted: bool, segs: seq<ByteString>)
  {
    && (forall i :: 0 <= i < |segs| ==> segs[i] != [] && segs[i] != ".")
    && (forall i, j :: 0 <= i < j < |segs| && segs[j] == ".." ==> segs[i] == "..")
    && (rooted ==> ".." !in segs)
  }

  /** The file names that survive lexical normalisation of `pieces`:
      "." and empty names are dropped, each `name/..` pair cancels, a ".."
      directly under the root is dropped and leading ".." of a relative path stay. */
  function Collapse(rooted: bool, pieces: seq<ByteString>): (r: seq<ByteString>)
    ensures IsNormal(rooted, r)
    ensures forall i :: 0 <= i < |r| ==> r[i] in pieces
    decreases |pieces|
  {
    if pieces == [] then []
    else
      var init := pieces[..|pieces| - 1];
      var st := Collapse(rooted, init);
      assert forall i :: 0 <= i < |st| ==> st[i] in pieces by {
        forall i | 0 <= i < |st| ensures st[i] in pieces {
          assert st[i] in init;
        }
      }
      PushKeepsNormal(rooted, st, Last(pieces));
      Push(rooted, st, Last(pieces))
  }

  /** One step of the fold keeps the stack in normal form, and every name
      on it was on the stack before or is the pushed name. */
  lemma PushKeepsNormal(rooted: bool, stack: seq<ByteString>, name: ByteString)
    requires IsNormal(rooted, stack)
    ensures IsNormal(rooted, Push(rooted, stack, name))
    ensures forall i :: 0 <= i < |Push(rooted, stack, name)| ==>
              Push(rooted, stack, name)[i] in stack || Push(rooted, stack, name)[i] == name
  {
    if name == ".." && |stack| > 0 && Last(stack) != ".." {
      var r := stack[..|stack| - 1];
      assert forall i :: 0 <= i < |r| ==> r[i] == stack[i];
    }
  }

  /** The normal form of a path: root flag, surviving names, and whether a
      trailing separator is kept. */
  datatype NormalPath = NormalPath(rooted: bool, segs: seq<ByteString>, trailing: bool)

  /** The path ends in something that names a directory: a separator, "." or "..". */
  predicate EndsAsDirectory(s: ByteString)
  {
    var last := Last(Split(s));
    last == [] || last == "." || last == ".."
  }

  /** std::filesystem::path::lexically_normal. */
  function LexicallyNormal(s: ByteString): (n: NormalPath)
    ensures n.rooted == Rooted(s) && IsNormal(n.rooted, n.segs)
    ensures n.trailing ==> n.segs != [] && Last(n.segs) != ".."
    ensures forall i :: 0 <= i < |n.segs| ==> '/' !in n.segs[i]
  {
    var segs := Collapse(Rooted(s), Split(s));
    NormalPath(Rooted(s), segs, segs != [] && Last(segs) != ".." && EndsAsDirectory(s))
  }

  /** The names of a path below its root, joined, with the trailing separator. */
  function RelativeString(segs: seq<ByteString>, trailing: bool): ByteString
  {
    Join(segs) + (if trailing && segs != [] then "/" else "")
  }

  /** generic_string() of a normal form: an empty relative normal form is ".". */
  function Render(n: NormalPath): ByteString
  {
    if n.segs == [] && !n.rooted then "."
    else (if n.rooted then "/" else "") + RelativeString(n.segs, n.trailing)
  }

  /** The elements that iterating over a normal form visits. */
  function Elements(n: NormalPath): seq<ByteString>
  {
    if n.segs == [] && !n.rooted then ["."]
    else (if n.rooted then ["/"] else []) + n.segs + (if n.trailing then [[]] else [])
  }

  /** normalizeRelativePath: separators unified, lexically normalised, root
      stripped, and "." mapped to the empty string. */
  function NormalizeRelativePath(path: ByteString): ByteString
  {
    var n := LexicallyNormal(Slashed(path));
    var generic := if n.rooted then RelativeString(n.segs, n.trailing) else Render(n);
    if generic == "." then [] else generic
  }

  /** containsParentTraversal: some element of the normal form is "..". */
  predicate ContainsParentTraversal(path: ByteString)
  {
    ".." in Elements(LexicallyNormal(path))
  }

  /** filename(): the last element when it is a file name, empty after a separator. */
  function Filename(path: ByteString): (r: ByteString)
    ensures '/' !in r
  {
    Last(Split(path))
  }

  lemma {:induction false} JoinSnoc(pieces: seq<ByteString>, x: ByteString)
    requires |pieces| >= 1
    ensures Join(pieces + [x]) == Join(pieces) + "/" + x
    decreases |pieces|
  {
    if |pieces| > 1 {
      JoinSnoc(pieces[1..], x);
      assert (pieces + [x])[1..] == pieces[1..] + [x];
    }
  }

  /** A join holds no byte other than separators and the pieces' bytes. */
  lemma {:induction false} JoinAvoids(pieces: seq<ByteString>, c: Byte)
    requires c != '/'
    requires forall i :: 0 <= i < |pieces| ==> c !in pieces[i]
    ensures c !in Join(pieces)
    decreases |pieces|
  {
    if |pieces| > 1 {
      JoinAvoids(pieces[1..], c);
    }
  }

  lemma JoinStart(pieces: seq<ByteString>)
    requires |pieces| >= 1 && pieces[0] != []
    ensures |Join(pieces)| > 0 && Join(pieces)[0] == pieces[0][0]
  {
  }

  /** A sequence already in relative normal form is left as it is. */
  lemma {:induction false} CollapseFixed(segs: seq<ByteString>)
    requires IsNormal(false, segs)
    ensures Collapse(false, segs) == segs
    decreases |segs|
  {
    if segs != [] {
      var init := segs[..|segs| - 1];
      NormalInit(segs);
      CollapseFixed(init);
      PushNormal(init, Last(segs));
      assert init + [Last(segs)] == segs;
    }
  }

  lemma NormalInit(segs: seq<ByteString>)
    requires segs != [] && IsNormal(false, segs)
    ensures IsNormal(false, segs[..|segs| - 1])
    ensures Last(segs) != [] && Last(segs) != "."
    ensures Last(segs) == ".." && |segs| > 1 ==> segs[|segs| - 2] == ".."
  {
    var init := segs[..|segs| - 1];
    forall i | 0 <= i < |init| ensures init[i] != [] && init[i] != "." {
      assert init[i] == segs[i];
    }
    forall i, j | 0 <= i < j < |init| && init[j] == ".." ensures init[i] == ".." {
      assert init[i] == segs[i] && init[j] == segs[j];
    }
  }

  /** Pushing a name that may end a relative normal form appends it. */
  lemma PushNormal(stack: seq<ByteString>, name: ByteString)
    requires name != [] && name != "."
    requires name == ".." && stack != [] ==> Last(stack) == ".."
    ensures Push(false, stack, name) == stack + [name]
  {
  }

  lemma CollapseDropsEmpty(segs: seq<ByteString>)
    ensures Collapse(false, segs + [[]]) == Collapse(false, segs)
  {
    assert (segs + [[]])[..|segs|] == segs;
  }

  /** The pieces of the string of a relative normal form. */
  lemma SplitRelativeString(segs: seq<ByteString>, trailing: bool)
    requires segs != []
    requires forall i :: 0 <= i < |segs| ==> '/' !in segs[i]
    ensures Split(RelativeString(segs, trailing)) == if trailing then segs + [[]] else segs
  {
    if trailing {
      JoinSnoc(segs, []);
      assert RelativeString(segs, trailing) == Join(segs + [[]]);
      SplitJoin(segs + [[]]);
    } else {
      assert RelativeString(segs, trailing) == Join(segs);
      SplitJoin(segs);
    }
  }

  /** Re-reading the string of a relative normal form gives the same normal form. */
  lemma ReadBack(segs: seq<ByteString>, trailing: bool)
    requires segs != [] && IsNormal(false, segs)
    requires forall i :: 0 <= i < |segs| ==> '/' !in segs[i]
    requires trailing ==> Last(segs) != ".."
    ensures LexicallyNormal(RelativeString(segs, trailing)) == NormalPath(false, segs, trailing)
  {
    var r := RelativeString(segs, trailing);
    JoinStart(segs);
    assert !Rooted(r);
    SplitRelativeString(segs, trailing);
    var pieces := Split(r);
    CollapseFixed(segs);
    CollapseDropsEmpty(segs);
    assert Collapse(false, pieces) == segs;
    assert EndsAsDirectory(r) <==> trailing || Last(segs) == "..";
  }

  /** normalizeRelativePath is the string of the names that survive
      normalisation, with the trailing separator kept; empty when none survive. */
  lemma NormalizedString(path: ByteString)
    ensures var n := LexicallyNormal(Slashed(path));
            NormalizeRelativePath(path) == RelativeString(n.segs, n.trailing)
  {
  }

  lemma NormalizedNamesHaveNoBackslash(path: ByteString)
    ensures var n := LexicallyNormal(Slashed(path));
            forall i :: 0 <= i < |n.segs| ==> '\\' !in n.segs[i]
  {
    var n := LexicallyNormal(Slashed(path));
    forall i | 0 <= i < |n.segs| ensures '\\' !in n.segs[i] {
      assert n.segs[i] in Split(Slashed(path));
    }
  }

  /** What normalizeRelativePath yields: empty exactly when nothing survives
      normalisation, never a '\\' and never a leading '/'. */
  lemma NormalizedShape(path: ByteString)
    ensures var n := LexicallyNormal(Slashed(path));
            var r := NormalizeRelativePath(path);
            && r == RelativeString(n.segs, n.trailing)
            && (r == [] <==> n.segs == [])
            && '\\' !in r
            && (r != [] ==> r[0] != '/')
  {
    var n := LexicallyNormal(Slashed(path));
    var r := NormalizeRelativePath(path);
    NormalizedString(path);
    if n.segs != [] {
      JoinStart(n.segs);
      NormalizedNamesHaveNoBackslash(path);
      JoinAvoids(n.segs, '\\');
    }
  }

  /** The normal form of the output of normalizeRelativePath is the
      relative form of the normal form of its input. */
  lemma NormalOfNormalized(path: ByteString)
    ensures var n := LexicallyNormal(Slashed(path));
            LexicallyNormal(NormalizeRelativePath(path)) == NormalPath(false, n.segs, n.trailing)
  {
    var n := LexicallyNormal(Slashed(path));
    NormalizedShape(path);
    if n.segs != [] {
      ReadBack(n.segs, n.trailing);
    } else {
      NormalOfEmpty();
    }
  }

  /** The empty path has no root, no name and no trailing separator. */
  lemma NormalOfEmpty()
    ensures LexicallyNormal([]) == NormalPath(false, [], false)
  {
    assert Split([]) == [[]];
    assert Collapse(false, [[]]) == [];
  }

  /** normalizeRelativePath is idempotent. */
  lemma NormalizeIdempotent(path: ByteString)
    ensures NormalizeRelativePath(NormalizeRelativePath(path)) == NormalizeRelativePath(path)
  {
    var r := NormalizeRelativePath(path);
    NormalizedShape(path);
    assert Slashed(r) == r;
    NormalOfNormalized(path);
    NormalizedString(r);
  }

  /** containsParentTraversal on the output of normalizeRelativePath reports
      exactly whether a ".." survived normalisation of the input. */
  lemma TraversalAfterNormalize(path: ByteString)
    ensures ContainsParentTraversal(NormalizeRelativePath(path))
            <==> ".." in LexicallyNormal(Slashed(path)).segs
  {
    var n := LexicallyNormal(Slashed(path));
    NormalOfNormalized(path);
    ParentInRelativeElements(n.segs, n.trailing);
  }

  /** A relative normal form visits ".." exactly when ".." is one of its names. */
  lemma ParentInRelativeElements(segs: seq<ByteString>, trailing: bool)
    ensures ".." in Elements(NormalPath(false, segs, trailing)) <==> ".." in segs
  {
    var m := NormalPath(false, segs, trailing);
    if segs != [] {
      assert Elements(m) == segs + (if trailing then [[]] else []);
    } else {
      assert Elements(m) == ["."];
    }
  }

  /** An input that starts with '/' or '\\' can never leave a ".." behind:
      a ".." directly under the root is dropped. */
  lemma RootedInputHasNoTraversal(path: ByteString)
    requires |path| > 0 && (path[0] == '/' || path[0] == '\\')
    ensures !ContainsParentTraversal(NormalizeRelativePath(path))
  {
    assert Rooted(Slashed(path));
    TraversalAfterNormalize(path);
  }

  /** Empty, "." and "./" all normalise to "" (the base directory itself). */
  lemma NormalizeDotExamples()
    ensures NormalizeRelativePath("") == ""
    ensures NormalizeRelativePath(".") == ""
    ensures NormalizeRelativePath("./") == ""
  {
    assert Slashed("") == "" && Split("") == [[]];
    assert Collapse(false, [[]]) == [];
    assert Slashed(".") == ".";
    SplitJoin(["."]);
    assert Collapse(false, ["."]) == [];
    var dotSlash: seq<ByteString> := [".", ""];
    assert Slashed("./") == "./" == Join(dotSlash);
    SplitJoin(dotSlash);
    assert dotSlash[..1] == ["."];
    assert Collapse(false, dotSlash) == [];
  }

  /** operator/ of std::filesystem::path for a relative right-hand side: a
      separator goes in between only when the left side ends in a file name. */
  function JoinPath(dir: ByteString, name: ByteString): ByteString
  {
    if Rooted(name) then name
    else if dir != [] && Last(dir) != '/' then dir + "/" + name
    else dir + name
  }

  lemma {:induction false} SplitLastAfterSeparator(t: ByteString, a: ByteString)
    requires '/' !in a
    ensures |Split(t + "/" + a)| >= 2 && Last(Split(t + "/" + a)) == a
    decreases |t|
  {
    var s := t + "/" + a;
    if t == [] {
      SplitAfterPiece([], a);
      assert [] + "/" + a == s;
      SplitNoSeparator(a);
    } else {
      assert s[1..] == t[1..] + "/" + a;
      SplitLastAfterSeparator(t[1..], a);
    }
  }

  /** The file name of `dir / name` is `name`, for a plain file name. */
  lemma FilenameOfJoin(dir: ByteString, name: ByteString)
    requires name != [] && '/' !in name
    ensures Filename(JoinPath(dir, name)) == name
  {
    if dir == [] {
      assert JoinPath(dir, name) == name;
      SplitNoSeparator(name);
    } else if Last(dir) != '/' {
      SplitLastAfterSeparator(dir, name);
    } else {
      var t := dir[..|dir| - 1];
      assert dir == t + "/";
      assert JoinPath(dir, name) == t + "/" + name;
      SplitLastAfterSeparator(t, name);
    }
  }

  /** Index of the last '.' of a file name, if any. */
  function LastDot(name: ByteString): (k: Option<nat>)
    ensures k.Some? ==> k.value < |name| && name[k.value] == '.' && '.' !in name[k.value + 1..]
    ensures k.None? ==> '.' !in name
  {
    if name == [] then None
    else if Last(name) == '.' then Some(|name| - 1)
    else
      var k := LastDot(name[..|name| - 1]);
      assert name == name[..|name| - 1] + [Last(name)];
      k
  }

  /** extension(): from the last '.' on, unless that dot is the first byte
      (".bashrc") or the name is ".", ".." or a two-byte name starting with '.'. */
  function Extension(name: ByteString): ByteString
  {
    if 0 < |name| <= 2 && name[0] == '.' then []
    else match LastDot(name)
      case None => []
      case Some(k) => if k == 0 then [] else name[k..]
  }

  /** stem(): the file name without its extension. */
  function Stem(name: ByteString): ByteString
  {
    var e := Extension(name);
    if |e| <= |name| then name[..|name| - |e|] else []
  }

  /** A file name is its stem followed by its extension; a non-empty
      extension starts with the only '.' after a non-empty stem. */
  lemma StemExtension(name: ByteString)
    ensures Stem(name) + Extension(name) == name
    ensures Extension(name) != [] ==>
              Extension(name)[0] == '.' && '.' !in Extension(name)[1..] && Stem(name) != []
  {
    var e := Extension(name);
    if e != [] {
      var k := LastDot(name).value;
      assert e == name[k..] && k > 0;
      assert e[1..] == name[k + 1..];
    }
  }

  /** Only the last extension is split off. */
  lemma StemExtensionOfArchive()
    ensures Stem("archive.tar.gz") == "archive.tar" && Extension("archive.tar.gz") == ".gz"
  {
    assert LastDot("archive.tar.gz") == Some(11);
  }

  /** A leading dot does not start an extension. */
  lemma StemExtensionOfDotfile()
    ensures Stem(".bashrc") == ".bashrc" && Extension(".bashrc") == ""
  {
    assert LastDot(".bashrc") == Some(0);
  }

  lemma StemExtensionOfReport()
    ensures Stem("report.txt") == "report" && Extension("report.txt") == ".txt"
  {
    assert LastDot("report.txt") == Some(6);
  }

  /** The non-empty pieces, in order. */
  function NonEmpty(pieces: seq<ByteString>): (r: seq<ByteString>)
    ensures forall i :: 0 <= i < |r| ==> r[i] != []
  {
    if pieces == [] then []
    else
      var rest := NonEmpty(pieces[1..]);
      if pieces[0] == [] then rest else [pieces[0]] + rest
  }

  /** The elements visited when iterating over a path as written (no
      normalisation): the root directory "/", each file name, and an empty
      file name after a trailing separator. */
  function Iterate(s: ByteString): seq<ByteString>
  {
    var names := NonEmpty(Split(s));
    (if Rooted(s) then ["/"] else [])
      + names
      + (if names != [] && s != [] && Last(s) == '/' then [[]] else [])
  }
}
