/** The containment test isWithinBase, on its lexical part: fs::relative
    first canonicalises both paths through the filesystem (that step is an
    input here: it either fails or yields canonical absolute paths) and then
    applies lexically_relative; the test rejects any ".." in the result. */
module Containment {
  import opened Bytes

  /** An absolute canonical path, as its file names below the root: no empty,
      ".", ".." or separator-holding name is left. */
  ghost predicate IsCanonical(segs: seq<ByteString>)
  {
    forall i :: 0 <= i < |segs| ==>
      segs[i] != [] && segs[i] != "." && segs[i] != ".." && '/' !in segs[i]
  }

  /** Length of the longest common prefix (the mismatch point of lexically_relative). */
  function CommonPrefixLength(a: seq<ByteString>, b: seq<ByteString>): (k: nat)
    ensures k <= |a| && k <= |b| && a[..k] == b[..k]
    ensures k < |a| && k < |b| ==> a[k] != b[k]
  {
    if a == [] || b == [] || a[0] != b[0] then 0
    else
      var k := CommonPrefixLength(a[1..], b[1..]);
      assert a[..k + 1] == [a[0]] + a[1..][..k];
      assert b[..k + 1] == [b[0]] + b[1..][..k];
      k + 1
  }

  /** Names that go down minus ".." that go up; "" and "." count for nothing. */
  function Depth(names: seq<ByteString>): int
  {
    if names == [] then 0
    else
      var step := if names[0] == ".." then -1
                  else if names[0] == [] || names[0] == "." then 0
                  else 1;
      step + Depth(names[1..])
  }

  function Repeat(x: ByteString, n: nat): (r: seq<ByteString>)
    ensures |r| == n && forall i :: 0 <= i < n ==> r[i] == x
  {
    if n == 0 then [] else [x] + Repeat(x, n - 1)
  }

  /** The elements of p.lexically_relative(base) for two absolute paths:
      "." when they are equal, the empty path when base climbs above the
      mismatch, otherwise enough ".." to climb out of base followed by the
      rest of p. */
  function LexicallyRelative(p: seq<ByteString>, base: seq<ByteString>): seq<ByteString>
  {
    var k := CommonPrefixLength(p, base);
    if k == |p| && k == |base| then ["."]
    else
      var n := Depth(base[k..]);
      if n < 0 then []
      else if n == 0 && k == |p| then ["."]
      else Repeat("..", n) + p[k..]
  }

  /** In a canonical path every name goes one level down. */
  lemma {:induction false} CanonicalDepth(segs: seq<ByteString>)
    requires IsCanonical(segs)
    ensures Depth(segs) == |segs|
  {
    if segs != [] {
      CanonicalDepth(segs[1..]);
    }
  }

  /** isWithinBase: false when fs::relative fails, else true exactly when no
      element of the relative path is "..". For canonical paths this is
      exactly "the base is a prefix of the candidate" (equality included). */
  function IsWithinBase(candidate: seq<ByteString>, base: seq<ByteString>, relativeFails: bool): (r: bool)
    ensures IsCanonical(candidate) && IsCanonical(base) ==>
              (r <==> !relativeFails && base <= candidate)
  {
    if relativeFails then false
    else
      var rel := LexicallyRelative(candidate, base);
      assert IsCanonical(candidate) && IsCanonical(base) ==>
               (".." in rel <==> !(base <= candidate)) by {
        if IsCanonical(candidate) && IsCanonical(base) {
          var k := CommonPrefixLength(candidate, base);
          assert IsCanonical(base[k..]);
          CanonicalDepth(base[k..]);
          if base <= candidate {
            assert base[..k] == base && k == |base|;
            assert forall i :: 0 <= i < |candidate[k..]| ==> candidate[k..][i] != "..";
          } else {
            assert k < |base|;
            assert rel[0] == "..";
          }
        }
      }
      ".." !in rel
  }
}
