/** The POST /upload handler: every part's file name is validated before any
    file is written, then each part is stored under the first free name in
    the uploads directory as it stands after the earlier parts were saved. */
module UploadHandler {
  import opened Bytes
  import opened Paths
  import opened Uploads
  import opened Http

  /** A file part of the multipart payload; only its file name matters here. */
  datatype FilePart = FilePart(fileName: ByteString)

  /** The values of a sequence of options, in order, or None as soon as one
      of them is None. */
  function AllSome<T>(xs: seq<Option<T>>): Option<seq<T>>
  {
    if xs == [] then Some([])
    else match AllSome(xs[..|xs| - 1])
      case None => None
      case Some(values) =>
        match Last(xs)
        case None => None
        case Some(x) => Some(values + [x])
  }

  lemma {:induction false} AllSomeValid<T>(xs: seq<Option<T>>)
    ensures AllSome(xs).Some? <==> forall i :: 0 <= i < |xs| ==> xs[i].Some?
    decreases |xs|
  {
    if xs != [] {
      var init := xs[..|xs| - 1];
      AllSomeValid(init);
      if AllSome(xs).Some? {
        forall i | 0 <= i < |xs|
          ensures xs[i].Some?
        {
          if i < |init| {
            assert xs[i] == init[i];
          }
        }
      } else if AllSome(init).None? {
        var j :| 0 <= j < |init| && init[j].None?;
        assert xs[j] == init[j];
      }
    }
  }

  lemma {:induction false} AllSomeValues<T>(xs: seq<Option<T>>)
    requires AllSome(xs).Some?
    ensures |AllSome(xs).value| == |xs|
    ensures forall i :: 0 <= i < |xs| ==> xs[i] == Some(AllSome(xs).value[i])
    decreases |xs|
  {
    if xs != [] {
      var init := xs[..|xs| - 1];
      var values := AllSome(init).value;
      AllSomeValues(init);
      var all := values + [Last(xs).value];
      assert AllSome(xs).value == all;
      forall i | 0 <= i < |xs|
        ensures xs[i] == Some(all[i])
      {
        if i < |init| {
          assert xs[i] == init[i] && all[i] == values[i];
        }
      }
    }
  }

  /** Each part's sanitized name, in part order. */
  function PartNames(parts: seq<FilePart>): (r: seq<Option<ByteString>>)
    ensures |r| == |parts|
  {
    seq(|parts|, i requires 0 <= i < |parts| => SanitizedName(parts[i].fileName))
  }

  /** The sanitized names of all parts, in order, or None as soon as one is invalid. */
  function SanitizedAll(parts: seq<FilePart>): Option<seq<ByteString>>
  {
    AllSome(PartNames(parts))
  }

  /** The validating pass succeeds exactly when every part's name is valid. */
  lemma SanitizedAllValid(parts: seq<FilePart>)
    ensures SanitizedAll(parts).Some? <==>
              forall i :: 0 <= i < |parts| ==> SanitizedName(parts[i].fileName).Some?
  {
    var xs := PartNames(parts);
    AllSomeValid(xs);
    assert forall i :: 0 <= i < |parts| ==> xs[i] == SanitizedName(parts[i].fileName);
  }

  lemma SanitizedAllPrefix(parts: seq<FilePart>, i: nat, names: seq<ByteString>)
    requires i < |parts| && SanitizedAll(parts[..i]) == Some(names)
    requires SanitizedName(parts[i].fileName).Some?
    ensures SanitizedAll(parts[..i + 1]) == Some(names + [SanitizedName(parts[i].fileName).value])
  {
    var xs := PartNames(parts[..i + 1]);
    assert xs[..i] == PartNames(parts[..i]);
    assert Last(xs) == SanitizedName(parts[i].fileName);
  }

  /** A successful validating pass yields one sanitized name per part, in part order. */
  lemma SanitizedAllNames(parts: seq<FilePart>)
    requires SanitizedAll(parts).Some?
    ensures |SanitizedAll(parts).value| == |parts|
    ensures forall i :: 0 <= i < |parts| ==>
              SanitizedName(parts[i].fileName) == Some(SanitizedAll(parts).value[i])
  {
    var xs := PartNames(parts);
    AllSomeValues(xs);
    assert forall i :: 0 <= i < |parts| ==> xs[i] == SanitizedName(parts[i].fileName);
  }

  /** Once a prefix holds an invalid name, the whole batch is invalid. */
  lemma SanitizedAllInvalid(parts: seq<FilePart>, i: nat)
    requires i < |parts|
    requires SanitizedName(parts[i].fileName).None?
    ensures SanitizedAll(parts).None?
  {
    SanitizedAllValid(parts);
  }

  /** What saving the parts one after another leaves: the names saved so far,
      the paths then existing, and whether a save failed. */
  datatype SaveOutcome = SaveOutcome(saved: seq<ByteString>, stored: set<ByteString>, failed: bool)

  /** Where the next upload named `name` goes, given the paths that exist. */
  function NextDestination(dir: ByteString, name: ByteString, stored: set<ByteString>): ByteString
  {
    Destination(dir, name, FreeIndex(dir, name, stored))
  }

  /** Saving `names` in order into `dir`: each goes to the first free
      destination against the directory after the earlier saves; the save
      of part i fails when i is in `failing`, which ends the batch. */
  function SaveAll(dir: ByteString, names: seq<ByteString>, existing: set<ByteString>,
                   failing: set<nat>): SaveOutcome
  {
    if names == [] then SaveOutcome([], existing, false)
    else
      var prior := SaveAll(dir, names[..|names| - 1], existing, failing);
      if prior.failed then prior
      else if |names| - 1 in failing then SaveOutcome(prior.saved, prior.stored, true)
      else
        var destination := NextDestination(dir, Last(names), prior.stored);
        SaveOutcome(prior.saved + [Filename(destination)], prior.stored + {destination}, false)
  }

  /** A failed save ends the batch: later parts change nothing. */
  lemma {:induction false} SaveAllStopsAtFailure(dir: ByteString, names: seq<ByteString>,
                                                 existing: set<ByteString>, failing: set<nat>, i: nat)
    requires i <= |names|
    requires SaveAll(dir, names[..i], existing, failing).failed
    ensures SaveAll(dir, names, existing, failing) == SaveAll(dir, names[..i], existing, failing)
    decreases |names| - i
  {
    if i < |names| {
      var next := names[..i + 1];
      assert next[..|next| - 1] == names[..i];
      SaveAllStopsAtFailure(dir, names, existing, failing, i + 1);
    } else {
      assert names[..i] == names;
    }
  }

  /** No upload overwrites anything: every successful save adds one path that
      did not exist before, so the directory grows by exactly the number of
      names saved; nothing already there is removed. */
  lemma {:induction false} SaveAllNeverOverwrites(dir: ByteString, names: seq<ByteString>,
                                                  existing: set<ByteString>, failing: set<nat>)
    ensures var outcome := SaveAll(dir, names, existing, failing);
            && existing <= outcome.stored
            && |outcome.stored| == |existing| + |outcome.saved|
    decreases |names|
  {
    if names != [] {
      var prior := SaveAll(dir, names[..|names| - 1], existing, failing);
      SaveAllNeverOverwrites(dir, names[..|names| - 1], existing, failing);
      if !prior.failed && |names| - 1 !in failing {
        FreeIndexSpec(dir, Last(names), prior.stored);
      }
    }
  }

  /** One more part: the batch has failed once an earlier save failed or
      this one fails, and otherwise one more name is saved. */
  lemma SaveAllStep(dir: ByteString, names: seq<ByteString>, existing: set<ByteString>, failing: set<nat>)
    requires names != []
    ensures var outcome := SaveAll(dir, names, existing, failing);
            var prior := SaveAll(dir, names[..|names| - 1], existing, failing);
            && outcome.failed == (prior.failed || |names| - 1 in failing)
            && (!outcome.failed ==> |outcome.saved| == |prior.saved| + 1)
  {
  }

  /** One of the first n parts is one whose save fails. */
  ghost predicate FailsBefore(n: nat, failing: set<nat>)
  {
    exists i :: 0 <= i < n && i in failing
  }

  lemma FailsBeforeStep(n: nat, failing: set<nat>)
    ensures FailsBefore(n + 1, failing) <==> FailsBefore(n, failing) || n in failing
  {
    if FailsBefore(n + 1, failing) && n !in failing {
      var i :| 0 <= i < n + 1 && i in failing;
      assert 0 <= i < n && i in failing;
    }
    if FailsBefore(n, failing) {
      var i :| 0 <= i < n && i in failing;
      assert 0 <= i < n + 1 && i in failing;
    }
    if n in failing {
      assert 0 <= n < n + 1 && n in failing;
    }
  }

  /** The batch fails exactly when one of its parts is one whose save fails,
      and without a failure every name is saved. */
  lemma {:induction false} SaveAllSavesEach(dir: ByteString, names: seq<ByteString>,
                                            existing: set<ByteString>, failing: set<nat>)
    ensures var outcome := SaveAll(dir, names, existing, failing);
            outcome.failed <==> FailsBefore(|names|, failing)
    ensures var outcome := SaveAll(dir, names, existing, failing);
            !outcome.failed ==> |outcome.saved| == |names|
    decreases |names|
  {
    if names != [] {
      var n := |names| - 1;
      SaveAllSavesEach(dir, names[..n], existing, failing);
      SaveAllStep(dir, names, existing, failing);
      FailsBeforeStep(n, failing);
    }
  }

  /** `saved` is `name` itself or one of its numbered copies. */
  ghost predicate IsCandidate(saved: ByteString, name: ByteString)
  {
    exists k: nat :: saved == Candidate(name, k)
  }

  /** Each of `saved` is a candidate of the name at its position in `names`. */
  ghost predicate CandidatesOf(saved: seq<ByteString>, names: seq<ByteString>)
  {
    && |saved| <= |names|
    && forall i :: 0 <= i < |saved| ==> IsCandidate(saved[i], names[i])
  }

  lemma CandidatesOfExtend(saved: seq<ByteString>, names: seq<ByteString>, name: ByteString)
    requires CandidatesOf(saved, names)
    ensures CandidatesOf(saved, names + [name])
  {
    var longer := names + [name];
    assert forall i :: 0 <= i < |saved| ==> longer[i] == names[i];
  }

  lemma CandidatesOfSnoc(saved: seq<ByteString>, names: seq<ByteString>, name: ByteString, k: nat)
    requires CandidatesOf(saved, names) && |saved| == |names|
    ensures CandidatesOf(saved + [Candidate(name, k)], names + [name])
  {
    var longer := names + [name];
    var s := saved + [Candidate(name, k)];
    assert forall i :: 0 <= i < |saved| ==> longer[i] == names[i] && s[i] == saved[i];
    assert IsCandidate(s[|saved|], longer[|saved|]) by {
      assert s[|saved|] == Candidate(longer[|saved|], k);
    }
  }

  /** Each saved name is a candidate of its part's name: the name itself or
      one of its numbered copies. */
  lemma {:induction false} SavedAreCandidates(dir: ByteString, names: seq<ByteString>,
                                              existing: set<ByteString>, failing: set<nat>)
    requires forall i :: 0 <= i < |names| ==> names[i] != [] && '/' !in names[i]
    ensures CandidatesOf(SaveAll(dir, names, existing, failing).saved, names)
    decreases |names|
  {
    if names != [] {
      var init := names[..|names| - 1];
      var prior := SaveAll(dir, init, existing, failing);
      InitLast(names);
      SavedAreCandidates(dir, init, existing, failing);
      if !prior.failed && |names| - 1 !in failing {
        SaveAllSavesEach(dir, init, existing, failing);
        var k := FreeIndex(dir, Last(names), prior.stored);
        DestinationOfName(dir, Last(names), k);
        assert SaveAll(dir, names, existing, failing).saved == prior.saved + [Candidate(Last(names), k)];
        CandidatesOfSnoc(prior.saved, init, Last(names), k);
      } else {
        assert SaveAll(dir, names, existing, failing).saved == prior.saved;
        CandidatesOfExtend(prior.saved, init, Last(names));
      }
    }
  }

  /** A saved name has the extension of the part's name. */
  lemma SavedKeepExtension(dir: ByteString, names: seq<ByteString>,
                           existing: set<ByteString>, failing: set<nat>, i: nat)
    requires forall j :: 0 <= j < |names| ==> names[j] != [] && '/' !in names[j] && names[j] != ".."
    requires i < |SaveAll(dir, names, existing, failing).saved|
    ensures i < |names|
    ensures Extension(SaveAll(dir, names, existing, failing).saved[i]) == Extension(names[i])
  {
    SavedAreCandidates(dir, names, existing, failing);
    assert IsCandidate(SaveAll(dir, names, existing, failing).saved[i], names[i]);
    var k: nat :| SaveAll(dir, names, existing, failing).saved[i] == Candidate(names[i], k);
    CandidateKeepsExtension(names[i], k);
  }

  /** The first upload into a directory that does not hold its name keeps the name. */
  lemma FirstSaveKeepsName(dir: ByteString, name: ByteString)
    requires name != [] && '/' !in name
    ensures SaveAll(dir, [name], {}, {}) == SaveOutcome([name], {JoinPath(dir, name)}, false)
  {
    FreeIndexUnique(dir, name, {}, 0);
    DestinationOfName(dir, name, 0);
    assert [name][..0] == [];
  }

  /** Once `dir / name` exists, the next upload of `name` goes to the first numbered copy. */
  lemma SecondSaveIsNumbered(dir: ByteString, name: ByteString)
    requires name != [] && '/' !in name
    ensures NextDestination(dir, name, {JoinPath(dir, name)}) == JoinPath(dir, Candidate(name, 1))
  {
    DestinationOfName(dir, name, 0);
    DestinationOfName(dir, name, 1);
    CandidateNotRooted(name, 1);
    FreeIndexUnique(dir, name, {JoinPath(dir, name)}, 1);
  }

  /** Two uploads of the same file name in one request into a directory that
      does not yet hold it: the first keeps the name, the second gets the
      first numbered copy. */
  lemma SameNameTwice(dir: ByteString, name: ByteString)
    requires name != [] && '/' !in name
    ensures SaveAll(dir, [name, name], {}, {}).saved == [name, Candidate(name, 1)]
  {
    FirstSaveKeepsName(dir, name);
    SecondSaveIsNumbered(dir, name);
    DestinationOfName(dir, name, 1);
    assert [name, name][..1] == [name];
  }

  /** The first numbered copy of report.txt is report_1.txt. */
  lemma ReportCopyName()
    ensures Candidate("report.txt", 1) == "report_1.txt"
  {
    StemExtensionOfReport();
    assert NatToDecimal(1) == "1";
  }

  /** The lines of the success body: each saved name followed by a newline. */
  function Lines(names: seq<ByteString>): ByteString
  {
    if names == [] then [] else Lines(names[..|names| - 1]) + Last(names) + "\n"
  }

  /** The first pass of the handler: sanitizes every part's name, stopping
      at the first invalid one. */
  method SanitizeParts(files: seq<FilePart>) returns (ok: bool, names: seq<ByteString>)
    ensures ok <==> SanitizedAll(files).Some?
    ensures ok ==> names == SanitizedAll(files).value
  {
    names := [];
    for i := 0 to |files|
      invariant SanitizedAll(files[..i]) == Some(names)
    {
      var valid, sanitized := SanitizeUploadFilename(files[i].fileName);
      if !valid {
        SanitizedAllInvalid(files, i);
        return false, [];
      }
      SanitizedAllPrefix(files, i, names);
      names := names + [sanitized];
    }
    assert files[..|files|] == files;
    ok := true;
  }

  /** The second pass: chooses a destination for each name against the
      directory as the earlier saves left it, and saves it there. */
  method SaveParts(dir: ByteString, names: seq<ByteString>, existing: set<ByteString>, failing: set<nat>)
    returns (failed: bool, saved: seq<ByteString>, stored: set<ByteString>)
    ensures SaveOutcome(saved, stored, failed) == SaveAll(dir, names, existing, failing)
  {
    stored := existing;
    saved := [];
    for i := 0 to |names|
      invariant SaveAll(dir, names[..i], existing, failing) == SaveOutcome(saved, stored, false)
    {
      var _, destination := ChooseUploadDestination(dir, names[i], stored, {});
      assert names[..i + 1][..i] == names[..i];
      if i in failing {
        SaveAllStopsAtFailure(dir, names, existing, failing, i + 1);
        return true, saved, stored;
      }
      stored := stored + {destination};
      saved := saved + [Filename(destination)];
    }
    assert names[..|names|] == names;
    failed := false;
  }

  const ReportHeading: ByteString := "Uploaded files:\n"

  /** The body of the success response. */
  method UploadReport(saved: seq<ByteString>) returns (body: ByteString)
    ensures body == ReportHeading + Lines(saved)
  {
    body := ReportHeading;
    for i := 0 to |saved|
      invariant body == ReportHeading + Lines(saved[..i])
    {
      assert saved[..i + 1][..i] == saved[..i];
      body := body + saved[i] + "\n";
    }
    assert saved[..|saved|] == saved;
  }

  const InvalidPayload: ByteString := "Invalid multipart payload"
  const NoFiles: ByteString := "No files provided"
  const InvalidName: ByteString := "Invalid file name"
  const SaveFailed: ByteString := "Failed to save file"

  /** The response and the directory after an upload request.
      `parts` is None when the multipart payload does not parse. */
  method HandleUpload(dir: ByteString, parts: Option<seq<FilePart>>,
                      existing: set<ByteString>, failing: set<nat>)
    returns (response: Response, stored: set<ByteString>)
    ensures parts.None? ==>
              response == PlainText(400, InvalidPayload) && stored == existing
    ensures parts == Some([]) ==>
              response == PlainText(400, NoFiles) && stored == existing
    ensures parts.Some? && parts.value != [] && SanitizedAll(parts.value).None? ==>
              response == PlainText(400, InvalidName) && stored == existing
    ensures parts.Some? && parts.value != [] && SanitizedAll(parts.value).Some? ==>
              var outcome := SaveAll(dir, SanitizedAll(parts.value).value, existing, failing);
              && stored == outcome.stored
              && response == if outcome.failed then PlainText(500, SaveFailed)
                             else PlainText(200, ReportHeading + Lines(outcome.saved))
  {
    if parts.None? {
      return PlainText(400, InvalidPayload), existing;
    }
    var files := parts.value;
    if files == [] {
      return PlainText(400, NoFiles), existing;
    }
    var ok, names := SanitizeParts(files);
    if !ok {
      return PlainText(400, InvalidName), existing;
    }
    var failed, saved;
    failed, saved, stored := SaveParts(dir, names, existing, failing);
    if failed {
      return PlainText(500, SaveFailed), stored;
    }
    var body := UploadReport(saved);
    response := PlainText(200, body);
  }
}
