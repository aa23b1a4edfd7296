# accio: path safety, listings and upload naming

accio is a small HTTP file server. A GET or HEAD request for any path under the
served base directory returns one of four things, unless a filesystem query
throws on the way (see "## Left out"):

- a file download with a `Content-Disposition` header;
- an HTML listing of a directory;
- 403 "Forbidden path";
- 404 "Entry not found".

A POST to `/upload` stores every file part of a multipart payload in an uploads
directory. A part never overwrites an existing file: a taken name `stem.ext`
becomes `stem_1.ext`, `stem_2.ext`, and so on.

This project models the code that decides all of this. It covers:

- how a request path is decoded, normalised and checked for `..`;
- containment of the resolved target in the base directory;
- percent-encoding of hrefs and of the `filename*` parameter;
- HTML escaping;
- the listing order and the listing page;
- the sizes shown for files;
- sanitising upload names and choosing the first free destination;
- the upload handler's validate-then-save loop;
- reading `XDG_DOWNLOAD_DIR` from the lines of a `user-dirs.dirs` file.

The model works on byte strings (`Bytes.ByteString`, one `char` below 256 per
byte). Paths follow the POSIX behaviour of libstdc++'s `std::filesystem::path`:

- a path is split on `/`;
- `lexically_normal` is a stack fold over the names (`Paths.Collapse`);
- a trailing separator survives when the last piece is empty, `.` or `..`
  and the result keeps a name.

The filesystem (`weakly_canonical`, `exists`, `is_regular_file`, `is_directory`,
`relative`, `directory_iterator`, `saveAs`) enters as data:

- a `GetHandler.FileSystem` value of functions;
- sets of existing paths, and of paths whose `exists` check reports an error;
- sets of part indices whose save fails.

Loops of the source are methods with loop invariants, proved against the
functions that specify them:

- `UrlEncode`, `EscapeForHtml`, `BuildHrefForPath`, `ExpandUserDirTemplate` and
  `ParseXdgDownloadDir`;
- `ChooseUploadDestination`, `SanitizeParts`, `SaveParts` and `UploadReport`;
- the in-place `std::sort` of the listing, as an insertion sort on an array;
- the in-place underscore loops over a copied buffer.

Modules: `Bytes`, `Strings`, `Paths`, `Containment`, `Encoding`, `Disposition`,
`Ordering`, `Listing`, `FileSize`, `Uploads`, `UploadHandler`, `Xdg`, `Http`,
`GetHandler`.

core.cpp keeps its own copies of `normalizeRelativePath`, `containsParentTraversal`
and `isWithinBase`. These are identical to those of file.cpp, and one model
serves both. core.cpp's `buildHrefForPath` and `buildContentDispositionHeader`
call drogon's `urlEncode`, which is not part of this model. They are modelled
with file.cpp's `urlEncode` (`Encoding.PercentEncoded`).

The traversal check inspects the *normalised* path. A `..` that climbs above a
leading `/` is therefore dropped by normalisation rather than refused. An HTTP
request path always starts with `/`, so only a relative `path` query parameter
can reach 403 (`GetHandler.RequestPathNeverForbidden`,
`GetHandler.ClimbingParameterForbidden`).

## Model

| member | source | states |
|---|---|---|
| Bytes.FirstIndexOf | src/utils/file.cpp:128-132 | `find`: the index is the first occurrence of the byte, or the length when there is none |
| Bytes.NatToDecimal | src/utils/file.cpp:294 | `std::to_string` of a count: at least one digit, only digits, no leading zero |
| Bytes.DecimalRoundTrip | src/utils/file.cpp:294 | the decimal text of a number reads back as that number |
| Bytes.DecimalInjective | src/utils/file.cpp:294 | different counters give different texts, so numbered names never repeat |
| Strings.LowerByte | src/utils/string.cpp:11-13 | `tolower` in the C locale: an upper-case ASCII letter moves up by 32, every other byte stays |
| Strings.Lowered | src/utils/string.cpp:8-15 | same length, and each byte is the lower-cased byte at the same index |
| Strings.ToLowerCopy | src/utils/string.cpp:8-15 | the transform loop returns exactly the lower-cased copy |
| Strings.LoweredShape | src/utils/string.cpp:8-15 | the copy has no upper-case letter and keeps every byte that is not one |
| Strings.LoweredIdempotent | src/utils/string.cpp:8-15 | lower-casing twice is lower-casing once |
| Strings.LoweredEqualIff | src/utils/string.cpp:8-15 | two texts lower-case to the same copy exactly when they have equal length and agree byte by byte after `tolower` |
| Strings.Underscored | src/core.cpp:83-90 | same length; each target byte becomes `_`, every other byte stays; no target byte survives |
| Strings.UnderscoredUnchanged | src/core.cpp:83-90 | a text without target bytes is returned unchanged |
| Strings.UnderscoreInPlace | src/utils/file.cpp:268-274 | the in-place loop leaves the buffer equal to the underscored old contents |
| Strings.UnderscoredCopy | src/core.cpp:83-90 | copying the text and underscoring the copy in place gives the underscored text |
| Paths.Split | src/utils/file.cpp:198 | the pieces of a path between separators: at least one, none holding `/`, no byte that is not in the path |
| Paths.SplitJoin | src/utils/file.cpp:198 | splitting a join of separator-free pieces gives the pieces back |
| Paths.SplitAfterPiece | src/utils/file.cpp:198 | a separator-free first piece splits off as the first element |
| Paths.Slashed | src/utils/file.cpp:195-196 | `std::replace` of `\` by `/`: same length, no `\` left, every other byte kept |
| Paths.Collapse | src/utils/file.cpp:198 | the names `lexically_normal` keeps are in normal form: no empty name or `.`, every `..` before every other name, none under a root; each comes from the input |
| Paths.LexicallyNormal | src/utils/file.cpp:198 | the normal form keeps the root flag, holds normal separator-free names, and keeps a trailing separator only after a name other than `..` |
| Paths.CollapseFixed | src/utils/file.cpp:198 | names already in relative normal form are left as they are |
| Paths.ReadBack | src/utils/file.cpp:198-211 | the string of a relative normal form re-normalises to the same normal form |
| Paths.NormalizedString | src/utils/file.cpp:193-212 | normalizeRelativePath is the generic string of the normal form of the input, with the root dropped |
| Paths.NormalizedShape | src/utils/file.cpp:193-212 | the result is empty exactly when no name survives, holds no `\`, and never starts with `/` |
| Paths.NormalizedNamesHaveNoBackslash | src/utils/file.cpp:195-198 | no name of the normal form holds a `\` |
| Paths.NormalOfNormalized | src/utils/file.cpp:193-212 | re-normalising the result gives the relative normal form of the input |
| Paths.NormalizeIdempotent | src/utils/file.cpp:193-212 | normalizeRelativePath applied twice equals applied once |
| Paths.TraversalAfterNormalize | src/utils/file.cpp:214-225 | containsParentTraversal of the normalised path holds exactly when the normal form of the input keeps a `..` |
| Paths.RootedInputHasNoTraversal | src/utils/file.cpp:193-225 | a path starting with `/` or `\` never normalises to one that contains `..` |
| Paths.NormalizeDotExamples | src/utils/file.cpp:206-209 | the empty path, `.` and `./` all normalise to the empty string |
| Paths.Filename | src/utils/file.cpp:262 | `filename()` holds no separator |
| Paths.FilenameOfJoin | src/utils/file.cpp:281 | `dir / name` has `name` as its filename |
| Paths.LastDot | src/utils/file.cpp:292-293 | the last `.` of a name, and none after it |
| Paths.StemExtension | src/utils/file.cpp:292-293 | stem followed by extension is the name; a non-empty extension is one `.` and no other dot, after a non-empty stem |
| Paths.StemExtensionOfArchive | src/utils/file.cpp:292-293 | "archive.tar.gz" splits into "archive.tar" and ".gz" |
| Paths.StemExtensionOfDotfile | src/utils/file.cpp:292-293 | ".bashrc" is all stem, with no extension |
| Paths.StemExtensionOfReport | src/utils/file.cpp:292-293 | "report.txt" splits into "report" and ".txt" |
| Paths.JoinSnoc | src/core.cpp:506 | joining one more name appends a separator and the name |
| Containment.CommonPrefixLength | src/utils/file.cpp:308 | the length of the longest common prefix of two name sequences |
| Containment.CanonicalDepth | src/utils/file.cpp:305-323 | a canonical path (no `.`, `..` or empty name) is as deep as it has names |
| Containment.IsWithinBase | src/utils/file.cpp:305-323 | for canonical paths, the candidate is within the base exactly when `relative` succeeds and the base's names are a prefix of the candidate's |
| Encoding.EncodeByteShape | src/utils/file.cpp:232-248 | an unreserved byte is copied; any other byte is `%` and two upper-case hex digits whose value is the byte |
| Encoding.HexDigitValue | src/utils/file.cpp:231 | the table digit for a value below 16 is an upper-case hex digit of that value |
| Encoding.EncodedAlphabet | src/utils/file.cpp:227-252 | the output is one to three times as long as the input and holds only unreserved bytes, `%` and upper-case hex digits |
| Encoding.NoSeparatorInEncoding | src/utils/file.cpp:227-252 | an encoded segment never holds `/` |
| Encoding.DecodeEncodedByte | src/utils/file.cpp:232-248 | decoding the encoding of one byte followed by any text gives the byte, then the decoding of the text |
| Encoding.DecodeEncodedPrefix | src/utils/file.cpp:227-252 | decoding an encoding followed by any text gives the input, then the decoding of the text |
| Encoding.DecodeEncoded | src/utils/file.cpp:227-252 | percent-decoding undoes urlEncode |
| Encoding.EncodedSnoc | src/utils/file.cpp:232-249 | encoding one more byte appends that byte's encoding |
| Encoding.EncodeOne | src/utils/file.cpp:234-248 | one pass of the loop writes the byte's encoding |
| Encoding.UrlEncode | src/utils/file.cpp:227-252 | the loop returns the percent-encoding of the whole text |
| Encoding.EscapeByteSafe | src/utils/file.cpp:365-385 | the text written for one byte is safe for HTML |
| Encoding.EscapedIsSafe | src/utils/file.cpp:359-389 | escapeForHtml output holds no `<`, `>`, `"` or `'`, and each `&` begins one of the five references |
| Encoding.HtmlSafeConcat | src/utils/file.cpp:363-386 | safe texts stay safe when concatenated |
| Encoding.UnescapeEscapedByte | src/utils/file.cpp:365-385 | unescaping the text written for one byte, followed by any text, gives the byte first |
| Encoding.UnescapeEscaped | src/utils/file.cpp:359-389 | unescaping escapeForHtml output gives the input back |
| Encoding.EscapePlain | src/utils/file.cpp:382-384 | a text without the five special bytes is left unchanged |
| Encoding.EscapedSnoc | src/utils/file.cpp:363-386 | escaping one more byte appends that byte's escape |
| Encoding.EscapeOne | src/utils/file.cpp:365-385 | one pass of the switch writes the byte's escape |
| Encoding.EscapeForHtml | src/utils/file.cpp:359-389 | the loop returns the escaping of the whole text |
| Encoding.EncodeAllAt | src/utils/file.cpp:334-349 | the encoded segments are the segments encoded one by one |
| Encoding.JoinNoDoubleSlash | src/utils/file.cpp:342-347 | joining non-empty separator-free segments gives no `//`, and no separator at either end |
| Encoding.HrefShape | src/utils/file.cpp:325-357 | an href starts with `/` and holds no `//`; it is `/` exactly when the path is empty or has no non-empty element |
| Encoding.DecodeJoined | src/utils/file.cpp:342-347 | decoding the joined encoded segments gives the joined segments |
| Encoding.HrefDecodes | src/utils/file.cpp:325-357 | after its leading `/`, an href decodes to the path's non-empty elements joined by `/` |
| Encoding.NonEmptyPrefixStep | src/utils/file.cpp:337-340 | the loop's skip of empty elements keeps exactly the non-empty ones seen so far |
| Encoding.HrefStep | src/utils/file.cpp:342-348 | a separator (except before the first segment) and the encoded segment extend the href by one segment |
| Encoding.BuildHrefForPath | src/utils/file.cpp:325-357 | the loop returns `/` followed by the encoded non-empty elements joined by `/`, and `/` when there are none |
| Disposition.BuildContentDispositionHeader | src/core.cpp:81-96 | the header is the quoted name with `"` and `\` replaced by `_`, then `filename*=UTF-8''` and the encoded name |
| Disposition.ParseParts | src/core.cpp:93-94 | a header built from a quoted part without `"` reads back as that part and the decoded extended value |
| Disposition.DispositionRoundTrip | src/core.cpp:81-96 | a recipient reads back the underscored name from `filename` and the exact name from `filename*` |
| Disposition.QuotedName | src/core.cpp:83-90 | the quoted name has the name's length, holds no `"` or `\`, and is the name itself when the name holds neither |
| Ordering.ByteLessIrreflexive | src/core.cpp:490 | `std::string` `<` is irreflexive |
| Ordering.ByteLessAsymmetric | src/core.cpp:490 | `std::string` `<` is asymmetric |
| Ordering.ByteLessTransitive | src/core.cpp:490 | `std::string` `<` is transitive |
| Ordering.ByteLessTotal | src/core.cpp:490 | of two different names one is smaller |
| Ordering.EntryLessStrictTotal | src/core.cpp:485-491 | the listing comparator (directories first, then by name) is a strict total order, as `std::sort` requires |
| Ordering.LessEqTransitive | src/core.cpp:485-491 | the non-strict listing order is transitive |
| Ordering.LessEqTotal | src/core.cpp:485-491 | any two entries are comparable |
| Ordering.LessEqAntisymmetric | src/core.cpp:485-491 | entries that precede each other are equal |
| Ordering.SortedListing | src/core.cpp:485-491 | in a sorted listing no file precedes a directory, and within each kind names ascend |
| Ordering.Insert | src/core.cpp:485-491 | inserting an entry adds exactly that entry |
| Ordering.InsertSorted | src/core.cpp:485-491 | insertion keeps a listing sorted |
| Ordering.SortedEntries | src/core.cpp:485-491 | the reference sort is a permutation of the entries |
| Ordering.SortedEntriesSorted | src/core.cpp:485-491 | the reference sort is sorted |
| Ordering.SortedFirstIsLeast | src/core.cpp:485-491 | the first entry of a sorted listing precedes every entry in it |
| Ordering.SortedUnique | src/core.cpp:485-491 | two sorted arrangements of the same entries are equal, so the order is fully determined |
| Ordering.SwapStep | src/core.cpp:485-491 | moving the entry being inserted left past a larger entry keeps the insertion invariant |
| Ordering.FinishInserting | src/core.cpp:485-491 | once the inserted entry is not smaller than its left neighbour, the prefix is sorted |
| Ordering.SortEntries | src/core.cpp:485-491 | the in-place sort leaves the array sorted, a permutation of its old contents, and equal to the reference sort |
| Listing.IterateNames | src/core.cpp:499-507 | the non-empty elements of a path are its root, if any, then its non-empty names |
| Listing.ChildNames | src/core.cpp:506 | the elements of an entry's path are the directory's elements followed by the entry's name |
| Listing.TrimSeparators | src/core.cpp:499 | a prefix of the path that does not end in a separator |
| Listing.DropName | src/core.cpp:499 | a prefix of the path that is empty or ends in a separator |
| Listing.ParentNames | src/core.cpp:497-502 | the corrected parent has exactly the elements of the path but the last |
| Listing.ParentOfOneName | src/core.cpp:499 | the parent of a single name is empty, as written and corrected |
| Listing.ParentOfJoined | src/core.cpp:499 | `parent_path` of `a/b` is `a` |
| Listing.ParentAgreesWithoutTrailingSeparator | src/core.cpp:499 | without a trailing separator, the written and the corrected parent agree |
| Listing.NormalTrailing | src/utils/file.cpp:193-212 | a relative path `name/` survives normalisation with its trailing separator |
| Listing.ParentsOfTrailing | src/core.cpp:499 | `parent_path` of `name/` is `name`; the corrected parent is empty |
| Listing.ParentItemAgrees | src/core.cpp:497-502 | for a path of plain names without a trailing separator, the parent item built from the names is the item core.cpp writes from `parent_path()` |
| Listing.TrailingSeparatorParent | src/core.cpp:497-502 | for `name/` the parent link as written points back to the listed directory, and the corrected one to the root |
| Listing.TrailingNames | src/core.cpp:499-500 | `name/` and `name` have the same non-empty elements |
| Listing.EntryItemReadsBack | src/core.cpp:504-511 | an entry's link decodes to the directory's elements and the entry's name, and its text unescapes to the name shown |
| Listing.HrefHasNoTag | src/core.cpp:507 | an href holds no `<` |
| Listing.LinkItemTags | src/core.cpp:501-510 | an item whose link and text hold no `<` has exactly four tags |
| Listing.EntryItemTags | src/core.cpp:504-511 | every entry's item has exactly four tags, whatever the entry's name |
| Listing.ItemsTags | src/core.cpp:504-511 | the entries' items together have four tags per entry |
| Listing.ParentItemTags | src/core.cpp:497-502 | the parent item, present only below the base, has four tags |
| Listing.FilesHtmlTags | src/core.cpp:493-513 | the list has two tags plus four per item, so no name can inject markup |
| Listing.FindFrom | src/core.cpp:517 | `find` from a position: the first occurrence at or after it, or none |
| Listing.ReplaceFirst | src/core.cpp:515-520 | the first occurrence of the placeholder is replaced; without one the template is unchanged |
| Listing.WriteEntryItem | src/core.cpp:504-511 | one pass of the entry loop writes the entry's item |
| Listing.WriteItems | src/core.cpp:504-511 | the loop writes the items of the entries in array order |
| Listing.RenderListing | src/core.cpp:479-520 | the listing step returns the template with the list of the sorted entries in place of `{{files}}` |
| FileSize.UnitIsLargestReached | src/utils/file.cpp:452-494 | a size is shown in bytes exactly when it is below 1 KB; otherwise in the largest unit it reaches, with a value that times the unit gives the size |
| FileSize.ScaledValueRange | src/utils/file.cpp:477-492 | a scaled value is at least 1 and, below terabytes, less than 1024 |
| FileSize.UnitMonotone | src/utils/file.cpp:477-493 | a larger size is never shown in a smaller unit |
| FileSize.ExactCount | src/utils/file.cpp:493 | a size below 1 KB is its decimal count followed by " B", and the count reads back as the size |
| FileSize.WholeBelow | src/utils/file.cpp:461-468 | comparing the scaled value with a whole number is comparing its integer part |
| FileSize.ThreeSignificantDigits | src/utils/file.cpp:459-475 | the precision keeps three significant digits: two decimals for one integer digit, one for two, none for three or more |
| FileSize.Examples | src/utils/file.cpp:452-494 | 0, 1536, 5 MB and 123 GB are shown as "0 B", 1.5 KB with two decimals, 5 MB with two, 123 GB with none |
| Uploads.SanitizedName | src/utils/file.cpp:254-277 | an accepted name is non-empty, not `.` or `..`, and holds no `/` or `\` |
| Uploads.NormalizedFilename | src/utils/file.cpp:256-262 | the normalised name is empty exactly when no name survives; it climbs exactly when a `..` survives; its filename is the last name, or empty after a trailing separator |
| Uploads.SanitizeSteps | src/utils/file.cpp:254-277 | a name is accepted exactly when every check of the function passes, and the result is the filename of the normalised name |
| Uploads.SanitizeUploadFilename | src/utils/file.cpp:254-277 | a name is accepted exactly when it has a sanitized name, and the accepted name is returned; a refused one gives empty |
| Uploads.PlainNameAccepted | src/utils/file.cpp:254-277 | a plain file name is accepted as it is |
| Uploads.SanitizeIdempotent | src/utils/file.cpp:254-277 | sanitizing a sanitized name changes nothing |
| Uploads.SanitizeRejects | src/utils/file.cpp:257-266 | a name is refused exactly when nothing survives normalisation, a `..` survives, or it ends in a separator |
| Uploads.DestinationOfName | src/utils/file.cpp:281-294 | each probe is `dir / candidate`, and its filename is the candidate |
| Uploads.CandidateIsFileName | src/utils/file.cpp:294 | a numbered candidate is a non-empty single file name |
| Uploads.CandidateNotRooted | src/utils/file.cpp:294 | a numbered candidate never starts with a separator |
| Uploads.KeepsNonEmptyExtension | src/utils/file.cpp:292-294 | numbering keeps a non-empty extension |
| Uploads.KeepsEmptyExtension | src/utils/file.cpp:292-294 | numbering a name without extension adds none |
| Uploads.CandidateKeepsExtension | src/utils/file.cpp:292-294 | every candidate has the extension of the uploaded name |
| Uploads.JoinPathInjective | src/utils/file.cpp:294 | different relative names give different paths in one directory |
| Uploads.CandidateInjective | src/utils/file.cpp:294 | different counters give different candidates |
| Uploads.DestinationInjective | src/utils/file.cpp:284-295 | the probed destinations are pairwise different |
| Uploads.AllTakenBound | src/utils/file.cpp:285-296 | the loop cannot find more taken destinations than there are existing paths, so it ends |
| Uploads.FreeIndexSpec | src/utils/file.cpp:284-296 | the chosen index is free and every earlier probe is taken |
| Uploads.FreeIndexUnique | src/utils/file.cpp:284-296 | the index with that property is unique |
| Uploads.ProbeTaken | src/utils/file.cpp:285-296 | a taken probe without error moves the loop to the next counter |
| Uploads.ProbeFails | src/utils/file.cpp:285-300 | a probe whose check reports an error fails the choice |
| Uploads.ProbeFree | src/utils/file.cpp:285-302 | a free probe ends the loop at the first free index |
| Uploads.NumberedDestination | src/utils/file.cpp:292-294 | probe k is `dir / (stem + "_" + k + extension)` |
| Uploads.NumberedProbe | src/utils/file.cpp:292-294 | the path tried after `k` taken ones is probe `k`: the numbered name in the uploads directory |
| Uploads.ChooseUploadDestination | src/utils/file.cpp:279-303 | it succeeds exactly when no probe up to the first free one reports an error; then the destination is that first free one and does not exist; on failure it is empty |
| UploadHandler.SanitizedAllValid | src/core.cpp:562-589 | the validating pass succeeds exactly when every part's name is valid |
| UploadHandler.SanitizedAllNames | src/core.cpp:562-589 | on success there is one sanitized name per part, in order |
| UploadHandler.SanitizedAllInvalid | src/core.cpp:566-578 | one invalid name fails the whole payload |
| UploadHandler.SaveAllStopsAtFailure | src/core.cpp:606-610 | a failed save ends the batch: later parts change nothing |
| UploadHandler.SaveAllNeverOverwrites | src/core.cpp:591-613 | saving keeps every existing file and adds one new path per saved part |
| UploadHandler.SaveAllSavesEach | src/core.cpp:591-613 | the batch fails exactly when some part's save fails, and otherwise saves every part |
| UploadHandler.SavedAreCandidates | src/core.cpp:595-612 | each saved name is a candidate for its part's name |
| UploadHandler.SavedKeepExtension | src/core.cpp:600-602 | each saved name keeps its part's extension |
| UploadHandler.FirstSaveKeepsName | src/core.cpp:595-612 | into an empty directory a part is saved under its own name |
| UploadHandler.SecondSaveIsNumbered | src/core.cpp:598-604 | once the name is taken, the next save is numbered 1 |
| UploadHandler.SameNameTwice | src/core.cpp:591-613 | two parts with one name are saved as the name and as the name numbered 1 |
| UploadHandler.ReportCopyName | src/core.cpp:600-602 | a second "report.txt" is saved as "report_1.txt" |
| UploadHandler.SanitizeParts | src/core.cpp:562-589 | the loop succeeds exactly when every name is valid, and then returns the sanitized names |
| UploadHandler.SaveParts | src/core.cpp:591-613 | the loop's saved names, final directory and failure flag are those of the reference save |
| UploadHandler.UploadReport | src/core.cpp:615-620 | the body is the heading followed by one line per saved name |
| UploadHandler.HandleUpload | src/core.cpp:545-624 | 400 for a bad payload, no parts or any invalid name, with nothing stored; otherwise the reference save, answered with 500 on failure or 200 with the report |
| Xdg.StripQuotes | src/utils/file.cpp:61-68 | the text itself, or the text without its first and last byte |
| Xdg.StripQuotesQuoted | src/utils/file.cpp:61-68 | a quoted text loses exactly its quotes |
| Xdg.StripQuotesUnquoted | src/utils/file.cpp:61-68 | a text not enclosed in quotes is kept |
| Xdg.ExpandStep | src/utils/file.cpp:82-110 | one pass of the loop appends the expansion of what it consumed and moves past it |
| Xdg.ExpandUserDirTemplate | src/utils/file.cpp:70-114 | the loop returns the expansion of the template |
| Xdg.ExpandEscaped | src/utils/file.cpp:103-108 | a text with `$`, `~` and `\` escaped expands to itself, whatever follows it |
| Xdg.ExpandedEscape | src/utils/file.cpp:103-108 | an escaped template denotes its text exactly |
| Xdg.HomeAnywhere | src/utils/file.cpp:84-92 | `$HOME` after any escaped text is replaced by the home directory, and expansion goes on after it |
| Xdg.HomeAtStart | src/utils/file.cpp:84-92 | a template starting with `$HOME` expands to the home directory followed by the expansion of the rest |
| Xdg.TildeAtStart | src/utils/file.cpp:94-101 | `~` as the first byte stands for the home directory |
| Xdg.TildeCopied | src/utils/file.cpp:94-110 | `~` anywhere else is copied |
| Xdg.TildeElsewhere | src/utils/file.cpp:94-110 | after escaped text, `~` is copied |
| Xdg.TrailingBackslashKept | src/utils/file.cpp:103-110 | a lone `\` at the end is kept |
| Xdg.FirstNotBlank | src/utils/file.cpp:134 | `find_first_not_of(" \t")`: the first byte that is not a blank, or the length |
| Xdg.ReadLine | src/utils/file.cpp:128-151 | one pass of the loop gives the line's expanded value when the line is usable, and empty otherwise |
| Xdg.ParseXdgDownloadDir | src/utils/file.cpp:116-155 | the loop returns the first usable value, or empty |
| Xdg.FirstUsableNone | src/utils/file.cpp:126-152 | no line before the first usable line is usable |
| Xdg.FirstUsableValue | src/utils/file.cpp:126-154 | the first usable line gives the result; with none the result is empty |
| Xdg.DownloadDirIsFirstUsable | src/utils/file.cpp:116-155 | the result is empty exactly when no line is usable, and otherwise is the value of the first usable line |
| Xdg.NoKeyNoValue | src/utils/file.cpp:134-138 | a line that is blank once its comment is removed gives no value |
| Xdg.AllBlank | src/utils/file.cpp:134 | a text of blanks has no non-blank byte |
| Xdg.BlankBeforeComment | src/utils/file.cpp:128-135 | before a comment that starts the text, the line is blank |
| Xdg.CommentLineIgnored | src/utils/file.cpp:128-138 | a line whose first non-blank byte is `#` gives no value |
| Xdg.EscapeKeepsOthers | src/utils/file.cpp:103-110 | escaping adds no byte other than `$`, `~` and `\`: a byte absent from the text stays absent |
| Xdg.AssignmentValue | src/utils/file.cpp:140-147 | a line `XDG_DOWNLOAD_DIR=<rest>` without `#` gives the expansion of `<rest>` with its quotes stripped |
| Xdg.HomeValue | src/utils/file.cpp:140-147 | a quoted `$HOME` followed by an escaped directory expands to the home directory followed by that directory |
| Xdg.NoCommentInHomeValue | src/utils/file.cpp:128-132 | the quoted value holds no `#` when the directory holds none, so no comment is cut from it |
| Xdg.HomeAssignment | src/utils/file.cpp:116-155 | the line `XDG_DOWNLOAD_DIR="$HOME<dir>"` that desktop tools write, with `<dir>` escaped and free of `#`, gives the home directory followed by `<dir>` |
| GetHandler.GetOutcomes | src/core.cpp:442-527 | 403 exactly when the normalised path climbs. 404 exactly when the target does not resolve, does not exist, lies outside the base, or is neither a file nor a directory. A download happens exactly when the target is a servable regular file, from its canonical path with the disposition of its name. A listing page is returned exactly when the target is a servable directory, and lists its entries. |
| GetHandler.HandleGet | src/core.cpp:442-527 | the handler's steps (extract and check the path, resolve the target, download, list or refuse it) give the response whose outcomes `GetHandler.GetOutcomes` states |
| GetHandler.ServedLiesWithinBase | src/core.cpp:457-463 | for canonical paths, whatever is served exists and lies at or below the base |
| GetHandler.RequestPathNeverForbidden | src/core.cpp:132-142 | without a `path` parameter the 403 branch is never taken, since request paths start with `/` |
| GetHandler.ClimbingParameterForbidden | src/core.cpp:132-142 | a relative `path` parameter whose normal form keeps a `..` is refused |

## Left out

- network.cpp and main.cpp (addresses, port selection, command line) and the
  drogon application set-up are not part of this model.
- Discovery of the home and downloads directories (`getSystemDownloadsDirectory`,
  `getDefaultUploadsDirectory`, the Windows branches) and `resolveUploadsDirectory`
  are not modelled. They query the environment and create directories.
- Xdg.ParseXdgDownloadDir: takes the lines of `~/.config/user-dirs.dirs`. Opening
  the file and reading it line by line is I/O and is left out.
- drogon's `urlDecode` is a function parameter of `GetHandler.ExtractRelativePath`.
  drogon's `urlEncode` is replaced by file.cpp's encoder, as described above.
- The filesystem is an input:
  - `weakly_canonical` (its errors as `None`);
  - `exists`, `is_regular_file` and `is_directory` as the kind of a path;
  - `relative` reporting an error;
  - `directory_iterator`;
  - `saveAs` failures as a set of part indices.

  The names of a canonical path and of its directory entries are taken as given.
- GetHandler.HandleGet: the filesystem queries on the GET path (`fs::exists`,
  `fs::is_regular_file`, `fs::is_directory`, the `fs::directory_iterator`
  constructor and `entry.is_directory()`) are the throwing overloads. The model
  treats them as never failing. A query that throws, such as listing a directory
  the server cannot read, sends no listing in the source. The model always
  answers with the listing page. Only `weakly_canonical` errors are modelled.
- GetHandler.HandleGet: the listing page's parent link uses the corrected
  parent (`Listing.ParentPath`) recorded under "## Findings", not the
  `parent_path()` that core.cpp:499 calls. The two differ only for a relative
  path that ends in a separator (`Listing.ParentItemAgrees`,
  `Listing.TrailingSeparatorParent`): for `docs/` the model links to `/`, the
  source to `/docs`.
- GetHandler.GetOutcomes: the listing page it states carries the corrected
  parent link, with the same difference as stated for `GetHandler.HandleGet`.
- Listing.RenderListing: builds the parent item from `Listing.ParentPath`, the
  corrected parent, instead of `parent_path()`, with the same difference as
  stated for `GetHandler.HandleGet`.
- GetHandler.HandleGet: a HEAD request is answered like GET. Whether a body is
  sent is decided by the HTTP library and is not modelled. The HTML template
  (`resources::index_html`) is a parameter.
- Uploads.ChooseUploadDestination: returns an empty destination on failure
  instead of the text of `ec.message()`. System error messages are not modelled.
- UploadHandler.HandleUpload: `exists` in core.cpp's loop throws on error
  instead of reporting it. The handler is modelled without such errors, which
  file.cpp's `chooseUploadDestination` covers.
- UploadHandler.HandleUpload: multipart parsing is a parameter, `None` for a
  payload that does not parse.
- UploadHandler.SaveAll: a failed save leaves nothing behind. Partial files a
  failed write may leave are not modelled.
- UploadHandler.SaveAll: another process creating a file between the check and
  the save is not modelled. Requests are handled one at a time.
- Concurrency of the drogon event loop, and the authentication and
  configuration state held by `Core` in core.hpp, are not modelled.
- FileSize.FormatFileSize: yields the unit, the value and the number of decimals.
  The decimal rendering by `std::ostringstream` with `std::fixed` is not
  modelled. The value is an exact rational, while the source divides two
  `double`s. The two agree on the unit and on the precision chosen for every
  64-bit size (the value's integer part is exact in a `double`), but the printed
  digits of sizes above 2^53 bytes may differ. The unit names (`FileSize.UnitName`)
  are not placed into a rendered string.
- Containment.IsWithinBase: `fs::relative` is modelled for canonical absolute
  paths given as lists of names, with its error as an input. Symlink
  resolution is part of the `weakly_canonical` input.

## Findings

| source | as written | input that shows it | evidently intended | confidence | as-written member | corrected member |
|---|---|---|---|---|---|---|
| src/core.cpp:497-502 | the parent link of a listing is `buildHrefForPath(path(relativePath).parent_path())`. For a relative path that ends in a separator, `parent_path` only drops the empty last element, so the result is the directory itself. | a request for `/docs/`, which normalises to `docs/`: the parent link is `/docs`, the listing itself | the link leads to the enclosing directory (`/` for `docs/`) | not executed | Listing.TrailingSeparatorParent | Listing.ParentNames |
