/** The HTML directory listing served for a directory: an unordered list
    with a link to the parent directory (except at the base) and one link
    per entry, directories first, placed into the page template. */
module Listing {
  import opened Bytes
  import opened Paths
  import opened Encoding
  import opened Ordering

  // ----- Names of children and of the parent

  /** Splitting at a separator splits the two sides independently. */
  lemma {:induction false} SplitConcat(a: ByteString, b: ByteString)
    ensures Split(a + "/" + b) == Split(a) + Split(b)
    decreases |a|
  {
    var s := a + "/" + b;
    if a == [] {
      assert s[1..] == b;
    } else {
      assert s[1..] == a[1..] + "/" + b;
      SplitConcat(a[1..], b);
    }
  }

  lemma {:induction false} NonEmptyConcat(p: seq<ByteString>, q: seq<ByteString>)
    ensures NonEmpty(p + q) == NonEmpty(p) + NonEmpty(q)
    decreases |p|
  {
    if p == [] {
      assert p + q == q;
    } else {
      assert (p + q)[1..] == p[1..] + q;
      NonEmptyConcat(p[1..], q);
    }
  }

  /** NonEmpty keeps only pieces of its input, and leaves a sequence of
      non-empty pieces as it is. */
  lemma {:induction false} NonEmptyMembers(pieces: seq<ByteString>)
    ensures forall i :: 0 <= i < |NonEmpty(pieces)| ==> NonEmpty(pieces)[i] in pieces
    ensures (forall i :: 0 <= i < |pieces| ==> pieces[i] != []) ==> NonEmpty(pieces) == pieces
    decreases |pieces|
  {
    if pieces != [] {
      NonEmptyMembers(pieces[1..]);
      var r := NonEmpty(pieces);
      forall i | 0 <= i < |r| ensures r[i] in pieces {
        if pieces[0] != [] && i > 0 {
          assert r[i] == NonEmpty(pieces[1..])[i - 1];
        }
      }
      assert [pieces[0]] + pieces[1..] == pieces;
    }
  }

  /** The non-empty elements of a path as written: the root, if any, then
      its non-empty file names. */
  lemma IterateNames(s: ByteString)
    ensures NonEmpty(Iterate(s)) == (if Rooted(s) then ["/"] else []) + NonEmpty(Split(s))
  {
    var names := NonEmpty(Split(s));
    var tail: seq<ByteString> := if names != [] && s != [] && Last(s) == '/' then [[]] else [];
    var root: seq<ByteString> := if Rooted(s) then ["/"] else [];
    assert Iterate(s) == root + names + tail;
    NonEmptyConcat(root + names, tail);
    NonEmptyConcat(root, names);
    NonEmptyMembers(names);
    assert NonEmpty(tail) == [];
    assert NonEmpty(root) == root;
  }

  /** The path of an entry of the listed directory. */
  function ChildPath(relativePath: ByteString, name: ByteString): ByteString
  {
    if relativePath == [] then name else relativePath + "/" + name
  }

  /** The elements of an entry's path are those of the directory followed
      by the entry's name. */
  lemma ChildNames(relativePath: ByteString, name: ByteString)
    requires name != [] && '/' !in name
    ensures NonEmpty(Iterate(ChildPath(relativePath, name))) == NonEmpty(Iterate(relativePath)) + [name]
  {
    var child := ChildPath(relativePath, name);
    IterateNames(child);
    IterateNames(relativePath);
    SplitNoSeparator(name);
    assert NonEmpty([name]) == [name];
    if relativePath == [] {
      assert Split(relativePath) == [[]];
    } else {
      var root: seq<ByteString> := if Rooted(relativePath) then ["/"] else [];
      var names := NonEmpty(Split(relativePath));
      SplitConcat(relativePath, name);
      NonEmptyConcat(Split(relativePath), [name]);
      assert Rooted(child) == Rooted(relativePath);
      assert NonEmpty(Iterate(child)) == root + (names + [name]);
      assert root + (names + [name]) == (root + names) + [name];
    }
  }

  /** `s` without its trailing separators. */
  function TrimSeparators(s: ByteString): (r: ByteString)
    ensures r <= s && (r == [] || Last(r) != '/')
  {
    if s != [] && Last(s) == '/' then TrimSeparators(s[..|s| - 1]) else s
  }

  /** `s` without its last file name. */
  function DropName(s: ByteString): (r: ByteString)
    ensures r <= s && (r == [] || Last(r) == '/')
  {
    if s != [] && Last(s) != '/' then DropName(s[..|s| - 1]) else s
  }

  /** parent_path() of std::filesystem::path (libstdc++, POSIX): a path
      without a relative part is its own parent; otherwise the parent is the
      prefix up to the end of the second-to-last element. When the path ends
      in a separator its last element is the empty name after the separator,
      so the parent keeps the last file name. */
  function ParentPathAsWritten(s: ByteString): ByteString
  {
    if s == [] || NonEmpty(Split(s)) == [] then s
    else
      var t := TrimSeparators(if Last(s) == '/' then s else DropName(s));
      if t == [] && Rooted(s) then s[..1] else t
  }

  /** The parent directory: the path of the file names but the last. */
  function ParentPath(s: ByteString): ByteString
  {
    var names := NonEmpty(Split(s));
    if names == [] then [] else Join(names[..|names| - 1])
  }

  /** The non-empty names of a path are non-empty and hold no separator. */
  lemma NamesWithoutSeparator(s: ByteString)
    ensures forall x :: x in NonEmpty(Split(s)) ==> x != [] && '/' !in x
  {
    NonEmptyMembers(Split(s));
    forall x | x in NonEmpty(Split(s)) ensures x != [] && '/' !in x {
      var i :| 0 <= i < |NonEmpty(Split(s))| && NonEmpty(Split(s))[i] == x;
      assert x in Split(s);
    }
  }

  lemma InitNames(names: seq<ByteString>, init: seq<ByteString>)
    requires names != [] && init == names[..|names| - 1]
    requires forall x :: x in names ==> x != [] && '/' !in x
    ensures forall i :: 0 <= i < |init| ==> init[i] != [] && '/' !in init[i]
  {
    forall i | 0 <= i < |init| ensures init[i] != [] && '/' !in init[i] {
      assert init[i] == names[i] && names[i] in names;
    }
  }

  /** The corrected parent has exactly the elements of the path but the last. */
  lemma ParentNames(s: ByteString)
    requires !Rooted(s) && NonEmpty(Iterate(s)) != []
    ensures var names := NonEmpty(Iterate(s));
            NonEmpty(Iterate(ParentPath(s))) == names[..|names| - 1]
  {
    var names := NonEmpty(Split(s));
    IterateNames(s);
    assert NonEmpty(Iterate(s)) == names;
    var init := names[..|names| - 1];
    var p := ParentPath(s);
    assert p == Join(init);
    IterateNames(p);
    if init == [] {
      assert Split(p) == [[]];
    } else {
      NamesWithoutSeparator(s);
      InitNames(names, init);
      SplitJoin(init);
      JoinStart(init);
      NonEmptyMembers(init);
    }
  }

  lemma DropNameAfterSeparator(t: ByteString, a: ByteString)
    requires '/' !in a
    ensures DropName(t + "/" + a) == t + "/"
    decreases |a|
  {
    if a != [] {
      var s := t + "/" + a;
      assert s[..|s| - 1] == t + "/" + a[..|a| - 1];
      assert Last(a) in a;
      DropNameAfterSeparator(t, a[..|a| - 1]);
    }
  }

  /** A single file name has no separator left once its name is dropped. */
  lemma {:induction false} EmptyDropName(name: ByteString)
    requires '/' !in name
    ensures DropName(name) == []
    decreases |name|
  {
    if name != [] {
      assert Last(name) in name;
      EmptyDropName(name[..|name| - 1]);
    }
  }

  lemma ParentOfOneName(name: ByteString)
    requires name != [] && '/' !in name
    ensures ParentPathAsWritten(name) == [] == ParentPath(name)
  {
    SplitNoSeparator(name);
    EmptyDropName(name);
    assert name[0] in name && Last(name) in name;
    assert NonEmpty([name]) == [name];
  }

  /** One separator after a text that does not end in one is trimmed away. */
  lemma TrimOneSeparator(t: ByteString)
    requires t != [] && Last(t) != '/'
    ensures TrimSeparators(t + "/") == t
  {
    assert (t + "/")[..|t + "/"| - 1] == t;
  }

  /** A file name after a separator is the last element of the path. */
  lemma NamedPathHasNames(t: ByteString, name: ByteString)
    requires name != [] && '/' !in name
    ensures NonEmpty(Split(t + "/" + name)) != []
  {
    SplitConcat(t, name);
    SplitNoSeparator(name);
    NonEmptyConcat(Split(t), [name]);
    assert NonEmpty([name]) == [name];
  }

  /** parent_path() of `t/name` is `t` when `t` does not end in a separator. */
  lemma ParentOfNamed(t: ByteString, name: ByteString)
    requires t != [] && Last(t) != '/'
    requires name != [] && '/' !in name
    ensures ParentPathAsWritten(t + "/" + name) == t
  {
    var s := t + "/" + name;
    NamedPathHasNames(t, name);
    assert Last(s) == Last(name) && Last(name) in name;
    DropNameAfterSeparator(t, name);
    TrimOneSeparator(t);
  }

  lemma ParentOfJoined(init: seq<ByteString>, name: ByteString)
    requires |init| >= 1 && name != [] && '/' !in name
    requires forall i :: 0 <= i < |init| ==> init[i] != [] && '/' !in init[i]
    ensures ParentPathAsWritten(Join(init) + "/" + name) == Join(init)
  {
    JoinNoDoubleSlash(init);
    ParentOfNamed(Join(init), name);
  }

  /** For a path of plain names without a trailing separator, parent_path()
      already gives the parent. */
  lemma ParentAgreesWithoutTrailingSeparator(names: seq<ByteString>)
    requires |names| >= 1
    requires forall i :: 0 <= i < |names| ==> names[i] != [] && '/' !in names[i]
    ensures ParentPathAsWritten(Join(names)) == ParentPath(Join(names))
  {
    if |names| == 1 {
      ParentOfOneName(names[0]);
    } else {
      var init := names[..|names| - 1];
      InitLast(names);
      JoinSnoc(init, Last(names));
      ParentOfJoined(init, Last(names));
      SplitJoin(names);
      NonEmptyMembers(names);
    }
  }

  /** Below the base, the parent item built from the names is the item core.cpp
      writes from parent_path() whenever the path does not end in a separator;
      the two differ only for a trailing separator (TrailingSeparatorParent). */
  lemma ParentItemAgrees(names: seq<ByteString>)
    requires |names| >= 1
    requires forall i :: 0 <= i < |names| ==> names[i] != [] && '/' !in names[i]
    ensures ParentItem(Join(names)) == LinkItem(Href(ParentPathAsWritten(Join(names))), ParentLabel)
  {
    ParentAgreesWithoutTrailingSeparator(names);
  }

  lemma SplitTrailing(name: ByteString)
    requires '/' !in name
    ensures Split(name + "/") == [name, []]
  {
    SplitAfterPiece(name, []);
    assert name + "/" == name + "/" + [];
  }

  /** "name/" is already in normal form. */
  lemma NormalTrailing(name: ByteString)
    requires name != [] && '/' !in name && '\\' !in name && name != "." && name != ".."
    ensures NormalizeRelativePath(name + "/") == name + "/"
  {
    var s := name + "/";
    SplitTrailing(name);
    assert Slashed(s) == s by {
      assert '\\' !in s;
      assert forall i :: 0 <= i < |s| ==> Slashed(s)[i] == s[i];
    }
    assert Collapse(false, [name]) == [name] by {
      assert Collapse(false, []) == [];
    }
    assert Collapse(false, [name, []]) == [name];
  }

  /** parent_path() of "name/" is "name"; the corrected parent is empty. */
  lemma ParentsOfTrailing(name: ByteString)
    requires name != [] && '/' !in name
    ensures ParentPathAsWritten(name + "/") == name
    ensures ParentPath(name + "/") == []
  {
    var s := name + "/";
    SplitTrailing(name);
    assert [name, []][1..] == [[]];
    assert NonEmpty([[]]) == [];
    assert NonEmpty([name, []]) == [name];
    assert TrimSeparators(s) == name by {
      assert s[..|s| - 1] == name;
      assert Last(name) in name;
    }
  }

  /** The listing of "name/" (the directory requested with a trailing
      separator) gets a parent link computed by parent_path() that is the
      link of the listed directory itself; the parent directory computed
      from the names gives the link of the base instead. */
  lemma TrailingSeparatorParent(name: ByteString)
    requires name != [] && '/' !in name && '\\' !in name && name != "." && name != ".."
    ensures NormalizeRelativePath(name + "/") == name + "/"
    ensures ParentPathAsWritten(name + "/") == name
    ensures Href(ParentPathAsWritten(name + "/")) == Href(name + "/")
    ensures Href(ParentPath(name + "/")) == "/"
  {
    NormalTrailing(name);
    ParentsOfTrailing(name);
    TrailingNames(name);
  }

  /** "name" and "name/" have the same file names. */
  lemma TrailingNames(name: ByteString)
    requires name != [] && '/' !in name
    ensures NonEmpty(Iterate(name + "/")) == [name] == NonEmpty(Iterate(name))
  {
    SplitTrailing(name);
    SplitNoSeparator(name);
    IterateNames(name);
    IterateNames(name + "/");
    assert name[0] in name;
    assert NonEmpty([name]) == [name] by {
      assert [name][1..] == [];
    }
    assert NonEmpty([name, []]) == [name] by {
      assert [name, []][1..] == [[]];
      assert NonEmpty([[]]) == [];
    }
  }

  // ----- The HTML of the listing

  /** The folder emoji U+1F4C1 in UTF-8, followed by a space. */
  const FolderIcon: ByteString := [0xF0 as char, 0x9F as char, 0x93 as char, 0x81 as char, ' ']
  /** The arrow U+21A9 in UTF-8, followed by " ../". */
  const ParentLabel: ByteString := [0xE2 as char, 0x86 as char, 0xA9 as char, ' ', '.', '.', '/']

  const ItemStart: ByteString := "<li><a href=\""
  const ItemMiddle: ByteString := "\">"
  const ItemEnd: ByteString := "</a></li>\n"
  const ListStart: ByteString := "<ul>\n"
  const ListEnd: ByteString := "</ul>\n"
  const Placeholder: ByteString := "{{files}}"

  /** One list item: a link with its text. */
  function LinkItem(href: ByteString, text: ByteString): ByteString
  {
    ItemStart + href + ItemMiddle + text + ItemEnd
  }

  /** The text shown for an entry: directories get the folder icon and a
      trailing separator. */
  function DisplayName(e: Entry): ByteString
  {
    if e.isDirectory then FolderIcon + e.name + "/" else e.name
  }

  function EntryItem(relativePath: ByteString, e: Entry): ByteString
  {
    LinkItem(Href(ChildPath(relativePath, e.name)), HtmlEscaped(DisplayName(e)))
  }

  function ParentItem(relativePath: ByteString): ByteString
  {
    LinkItem(Href(ParentPath(relativePath)), ParentLabel)
  }

  /** The items of the entries, in the given order. */
  function Items(relativePath: ByteString, entries: seq<Entry>): ByteString
  {
    if entries == [] then []
    else Items(relativePath, entries[..|entries| - 1]) + EntryItem(relativePath, Last(entries))
  }

  /** The list: a parent item below the base, then the entries in listing order. */
  function FilesHtml(relativePath: ByteString, entries: seq<Entry>): ByteString
  {
    ListStart
    + (if relativePath == [] then [] else ParentItem(relativePath))
    + Items(relativePath, SortedEntries(entries))
    + ListEnd
  }

  /** The link of an entry decodes to the elements of the listed directory
      followed by the entry's name, and its text unescapes to the name shown. */
  lemma EntryItemReadsBack(relativePath: ByteString, e: Entry)
    requires e.name != [] && '/' !in e.name
    ensures var href := Href(ChildPath(relativePath, e.name));
            PercentDecode(href[1..]) == Join(NonEmpty(Iterate(relativePath)) + [e.name])
    ensures HtmlUnescape(HtmlEscaped(DisplayName(e))) == DisplayName(e)
  {
    ChildNames(relativePath, e.name);
    HrefDecodes(ChildPath(relativePath, e.name));
    UnescapeEscaped(DisplayName(e));
  }

  // ----- Counting tags

  function CountOf(c: Byte, s: ByteString): nat
  {
    if s == [] then 0 else (if s[0] == c then 1 else 0) + CountOf(c, s[1..])
  }

  lemma {:induction false} CountConcat(c: Byte, a: ByteString, b: ByteString)
    ensures CountOf(c, a + b) == CountOf(c, a) + CountOf(c, b)
    decreases |a|
  {
    if a == [] {
      assert a + b == b;
    } else {
      assert (a + b)[1..] == a[1..] + b;
      CountConcat(c, a[1..], b);
    }
  }

  lemma {:induction false} CountAbsent(c: Byte, s: ByteString)
    requires c !in s
    ensures CountOf(c, s) == 0
    decreases |s|
  {
    if s != [] {
      CountAbsent(c, s[1..]);
    }
  }

  /** Hrefs are built from '/' and percent-encodings, so hold no '<'. */
  lemma HrefHasNoTag(relativePath: ByteString)
    ensures '<' !in Href(relativePath)
  {
    if relativePath != [] && NonEmpty(Iterate(relativePath)) != [] {
      var names := NonEmpty(Iterate(relativePath));
      EncodeAllAt(names);
      forall i | 0 <= i < |EncodeAll(names)| ensures '<' !in EncodeAll(names)[i] {
        EncodedAlphabet(names[i]);
      }
      JoinAvoids(EncodeAll(names), '<');
    }
  }

  lemma {:induction false} CountOne(c: Byte, a: ByteString, b: ByteString)
    requires c !in a && c !in b
    ensures CountOf(c, a + [c] + b) == 1
  {
    CountConcat(c, a + [c], b);
    CountConcat(c, a, [c]);
    CountAbsent(c, a);
    CountAbsent(c, b);
  }

  lemma {:induction false} CountTwo(c: Byte, a: ByteString, b: ByteString, d: ByteString)
    requires c !in a && c !in b && c !in d
    ensures CountOf(c, a + [c] + b + [c] + d) == 2
  {
    CountConcat(c, a + [c] + b, [c] + d);
    CountOne(c, a, b);
    CountOne(c, [], d);
    assert [] + [c] + d == [c] + d;
    assert a + [c] + b + [c] + d == (a + [c] + b) + ([c] + d);
  }

  lemma ItemStartTags()
    ensures CountOf('<', ItemStart) == 2
  {
    assert ItemStart == [] + ['<'] + "li>" + ['<'] + "a href=\"";
    CountTwo('<', [], "li>", "a href=\"");
  }

  lemma ItemEndTags()
    ensures CountOf('<', ItemEnd) == 2
  {
    assert ItemEnd == [] + ['<'] + "/a>" + ['<'] + "/li>\n";
    CountTwo('<', [], "/a>", "/li>\n");
  }

  lemma ItemMiddleTags()
    ensures CountOf('<', ItemMiddle) == 0
  {
    CountAbsent('<', ItemMiddle);
  }

  lemma ListTags()
    ensures CountOf('<', ListStart) == 1 && CountOf('<', ListEnd) == 1
  {
    assert ListStart == [] + ['<'] + "ul>\n";
    CountOne('<', [], "ul>\n");
    assert ListEnd == [] + ['<'] + "/ul>\n";
    CountOne('<', [], "/ul>\n");
  }

  /** An item whose link and text hold no '<' has exactly its four tags. */
  lemma LinkItemTags(href: ByteString, text: ByteString)
    requires '<' !in href && '<' !in text
    ensures CountOf('<', LinkItem(href, text)) == 4
  {
    ItemStartTags();
    ItemEndTags();
    ItemMiddleTags();
    CountAbsent('<', href);
    CountAbsent('<', text);
    CountOfFive('<', ItemStart, href, ItemMiddle, text, ItemEnd);
  }

  /** Counting a byte over five concatenated pieces. */
  lemma CountOfFive(c: Byte, a: ByteString, b: ByteString, m: ByteString, t: ByteString, e: ByteString)
    ensures CountOf(c, a + b + m + t + e)
            == CountOf(c, a) + CountOf(c, b) + CountOf(c, m) + CountOf(c, t) + CountOf(c, e)
  {
    CountConcat(c, a, b);
    CountConcat(c, a + b, m);
    CountConcat(c, a + b + m, t);
    CountConcat(c, a + b + m + t, e);
  }

  lemma EntryItemTags(relativePath: ByteString, e: Entry)
    ensures CountOf('<', EntryItem(relativePath, e)) == 4
  {
    HrefHasNoTag(ChildPath(relativePath, e.name));
    EscapedIsSafe(DisplayName(e));
    var text := HtmlEscaped(DisplayName(e));
    assert '<' !in text;
    LinkItemTags(Href(ChildPath(relativePath, e.name)), text);
  }

  lemma {:induction false} ItemsTags(relativePath: ByteString, entries: seq<Entry>)
    ensures CountOf('<', Items(relativePath, entries)) == 4 * |entries|
    decreases |entries|
  {
    if entries != [] {
      ItemsTags(relativePath, entries[..|entries| - 1]);
      EntryItemTags(relativePath, Last(entries));
      CountConcat('<', Items(relativePath, entries[..|entries| - 1]), EntryItem(relativePath, Last(entries)));
    }
  }

  lemma ParentItemTags(relativePath: ByteString)
    ensures CountOf('<', if relativePath == [] then [] else ParentItem(relativePath))
            == if relativePath == [] then 0 else 4
  {
    if relativePath != [] {
      HrefHasNoTag(ParentPath(relativePath));
      assert '<' !in ParentLabel;
      LinkItemTags(Href(ParentPath(relativePath)), ParentLabel);
    }
  }

  /** Whatever the names of the entries, the list holds exactly the tags of
      its list and of one item per entry, plus the parent item below the
      base: no name can inject markup. */
  lemma FilesHtmlTags(relativePath: ByteString, entries: seq<Entry>)
    ensures CountOf('<', FilesHtml(relativePath, entries))
            == 2 + 4 * (|entries| + (if relativePath == [] then 0 else 1))
  {
    var parent := if relativePath == [] then [] else ParentItem(relativePath);
    var sorted := SortedEntries(entries);
    var items := Items(relativePath, sorted);
    ListTags();
    ParentItemTags(relativePath);
    ItemsTags(relativePath, sorted);
    assert |sorted| == |entries| by {
      assert |multiset(sorted)| == |multiset(entries)|;
    }
    CountConcat('<', ListStart, parent);
    CountConcat('<', ListStart + parent, items);
    CountConcat('<', ListStart + parent + items, ListEnd);
  }

  // ----- The page

  predicate OccursAt(s: ByteString, p: ByteString, k: nat)
  {
    k + |p| <= |s| && s[k..k + |p|] == p
  }

  /** std::string::find from position k. */
  function FindFrom(s: ByteString, p: ByteString, k: nat): (r: Option<nat>)
    ensures r.Some? ==> k <= r.value && OccursAt(s, p, r.value)
                        && forall j :: k <= j < r.value ==> !OccursAt(s, p, j)
    ensures r.None? ==> forall j :: k <= j ==> !OccursAt(s, p, j)
    decreases |s| - k
  {
    if k + |p| > |s| then None
    else if OccursAt(s, p, k) then Some(k)
    else FindFrom(s, p, k + 1)
  }

  /** The first occurrence of `p` replaced by `rep`; `s` itself when there is none. */
  function ReplaceFirst(s: ByteString, p: ByteString, rep: ByteString): (r: ByteString)
    ensures (forall j :: !OccursAt(s, p, j)) ==> r == s
    ensures forall k: nat :: OccursAt(s, p, k) && (forall j :: 0 <= j < k ==> !OccursAt(s, p, j))
              ==> r == s[..k] + rep + s[k + |p|..]
  {
    match FindFrom(s, p, 0)
    case None => s
    case Some(k) => s[..k] + rep + s[k + |p|..]
  }

  /** The page: the template with its first placeholder replaced by the list. */
  function ListingPage(template: ByteString, relativePath: ByteString, entries: seq<Entry>): ByteString
  {
    ReplaceFirst(template, Placeholder, FilesHtml(relativePath, entries))
  }

  /** The item of one entry, as the listing loop writes it. */
  method WriteEntryItem(relativePath: ByteString, entry: Entry) returns (item: ByteString)
    ensures item == EntryItem(relativePath, entry)
  {
    var childPath := if relativePath == [] then entry.name else relativePath + "/" + entry.name;
    var href := BuildHrefForPath(childPath);
    var displayName := if entry.isDirectory then FolderIcon + entry.name + "/" else entry.name;
    var escaped := EscapeForHtml(displayName);
    item := LinkItem(href, escaped);
  }

  /** The items of the sorted entries, one after another. */
  method WriteItems(relativePath: ByteString, directoryEntries: array<Entry>) returns (items: ByteString)
    ensures items == Items(relativePath, directoryEntries[..])
  {
    items := [];
    for i := 0 to directoryEntries.Length
      invariant items == Items(relativePath, directoryEntries[..i])
    {
      var item := WriteEntryItem(relativePath, directoryEntries[i]);
      items := items + item;
      assert directoryEntries[..i + 1][..i] == directoryEntries[..i];
    }
    assert directoryEntries[..directoryEntries.Length] == directoryEntries[..];
  }

  /** The listing step of the GET handler: sort the entries in place, write
      the parent item below the base and one item per entry, and put the
      list into the template. */
  method RenderListing(template: ByteString, relativePath: ByteString, entries: seq<Entry>)
    returns (html: ByteString)
    ensures html == ListingPage(template, relativePath, entries)
  {
    var directoryEntries := new Entry[|entries|](i requires 0 <= i < |entries| => entries[i]);
    assert directoryEntries[..] == entries;
    SortEntries(directoryEntries);
    var parent: ByteString := [];
    if relativePath != [] {
      var href := BuildHrefForPath(ParentPath(relativePath));
      parent := LinkItem(href, ParentLabel);
    }
    var items := WriteItems(relativePath, directoryEntries);
    var filesHtml := ListStart + parent + items + ListEnd;
    html := ReplaceFirst(template, Placeholder, filesHtml);
  }
}
