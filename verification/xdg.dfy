/** Reading the download directory from the lines of a freedesktop.org
    user-dirs.dirs file: the first line assigning XDG_DOWNLOAD_DIR whose
    value expands to a non-empty path wins. A value may be quoted, may
    start with "$HOME" or "~", and may escape a byte with '\'. */
module Xdg {
  import opened Bytes

  /** stripQuotes: one surrounding pair of '"' removed, when there is one. */
  function StripQuotes(text: ByteString): (r: ByteString)
    ensures r == text || (|text| >= 2 && r == text[1..|text| - 1])
  {
    if |text| >= 2 && text[0] == '"' && text[|text| - 1] == '"' then text[1..|text| - 1] else text
  }

  /** A value enclosed in a pair of '"'. */
  function Quoted(t: ByteString): ByteString
  {
    "\"" + t + "\""
  }

  /** Quoting and stripping are inverse. */
  lemma StripQuotesQuoted(s: ByteString)
    ensures StripQuotes(Quoted(s)) == s
  {
    var q := "\"" + s + "\"";
    assert q[1..|q| - 1] == s;
  }

  /** Text not enclosed in a pair of '"' is left as it is. */
  lemma StripQuotesUnquoted(text: ByteString)
    requires |text| < 2 || text[0] != '"' || text[|text| - 1] != '"'
    ensures StripQuotes(text) == text
  {
  }

  const HomeVariable: ByteString := "$HOME"

  /** value.compare(i, 5, "$HOME") == 0 at the start of `v`. */
  predicate StartsWithHome(v: ByteString)
  {
    |v| >= 5 && v[..5] == HomeVariable
  }

  /** The expansion of `v`, the rest of a template: "$HOME" anywhere and '~'
      at the very start (`atStart`) become `home`; '\' followed by a byte
      stands for that byte; a lone '\' at the end stays. */
  function Expand(v: ByteString, home: ByteString, atStart: bool): ByteString
    decreases |v|
  {
    if v == [] then []
    else if StartsWithHome(v) then home + Expand(v[5..], home, false)
    else if v[0] == '~' && atStart then home + Expand(v[1..], home, false)
    else if v[0] == '\\' && |v| >= 2 then [v[1]] + Expand(v[2..], home, false)
    else [v[0]] + Expand(v[1..], home, false)
  }

  /** The path a template denotes for a home directory. */
  function Expanded(value: ByteString, home: ByteString): ByteString
  {
    Expand(value, home, true)
  }

  lemma HomeStart(v: ByteString)
    ensures StartsWithHome(v) ==> v[0] == '$'
  {
    if StartsWithHome(v) {
      assert v[0] == v[..5][0];
    }
  }

  lemma HomeAtIndex(value: ByteString, i: nat)
    requires i < |value|
    ensures StartsWithHome(value[i..]) <==> value[i] == '$' && i + 5 <= |value| && value[i..i + 5] == HomeVariable
  {
    HomeStart(value[i..]);
    if i + 5 <= |value| {
      assert value[i..][..5] == value[i..i + 5];
    }
  }

  lemma ExpandHome(v: ByteString, home: ByteString, atStart: bool)
    requires StartsWithHome(v)
    ensures Expand(v, home, atStart) == home + Expand(v[5..], home, false)
  {
  }

  lemma ExpandOther(v: ByteString, home: ByteString, atStart: bool)
    requires v != [] && !StartsWithHome(v)
    ensures Expand(v, home, atStart) ==
              if v[0] == '~' && atStart then home + Expand(v[1..], home, false)
              else if v[0] == '\\' && |v| >= 2 then [v[1]] + Expand(v[2..], home, false)
              else [v[0]] + Expand(v[1..], home, false)
  {
  }

  /** One pass of the expansion loop at index i: what it appends and where
      the scan goes on. */
  method ExpandStep(value: ByteString, i: nat, home: ByteString) returns (piece: ByteString, next: nat)
    requires i < |value|
    ensures i < next <= |value|
    ensures Expand(value[i..], home, i == 0) == piece + Expand(value[next..], home, next == 0)
  {
    ghost var rest := value[i..];
    HomeAtIndex(value, i);
    var ch := value[i];
    if ch == '$' && i + 5 <= |value| && value[i..i + 5] == HomeVariable {
      ExpandHome(rest, home, i == 0);
      assert rest[5..] == value[i + 5..];
      piece := if home != [] then home else [];
      next := i + 5;
    } else {
      ExpandOther(rest, home, i == 0);
      if ch == '~' && i == 0 {
        piece := if home != [] then home else [];
        next := i + 1;
      } else if ch == '\\' && i + 1 < |value| {
        assert rest[2..] == value[i + 2..];
        piece := [value[i + 1]];
        next := i + 2;
      } else {
        assert rest[1..] == value[i + 1..];
        piece := [ch];
        next := i + 1;
      }
    }
  }

  /** expandUserDirTemplate: a scan over the template with an index that
      skips the rest of "$HOME" and the escaped byte. */
  method ExpandUserDirTemplate(value: ByteString, home: ByteString) returns (result: ByteString)
    ensures result == Expanded(value, home)
  {
    if value == [] {
      return [];
    }
    result := [];
    var i := 0;
    while i < |value|
      invariant 0 <= i <= |value|
      invariant result + Expand(value[i..], home, i == 0) == Expanded(value, home)
      decreases |value| - i
    {
      var piece, next := ExpandStep(value, i, home);
      assert result + Expand(value[i..], home, i == 0) == (result + piece) + Expand(value[next..], home, next == 0);
      result := result + piece;
      i := next;
    }
    assert value[i..] == [];
  }

  /** The bytes a template treats specially. */
  predicate IsTemplateSpecial(c: Byte)
  {
    c == '$' || c == '~' || c == '\\'
  }

  /** One byte as a template denoting it literally. */
  function EscapeChar(c: Byte): ByteString
  {
    if IsTemplateSpecial(c) then ['\\', c] else [c]
  }

  /** A template that denotes `s` literally: each special byte escaped with '\'. */
  function EscapeTemplate(s: ByteString): ByteString
  {
    if s == [] then [] else EscapeChar(s[0]) + EscapeTemplate(s[1..])
  }

  lemma ExpandEscapedChar(c: Byte, e: ByteString, home: ByteString, atStart: bool)
    ensures Expand(EscapeChar(c) + e, home, atStart) == [c] + Expand(e, home, false)
  {
    var v := EscapeChar(c) + e;
    HomeStart(v);
    if IsTemplateSpecial(c) {
      assert v[0] == '\\' && v[1] == c && v[2..] == e;
    } else {
      assert v[0] == c && v[1..] == e;
    }
  }

  /** Escaped text expands to itself, whatever follows it and wherever it stands. */
  lemma ExpandEscaped(s: ByteString, rest: ByteString, home: ByteString, atStart: bool)
    ensures Expand(EscapeTemplate(s) + rest, home, atStart) == s + Expand(rest, home, atStart && s == [])
  {
    if s != [] {
      var t := s[1..];
      var e := EscapeTemplate(t) + rest;
      calc {
        Expand(EscapeTemplate(s) + rest, home, atStart);
        { EscapeTemplateCons(s, rest); }
        Expand(EscapeChar(s[0]) + e, home, atStart);
        { ExpandEscapedChar(s[0], e, home, atStart); }
        [s[0]] + Expand(e, home, false);
        { ExpandEscapedInside(t, rest, home); }
        [s[0]] + (t + Expand(rest, home, false));
        { ConsAppend(s, Expand(rest, home, false)); }
        s + Expand(rest, home, false);
      }
    } else {
      assert EscapeTemplate(s) + rest == rest;
    }
  }

  lemma EscapeTemplateCons(s: ByteString, rest: ByteString)
    requires s != []
    ensures EscapeTemplate(s) + rest == EscapeChar(s[0]) + (EscapeTemplate(s[1..]) + rest)
  {
  }

  /** ExpandEscaped past the first byte of the template. */
  lemma {:induction false} ExpandEscapedInside(s: ByteString, rest: ByteString, home: ByteString)
    ensures Expand(EscapeTemplate(s) + rest, home, false) == s + Expand(rest, home, false)
    decreases |s|
  {
    if s != [] {
      var t := s[1..];
      var e := EscapeTemplate(t) + rest;
      EscapeTemplateCons(s, rest);
      ExpandEscapedChar(s[0], e, home, false);
      ExpandEscapedInside(t, rest, home);
      ConsAppend(s, Expand(rest, home, false));
    } else {
      assert EscapeTemplate(s) + rest == rest;
    }
  }

  /** An escaped template denotes its text exactly. */
  lemma ExpandedEscape(s: ByteString, home: ByteString)
    ensures Expanded(EscapeTemplate(s), home) == s
  {
    ExpandEscaped(s, [], home, true);
    assert EscapeTemplate(s) + [] == EscapeTemplate(s);
  }

  /** "$HOME" is replaced by the home directory wherever it stands (and so
      disappears when the home directory is empty). */
  lemma HomeAnywhere(prefix: ByteString, v: ByteString, home: ByteString)
    ensures Expanded(EscapeTemplate(prefix) + HomeVariable + v, home)
            == prefix + home + Expand(v, home, false)
  {
    ExpandEscaped(prefix, HomeVariable + v, home, true);
    assert EscapeTemplate(prefix) + HomeVariable + v == EscapeTemplate(prefix) + (HomeVariable + v);
    assert (HomeVariable + v)[5..] == v;
  }

  /** '~' as the first byte of the template stands for the home directory. */
  lemma TildeAtStart(v: ByteString, home: ByteString)
    ensures Expanded("~" + v, home) == home + Expand(v, home, false)
  {
    HomeStart("~" + v);
    assert ("~" + v)[1..] == v;
  }

  lemma TildeCopied(v: ByteString, home: ByteString)
    ensures Expand("~" + v, home, false) == "~" + Expand(v, home, false)
  {
    HomeStart("~" + v);
    assert ("~" + v)[1..] == v;
  }

  /** Anywhere else '~' is an ordinary byte. */
  lemma TildeElsewhere(prefix: ByteString, v: ByteString, home: ByteString)
    requires prefix != []
    ensures Expanded(EscapeTemplate(prefix) + "~" + v, home) == prefix + "~" + Expand(v, home, false)
  {
    ExpandEscaped(prefix, "~" + v, home, true);
    assert EscapeTemplate(prefix) + "~" + v == EscapeTemplate(prefix) + ("~" + v);
    TildeCopied(v, home);
  }

  /** A '\' that ends the template has nothing to escape and is kept. */
  lemma TrailingBackslashKept(s: ByteString, home: ByteString)
    ensures Expanded(EscapeTemplate(s) + "\\", home) == s + "\\"
  {
    ExpandEscaped(s, "\\", home, true);
  }

  const DownloadKey: ByteString := "XDG_DOWNLOAD_DIR="

  predicate IsBlank(c: Byte)
  {
    c == ' ' || c == '\t'
  }

  /** find_first_not_of(" \t"), with |s| for none. */
  function FirstNotBlank(s: ByteString): (k: nat)
    ensures k <= |s|
    ensures forall i :: 0 <= i < k ==> IsBlank(s[i])
    ensures k < |s| ==> !IsBlank(s[k])
  {
    if s == [] || !IsBlank(s[0]) then 0 else 1 + FirstNotBlank(s[1..])
  }

  /** The line with its comment, from the first '#', erased. */
  function WithoutComment(line: ByteString): ByteString
  {
    line[..FirstIndexOf(line, '#')]
  }

  /** What one line says about the download directory: nothing unless it
      is an assignment to XDG_DOWNLOAD_DIR (blanks may precede the key);
      otherwise the expansion of its value, quotes stripped. */
  function LineValue(line: ByteString, home: ByteString): Option<ByteString>
  {
    TextValue(WithoutComment(line), home)
  }

  /** What a line without comment says about the download directory. */
  function TextValue(text: ByteString, home: ByteString): Option<ByteString>
  {
    var k := FirstNotBlank(text);
    if !KeyAt(text, k) then None
    else Some(Expanded(StripQuotes(text[k + |DownloadKey|..]), home))
  }

  /** line.compare(k, key.size(), key) == 0 after the leading blanks. */
  predicate KeyAt(text: ByteString, k: nat)
  {
    k < |text| && DownloadKey <= text[k..]
  }

  /** The line gives a usable (non-empty) download directory. */
  predicate Usable(line: ByteString, home: ByteString)
  {
    LineValue(line, home).Some? && LineValue(line, home).value != []
  }

  /** The download directory of a file: the first usable value, or empty. */
  function DownloadDir(lines: seq<ByteString>, home: ByteString): ByteString
  {
    if lines == [] then []
    else if Usable(lines[0], home) then LineValue(lines[0], home).value
    else DownloadDir(lines[1..], home)
  }

  /** parseXdgDownloadDir over the lines of the file: each line loses its
      comment, blank and non-matching lines are skipped, and the first value
      that expands to a non-empty path is returned. */
  method ParseXdgDownloadDir(lines: seq<ByteString>, home: ByteString) returns (dir: ByteString)
    ensures dir == DownloadDir(lines, home)
  {
    for n := 0 to |lines|
      invariant DownloadDir(lines[n..], home) == DownloadDir(lines, home)
    {
      assert lines[n..][1..] == lines[n + 1..];
      var resolved := ReadLine(lines[n], home);
      if resolved != [] {
        return resolved;
      }
    }
    return [];
  }

  /** One pass of the loop of parseXdgDownloadDir: the expanded value of the
      line when it is usable, and empty otherwise. */
  method ReadLine(original: ByteString, home: ByteString) returns (resolved: ByteString)
    ensures resolved == if Usable(original, home) then LineValue(original, home).value else []
  {
    var line := original;
    var commentPos := FirstIndexOf(line, '#');
    if commentPos < |line| {
      line := line[..commentPos];
    }
    assert line == WithoutComment(original);
    resolved := ReadAssignment(line, home);
  }

  /** The rest of that pass, once the comment is erased: the expanded value
      of an assignment to XDG_DOWNLOAD_DIR, and empty for any other line. */
  method ReadAssignment(line: ByteString, home: ByteString) returns (resolved: ByteString)
    ensures var v := TextValue(line, home);
            resolved == if v.Some? then v.value else []
  {
    var firstNotSpace := FirstNotBlank(line);
    if firstNotSpace == |line| {
      return [];
    }
    if !KeyAt(line, firstNotSpace) {
      return [];
    }
    var value := StripQuotes(line[firstNotSpace + |DownloadKey|..]);
    resolved := ExpandUserDirTemplate(value, home);
  }

  /** The value at `i` is the download directory: it is usable and no
      earlier line is. */
  ghost predicate FirstUsableAt(lines: seq<ByteString>, home: ByteString, i: nat)
  {
    i < |lines| && Usable(lines[i], home) && forall j :: 0 <= j < i ==> !Usable(lines[j], home)
  }

  /** The index of the first usable line, or the number of lines. */
  ghost function FirstUsable(lines: seq<ByteString>, home: ByteString): (i: nat)
    ensures i <= |lines|
    decreases |lines|
  {
    if lines == [] || Usable(lines[0], home) then 0 else 1 + FirstUsable(lines[1..], home)
  }

  /** No line before index i is usable. */
  ghost predicate NoneUsableBefore(lines: seq<ByteString>, home: ByteString, i: nat)
  {
    forall j :: 0 <= j < i && j < |lines| ==> !Usable(lines[j], home)
  }

  lemma NoneUsableShift(lines: seq<ByteString>, home: ByteString, i: nat)
    requires lines != [] && !Usable(lines[0], home) && NoneUsableBefore(lines[1..], home, i)
    ensures NoneUsableBefore(lines, home, i + 1)
  {
    forall j | 0 < j < i + 1 && j < |lines| ensures !Usable(lines[j], home) {
      assert lines[j] == lines[1..][j - 1];
    }
  }

  /** No line before the first usable one is usable. */
  lemma {:induction false} FirstUsableNone(lines: seq<ByteString>, home: ByteString)
    ensures NoneUsableBefore(lines, home, FirstUsable(lines, home))
    decreases |lines|
  {
    if lines != [] && !Usable(lines[0], home) {
      FirstUsableNone(lines[1..], home);
      NoneUsableShift(lines, home, FirstUsable(lines[1..], home));
    }
  }

  /** The line at the first usable index is usable and gives the result;
      past the last line the result is empty. */
  lemma {:induction false} FirstUsableValue(lines: seq<ByteString>, home: ByteString)
    ensures var i := FirstUsable(lines, home);
            && (i < |lines| ==> Usable(lines[i], home) && DownloadDir(lines, home) == LineValue(lines[i], home).value)
            && (i == |lines| ==> DownloadDir(lines, home) == [])
    decreases |lines|
  {
    if lines != [] && !Usable(lines[0], home) {
      var rest := lines[1..];
      FirstUsableValue(rest, home);
      var k := FirstUsable(rest, home);
      assert FirstUsable(lines, home) == k + 1;
      assert DownloadDir(lines, home) == DownloadDir(rest, home);
      if k < |rest| {
        assert lines[k + 1] == rest[k];
      }
    }
  }

  /** The result is empty exactly when no line is usable, and otherwise the
      value of the first usable line. */
  lemma DownloadDirIsFirstUsable(lines: seq<ByteString>, home: ByteString)
    ensures DownloadDir(lines, home) == [] <==> forall i :: 0 <= i < |lines| ==> !Usable(lines[i], home)
    ensures DownloadDir(lines, home) != [] ==>
              exists i: nat :: FirstUsableAt(lines, home, i) && DownloadDir(lines, home) == LineValue(lines[i], home).value
  {
    FirstUsableNone(lines, home);
    FirstUsableValue(lines, home);
    var i := FirstUsable(lines, home);
    if i < |lines| {
      assert FirstUsableAt(lines, home, i);
    }
  }

  lemma NoKeyNoValue(line: ByteString, home: ByteString)
    requires var text := WithoutComment(line); FirstNotBlank(text) == |text|
    ensures LineValue(line, home) == None
  {
  }

  lemma AllBlank(text: ByteString)
    requires forall i :: 0 <= i < |text| ==> IsBlank(text[i])
    ensures FirstNotBlank(text) == |text|
  {
  }

  /** Before a comment that starts the text, the line holds only blanks. */
  lemma BlankBeforeComment(line: ByteString)
    requires FirstNotBlank(line) < |line| && line[FirstNotBlank(line)] == '#'
    ensures FirstNotBlank(WithoutComment(line)) == |WithoutComment(line)|
  {
    var k := FirstNotBlank(line);
    var m := FirstIndexOf(line, '#');
    assert m <= k;
    var text := line[..m];
    assert forall i :: 0 <= i < |text| ==> IsBlank(text[i]);
    AllBlank(text);
  }

  /** A line whose first non-blank byte is '#' is a comment and says nothing. */
  lemma CommentLineIgnored(line: ByteString, home: ByteString)
    requires FirstNotBlank(line) < |line| && line[FirstNotBlank(line)] == '#'
    ensures LineValue(line, home) == None
  {
    BlankBeforeComment(line);
    NoKeyNoValue(line, home);
  }

  lemma {:induction false} EscapeKeepsOthers(s: ByteString, c: Byte)
    requires c !in s && !IsTemplateSpecial(c)
    ensures c !in EscapeTemplate(s)
    decreases |s|
  {
    if s != [] {
      EscapeKeepsOthers(s[1..], c);
      assert c !in EscapeChar(s[0]);
    }
  }

  /** An assignment at the start of a line without a comment gives the
      expansion of its value, quotes stripped. */
  lemma AssignmentValue(rest: ByteString, home: ByteString)
    requires '#' !in rest
    ensures LineValue(DownloadKey + rest, home) == Some(Expanded(StripQuotes(rest), home))
  {
    var line := DownloadKey + rest;
    assert '#' !in line;
    assert WithoutComment(line) == line;
    assert FirstNotBlank(line) == 0 by { assert line[0] == 'X'; }
    assert KeyAt(line, 0);
    assert line[|DownloadKey|..] == rest;
  }

  /** The value "$HOME/<dir>", quoted and with the directory escaped,
      expands to the directory below the home directory. */
  lemma HomeValue(s: ByteString, home: ByteString)
    ensures Expanded(StripQuotes(Quoted(HomeVariable + EscapeTemplate(s))), home) == home + s
  {
    StripQuotesQuoted(HomeVariable + EscapeTemplate(s));
    HomeAtStart(EscapeTemplate(s), home);
    EscapedAlone(s, home);
  }

  lemma HomeAtStart(v: ByteString, home: ByteString)
    ensures Expanded(HomeVariable + v, home) == home + Expand(v, home, false)
  {
    HomeAnywhere([], v, home);
    assert EscapeTemplate([]) + HomeVariable + v == HomeVariable + v;
  }

  lemma EscapedAlone(s: ByteString, home: ByteString)
    ensures Expand(EscapeTemplate(s), home, false) == s
  {
    ExpandEscaped(s, [], home, false);
    assert EscapeTemplate(s) + [] == EscapeTemplate(s);
  }

  lemma NoCommentInHomeValue(s: ByteString)
    requires '#' !in s
    ensures '#' !in Quoted(HomeVariable + EscapeTemplate(s))
  {
    EscapeKeepsOthers(s, '#');
  }

  /** The line the desktop tools write, XDG_DOWNLOAD_DIR="$HOME/<dir>" with
      the directory escaped, names the directory below the home directory. */
  lemma HomeAssignment(s: ByteString, home: ByteString)
    requires '#' !in s
    ensures LineValue(DownloadKey + Quoted(HomeVariable + EscapeTemplate(s)), home) == Some(home + s)
  {
    NoCommentInHomeValue(s);
    AssignmentValue(Quoted(HomeVariable + EscapeTemplate(s)), home);
    HomeValue(s, home);
  }
}
