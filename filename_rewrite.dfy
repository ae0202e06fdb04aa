/** The filename rewrite of the plugin (`removeEmojiFromFilename`): split
    the file name into basename and extension, strip the emoji the matcher
    finds in the basename, fall back to a numbered placeholder when nothing
    is left, rebuild the path in the same folder, and ask for a rename with
    a notice. The host's rename and notice calls are not made here: the
    rewrite returns them as an `Outcome`. */
module FilenameRewrite {
  import opened Optional
  import opened StringOps
  import opened EmojiStrip

  /** The two attributes of a vault entry that the rewrite reads. The host
      entry may be a file or a folder; nothing here tells them apart. */
  datatype FileRef = FileRef(name: string, path: string)

  /** What one rewrite asks of the host: nothing, or a rename of the entry
      to `newPath` followed by a notice showing `notice`. */
  datatype Outcome = NoAction | Rename(newPath: string, notice: string)

  /** `Math.floor(1000 + Math.random() * 9000)`: an integer from 1000 to
      9999, supplied by the caller instead of drawn. */
  type RandomSuffix = n: int | 1000 <= n <= 9999 witness 1000

  const PlaceholderPrefix: string := "emoji-only-name-"

  // ---------------------------------------------------------------------
  // the pieces of the rewrite
  // ---------------------------------------------------------------------

  /** The first piece of `name.split('.')`. */
  function BaseName(name: string): string {
    Split(name, '.')[0]
  }

  /** The second piece of `name.split('.')`, or `undefined` when the name
      has no dot. */
  function ExtensionPiece(name: string): Option<string> {
    var parts := Split(name, '.');
    if |parts| >= 2 then Some(parts[1]) else None
  }

  /** How a template literal renders the extension: `undefined` becomes
      the text "undefined". */
  function ExtensionText(name: string): string {
    ExtensionPiece(name).GetOr("undefined")
  }

  /** The name used when stripping leaves nothing. */
  function Placeholder(n: RandomSuffix): string {
    PlaceholderPrefix + DecimalText(n)
  }

  /** The new basename: the stripped basename, or the placeholder when
      stripping left the empty string. */
  function NewBasename(base: string, ms: seq<EmojiMatch>, n: RandomSuffix): string {
    var stripped := StripMatches(base, ms);
    if |stripped| == 0 then Placeholder(n) else stripped
  }

  /** `path.split('/')` after `pop()`: every segment but the last. */
  function DirectorySegments(path: string): seq<string> {
    var segments := Split(path, '/');
    segments[..|segments| - 1]
  }

  /** The last `/`-segment of a path: the entry's own name in the vault. */
  function LastSegment(path: string): string {
    var segments := Split(path, '/');
    segments[|segments| - 1]
  }

  /** The path up to and including its last `/`, or "" when it has none. */
  function DirectoryPrefix(path: string): string
    requires |LastSegment(path)| <= |path|
  {
    path[..|path| - |LastSegment(path)|]
  }

  /** The whole rewrite of one vault entry, as a function of the entry, the
      emoji matcher and the random number. A rename (and with it a notice)
      is asked for exactly when the matcher finds something in the
      basename, and the notice names the old and the new basename. */
  function Rewrite(file: FileRef, matcher: Matcher, n: RandomSuffix): (out: Outcome)
    ensures out.Rename? <==> |matcher(BaseName(file.name))| > 0
    ensures out.Rename? ==>
              out.notice == BaseName(file.name) + " is renamed to "
                            + NewBasename(BaseName(file.name), matcher(BaseName(file.name)), n)
  {
    var base := BaseName(file.name);
    var matches := matcher(base);
    if |matches| > 0 then
      var newName := NewBasename(base, matches, n);
      var newFile := newName + "." + ExtensionText(file.name);
      Rename(Join(DirectorySegments(file.path) + [newFile], '/'), base + " is renamed to " + newName)
    else
      NoAction
  }

  // ---------------------------------------------------------------------
  // the rewrite, step by step
  // ---------------------------------------------------------------------

  /** `removeEmojiFromFilename`, written the way the plugin runs it: a
      loop that reassigns the new name once per match, and a path array
      that loses its last segment and gains the new file name. */
  method RemoveEmojiFromFilename(file: FileRef, matcher: Matcher, randomNumber: RandomSuffix)
    returns (out: Outcome)
    ensures out == Rewrite(file, matcher, randomNumber)
  {
    var nameParts := Split(file.name, '.');
    var filename := nameParts[0];
    var fileExtension := if |nameParts| >= 2 then Some(nameParts[1]) else None;
    var oldFilename := filename;
    var newFilename := filename;

    var filePath := Split(file.path, '/');
    filePath := filePath[..|filePath| - 1];

    var matches := matcher(filename);
    if |matches| > 0 {
      for i := 0 to |matches|
        invariant StripMatches(newFilename, matches[i..]) == StripMatches(filename, matches)
      {
        var emoji := matches[i].text;
        newFilename := RemoveFirst(newFilename, emoji);
      }

      if |newFilename| == 0 {
        newFilename := PlaceholderPrefix + DecimalText(randomNumber);
      }
      filePath := filePath + [newFilename + "." + fileExtension.GetOr("undefined")];
      var newFilePath := Join(filePath, '/');
      out := Rename(newFilePath, oldFilename + " is renamed to " + newFilename);
    } else {
      out := NoAction;
    }
  }

  // ---------------------------------------------------------------------
  // what the rewrite guarantees
  // ---------------------------------------------------------------------

  /** How `split('.')` cuts a name: the basename is the text before the
      first dot (the whole name when there is none), and the extension is
      the text between the first and the second dot; whatever follows a
      second dot is not part of either. */
  lemma NameSplitShape(name: string)
    ensures '.' !in BaseName(name)
    ensures ExtensionPiece(name).None? <==> '.' !in name
    ensures '.' !in name ==> BaseName(name) == name
    ensures ExtensionPiece(name).Some? ==>
              var b, e := BaseName(name), ExtensionPiece(name).value;
              && '.' !in e
              && |b| + 1 + |e| <= |name|
              && name[..|b| + 1 + |e|] == b + "." + e
              && (|b| + 1 + |e| < |name| ==> name[|b| + 1 + |e|] == '.')
  {
    var parts := Split(name, '.');
    JoinSplit(name, '.');
    if |parts| >= 2 {
      var b, e := parts[0], parts[1];
      var tail := Join(parts[1..], '.');
      assert name == b + "." + tail;
      assert name[|b|] == '.';
      if |parts| == 2 {
        assert tail == e;
      } else {
        assert parts[1..][1..] == parts[2..];
        assert tail == e + "." + Join(parts[2..], '.');
      }
      assert name[..|b| + 1 + |e|] == b + "." + e;
    }
  }

  /** A name with two or more dots: the basename is the text before the
      first dot, the extension the text between the first and the second,
      and the rest is dropped (`a.tar.gz` keeps only `tar`; in `v1.2 x.md`
      only `v1` is the basename). */
  lemma SecondDotDropsTail(b: string, e: string, tail: string)
    requires '.' !in b && '.' !in e
    ensures BaseName(b + "." + e + "." + tail) == b
    ensures ExtensionText(b + "." + e + "." + tail) == e
  {
    SplitAtFirstSeparator(e, tail, '.');
    assert b + "." + e + "." + tail == b + ['.'] + (e + ['.'] + tail);
    SplitAtFirstSeparator(b, e + ['.'] + tail, '.');
  }

  /** A name with exactly one dot splits into basename and extension. */
  lemma OneDotName(b: string, e: string)
    requires '.' !in b && '.' !in e
    ensures BaseName(b + "." + e) == b
    ensures ExtensionText(b + "." + e) == e
  {
    SplitWithoutSeparator(e, '.');
    SplitAtFirstSeparator(b, e, '.');
  }

  /** A name without a dot is its own basename, and its extension renders
      as the text "undefined". */
  lemma NoDotName(name: string)
    requires '.' !in name
    ensures BaseName(name) == name
    ensures ExtensionText(name) == "undefined"
  {
    SplitWithoutSeparator(name, '.');
  }

  /** The new basename is never empty. When stripping leaves something,
      it is the stripped basename, which only lost characters; when it
      leaves nothing, it is "emoji-only-name-" followed by the four
      digits of the random number. */
  lemma NewBasenameShape(base: string, ms: seq<EmojiMatch>, n: RandomSuffix)
    ensures |NewBasename(base, ms, n)| > 0
    ensures StripMatches(base, ms) != [] ==>
              && NewBasename(base, ms, n) == StripMatches(base, ms)
              && IsSubsequence(NewBasename(base, ms, n), base)
    ensures StripMatches(base, ms) == [] ==>
              var r := NewBasename(base, ms, n);
              && |r| == |PlaceholderPrefix| + 4
              && r[..|PlaceholderPrefix|] == "emoji-only-name-"
              && (forall i :: |PlaceholderPrefix| <= i < |r| ==> IsDigit(r[i]))
              && ParseDecimal(r[|PlaceholderPrefix|..]) == n
  {
    StripIsSubsequence(base, ms);
    FourDigitText(n);
    ParseDecimalText(n);
    var r := Placeholder(n);
    assert r[|PlaceholderPrefix|..] == DecimalText(n);
  }

  /** With the ordered, non-overlapping matches a regular expression
      search reports, an emoji-only basename (the matches cover all of it)
      gets the placeholder, and any other basename loses exactly the
      matched characters. */
  lemma NewBasenameForSearchMatches(base: string, ms: seq<EmojiMatch>, n: RandomSuffix)
    requires MatchesIn(base, ms, 0)
    ensures MatchedLength(ms) == |base| ==> NewBasename(base, ms, n) == Placeholder(n)
    ensures MatchedLength(ms) < |base| ==>
              && NewBasename(base, ms, n) == StripMatches(base, ms)
              && |NewBasename(base, ms, n)| == |base| - MatchedLength(ms)
  {
    StripLength(base, ms, 0);
  }

  /** Popping the last `/`-segment of a path, pushing `newFile` and
      joining again replaces the last segment by `newFile` and keeps
      everything up to the last `/` unchanged. */
  lemma ReplaceLastSegment(path: string, newFile: string)
    ensures |LastSegment(path)| <= |path|
    ensures '/' !in LastSegment(path)
    ensures path == DirectoryPrefix(path) + LastSegment(path)
    ensures DirectoryPrefix(path) == [] || DirectoryPrefix(path)[|DirectoryPrefix(path)| - 1] == '/'
    ensures Join(DirectorySegments(path) + [newFile], '/') == DirectoryPrefix(path) + newFile
  {
    var segments := Split(path, '/');
    var dirs := segments[..|segments| - 1];
    var last := segments[|segments| - 1];
    var prefix := if dirs == [] then [] else Join(dirs, '/') + ['/'];
    JoinSplit(path, '/');
    assert segments == dirs + [last];
    JoinSnoc(dirs, last, '/');
    JoinSnoc(dirs, newFile, '/');
    assert path == prefix + last;
    assert path[..|prefix|] == prefix;
  }

  /** The new path keeps the original path up to its last `/` unchanged
      and puts `newBasename.extension` in place of the last segment. */
  lemma RewritePath(file: FileRef, matcher: Matcher, n: RandomSuffix)
    requires |matcher(BaseName(file.name))| > 0
    ensures |LastSegment(file.path)| <= |file.path|
    ensures Rewrite(file, matcher, n).newPath
            == DirectoryPrefix(file.path)
               + NewBasename(BaseName(file.name), matcher(BaseName(file.name)), n)
               + "." + ExtensionText(file.name)
  {
    var base := BaseName(file.name);
    var newFile := NewBasename(base, matcher(base), n) + "." + ExtensionText(file.name);
    ReplaceLastSegment(file.path, newFile);
  }

  /** The new basename brings no `/` of its own: the stripped name only
      has characters of the old basename, and the placeholder is letters,
      dashes and digits. */
  lemma NewBasenameLacksSlash(base: string, ms: seq<EmojiMatch>, n: RandomSuffix)
    requires '/' !in base
    ensures '/' !in NewBasename(base, ms, n)
  {
    if |StripMatches(base, ms)| == 0 {
      var digits := DecimalText(n);
      assert forall i :: 0 <= i < |digits| ==> IsDigit(digits[i]);
      assert '/' !in PlaceholderPrefix;
    } else {
      StripIsSubsequence(base, ms);
      SubsequenceLacks(StripMatches(base, ms), base, '/');
    }
  }

  /** Replacing the last segment by a name without `/` leaves a path whose
      segments are the old directory segments and then that name. */
  lemma ReplacedPathSegments(path: string, newFile: string)
    requires '/' !in newFile
    ensures Split(Join(DirectorySegments(path) + [newFile], '/'), '/') == DirectorySegments(path) + [newFile]
  {
    var segments := Split(path, '/');
    var parts := DirectorySegments(path) + [newFile];
    forall i | 0 <= i < |parts|
      ensures '/' !in parts[i]
    {
      if i < |parts| - 1 {
        assert parts[i] == segments[i];
      }
    }
    SplitJoin(parts, '/');
  }

  /** For an entry whose name has no `/` (as vault names never do), the new
      path splits into exactly the original directory segments followed by
      the new file name: no folder is renamed, added or dropped. */
  lemma RewriteKeepsDirectories(file: FileRef, matcher: Matcher, n: RandomSuffix)
    requires '/' !in file.name
    requires |matcher(BaseName(file.name))| > 0
    ensures Split(Rewrite(file, matcher, n).newPath, '/')
            == DirectorySegments(file.path)
               + [NewBasename(BaseName(file.name), matcher(BaseName(file.name)), n)
                  + "." + ExtensionText(file.name)]
  {
    var base := BaseName(file.name);
    var newFile := NewBasename(base, matcher(base), n) + "." + ExtensionText(file.name);
    SplitPiecesLack(file.name, '.', '/');
    NewBasenameLacksSlash(base, matcher(base), n);
    assert '/' !in ExtensionText(file.name);
    ReplacedPathSegments(file.path, newFile);
  }

  /** Renaming `b.e.tail` yields `newBasename.e` in the same folder: the
      text after the second dot is lost from the new name. */
  lemma MultiDotRewrite(b: string, e: string, tail: string, path: string, matcher: Matcher, n: RandomSuffix)
    requires '.' !in b && '.' !in e
    requires |matcher(b)| > 0
    ensures BaseName(b + "." + e + "." + tail) == b
    ensures |LastSegment(path)| <= |path|
    ensures Rewrite(FileRef(b + "." + e + "." + tail, path), matcher, n).newPath
            == DirectoryPrefix(path) + NewBasename(b, matcher(b), n) + "." + e
  {
    SecondDotDropsTail(b, e, tail);
    RewritePath(FileRef(b + "." + e + "." + tail, path), matcher, n);
  }
}
