/** `removeEmojiFromAllFilenames`: the rewrite applied to every file the
    vault lists. The plugin starts all rewrites at once and awaits them
    together; here they are taken in listing order, one outcome per file. */
module BulkRename {
  import opened EmojiStrip
  import opened FilenameRewrite

  /** One outcome per listed file, in listing order. Each file draws its
      own random number, given here as `randomNumbers[i]` for file `i`. */
  function RemoveEmojiFromAllFilenames(files: seq<FileRef>, matcher: Matcher, randomNumbers: seq<RandomSuffix>)
    : (outs: seq<Outcome>)
    requires |randomNumbers| == |files|
    ensures |outs| == |files|
    ensures forall i :: 0 <= i < |files| ==> outs[i] == Rewrite(files[i], matcher, randomNumbers[i])
  {
    seq(|files|, i requires 0 <= i < |files| => Rewrite(files[i], matcher, randomNumbers[i]))
  }

  /** How many outcomes ask for a rename (each comes with one notice). */
  function RenameCount(outs: seq<Outcome>): nat
    decreases |outs|
  {
    if outs == [] then 0 else (if outs[0].Rename? then 1 else 0) + RenameCount(outs[1..])
  }

  /** How many files have a basename in which the matcher finds an emoji. */
  function FilesWithEmoji(files: seq<FileRef>, matcher: Matcher): nat
    decreases |files|
  {
    if files == [] then 0
    else (if |matcher(BaseName(files[0].name))| > 0 then 1 else 0) + FilesWithEmoji(files[1..], matcher)
  }

  /** The bulk operation asks for exactly as many renames, and shows
      exactly as many notices, as there are files whose basename contains
      a match; the random numbers play no part in the count. */
  lemma {:induction false} RenameCountIsFilesWithEmoji(files: seq<FileRef>, matcher: Matcher, randomNumbers: seq<RandomSuffix>)
    requires |randomNumbers| == |files|
    ensures RenameCount(RemoveEmojiFromAllFilenames(files, matcher, randomNumbers)) == FilesWithEmoji(files, matcher)
    decreases |files|
  {
    if files != [] {
      var outs := RemoveEmojiFromAllFilenames(files, matcher, randomNumbers);
      var rest := RemoveEmojiFromAllFilenames(files[1..], matcher, randomNumbers[1..]);
      assert outs[1..] == rest;
      RenameCountIsFilesWithEmoji(files[1..], matcher, randomNumbers[1..]);
    }
  }
}
