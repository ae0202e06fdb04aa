# Filename emoji remover, modelled in Dafny

This project models the core of an Obsidian plugin that strips emoji from
file names in a vault. The core is `removeEmojiFromFilename`. It splits
the entry's name on `.`, takes the first piece as the basename and the
second as the extension, and deletes every emoji match from the basename,
one first-occurrence `replace` per match. When nothing is left it uses
`emoji-only-name-N`, with a random `N` from 1000 to 9999. It rebuilds the
path in the same folder, then asks the host for a rename and a notice.
Around it sit the bulk command `removeEmojiFromAllFilenames` and the
settings merge `loadSettings`.

Modules, one per concern:

- `Optional` (`optional.dfy`): the Option datatype. It stands for a key an
  object may lack and for an `undefined` array element.
- `StringOps` (`string_ops.dfy`): the JavaScript built-ins the rewrite uses.
  These are `split` on one character, `join`, the first-occurrence search
  behind `replace`, and the decimal text of a number in a template
  literal. Their lemmas cover the split/join round trips, subsequences and
  decimal read-back.
- `EmojiStrip` (`emoji_strip.dfy`): the match list and the stripping loop's
  specification, `StripMatches`, with what stripping guarantees.
- `FilenameRewrite` (`filename_rewrite.dfy`): the rewrite as a function
  (`Rewrite`) and as the step-by-step method the plugin runs
  (`RemoveEmojiFromFilename`, with its loop over the matches and its
  pop/push on the path array). Lemmas cover name splitting, the new
  basename, and the new path.
- `BulkRename` (`bulk_rename.dfy`): the rewrite mapped over the file list.
- `PluginSettings` (`plugin_settings.dfy`): `Object.assign` on the
  two-key settings object, and `loadSettings`.

Two things outside the code become inputs:

- **The emoji matcher** is a function parameter `Matcher` that returns the
  matches in order, each with its index and text. This is what
  `matchAll(emojiRegex())` returns.
- **The random number** is a value of the subset type `RandomSuffix`
  (1000..9999).

Lemmas that need the matches to look like a regular-expression search
take the predicate `MatchesIn` as a hypothesis: in order, non-overlapping,
each an occurrence of its text. The rewrite itself does not require it.

Behaviour of the code that the model keeps as written:

- A rename and its notice happen exactly when the matcher finds at least
  one match in the basename. There is no separate "did the name change"
  test.
- There is no check for files versus folders. Any vault entry with a name
  and a path is rewritten.
- Only the text between the first and the second dot is kept as the
  extension. `a😀.tar.gz` becomes `a.tar`. In `v1.2 🎉.md` only `v1` is
  scanned, so the emoji is never seen.
- A name without a dot has an `undefined` extension. The new name then ends
  in `.undefined`.
- The enable/disable handlers do not remove an existing subscription
  before adding another one, so the model makes no at-most-one claim.

## Model

| member | source | states |
|---|---|---|
| `FilenameRewrite.RemoveEmojiFromFilename` | src/main.ts:14-44 | the imperative rewrite (loop of first-occurrence removals, pop/push on the path segments, join) returns exactly the outcome `Rewrite` specifies |
| `FilenameRewrite.Rewrite` | src/main.ts:14-44 | a rename request with its notice is produced if and only if the matcher finds at least one match in the basename; the notice is `old + " is renamed to " + new` with the unmodified basename |
| `FilenameRewrite.NameSplitShape` | src/main.ts:17 | the basename has no dot and is the text before the first dot (the whole name without one); the extension is absent exactly when the name has no dot, has no dot itself, and is followed by the end of the name or a second dot |
| `FilenameRewrite.SecondDotDropsTail` | src/main.ts:17 | for `b.e.tail` the basename is `b` and the extension is `e`; the text after the second dot is not kept |
| `FilenameRewrite.OneDotName` | src/main.ts:17 | for `b.e` the basename is `b` and the extension is `e` |
| `FilenameRewrite.NoDotName` | src/main.ts:17-38 | a name without a dot is its own basename and its extension renders as the text `undefined` |
| `FilenameRewrite.NewBasenameShape` | src/main.ts:33-37 | the new basename is never empty; a non-empty stripped name is used unchanged and is a subsequence of the old basename; an empty one is replaced by `emoji-only-name-` followed by four digits that read back as the random number |
| `FilenameRewrite.NewBasenameForSearchMatches` | src/main.ts:28-37 | with search-like matches, an emoji-only basename gets exactly the placeholder, and any other basename loses exactly the total matched length |
| `FilenameRewrite.ReplaceLastSegment` | src/main.ts:21-39 | popping the last `/`-segment, pushing a new name and joining keeps the path up to its last `/` unchanged and replaces only the last segment |
| `FilenameRewrite.RewritePath` | src/main.ts:21-39 | the requested path is the original path up to its last `/` followed by `newBasename + "." + extension` |
| `FilenameRewrite.RewriteKeepsDirectories` | src/main.ts:21-39 | for a name without `/`, the requested path's `/`-segments are exactly the original directory segments followed by the new file name |
| `FilenameRewrite.MultiDotRewrite` | src/main.ts:17-39 | renaming `b.e.tail` requests `newBasename.e` in the same folder, losing the text after the second dot |
| `EmojiStrip.StripMatches` | src/main.ts:28-31 | the stripping loop never makes the basename longer |
| `EmojiStrip.StripIsSubsequence` | src/main.ts:28-31 | stripping only deletes characters: the result is a subsequence of the basename, so the remaining characters keep their relative order |
| `EmojiStrip.StripLength` | src/main.ts:28-31 | with ordered, non-overlapping matches each loop step deletes exactly one occurrence, so the result is shorter by exactly the total matched length |
| `EmojiStrip.StripEmptiesExactlyWhenCovered` | src/main.ts:28-34 | with search-like matches, stripping leaves the empty string exactly when the matches cover the whole basename |
| `StringOps.Split` | src/main.ts:17 | `split` on one character yields at least one piece and no piece contains the separator |
| `StringOps.JoinSplit` | src/main.ts:21-39 | joining the pieces of a split with the same separator gives back the original string |
| `StringOps.SplitJoin` | src/main.ts:38-39 | splitting a join of separator-free pieces gives back the pieces |
| `StringOps.JoinSnoc` | src/main.ts:38-39 | pushing a piece and joining appends a separator (unless the array was empty) and the piece |
| `StringOps.IndexOf` | src/main.ts:30 | the search behind `replace` returns the first position where the pattern occurs, or nothing when it occurs nowhere |
| `StringOps.RemoveFirst` | src/main.ts:30 | `replace(pat, '')` deletes the first occurrence of the pattern and leaves a string without it unchanged |
| `StringOps.RemoveFirstIsSubsequence` | src/main.ts:30 | one `replace(pat, '')` leaves a subsequence of its input |
| `StringOps.DecimalText` | src/main.ts:36 | the template-literal text of a number is a non-empty string of decimal digits |
| `StringOps.ParseDecimalText` | src/main.ts:36 | reading the decimal text back gives the number |
| `StringOps.FourDigitText` | src/main.ts:35-36 | a number from 1000 to 9999 is written with exactly four digits, the first not zero |
| `BulkRename.RemoveEmojiFromAllFilenames` | src/main.ts:46-55 | one outcome per listed file, in order, each the rewrite of that file |
| `BulkRename.RenameCountIsFilesWithEmoji` | src/main.ts:46-55 | the number of rename requests (and notices) equals the number of files whose basename has at least one match |
| `PluginSettings.Assign` | src/main.ts:104-108 | `Object.assign` for one source: every key the source carries overwrites the target's, others are kept, a missing source changes nothing |
| `PluginSettings.LoadSettings` | src/main.ts:103-109 | each loaded setting is the stored value when the stored data carries that key and the default (`false`) otherwise |
| `PluginSettings.LoadNothingGivesDefaults` | src/main.ts:6-9 | with no stored data, or an empty object, the settings are the defaults `false`/`false` |
| `PluginSettings.LoadAfterSave` | src/main.ts:103-113 | loading what `saveSettings` stored gives back the same settings |

## Left out

- The emoji grammar of the `emoji-regex` package is not part of this model. The matcher is a parameter. Properties that depend on what counts as an emoji are therefore not stated. One example: a cleaned name has no emoji left, so a second pass does nothing.
- `Math.random()` and its floating-point arithmetic: the random number is an input restricted to 1000..9999.
- `fileManager.renameFile`, `new Notice`, `loadData`/`saveData` and `vault.getFiles()` are host I/O. The rename and notice are returned as an `Outcome`; the file list and the stored data are inputs. A failed rename, which in the plugin also skips the notice, is not modelled.
- BulkRename.RemoveEmojiFromAllFilenames: the plugin runs the rewrites concurrently under `Promise.all`. The model takes them one after another, in listing order. The order of notices, and what happens to other files when one rename fails, are not modelled. Each file's random number is supplied as one element of a sequence.
- `autoRemoveOnCreateToggle`, `autoRemoveOnRenameToggle`, `onload`, `onunload` and `saveSettings`' write are left out. Their effect depends on the host's event registration, which is not part of this model. `src/settings.ts` is a settings-panel UI with no logic of its own.
- PluginSettings.LoadSettings: stored data with keys other than the two settings, or with non-boolean values, is not modelled. `Object.assign` would copy those into the settings object as well.
- Strings are sequences of Unicode scalar values. JavaScript strings are UTF-16 code units. The rewrite only tests for emptiness, deletes matched substrings and splits on `.` and `/`, which comes out the same either way. Lengths in `EmojiStrip.StripLength` count scalar values.
- FilenameRewrite.RemoveEmojiFromFilename: the plugin runs `matchAll` twice on the same basename, once to count the matches and once to loop over them. The model calls the matcher once, because both runs give the same list.
