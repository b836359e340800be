# Folder links: a Dafny model of the `file-open` handler

This plugin for a note-taking vault creates folders from links written in notes. When a
Markdown note is opened, the plugin reads the note and finds every link of the form
`[[some/path/]]`, meaning a bracketed path that ends in `/`. For each such path that does
not yet exist in the vault, the plugin creates a folder.

The model covers that handler (`main.ts`, lines 25-42) in five parts.

- **Link scanning** (`LinkChars`, `LinkScanner`). This is `content.match(/\[\[([\w\s/-]+\/)\]\]/g)`.
  - `\w` is the ASCII word characters.
  - `\s` is the ECMAScript WhiteSpace and LineTerminator code points.
  - `]` is not a link character, so the pattern can match at most one text at each offset. Which match the regex engine picks by backtracking therefore does not matter.
  - The global scan tries every offset from left to right. After a match it resumes at the match's end.
  - The scan is checked against an independent description of a global match: the matches are ordered and disjoint, and every possible match lies inside one of them. The model proves that exactly one list fits this description and that it is the scan.
  - `MatchAll` returns `None` exactly when nothing matches, which mirrors `match` returning `null`.
- **Path extraction** (`FolderPath`). This is `link.slice(2, -2)`, using JavaScript's `slice` semantics for negative and out-of-range offsets. The model proves that the extracted path, put back between `[[` and `]]`, gives the link again, and the converse.
- **Linked folders** (`LinkedFolders`). These are the paths the handler's loop runs over: each link `match` returns, sliced, or no paths when `match` returns `null`. They are proved to be the text between the brackets of each match of the scan, in order.
- **Folder creation** (`FolderCreation`). The vault is modelled as the set of paths for which `adapter.exists` answers true, and `createFolder` adds a path to that set.
  - The loop is a method that also returns a trace of the calls it makes on the vault.
  - The method is proved equal to a recursive reference definition `Run`.
  - It checks every path in order, and only ever creates a folder right after an existence check that answered false.
  - Every existence answer is true of the vault at that moment.
  - Afterwards the vault holds every linked path. The folders created are exactly the linked paths that were missing, each created once.
  - A second run creates nothing.
- **The handler** (`FileOpen`). This ties the other parts together.
  - No file, or a path that does not end in `.md`, means no read and no change.
  - Otherwise the content is read and the folders are created.

The note's content is a parameter of the handler (`read`), as is the vault's state. `Examples` checks
the model on small concrete notes.

The handler matches `[[name/]]` and passes the text between the brackets to the vault
unchanged, so the path is taken from the root of the vault.

## Model

| member | source | states |
|---|---|---|
| LinkScanner.MatchesAtIsLink | main.ts:29 | The pattern matches the text between offsets p and q exactly when that text is `[[`, then a run of at least two characters from `[\w\s/-]` ending in `/`, then `]]`. The class is `LinkChars.IsLinkChar`: ASCII letters, digits and `_`, the ECMAScript white space and line terminators, `/` and `-`. |
| LinkScanner.RunEnd | main.ts:29 | The run of `[\w\s/-]` characters greedily consumed from an offset is maximal: every character in it is a link character, and the next one is not, or the text ends. |
| LinkScanner.MatchEndAt | main.ts:29 | One attempt of the pattern at an offset returns a match exactly when one exists there, and that match is the only one that starts at this offset. |
| LinkScanner.ScanFrom | main.ts:29 | The global scan reports matches that lie in the text, start at or after the starting offset, and are pairwise disjoint in left-to-right order. |
| LinkScanner.ScanFromCovers | main.ts:29 | The global scan misses no match, except matches that overlap one it reported. |
| LinkScanner.GlobalMatchIsScan | main.ts:29 | Any ordered, disjoint list of matches that covers every possible match is the scan's result, so the global match is unique. |
| LinkScanner.MatchAll | main.ts:29-31 | `match` yields `null` exactly when the pattern matches nowhere. Otherwise it yields a non-empty list: the texts of the scan's matches, in order, each one a link. |
| FolderPath.Slice | main.ts:33 | `slice` never lengthens the string. With in-range offsets, or a negative end counted from the end, it returns the substring between them. |
| FolderPath.FolderPathOf | main.ts:33 | `link.slice(2, -2)` drops the first two and the last two characters of a link of at least four characters, and gives the empty string for a shorter one. |
| FolderPath.LinkRoundTrip | main.ts:33 | For every matched link, `slice(2, -2)` yields a folder path, and putting `[[` and `]]` around that path gives the link back. |
| FolderPath.MatchFolderPath | main.ts:29-33 | The path extracted from a match is exactly the text between its brackets. |
| FolderPath.FolderPathRoundTrip | main.ts:29-33 | Every folder path between `[[` and `]]` is matched, and slicing it gives the path back. |
| FolderCreation.RunVault | main.ts:32-41 | After the loop, the vault is the old vault plus every extracted path, and nothing else. |
| FolderCreation.RunCreated | main.ts:34-40 | The folders created are exactly the extracted paths that were missing from the vault, and no folder is created twice. |
| FolderCreation.TraceStep | main.ts:34-40 | One iteration makes one `exists` check for its path. It makes a `createFolder` call for that path only when the check answered false. The trace stays truthful about the vault. |
| FolderCreation.CreateMissingFolders | main.ts:32-41 | The loop leaves the vault holding every path. It agrees with the recursive definition `Run`. It queries the paths in order and creates exactly the folders it reports. Each creation directly follows a negative check of the same path, and every check answers truthfully for the vault at that moment. |
| FolderCreation.RunIdempotent | main.ts:34-40 | Running the loop again over the same paths creates nothing and leaves the vault unchanged. |
| FolderCreation.RunCreatesAtMostOnce | main.ts:34-40 | A path is created at most once, even when it is linked several times, and a path that already existed is never created. |
| LinkedFolders.FolderPaths | main.ts:29-33 | One folder path per match, in order, each the text between that match's brackets and each a valid folder path. |
| LinkedFolders.MatchAllFolderPaths | main.ts:31-33 | When `match` yields `null` the loop sees no paths. Otherwise it sees the sliced texts of the matched links. |
| LinkedFolders.LinkedFolderPaths | main.ts:29-33 | The paths the loop runs over, taken from `match` and `slice` with the `null` case giving none, are exactly the between-brackets texts of the scan's matches, in order. |
| FileOpen.OnFileOpen | main.ts:25-42 | The note is read exactly when `FileOpen.IsHandled` holds, that is, when there is a file and its path ends in `.md`. Otherwise nothing changes and no call is made. When the note is read, the vault ends up holding every linked path. It gets there through truthful check-then-create calls that agree with `Run`, and the folders reported as created are exactly those passed to `createFolder`. |
| FileOpen.SecondOpenCreatesNothing | main.ts:25-42 | Opening the same unchanged note a second time creates no folder. |
| FileOpen.NoLinkNoFolder | main.ts:31 | A note without any folder link leaves the vault unchanged. |
| FileOpen.ExistingFoldersUntouched | main.ts:34-40 | A linked folder that already exists is not created, and a folder linked several times in one note is created at most once. |
| Examples.NearLinksDoNotMatch | main.ts:29 | `[[a/b]]` (no trailing `/`), `[[/]]` (path too short) and `[[a.b/]]` (a `.`) are not folder links. |
| Examples.TwoLinks | main.ts:29-33 | `[[Notes/]] [[a b/c-d/]]` yields the paths `Notes/` and `a b/c-d/`, in that order, keeping inner spaces, slashes, hyphens and the trailing `/`. |
| Examples.ExtraBrackets | main.ts:29 | In `[[[[x/]]` the match starts at the last `[[`, giving the path `x/`. |
| Examples.RepeatedLink | main.ts:32-41 | A note that links `[[x/]]` twice, opened on an empty vault, creates `x/` once. |
| Examples.OnlyMarkdownNotes | main.ts:26 | Only an existing file whose path ends in `.md` is handled. |

## Left out

- Settings (`folderPrefix`), their loading and saving, and the settings tab (`main.ts`, lines 46 and 53 onward): the handler never reads them.
- `console.log` after a creation (`main.ts:39`) and in `onunload`: output only.
- `scripts/`: build and copy helpers, not part of the handler.
- Asynchrony: the handler awaits each vault call in turn. The model runs them in sequence and does not model other handlers or the user changing the vault in between.
- Vault semantics beyond membership and insertion: the model has no parent-folder creation, no path normalisation, no case folding and no failing `createFolder`. `exists` and `createFolder` are modelled as reading and extending one set of paths.
- Characters: a JavaScript string is a sequence of UTF-16 code units, while the model uses Dafny `char`. The two differ only outside the Basic Multilingual Plane, where no link character lies.
- `LinkChars.IsWhitespace`: fixes the Unicode space separators (category Zs) as in current Unicode, whereas the set a JavaScript engine uses depends on its Unicode version.
- `FolderPath.Slice`: states only the cases the handler can reach, with start within the string, or end in range or negative. It does not state every clamping case of `slice`, although its body computes all of them.
