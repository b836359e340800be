/**
  The folder paths a note links to: the links `match` finds in its content,
  each cut down to the text between its brackets.
 */
module LinkedFolders {
  import opened Wrappers
  import opened LinkScanner
  import opened FolderPath

  /** `link.slice(2, -2)` of each link, in order. */
  function SlicePaths(links: seq<string>): (paths: seq<string>)
    ensures |paths| == |links|
    ensures forall k :: 0 <= k < |links| ==> paths[k] == FolderPathOf(links[k])
  {
    if links == [] then [] else [FolderPathOf(links[0])] + SlicePaths(links[1..])
  }

  /** The folder paths a note's content links to, in text order: the text
      between the brackets of each match. */
  function FolderPaths(content: string): (paths: seq<string>)
    ensures |paths| == |Scan(content)|
    ensures forall k :: 0 <= k < |paths| ==>
      && IsFolderPath(paths[k])
      && paths[k] == content[Scan(content)[k].start + 2..Scan(content)[k].end - 2]
  {
    MatchedFolderPaths(content, Scan(content));
    SlicePaths(Texts(content, Scan(content)))
  }

  /** Slicing the text of each match gives the text between its brackets,
      which is a folder path. */
  lemma MatchedFolderPaths(s: string, ms: seq<Match>)
    requires forall k :: 0 <= k < |ms| ==>
      ms[k].start <= ms[k].end <= |s| && MatchesAt(s, ms[k].start, ms[k].end)
    ensures var paths := SlicePaths(Texts(s, ms));
      forall k :: 0 <= k < |paths| ==>
        IsFolderPath(paths[k]) && paths[k] == s[ms[k].start + 2..ms[k].end - 2]
  {
    var links := Texts(s, ms);
    var paths := SlicePaths(links);
    forall k | 0 <= k < |paths|
      ensures IsFolderPath(paths[k]) && paths[k] == s[ms[k].start + 2..ms[k].end - 2]
    {
      assert paths[k] == FolderPathOf(links[k]);
      assert links[k] == s[ms[k].start..ms[k].end];
      MatchFolderPath(s, ms[k].start, ms[k].end);
    }
  }

  /** What the handler's loop iterates over: the folder paths of the links
      `match` returns, and none when it returns `null`. */
  lemma MatchAllFolderPaths(content: string)
    ensures MatchAll(content).None? ==> FolderPaths(content) == []
    ensures MatchAll(content).Some? ==> FolderPaths(content) == SlicePaths(MatchAll(content).value)
  {
  }

  /** The paths the handler's loop runs over: the result of `match`, each
      link sliced, and nothing when `match` returns `null`. They are the
      folder paths of the scan. */
  method LinkedFolderPaths(content: string) returns (paths: seq<string>)
    ensures paths == FolderPaths(content)
  {
    var links := MatchAll(content);
    paths := [];
    if links.Some? {
      paths := SlicePaths(links.value);
    }
    MatchAllFolderPaths(content);
  }
}
