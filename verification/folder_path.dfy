/**
  The folder path of a link: `link.slice(2, -2)`, which drops `[[` and `]]`
  and keeps the trailing `/`. The path is used as it stands, from the root of
  the vault; nothing of the note's own folder is added to it.
 */
module FolderPath {
  import opened LinkChars
  import opened LinkScanner

  function Min(a: int, b: int): int { if a <= b then a else b }
  function Max(a: int, b: int): int { if a <= b then b else a }

  /** JavaScript's `String.prototype.slice(start, end)`: a negative offset
      counts back from the end, and both offsets are clamped to the string. */
  function Slice(s: string, start: int, end: int): (r: string)
    ensures |r| <= |s|
    ensures 0 <= start <= end <= |s| ==> r == s[start..end]
    ensures -|s| <= end < 0 <= start <= |s| + end ==> r == s[start..|s| + end]
  {
    var from := if start < 0 then Max(|s| + start, 0) else Min(start, |s|);
    var to := if end < 0 then Max(|s| + end, 0) else Min(end, |s|);
    if from < to then s[from..to] else ""
  }

  /** `link.slice(2, -2)`: the text without its first two and last two
      characters, and the empty string when there are fewer than four. */
  function FolderPathOf(link: string): (r: string)
    ensures |link| >= 4 ==> r == link[2..|link| - 2]
    ensures |link| < 4 ==> r == ""
  {
    Slice(link, 2, -2)
  }

  /** Every matched link is `[[` + its folder path + `]]`, and that path is
      a run of link characters of length at least two that ends in `/`. */
  lemma LinkRoundTrip(link: string)
    requires IsLink(link)
    ensures IsFolderPath(FolderPathOf(link))
    ensures "[[" + FolderPathOf(link) + "]]" == link
  {
    var f := FolderPathOf(link);
    assert f == link[2..|link| - 2];
    assert link == link[..2] + link[2..|link| - 2] + link[|link| - 2..];
  }

  /** The folder path of a match is the text between its brackets. */
  lemma MatchFolderPath(s: string, p: nat, q: nat)
    requires MatchesAt(s, p, q)
    ensures FolderPathOf(s[p..q]) == s[p + 2..q - 2]
    ensures IsFolderPath(FolderPathOf(s[p..q]))
    ensures "[[" + FolderPathOf(s[p..q]) + "]]" == s[p..q]
  {
    MatchesAtIsLink(s, p, q);
    LinkRoundTrip(s[p..q]);
    var t := s[p..q];
    assert FolderPathOf(t) == t[2..|t| - 2];
    var inner, between := t[2..|t| - 2], s[p + 2..q - 2];
    assert |inner| == |between|;
    forall k | 0 <= k < |inner|
      ensures inner[k] == between[k]
    {
      assert inner[k] == t[2 + k] == s[p + 2 + k];
    }
  }

  /** Conversely, every folder path put between `[[` and `]]` is a link whose
      extracted path is the folder path itself. */
  lemma FolderPathRoundTrip(f: string)
    requires IsFolderPath(f)
    ensures IsLink("[[" + f + "]]")
    ensures FolderPathOf("[[" + f + "]]") == f
  {
    var link := "[[" + f + "]]";
    assert link[..2] == "[[";
    assert link[|link| - 2..] == "]]";
    assert link[2..|link| - 2] == f;
  }
}
