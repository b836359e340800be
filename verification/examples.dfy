/** Concrete notes and what opening them does. */
module Examples {
  import opened Wrappers
  import opened LinkChars
  import opened LinkScanner
  import opened FolderCreation
  import opened LinkedFolders
  import opened FileOpen

  /** Text that only looks like a folder link gives no match: an inner text
      that does not end in `/`, one that is too short, and one with a
      character outside the class. */
  lemma NearLinksDoNotMatch()
    ensures MatchAll("[[a/b]]") == None
    ensures MatchAll("[[/]]") == None
    ensures MatchAll("[[a.b/]]") == None
  {
    var s1 := "[[a/b]]";
    forall p: nat, q: nat ensures !MatchesAt(s1, p, q) {
      assert MatchesAt(s1, p, q) ==> q == 7;
      assert s1[4] == 'b';
    }
    var s3 := "[[a.b/]]";
    forall p: nat, q: nat ensures !MatchesAt(s3, p, q) {
      assert MatchesAt(s3, p, q) ==> p == 0 && q == 8;
      assert !IsLinkChar(s3[3]);
    }
  }

  lemma TwoLinksMatch(s: string)
    requires s == "[[Notes/]] [[a b/c-d/]]"
    ensures MatchesAt(s, 0, 10)
    ensures MatchEndAt(s, 10) == None
  {
  }

  lemma TwoLinksMatchSecond(s: string)
    requires s == "[[Notes/]] [[a b/c-d/]]"
    ensures MatchesAt(s, 11, 23)
  {
  }

  lemma TwoLinksScan(s: string)
    requires s == "[[Notes/]] [[a b/c-d/]]"
    ensures Scan(s) == [Match(0, 10), Match(11, 23)]
  {
    TwoLinksMatch(s);
    TwoLinksMatchSecond(s);
    ScanTakes(s, 0, 10);
    ScanSkips(s, 10);
    ScanTakes(s, 11, 23);
  }

  lemma TwoLinksFirstInner(s: string)
    requires s == "[[Notes/]] [[a b/c-d/]]"
    ensures s[2..8] == "Notes/"
  {
    assert s[2] == 'N';
    assert s[3] == 'o';
    assert s[4] == 't';
    assert s[5] == 'e';
    assert s[6] == 's';
    assert s[7] == '/';
  }

  lemma TwoLinksSecondInner(s: string)
    requires s == "[[Notes/]] [[a b/c-d/]]"
    ensures s[13..21] == "a b/c-d/"
  {
    assert s[13] == 'a';
    assert s[14] == ' ';
    assert s[15] == 'b';
    assert s[16] == '/';
    assert s[17] == 'c';
    assert s[18] == '-';
    assert s[19] == 'd';
    assert s[20] == '/';
  }

  /** Links are found left to right; their paths keep the trailing `/` and
      any inner spaces, slashes and hyphens, and are not prefixed with the
      note's folder. */
  lemma TwoLinks(s: string)
    requires s == "[[Notes/]] [[a b/c-d/]]"
    ensures FolderPaths(s) == ["Notes/", "a b/c-d/"]
  {
    TwoLinksScan(s);
    TwoLinksFirstInner(s);
    TwoLinksSecondInner(s);
    var paths := FolderPaths(s);
    assert |paths| == 2 && paths[0] == s[2..8] && paths[1] == s[13..21];
    assert paths == [paths[0], paths[1]];
  }

  lemma ExtraBracketsMatch(s: string)
    requires s == "[[[[x/]]"
    ensures MatchEndAt(s, 0) == None && MatchEndAt(s, 1) == None
    ensures MatchesAt(s, 2, 8)
    ensures s[4..6] == "x/"
  {
    assert s[4] == 'x';
    assert s[5] == '/';
  }

  lemma ExtraBracketsScan(s: string)
    requires s == "[[[[x/]]"
    ensures Scan(s) == [Match(2, 8)]
  {
    ExtraBracketsMatch(s);
    ScanSkips(s, 0);
    ScanSkips(s, 1);
    ScanTakes(s, 2, 8);
  }

  /** A failed attempt moves on by one character, so the link inside extra
      opening brackets is still found. */
  lemma ExtraBrackets(s: string)
    requires s == "[[[[x/]]"
    ensures FolderPaths(s) == ["x/"]
  {
    ExtraBracketsScan(s);
    ExtraBracketsMatch(s);
    assert FolderPaths(s)[0] == s[4..6];
  }

  lemma RepeatedLinkMatch(s: string)
    requires s == "[[x/]] [[x/]]"
    ensures MatchesAt(s, 0, 6) && MatchEndAt(s, 6) == None && MatchesAt(s, 7, 13)
    ensures s[2..4] == "x/" && s[9..11] == "x/"
  {
    assert s[2] == 'x';
    assert s[3] == '/';
    assert s[9] == 'x';
    assert s[10] == '/';
  }

  lemma RepeatedLinkScan(s: string)
    requires s == "[[x/]] [[x/]]"
    ensures Scan(s) == [Match(0, 6), Match(7, 13)]
  {
    RepeatedLinkMatch(s);
    ScanTakes(s, 0, 6);
    ScanSkips(s, 6);
    ScanTakes(s, 7, 13);
  }

  /** A link repeated in one note creates its folder once. */
  lemma RepeatedLink(s: string)
    requires s == "[[x/]] [[x/]]"
    ensures Run({}, FolderPaths(s)) == Effect({"x/"}, ["x/"])
  {
    RepeatedLinkScan(s);
    RepeatedLinkMatch(s);
    assert FolderPaths(s)[0] == s[2..4];
    assert FolderPaths(s)[1] == s[9..11];
    assert FolderPaths(s) == ["x/", "x/"];
  }

  /** Only Markdown notes are handled. */
  lemma OnlyMarkdownNotes()
    ensures !IsHandled(None)
    ensures !IsHandled(Some(File("notes/a.txt")))
    ensures !IsHandled(Some(File("md")))
    ensures IsHandled(Some(File("notes/a.md")))
  {
  }
}
