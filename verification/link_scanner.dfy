/**
  The scan `content.match(/\[\[([\w\s/-]+\/)\]\]/g)` of the `file-open`
  handler: every non-overlapping occurrence, left to right, of `[[`, an inner
  text of at least one link character followed by `/`, and `]]`.
 */
module LinkScanner {
  import opened Wrappers
  import opened LinkChars

  /** One occurrence of the pattern: the offsets `start` (inclusive) and
      `end` (exclusive) of the matched text. */
  datatype Match = Match(start: nat, end: nat)

  /** The inner text `[\w\s/-]+\/`: since `/` is itself a link character,
      this is at least two link characters, the last of which is `/`. */
  predicate IsFolderPath(f: string) {
    && |f| >= 2
    && f[|f| - 1] == '/'
    && forall k :: 0 <= k < |f| ==> IsLinkChar(f[k])
  }

  /** The language of the whole pattern: `[[` + folder path + `]]`. */
  predicate IsLink(t: string) {
    && |t| >= 6
    && t[..2] == "[["
    && t[|t| - 2..] == "]]"
    && IsFolderPath(t[2..|t| - 2])
  }

  /** The pattern matches exactly the text of `s` from offset `p` to `q`,
      stated on offsets: `[[`, link characters, `/`, `]]`. */
  predicate MatchesAt(s: string, p: nat, q: nat) {
    && p + 6 <= q <= |s|
    && s[p] == '[' && s[p + 1] == '['
    && AllLinkChars(s, p + 2, q - 2)
    && s[q - 3] == '/' && s[q - 2] == ']' && s[q - 1] == ']'
  }

  predicate AllLinkChars(s: string, lo: nat, hi: nat)
    requires lo <= hi <= |s|
  {
    forall k :: lo <= k < hi ==> IsLinkChar(s[k])
  }

  /** The offset form agrees with the pattern's language: the pattern matches
      from `p` to `q` exactly when that slice of `s` is a link. */
  lemma MatchesAtIsLink(s: string, p: nat, q: nat)
    requires p <= q <= |s|
    ensures MatchesAt(s, p, q) <==> IsLink(s[p..q])
  {
    var t := s[p..q];
    if |t| >= 6 {
      assert t[..2] == [s[p], s[p + 1]];
      assert t[|t| - 2..] == [s[q - 2], s[q - 1]];
      var inner := t[2..|t| - 2];
      assert forall k :: 0 <= k < |inner| ==> inner[k] == s[p + 2 + k];
      assert |inner| >= 2 && inner[|inner| - 1] == s[q - 3];
      if AllLinkChars(s, p + 2, q - 2) {
        assert forall k :: 0 <= k < |inner| ==> IsLinkChar(inner[k]);
      }
      if IsFolderPath(inner) {
        forall k | p + 2 <= k < q - 2 ensures IsLinkChar(s[k]) {
          assert s[k] == inner[k - (p + 2)];
        }
      }
    }
  }

  /** The end of the longest run of link characters of `s` starting at `i`. */
  function RunEnd(s: string, i: nat): (e: nat)
    requires i <= |s|
    ensures i <= e <= |s|
    ensures forall k :: i <= k < e ==> IsLinkChar(s[k])
    ensures e == |s| || !IsLinkChar(s[e])
    decreases |s| - i
  {
    if i < |s| && IsLinkChar(s[i]) then RunEnd(s, i + 1) else i
  }

  /** Any match at `p` ends two characters after the run of link characters
      that follows `[[`: the `]` that closes it cannot be inside the run, and
      everything before it is a link character. */
  lemma MatchEndsAfterRun(s: string, p: nat, q: nat)
    requires MatchesAt(s, p, q)
    ensures RunEnd(s, p + 2) == q - 2
  {
    BracketsAreNotLinkChars();
  }

  /** One attempt of the pattern at offset `p`: the end of the match that
      starts there, if any. The match at an offset is unique, so the regular
      expression engine's greedy choice with backtracking finds this one. */
  function MatchEndAt(s: string, p: nat): (r: Option<nat>)
    requires p <= |s|
    ensures r.Some? ==> p + 6 <= r.value && MatchesAt(s, p, r.value)
    ensures forall q: nat :: MatchesAt(s, p, q) ==> r == Some(q)
  {
    if p + 2 <= |s| && s[p] == '[' && s[p + 1] == '[' then
      var e := RunEnd(s, p + 2);
      if e - (p + 2) >= 2 && s[e - 1] == '/' && e + 2 <= |s| && s[e] == ']' && s[e + 1] == ']' then
        Some(e + 2)
      else
        assert forall q: nat :: !MatchesAt(s, p, q) by {
          forall q: nat | MatchesAt(s, p, q) ensures false {
            MatchEndsAfterRun(s, p, q);
          }
        }
        None
    else
      assert forall q: nat :: !MatchesAt(s, p, q) by {
        forall q: nat | MatchesAt(s, p, q) ensures false {
          MatchEndsAfterRun(s, p, q);
        }
      }
      None
  }

  /** Matches lie in `s`, start at or after `i`, and are pairwise disjoint in
      left-to-right order. */
  predicate Ordered(s: string, i: nat, ms: seq<Match>) {
    && (forall k :: 0 <= k < |ms| ==> i <= ms[k].start && MatchesAt(s, ms[k].start, ms[k].end))
    && (forall j, k :: 0 <= j < k < |ms| ==> ms[j].end <= ms[k].start)
  }

  /** The global scan from offset `i`: try the pattern at each offset; after
      a match, resume at its end, otherwise at the next offset. */
  function ScanFrom(s: string, i: nat): (ms: seq<Match>)
    requires i <= |s|
    ensures Ordered(s, i, ms)
    decreases |s| - i
  {
    if i == |s| then []
    else
      match MatchEndAt(s, i)
      case Some(q) => [Match(i, q)] + ScanFrom(s, q)
      case None => ScanFrom(s, i + 1)
  }

  function Scan(s: string): seq<Match> {
    ScanFrom(s, 0)
  }

  /** The scan moves one offset on when the pattern does not match. */
  lemma ScanSkips(s: string, i: nat)
    requires i < |s| && MatchEndAt(s, i) == None
    ensures ScanFrom(s, i) == ScanFrom(s, i + 1)
  {
  }

  /** The scan takes a match and resumes at its end. */
  lemma ScanTakes(s: string, i: nat, q: nat)
    requires i < |s| && MatchesAt(s, i, q)
    ensures ScanFrom(s, i) == [Match(i, q)] + ScanFrom(s, q)
  {
  }

  /** Offset `p` lies inside the match `m`. */
  predicate Inside(m: Match, p: nat) {
    m.start <= p < m.end
  }

  /** Offset `p` lies inside one of the matches `ms`. */
  predicate Covered(ms: seq<Match>, p: nat) {
    ms != [] && (Inside(ms[0], p) || Covered(ms[1..], p))
  }

  /** The match of `ms` that covers `p`. */
  lemma {:induction false} CoveringMatch(ms: seq<Match>, p: nat) returns (k: nat)
    requires Covered(ms, p)
    ensures k < |ms| && Inside(ms[k], p)
  {
    if Inside(ms[0], p) {
      k := 0;
    } else {
      var j := CoveringMatch(ms[1..], p);
      k := j + 1;
    }
  }

  /** Every offset at or after `i` where the pattern could match is inside
      one of the matches `ms`. */
  ghost predicate Covers(s: string, i: nat, ms: seq<Match>) {
    forall p: nat, q: nat :: i <= p && MatchesAt(s, p, q) ==> Covered(ms, p)
  }

  /** The result of a global left-to-right match, stated without reference to
      the algorithm: disjoint matches in order, and no match anywhere that
      none of them covers. */
  ghost predicate IsGlobalMatch(s: string, i: nat, ms: seq<Match>) {
    Ordered(s, i, ms) && Covers(s, i, ms)
  }

  /** A match the scan does not report lies inside one that it does. */
  lemma {:induction false} ScanFromCoversAt(s: string, i: nat, p: nat, q: nat)
    requires i <= p && i <= |s|
    requires MatchesAt(s, p, q)
    ensures Covered(ScanFrom(s, i), p)
    decreases |s| - i
  {
    var ms := ScanFrom(s, i);
    if i == |s| {
      assert false;
    } else {
      match MatchEndAt(s, i)
      case Some(e) =>
        assert ms[1..] == ScanFrom(s, e);
        if e <= p {
          ScanFromCoversAt(s, e, p, q);
        }
      case None =>
        assert p != i;
        ScanFromCoversAt(s, i + 1, p, q);
    }
  }

  /** The scan misses no match except those that overlap an earlier one. */
  lemma ScanFromCovers(s: string, i: nat)
    requires i <= |s|
    ensures IsGlobalMatch(s, i, ScanFrom(s, i))
  {
    forall p: nat, q: nat | i <= p && MatchesAt(s, p, q)
      ensures Covered(ScanFrom(s, i), p)
    {
      ScanFromCoversAt(s, i, p, q);
    }
  }

  /** Dropping the first match of a global match leaves the global match
      from its end. */
  lemma GlobalMatchTail(s: string, i: nat, ms: seq<Match>)
    requires IsGlobalMatch(s, i, ms) && ms != []
    ensures IsGlobalMatch(s, ms[0].end, ms[1..])
  {
  }

  /** Before the first match of a global match the pattern does not match. */
  lemma GlobalMatchSkip(s: string, i: nat, ms: seq<Match>)
    requires i < |s|
    requires IsGlobalMatch(s, i, ms) && (ms == [] || i < ms[0].start)
    ensures MatchEndAt(s, i) == None
    ensures IsGlobalMatch(s, i + 1, ms)
  {
    if MatchEndAt(s, i).Some? {
      assert Covered(ms, i);
      var k := CoveringMatch(ms, i);
      assert false;
    }
  }

  /** A global match that starts with a match at `i` starts with the match
      one attempt at `i` finds. */
  lemma GlobalMatchHead(s: string, i: nat, ms: seq<Match>)
    requires i <= |s|
    requires IsGlobalMatch(s, i, ms) && ms != [] && ms[0].start == i
    ensures MatchEndAt(s, i) == Some(ms[0].end)
  {
  }

  /** The global match is unique: any list of ordered, disjoint matches that
      covers every match of the pattern is the one the scan returns. */
  lemma {:induction false} GlobalMatchIsScan(s: string, i: nat, ms: seq<Match>)
    requires i <= |s|
    requires IsGlobalMatch(s, i, ms)
    ensures ms == ScanFrom(s, i)
    decreases |s| - i
  {
    if i == |s| {
    } else if ms != [] && ms[0].start == i {
      var e := ms[0].end;
      GlobalMatchHead(s, i, ms);
      GlobalMatchTail(s, i, ms);
      GlobalMatchIsScan(s, e, ms[1..]);
      ScanTakes(s, i, e);
      assert ms == [Match(i, e)] + ms[1..];
    } else {
      GlobalMatchSkip(s, i, ms);
      GlobalMatchIsScan(s, i + 1, ms);
      ScanSkips(s, i);
    }
  }

  /** The texts of the matches `ms` in `s`, in order. */
  function Texts(s: string, ms: seq<Match>): (links: seq<string>)
    requires forall k :: 0 <= k < |ms| ==> ms[k].start <= ms[k].end <= |s|
    ensures |links| == |ms|
    ensures forall k :: 0 <= k < |ms| ==> links[k] == s[ms[k].start..ms[k].end]
  {
    if ms == [] then [] else [s[ms[0].start..ms[0].end]] + Texts(s, ms[1..])
  }

  /** `content.match(re)` with the global flag: the matched texts in order,
      or `None` (JavaScript's `null`) when there is no match at all. */
  function MatchAll(s: string): (r: Option<seq<string>>)
    ensures r.None? <==> forall p: nat, q: nat :: !MatchesAt(s, p, q)
    ensures r.Some? ==> |r.value| > 0
    ensures r.Some? ==> forall k :: 0 <= k < |r.value| ==> IsLink(r.value[k])
    ensures r.Some? ==> |r.value| == |Scan(s)|
    ensures r.Some? ==> forall k :: 0 <= k < |r.value| ==> r.value[k] == s[Scan(s)[k].start..Scan(s)[k].end]
  {
    var ms := Scan(s);
    if ms == [] then
      assert forall p: nat, q: nat :: !MatchesAt(s, p, q) by {
        forall p: nat, q: nat | MatchesAt(s, p, q) ensures false {
          ScanFromCoversAt(s, 0, p, q);
        }
      }
      None
    else
      assert MatchesAt(s, ms[0].start, ms[0].end);
      var links := Texts(s, ms);
      assert forall k :: 0 <= k < |links| ==> IsLink(links[k]) by {
        forall k | 0 <= k < |links| ensures IsLink(links[k]) {
          MatchesAtIsLink(s, ms[k].start, ms[k].end);
        }
      }
      Some(links)
  }
}
