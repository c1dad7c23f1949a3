/** What a glob means, segment by segment, for paths with no empty component. */
module GlobSegments {
  import opened Strings
  import opened Glob

  /** One segment's reading of one component: `*` is any bytes, `?` any one. */
  ghost predicate Fits(seg: string, part: string) {
    if seg == "" then part == ""
    else if seg[0] == '*' then exists k :: 0 <= k <= |part| && Fits(seg[1..], part[k..])
    else part != "" && (seg[0] == '?' || part[0] == seg[0]) && Fits(seg[1..], part[1..])
  }

  /** A glob's reading of a path: `**` is any number of components, none
      included, but for a last one, which is the rest of the path and takes one
      or more; every other segment is one component. */
  ghost predicate Reads(segs: seq<string>, parts: seq<string>) {
    if segs == [] then parts == []
    else if segs[0] == "**" then
      if |segs| == 1 then parts != []
      else exists k :: 0 <= k <= |parts| && Reads(segs[1..], parts[k..])
    else parts != [] && Fits(segs[0], parts[0]) && Reads(segs[1..], parts[1..])
  }

  // Tokens from the front.

  function TokensFrom(segs: seq<string>): seq<Token> {
    if segs == [] then []
    else TokensAt(segs, 0) + TokensFrom(segs[1..])
  }

  lemma {:induction false} FrontAndBack(segs: seq<string>, i: nat)
    requires i <= |segs|
    ensures TokensUpTo(segs, |segs|) == TokensUpTo(segs, i) + TokensFrom(segs[i..])
    decreases |segs| - i
  {
    hide SegmentTokens;
    if i < |segs| {
      FrontAndBack(segs, i + 1);
      assert segs[i..][1..] == segs[i + 1..];
      assert TokensAt(segs[i..], 0) == TokensAt(segs, i);
    }
  }

  lemma SameTokens(segs: seq<string>)
    ensures TokensUpTo(segs, |segs|) == TokensFrom(segs)
  {
    FrontAndBack(segs, 0);
    assert segs[0..] == segs;
  }

  // Matching one after another.

  lemma {:induction false} MatchesBoth(g: seq<Token>, h: seq<Token>, s: string)
    ensures Matches(g + h, s) <==> exists k :: 0 <= k <= |s| && Matches(g, s[..k]) && Matches(h, s[k..])
  {
    hide Takes;
    if g == [] {
      assert g + h == h;
      assert s[..0] == "" && s[0..] == s;
    } else {
      assert (g + h)[0] == g[0] && (g + h)[1..] == g[1..] + h;
      if Matches(g + h, s) {
        var j :| 0 <= j <= |s| && Takes(g[0], s[..j]) && Matches(g[1..] + h, s[j..]);
        MatchesBoth(g[1..], h, s[j..]);
        var k :| 0 <= k <= |s[j..]| && Matches(g[1..], s[j..][..k]) && Matches(h, s[j..][k..]);
        Join3(g, s, j, k);
        assert s[j..][k..] == s[j + k..];
      }
      if k :| 0 <= k <= |s| && Matches(g, s[..k]) && Matches(h, s[k..]) {
        var j :| 0 <= j <= |s[..k]| && Takes(g[0], s[..k][..j]) && Matches(g[1..], s[..k][j..]);
        assert s[..k][..j] == s[..j] && s[..k][j..] == s[j..][..k - j] && s[k..] == s[j..][k - j..];
        MatchesBoth(g[1..], h, s[j..]);
        assert Matches(g[1..] + h, s[j..]);
      }
    }
  }

  lemma Join3(g: seq<Token>, s: string, j: nat, k: nat)
    requires g != [] && j <= |s| && k <= |s[j..]| && Takes(g[0], s[..j]) && Matches(g[1..], s[j..][..k])
    ensures Matches(g, s[..j + k])
  {
    hide Takes;
    var whole := s[..j + k];
    assert whole[..j] == s[..j] && whole[j..] == s[j..][..k];
  }

  // One segment.

  lemma {:induction false} SegmentFront(seg: string)
    requires seg != ""
    ensures SegmentTokens(seg) == [ByteToken(seg[0])] + SegmentTokens(seg[1..])
  {
    if |seg| > 1 {
      SegmentFront(seg[..|seg| - 1]);
      assert seg[..|seg| - 1][1..] == seg[1..][..|seg| - 2];
    }
  }

  lemma {:induction false} SegmentMatches(seg: string, part: string)
    requires '/' !in seg
    ensures Matches(SegmentTokens(seg), part) <==> '/' !in part && Fits(seg, part)
    decreases |seg|
  {
    hide SegmentTokens, Fits;
    FitsStep(seg, part);
    if seg == "" {
      assert SegmentTokens(seg) == [] by { NoTokens(); }
    } else {
      SegmentFront(seg);
      var g := SegmentTokens(seg);
      assert g[0] == ByteToken(seg[0]) && g[1..] == SegmentTokens(seg[1..]);
      forall k | 0 <= k <= |part|
        ensures Matches(g[1..], part[k..]) <==> '/' !in part[k..] && Fits(seg[1..], part[k..])
      {
        SegmentMatches(seg[1..], part[k..]);
      }
      assert forall k :: 0 <= k <= |part| ==> part == part[..k] + part[k..];
      FirstByte(seg[0], part, g);
    }
  }

  lemma NoTokens()
    ensures SegmentTokens("") == []
  {
  }

  lemma FitsStep(seg: string, part: string)
    ensures seg == "" ==> (Fits(seg, part) <==> part == "")
    ensures seg != "" && seg[0] == '*' ==> (Fits(seg, part) <==> exists k :: 0 <= k <= |part| && Fits(seg[1..], part[k..]))
    ensures seg != "" && seg[0] != '*' ==>
              (Fits(seg, part) <==> part != "" && (seg[0] == '?' || part[0] == seg[0]) && Fits(seg[1..], part[1..]))
  {
  }

  /** Where the first byte of a segment may end. */
  lemma FirstByte(c: char, part: string, g: seq<Token>)
    requires c != '/' && g != [] && g[0] == ByteToken(c)
    ensures c == '*' ==> (Matches(g, part) <==> exists k :: 0 <= k <= |part| && '/' !in part[..k] && Matches(g[1..], part[k..]))
    ensures c != '*' ==> (Matches(g, part) <==> part != "" && part[0] != '/' && (c == '?' || part[0] == c) && Matches(g[1..], part[1..]))
  {
    if c != '*' {
      forall k | 0 <= k <= |part| && Takes(g[0], part[..k]) ensures k == 1 {
        assert |part[..k]| == k;
      }
      if part != "" { assert part[..1] == [part[0]]; }
    }
  }

  // A whole path.

  /** Components of a path: none empty, and none with a slash. */
  ghost predicate Whole(parts: seq<string>) {
    forall i :: 0 <= i < |parts| ==> parts[i] != "" && '/' !in parts[i]
  }

  lemma {:induction false} NothingReads(segs: seq<string>)
    requires segs != []
    ensures !Reads(segs, [])
  {
    if segs[0] == "**" && |segs| > 1 {
      NothingReads(segs[1..]);
      var none: seq<string> := [];
      assert none[0..] == none;
    }
  }

  lemma JoinStep(parts: seq<string>)
    requires |parts| > 1
    ensures Join(parts, '/') == parts[0] + "/" + Join(parts[1..], '/')
  {
  }

  lemma {:induction false} JoinWhole(parts: seq<string>)
    requires Whole(parts)
    ensures Join(parts, '/') == "" <==> parts == []
    ensures parts != [] ==> Join(parts, '/')[|Join(parts, '/')| - 1] != '/'
  {
    if |parts| > 1 { JoinWhole(parts[1..]); }
  }

  /** Where a path's first component ends. */
  lemma FirstPart(parts: seq<string>)
    requires Whole(parts) && parts != []
    ensures var path, n := Join(parts, '/'), |parts[0]|;
            && n <= |path| && path[..n] == parts[0] && (forall i :: 0 <= i < n ==> path[i] != '/')
            && (|parts| == 1 ==> path == parts[0])
            && (|parts| > 1 ==> n < |path| && path[n] == '/' && path[n + 1..] == Join(parts[1..], '/'))
  {
    var path, first := Join(parts, '/'), parts[0];
    if |parts| > 1 { JoinStep(parts); }
    forall i | 0 <= i < |first| ensures path[i] != '/' {
      assert path[i] == first[i] && first[i] in first;
    }
  }

  /** A slash cuts a path between two components. */
  lemma {:induction false} CutAtSlash(parts: seq<string>, k: nat)
    requires Whole(parts) && 0 < k <= |Join(parts, '/')| && Join(parts, '/')[k - 1] == '/'
    ensures exists j :: 0 < j < |parts| && Join(parts, '/')[k..] == Join(parts[j..], '/')
    decreases |parts|
  {
    hide Join;
    JoinWhole(parts);
    FirstPart(parts);
    var path, n, rest := Join(parts, '/'), |parts[0]|, Join(parts[1..], '/');
    if k == n + 1 {
      assert path[k..] == rest;
    } else {
      assert path[k - 1] == rest[k - n - 2] && path[k..] == rest[k - n - 1..];
      CutAtSlash(parts[1..], k - n - 1);
      var j :| 0 < j < |parts[1..]| && rest[k - n - 1..] == Join(parts[1..][j..], '/');
      assert parts[1..][j..] == parts[j + 1..];
    }
  }

  /** And between each two components is a slash. */
  lemma {:induction false} SlashBetween(parts: seq<string>, j: nat)
    requires Whole(parts) && 0 < j < |parts|
    ensures exists k :: 0 < k <= |Join(parts, '/')| && Join(parts, '/')[k - 1] == '/' && Join(parts, '/')[k..] == Join(parts[j..], '/')
  {
    var path, first, rest := Join(parts, '/'), parts[0], Join(parts[1..], '/');
    JoinStep(parts);
    if j == 1 {
      var k := |first| + 1;
      assert path[k - 1] == '/' && path[k..] == rest;
    } else {
      SlashBetween(parts[1..], j - 1);
      var k :| 0 < k <= |rest| && rest[k - 1] == '/' && rest[k..] == Join(parts[1..][j - 1..], '/');
      assert parts[1..][j - 1..] == parts[j..];
      var m := |first| + 1 + k;
      assert path[m - 1] == rest[k - 1] && path[m..] == rest[k..];
    }
  }

  /** The front of a path up to its first slash is its first component. */
  lemma FirstSlash(parts: seq<string>, k: nat)
    requires Whole(parts) && k < |Join(parts, '/')| && Join(parts, '/')[k] == '/' && '/' !in Join(parts, '/')[..k]
    ensures |parts| > 1 && Join(parts, '/')[..k] == parts[0] && Join(parts, '/')[k + 1..] == Join(parts[1..], '/')
  {
    hide Join;
    JoinWhole(parts);
    FirstPart(parts);
    var path := Join(parts, '/');
    assert forall i :: 0 <= i < k ==> path[..k][i] == path[i];
  }

  /** A path matches a glob's tokens exactly when its components are read as
      the glob's segments. */
  lemma {:induction false} ReadsAsMatched(segs: seq<string>, parts: seq<string>)
    requires Whole(parts) && parts != [] && forall i :: 0 <= i < |segs| ==> '/' !in segs[i]
    ensures Matches(TokensFrom(segs), Join(parts, '/')) <==> Reads(segs, parts)
    decreases |segs|
  {
    hide Fits, Join, Matches, Takes, SegmentTokens, TokensFrom, Reads, TokensAt;
    if segs == [] {
      EmptyMatches(parts);
    } else if segs[0] == "**" {
      if |segs| == 1 {
        LastStars(segs, parts);
      } else {
        forall j | 0 <= j < |parts|
          ensures Matches(TokensFrom(segs[1..]), Join(parts[j..], '/')) <==> Reads(segs[1..], parts[j..])
        {
          ReadsAsMatched(segs[1..], parts[j..]);
        }
        StarsMatch(segs, parts);
      }
    } else if |segs| == 1 {
      LastSegment(segs, parts);
    } else {
      if |parts| > 1 { ReadsAsMatched(segs[1..], parts[1..]); }
      SegmentThenSlash(segs, parts);
    }
  }

  lemma EmptyMatches(parts: seq<string>)
    requires Whole(parts) && parts != []
    ensures !Matches(TokensFrom([]), Join(parts, '/')) && !Reads([], parts)
  {
    JoinWhole(parts);
  }

  lemma LastStars(segs: seq<string>, parts: seq<string>)
    requires |segs| == 1 && segs[0] == "**" && parts != []
    ensures Matches(TokensFrom(segs), Join(parts, '/')) && Reads(segs, parts)
  {
    var path := Join(parts, '/');
    assert TokensFrom(segs) == [Rest] + TokensFrom(segs[1..]) == [Rest];
    assert Takes(Rest, path[..|path|]) && path[|path|..] == "";
  }

  lemma StarsFirst(segs: seq<string>)
    requires |segs| > 1 && segs[0] == "**"
    ensures TokensFrom(segs) != [] && TokensFrom(segs)[0] == Segments && TokensFrom(segs)[1..] == TokensFrom(segs[1..])
  {
    hide SegmentTokens;
  }

  /** Where a `**` that is not last may end. */
  lemma StarsEnd(segs: seq<string>, path: string)
    requires |segs| > 1 && segs[0] == "**"
    ensures Matches(TokensFrom(segs), path) <==>
            exists k :: 0 <= k <= |path| && (k == 0 || path[k - 1] == '/') && Matches(TokensFrom(segs[1..]), path[k..])
  {
    hide TokensFrom, Split;
    var g, rest := TokensFrom(segs), TokensFrom(segs[1..]);
    StarsFirst(segs);
    forall k | 0 <= k <= |path| ensures Takes(Segments, path[..k]) <==> k == 0 || path[k - 1] == '/' {
      if k > 0 { assert path[..k][k - 1] == path[k - 1]; }
    }
  }

  lemma StarsMatch(segs: seq<string>, parts: seq<string>)
    requires |segs| > 1 && segs[0] == "**" && Whole(parts) && parts != []
    requires forall j :: 0 <= j < |parts| ==> (Matches(TokensFrom(segs[1..]), Join(parts[j..], '/')) <==> Reads(segs[1..], parts[j..]))
    ensures Matches(TokensFrom(segs), Join(parts, '/')) <==> Reads(segs, parts)
  {
    hide Join, Matches, TokensFrom;
    var path, rest := Join(parts, '/'), TokensFrom(segs[1..]);
    StarsEnd(segs, path);
    assert parts[0..] == parts && path[0..] == path;
    if k :| 0 <= k <= |path| && (k == 0 || path[k - 1] == '/') && Matches(rest, path[k..]) {
      if k > 0 {
        CutAtSlash(parts, k);
        var j :| 0 < j < |parts| && path[k..] == Join(parts[j..], '/');
        assert Reads(segs[1..], parts[j..]);
      } else {
        assert Reads(segs[1..], parts[0..]);
      }
    }
    if j :| 0 <= j <= |parts| && Reads(segs[1..], parts[j..]) {
      NothingReads(segs[1..]);
      assert parts[|parts|..] == [];
      if j > 0 {
        SlashBetween(parts, j);
        var k :| 0 < k <= |path| && path[k - 1] == '/' && path[k..] == Join(parts[j..], '/');
        assert Matches(rest, path[k..]);
      } else {
        assert Matches(rest, path[0..]);
      }
    }
  }

  lemma NoSlashInOne(parts: seq<string>)
    requires Whole(parts) && parts != []
    ensures '/' !in Join(parts, '/') <==> |parts| == 1
    ensures |parts| == 1 ==> Join(parts, '/') == parts[0]
  {
    if |parts| > 1 {
      JoinStep(parts);
      assert Join(parts, '/')[|parts[0]|] == '/';
    }
  }

  lemma LastSegment(segs: seq<string>, parts: seq<string>)
    requires |segs| == 1 && segs[0] != "**" && '/' !in segs[0] && Whole(parts) && parts != []
    ensures Matches(TokensFrom(segs), Join(parts, '/')) <==> Reads(segs, parts)
  {
    hide Join, SegmentTokens, Fits, Matches;
    assert TokensFrom(segs) == SegmentTokens(segs[0]);
    SegmentMatches(segs[0], Join(parts, '/'));
    NoSlashInOne(parts);
    assert Reads(segs[1..], parts[1..]) <==> parts[1..] == [];
  }

  lemma {:induction false} SlashEnds(g: seq<Token>, s: string)
    ensures Matches(g + [Literal('/')], s) <==> s != "" && s[|s| - 1] == '/' && Matches(g, s[..|s| - 1])
  {
    hide Matches;
    MatchesBoth(g, [Literal('/')], s);
    forall k | 0 <= k <= |s| ensures Matches([Literal('/')], s[k..]) <==> s[k..] == "/" {
      OneSlash(s[k..]);
    }
    if s != "" { assert s[|s| - 1..] == [s[|s| - 1]]; }
  }

  lemma OneSlash(s: string)
    ensures Matches([Literal('/')], s) <==> s == "/"
  {
    assert [Literal('/')][1..] == [];
    if s == "/" { assert s[..1] == "/" && s[1..] == ""; }
    if Matches([Literal('/')], s) {
      var k :| 0 <= k <= |s| && s[..k] == "/" && Matches([], s[k..]);
      assert s == s[..k] + s[k..];
    }
  }

  /** Where a segment that is not last, and the slash after it, may end. */
  lemma SegmentEnds(segs: seq<string>, path: string)
    requires |segs| > 1 && segs[0] != "**" && '/' !in segs[0]
    ensures Matches(TokensFrom(segs), path) <==>
            exists k :: 0 < k <= |path| && path[k - 1] == '/' && '/' !in path[..k - 1] && Fits(segs[0], path[..k - 1])
                        && Matches(TokensFrom(segs[1..]), path[k..])
  {
    hide Join, SegmentTokens, Fits, Matches;
    var rest, own := TokensFrom(segs[1..]), SegmentTokens(segs[0]);
    assert TokensFrom(segs) == (own + [Literal('/')]) + rest;
    MatchesBoth(own + [Literal('/')], rest, path);
    forall k | 0 <= k <= |path|
      ensures Matches(own + [Literal('/')], path[..k]) <==>
              k > 0 && path[k - 1] == '/' && '/' !in path[..k - 1] && Fits(segs[0], path[..k - 1])
    {
      SlashEnds(own, path[..k]);
      if k > 0 {
        assert path[..k][..k - 1] == path[..k - 1];
        SegmentMatches(segs[0], path[..k - 1]);
      }
    }
  }

  lemma SegmentThenSlash(segs: seq<string>, parts: seq<string>)
    requires |segs| > 1 && segs[0] != "**" && '/' !in segs[0] && Whole(parts) && parts != []
    requires |parts| > 1 ==> (Matches(TokensFrom(segs[1..]), Join(parts[1..], '/')) <==> Reads(segs[1..], parts[1..]))
    ensures Matches(TokensFrom(segs), Join(parts, '/')) <==> Reads(segs, parts)
  {
    hide Join, SegmentTokens, TokensFrom, Fits, Matches;
    var path := Join(parts, '/');
    SegmentEnds(segs, path);
    if k :| 0 < k <= |path| && path[k - 1] == '/' && '/' !in path[..k - 1] && Fits(segs[0], path[..k - 1])
            && Matches(TokensFrom(segs[1..]), path[k..])
    {
      FirstSlash(parts, k - 1);
    }
    if Reads(segs, parts) {
      NothingReads(segs[1..]);
      assert parts[1..] != [];
      FirstPart(parts);
      assert path[..|parts[0]| + 1 - 1] == parts[0];
    }
  }

  /** For a path with no empty component, matching a glob is reading its
      segments. */
  lemma MatchIsReading(pattern: string, path: string)
    requires Whole(Split(path, '/'))
    ensures Matches(TokensUpTo(SegmentsOf(pattern), |SegmentsOf(pattern)|), path) <==> Reads(SegmentsOf(pattern), Split(path, '/'))
  {
    hide Matches, Reads, Split, Join, TokensUpTo;
    SameTokens(SegmentsOf(pattern));
    JoinSplit(path, '/');
    ReadsAsMatched(SegmentsOf(pattern), Split(path, '/'));
  }
}
