/** Globs over changed paths (derive/glob.go): compiled to tokens, and matched
    with each pair of token and position decided once. */
module Glob {
  import opened Strings

  datatype Token = Literal(b: char) | One | Within | Rest | Segments

  /** The strings a token matches. */
  predicate Takes(t: Token, s: string) {
    match t
    case Literal(b) => s == [b]
    case One => |s| == 1 && s[0] != '/'
    case Within => '/' !in s
    case Rest => true
    case Segments => s == "" || s[|s| - 1] == '/'
  }

  /** A path is a concatenation of strings the tokens match in turn. */
  ghost predicate Matches(g: seq<Token>, path: string) {
    if g == [] then path == ""
    else exists k :: 0 <= k <= |path| && Takes(g[0], path[..k]) && Matches(g[1..], path[k..])
  }

  // compile.

  function ByteToken(c: char): Token {
    if c == '*' then Within else if c == '?' then One else Literal(c)
  }

  function SegmentTokens(seg: string): seq<Token> {
    if seg == "" then [] else SegmentTokens(seg[..|seg| - 1]) + [ByteToken(seg[|seg| - 1])]
  }

  /** The tokens of one segment, and the slash after it when it is not the last. */
  function TokensAt(segs: seq<string>, i: nat): seq<Token>
    requires i < |segs|
  {
    var last := i == |segs| - 1;
    if segs[i] == "**" then [if last then Rest else Segments]
    else SegmentTokens(segs[i]) + if last then [] else [Literal('/')]
  }

  function TokensUpTo(segs: seq<string>, i: nat): seq<Token>
    requires i <= |segs|
  {
    if i == 0 then [] else TokensUpTo(segs, i - 1) + TokensAt(segs, i - 1)
  }

  /** A glob's segments, without the empty one after a trailing slash. */
  function SegmentsOf(pattern: string): (segs: seq<string>)
    ensures forall i :: 0 <= i < |segs| ==> '/' !in segs[i]
  {
    var segs := Split(pattern, '/');
    if segs[|segs| - 1] == "" then segs[..|segs| - 1] else segs
  }

  method Compile(pattern: string) returns (g: seq<Token>)
    ensures g == TokensUpTo(SegmentsOf(pattern), |SegmentsOf(pattern)|)
  {
    hide Split, TokensAt;
    var segs := Split(pattern, '/');
    if segs[|segs| - 1] == "" { segs := segs[..|segs| - 1]; }
    g := [];
    for i := 0 to |segs|
      invariant g == TokensUpTo(segs, i)
    {
      var tokens := CompileAt(segs, i);
      g := g + tokens;
    }
  }

  method CompileAt(segs: seq<string>, i: nat) returns (g: seq<Token>)
    requires i < |segs|
    ensures g == TokensAt(segs, i)
  {
    var last := i == |segs| - 1;
    if segs[i] == "**" {
      return [if last then Rest else Segments];
    }
    g := CompileSegment(segs[i]);
    if !last { g := g + [Literal('/')]; }
  }

  method CompileSegment(seg: string) returns (g: seq<Token>)
    ensures g == SegmentTokens(seg)
  {
    g := [];
    for j := 0 to |seg|
      invariant g == SegmentTokens(seg[..j])
    {
      assert seg[..j + 1][..j] == seg[..j];
      g := g + [ByteToken(seg[j])];
    }
    assert seg[..|seg|] == seg;
  }

  // match.

  datatype Seen = Unknown | No | Yes

  /** The place of a token and a position in the table. */
  function Cell(t: nat, p: nat, n: nat): nat {
    t * (n + 1) + p
  }

  lemma CellInTable(t: nat, p: nat, n: nat, size: nat)
    requires t <= size && p <= n
    ensures Cell(t, p, n) < (size + 1) * (n + 1)
  {
    assert t * (n + 1) <= size * (n + 1);
  }

  lemma CellIsOne(t: nat, p: nat, u: nat, q: nat, n: nat)
    requires p <= n && q <= n && Cell(t, p, n) == Cell(u, q, n)
    ensures t == u && p == q
  {
    NextRow(t, u, n);
    NextRow(u, t, n);
  }

  lemma NextRow(t: nat, u: nat, n: nat)
    ensures t < u ==> (t + 1) * (n + 1) <= u * (n + 1)
  {
  }

  ghost predicate IsTable(seen: seq<Seen>, g: seq<Token>, path: string) {
    && |seen| == (|g| + 1) * (|path| + 1)
    && forall t, p :: 0 <= t <= |g| && 0 <= p <= |path| ==> CellKnows(seen, g, path, t, p)
  }

  ghost predicate CellKnows(seen: seq<Seen>, g: seq<Token>, path: string, t: nat, p: nat)
    requires t <= |g| && p <= |path| && |seen| == (|g| + 1) * (|path| + 1)
  {
    CellInTable(t, p, |path|, |g|);
    var s := seen[Cell(t, p, |path|)];
    (s == Yes ==> Matches(g[t..], path[p..])) && (s == No ==> !Matches(g[t..], path[p..]))
  }

  lemma CellSet(seen: seq<Seen>, g: seq<Token>, path: string, t: nat, p: nat, s: Seen)
    requires IsTable(seen, g, path) && t <= |g| && p <= |path|
    requires s == if Matches(g[t..], path[p..]) then Yes else No
    ensures Cell(t, p, |path|) < |seen|
    ensures IsTable(seen[Cell(t, p, |path|) := s], g, path)
  {
    hide Matches, Cell;
    CellInTable(t, p, |path|, |g|);
    var now := seen[Cell(t, p, |path|) := s];
    forall u, q | 0 <= u <= |g| && 0 <= q <= |path| ensures CellKnows(now, g, path, u, q) {
      assert CellKnows(seen, g, path, u, q);
      CellInTable(u, q, |path|, |g|);
      if Cell(u, q, |path|) == Cell(t, p, |path|) { CellIsOne(u, q, t, p, |path|); }
    }
  }

  lemma CellSays(seen: seq<Seen>, g: seq<Token>, path: string, t: nat, p: nat)
    requires IsTable(seen, g, path) && t <= |g| && p <= |path|
    ensures Cell(t, p, |path|) < |seen|
    ensures seen[Cell(t, p, |path|)] == Yes ==> Matches(g[t..], path[p..])
    ensures seen[Cell(t, p, |path|)] == No ==> !Matches(g[t..], path[p..])
  {
    hide Matches, Cell;
    CellInTable(t, p, |path|, |g|);
    assert CellKnows(seen, g, path, t, p);
  }

  lemma NothingSeen(g: seq<Token>, path: string, seen: seq<Seen>)
    requires |seen| == (|g| + 1) * (|path| + 1) && forall i :: 0 <= i < |seen| ==> seen[i] == Unknown
    ensures IsTable(seen, g, path)
  {
    hide Matches, Cell;
    forall t, p | 0 <= t <= |g| && 0 <= p <= |path| ensures CellKnows(seen, g, path, t, p) {
      CellInTable(t, p, |path|, |g|);
    }
  }

  /** Whether the tokens from one on match the path from a position on, by
      where the first of them may end. */
  lemma MatchesFrom(g: seq<Token>, path: string, t: nat, p: nat)
    requires t < |g| && p <= |path|
    ensures Matches(g[t..], path[p..]) <==>
            exists q :: p <= q <= |path| && Takes(g[t], path[p..q]) && Matches(g[t + 1..], path[q..])
  {
    hide Takes;
    var rest := path[p..];
    assert g[t..][0] == g[t] && g[t..][1..] == g[t + 1..];
    if Matches(g[t..], rest) {
      var k :| 0 <= k <= |rest| && Takes(g[t..][0], rest[..k]) && Matches(g[t..][1..], rest[k..]);
      assert rest[..k] == path[p..p + k] && rest[k..] == path[p + k..];
    }
    if q :| p <= q <= |path| && Takes(g[t], path[p..q]) && Matches(g[t + 1..], path[q..]) {
      assert rest[..q - p] == path[p..q] && rest[q - p..] == path[q..];
    }
  }

  /** Whether the tokens from t on match the path from p on, the answer kept. */
  method At(g: seq<Token>, path: string, seen: array<Seen>, t: nat, p: nat) returns (ok: bool)
    requires IsTable(seen[..], g, path) && t <= |g| && p <= |path|
    modifies seen
    ensures IsTable(seen[..], g, path)
    ensures ok <==> Matches(g[t..], path[p..])
    decreases |g| - t, 1
  {
    hide Matches, IsTable, Cell;
    var n := |path|;
    if t == |g| {
      AtTheEnd(g, path, p);
      return p == n;
    }
    CellSays(seen[..], g, path, t, p);
    var k := Cell(t, p, n);
    if seen[k] != Unknown {
      return seen[k] == Yes;
    }
    ok := AtToken(g, path, seen, t, p);
    CellSet(seen[..], g, path, t, p, if ok then Yes else No);
    ghost var was := seen[..];
    seen[k] := if ok then Yes else No;
    assert seen[..] == was[k := if ok then Yes else No];
  }

  lemma AtTheEnd(g: seq<Token>, path: string, p: nat)
    requires p <= |path|
    ensures Matches(g[|g|..], path[p..]) <==> p == |path|
  {
  }

  /** The same, decided by what the token takes. */
  method AtToken(g: seq<Token>, path: string, seen: array<Seen>, t: nat, p: nat) returns (ok: bool)
    requires IsTable(seen[..], g, path) && t < |g| && p <= |path|
    modifies seen
    ensures IsTable(seen[..], g, path)
    ensures ok <==> Matches(g[t..], path[p..])
    decreases |g| - t, 0
  {
    hide Matches, IsTable;
    var n := |path|;
    MatchesFrom(g, path, t, p);
    ok := false;
    match g[t] {
      case Literal(b) =>
        OneByte(g, path, t, p);
        if p < n && path[p] == b { ok := At(g, path, seen, t + 1, p + 1); }
      case One =>
        OneByte(g, path, t, p);
        if p < n && path[p] != '/' { ok := At(g, path, seen, t + 1, p + 1); }
      case Within =>
        var q := p;
        var ended := false;
        while !ok && !ended
          invariant p <= q <= n && IsTable(seen[..], g, path)
          invariant ok ==> exists r :: p <= r <= n && '/' !in path[p..r] && Matches(g[t + 1..], path[r..])
          invariant !ok && !ended ==> '/' !in path[p..q]
          invariant !ok ==> forall r :: p <= r < q ==> !Matches(g[t + 1..], path[r..])
          invariant !ok && ended ==> !Matches(g[t + 1..], path[q..]) && (q == n || path[q] == '/')
          decreases !ok && !ended, n - q
        {
          ok := At(g, path, seen, t + 1, q);
          if q == n || path[q] == '/' {
            ended := true;
          } else if !ok {
            assert path[p..q + 1] == path[p..q] + [path[q]];
            q := q + 1;
          }
        }
        if !ok { PastASlash(path, p, q); }
      case Rest =>
        var q := p;
        while q <= n && !ok
          invariant p <= q <= n + 1 && IsTable(seen[..], g, path)
          invariant ok ==> exists r :: p <= r <= n && Takes(Rest, path[p..r]) && Matches(g[t + 1..], path[r..])
          invariant !ok ==> forall r :: p <= r < q ==> !Matches(g[t + 1..], path[r..])
        {
          ok := At(g, path, seen, t + 1, q);
          assert ok ==> Takes(Rest, path[p..q]);
          q := q + 1;
        }
      case Segments =>
        ok := At(g, path, seen, t + 1, p);
        assert path[p..p] == "";
        var q := p;
        while q < n && !ok
          invariant p <= q <= n && IsTable(seen[..], g, path)
          invariant ok ==> exists r :: p <= r <= n && Takes(Segments, path[p..r]) && Matches(g[t + 1..], path[r..])
          invariant !ok ==> !Matches(g[t + 1..], path[p..])
          invariant !ok ==> forall r :: p < r <= q && path[r - 1] == '/' ==> !Matches(g[t + 1..], path[r..])
        {
          if path[q] == '/' {
            ok := At(g, path, seen, t + 1, q + 1);
            assert ok ==> Takes(Segments, path[p..q + 1]);
          }
          q := q + 1;
        }
    }
  }

  lemma OneByte(g: seq<Token>, path: string, t: nat, p: nat)
    requires t < |g| && p <= |path| && (g[t].Literal? || g[t].One?)
    ensures (exists q :: p <= q <= |path| && Takes(g[t], path[p..q]) && Matches(g[t + 1..], path[q..])) <==>
            p < |path| && (if g[t].Literal? then path[p] == g[t].b else path[p] != '/') && Matches(g[t + 1..], path[p + 1..])
  {
    hide Matches;
    forall q | p <= q <= |path| && Takes(g[t], path[p..q]) ensures q == p + 1 {
      assert |path[p..q]| == q - p;
    }
    if p < |path| { assert path[p..p + 1] == [path[p]]; }
  }

  lemma PastASlash(path: string, p: nat, q: nat)
    requires p <= q <= |path| && (q == |path| || path[q] == '/')
    ensures forall r :: q < r <= |path| ==> '/' in path[p..r]
  {
    forall r | q < r <= |path| ensures '/' in path[p..r] {
      assert path[p..r][q - p] == '/';
    }
  }

  /** Whether a path matches a glob: whether it is a concatenation of what the
      glob's tokens match. */
  method Match(pattern: string, path: string) returns (ok: bool)
    ensures ok <==> Matches(TokensUpTo(SegmentsOf(pattern), |SegmentsOf(pattern)|), path)
  {
    hide Matches, IsTable, TokensUpTo, SegmentsOf;
    var g := Compile(pattern);
    var seen := new Seen[(|g| + 1) * (|path| + 1)](_ => Unknown);
    NothingSeen(g, path, seen[..]);
    ok := At(g, path, seen, 0, 0);
    assert g[0..] == g && path[0..] == path;
  }
}
