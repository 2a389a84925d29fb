/** The direct segment matcher that stands in for running the compiled regex:
    split the path on `/`, compare literals verbatim, accept a non-empty run of
    `[\w-]` for each placeholder, and collect those runs in order. */
module Matcher {
  import opened Wrappers
  import opened Routes
  import opened Pattern

  // ---------------------------------------------------------------------------
  // Splitting a path on `/`.

  predicate NoSlash(s: string)
  {
    forall i :: 0 <= i < |s| ==> s[i] != '/'
  }

  /** Index of the first `/` in `s`, or `|s|` when there is none. */
  function SlashIndex(s: string): (k: nat)
    ensures k <= |s|
    ensures forall j :: 0 <= j < k ==> s[j] != '/'
    ensures k < |s| ==> s[k] == '/'
  {
    if s == [] then 0 else if s[0] == '/' then 0 else 1 + SlashIndex(s[1..])
  }

  /** `str::split('/')`: always at least one piece; empty pieces are kept. */
  function Split(s: string): (parts: seq<string>)
    ensures |parts| >= 1
    decreases |s|
  {
    var k := SlashIndex(s);
    if k == |s| then [s] else [s[..k]] + Split(s[k + 1..])
  }

  function Join(parts: seq<string>): string
    requires |parts| >= 1
  {
    if |parts| == 1 then parts[0] else parts[0] + "/" + Join(parts[1..])
  }

  /** Splitting loses nothing, and no piece contains the separator. */
  lemma {:induction false} SplitJoin(s: string)
    ensures Join(Split(s)) == s
    ensures forall i :: 0 <= i < |Split(s)| ==> NoSlash(Split(s)[i])
    decreases |s|
  {
    var k := SlashIndex(s);
    if k < |s| {
      SplitJoin(s[k + 1..]);
      assert s == s[..k] + "/" + s[k + 1..];
      var parts := Split(s);
      assert parts == [s[..k]] + Split(s[k + 1..]);
      forall i | 0 <= i < |parts| ensures NoSlash(parts[i]) {
        if i > 0 {
          assert parts[i] == Split(s[k + 1..])[i - 1];
        }
      }
    }
  }

  lemma SlashIndexAfterPiece(a: string, b: string)
    requires NoSlash(a)
    ensures SlashIndex(a + "/" + b) == |a|
    ensures SlashIndex(a) == |a|
  {
    var s := a + "/" + b;
    assert s[|a|] == '/';
    assert forall j :: 0 <= j < |a| ==> s[j] == a[j];
  }

  /** Joining pieces free of `/` and splitting again gives the pieces back. */
  lemma {:induction false} JoinSplit(parts: seq<string>)
    requires |parts| >= 1
    requires forall i :: 0 <= i < |parts| ==> NoSlash(parts[i])
    ensures Split(Join(parts)) == parts
  {
    if |parts| == 1 {
      SlashIndexAfterPiece(parts[0], "");
    } else {
      var a, b := parts[0], Join(parts[1..]);
      var s := a + "/" + b;
      SlashIndexAfterPiece(a, b);
      assert s[..|a|] == a;
      assert s[|a| + 1..] == b;
      JoinSplit(parts[1..]);
      assert parts == [a] + parts[1..];
    }
  }

  // ---------------------------------------------------------------------------
  // Matching the pieces against the segments.

  predicate Accepts(seg: Segment, piece: string)
  {
    match seg
    case Literal(t) => piece == t
    case Placeholder(_, _) => IsRouteText(piece)
  }

  predicate AllRouteText(caps: seq<string>)
  {
    forall i :: 0 <= i < |caps| ==> IsRouteText(caps[i])
  }

  /** Captures a route can produce: one route text per placeholder. */
  predicate FitsRoute(segs: seq<Segment>, caps: seq<string>)
  {
    |caps| == NumPlaceholders(segs) && AllRouteText(caps)
  }

  function MatchPieces(segs: seq<Segment>, pieces: seq<string>): (r: Option<seq<string>>)
    ensures r.Some? ==> FitsRoute(segs, r.value)
  {
    if |segs| != |pieces| then None
    else if segs == [] then Some([])
    else if !Accepts(segs[0], pieces[0]) then None
    else match MatchPieces(segs[1..], pieces[1..])
      case None => None
      case Some(rest) =>
        if segs[0].Placeholder? then Some([pieces[0]] + rest) else Some(rest)
  }

  /** Matches `path` against a route's segments; on success, the captured
      placeholder texts in template order. A route without segments matches
      exactly `/`. */
  function MatchSegments(segs: seq<Segment>, path: string): (r: Option<seq<string>>)
    ensures r.Some? ==> FitsRoute(segs, r.value)
  {
    if segs == [] then (if path == "/" then Some([]) else None)
    else if path == [] || path[0] != '/' then None
    else MatchPieces(segs, Split(path[1..]))
  }

  // ---------------------------------------------------------------------------
  // Reverse routing: the path a route produces for given captures.

  /** The pieces a route's path is made of, captures filled in. */
  function Pieces(segs: seq<Segment>, caps: seq<string>): (ps: seq<string>)
    requires |caps| == NumPlaceholders(segs)
    ensures |ps| == |segs|
  {
    if segs == [] then []
    else match segs[0]
      case Literal(t) => [t] + Pieces(segs[1..], caps)
      case Placeholder(_, _) => [caps[0]] + Pieces(segs[1..], caps[1..])
  }

  /** `/` followed by each piece, segment by segment. */
  function Fill(segs: seq<Segment>, caps: seq<string>): string
    requires |caps| == NumPlaceholders(segs)
  {
    if segs == [] then ""
    else match segs[0]
      case Literal(t) => "/" + t + Fill(segs[1..], caps)
      case Placeholder(_, _) => "/" + caps[0] + Fill(segs[1..], caps[1..])
  }

  /** The path a route answers for the given captures. */
  function Instantiate(segs: seq<Segment>, caps: seq<string>): string
    requires |caps| == NumPlaceholders(segs)
  {
    if segs == [] then "/" else Fill(segs, caps)
  }

  lemma {:induction false} FillJoin(segs: seq<Segment>, caps: seq<string>)
    requires segs != [] && |caps| == NumPlaceholders(segs)
    ensures Fill(segs, caps) == "/" + Join(Pieces(segs, caps))
  {
    var rest := segs[1..];
    match segs[0] {
      case Literal(t) =>
        if rest != [] {
          FillJoin(rest, caps);
        }
      case Placeholder(_, _) =>
        if rest != [] {
          FillJoin(rest, caps[1..]);
        }
    }
  }

  lemma {:induction false} PiecesNoSlash(segs: seq<Segment>, caps: seq<string>)
    requires ValidSegments(segs) && FitsRoute(segs, caps)
    ensures forall i :: 0 <= i < |segs| ==> NoSlash(Pieces(segs, caps)[i])
  {
    if segs != [] {
      assert ValidSegment(segs[0]);
      var caps' := if segs[0].Placeholder? then caps[1..] else caps;
      assert FitsRoute(segs[1..], caps') by {
        if segs[0].Placeholder? {
          forall i | 0 <= i < |caps'| ensures IsRouteText(caps'[i]) {
            assert caps'[i] == caps[i + 1];
          }
        }
      }
      PiecesNoSlash(segs[1..], caps');
      var ps := Pieces(segs, caps);
      forall i | 0 <= i < |segs| ensures NoSlash(ps[i]) {
        if i == 0 {
          if segs[0].Placeholder? {
            assert IsRouteText(caps[0]);
          }
        } else {
          assert ps[i] == Pieces(segs[1..], caps')[i - 1];
        }
      }
    }
  }

  lemma {:induction false} MatchPiecesIff(segs: seq<Segment>, pieces: seq<string>, caps: seq<string>)
    ensures MatchPieces(segs, pieces) == Some(caps)
        <==> FitsRoute(segs, caps) && pieces == Pieces(segs, caps)
  {
    if segs != [] && |segs| == |pieces| {
      var ph := segs[0].Placeholder?;
      if ph && caps != [] {
        MatchPiecesIff(segs[1..], pieces[1..], caps[1..]);
        if FitsRoute(segs, caps) {
          assert FitsRoute(segs[1..], caps[1..]) by {
            forall i | 0 <= i < |caps[1..]| ensures IsRouteText(caps[1..][i]) {
              assert caps[1..][i] == caps[i + 1];
            }
          }
        }
        if FitsRoute(segs[1..], caps[1..]) && IsRouteText(caps[0]) {
          assert FitsRoute(segs, caps) by {
            forall i | 0 <= i < |caps| ensures IsRouteText(caps[i]) {
              if i > 0 { assert caps[i] == caps[1..][i - 1]; }
            }
          }
        }
        assert caps == [caps[0]] + caps[1..];
        assert pieces == [pieces[0]] + pieces[1..];
      } else if !ph {
        MatchPiecesIff(segs[1..], pieces[1..], caps);
        assert pieces == [pieces[0]] + pieces[1..];
      }
    }
  }

  /** Reverse routing and matching are inverse: a route matches `path` with
      captures `caps` exactly when `caps` are route texts, one per placeholder,
      and `path` is the route's path with them filled in. */
  lemma MatchSegmentsIff(segs: seq<Segment>, path: string, caps: seq<string>)
    requires ValidSegments(segs)
    ensures MatchSegments(segs, path) == Some(caps)
        <==> FitsRoute(segs, caps) && path == Instantiate(segs, caps)
  {
    if segs != [] {
      if MatchSegments(segs, path) == Some(caps) {
        var parts := Split(path[1..]);
        MatchPiecesIff(segs, parts, caps);
        SplitJoin(path[1..]);
        FillJoin(segs, caps);
        assert path == "/" + path[1..];
      }
      if FitsRoute(segs, caps) && path == Instantiate(segs, caps) {
        var ps := Pieces(segs, caps);
        FillJoin(segs, caps);
        PiecesNoSlash(segs, caps);
        JoinSplit(ps);
        assert path[1..] == Join(ps);
        MatchPiecesIff(segs, ps, caps);
      }
    }
  }

  // ---------------------------------------------------------------------------
  // Agreement with the regex reading of the pattern text.

  /** One literal character consumes itself from the unread text. */
  lemma CharStep(c: char, rest: seq<Token>, q: string, atStart: bool, caps: seq<string>)
    ensures MatchesFrom([Ch(c)] + rest, q, atStart, caps)
        <==> q != [] && q[0] == c && MatchesFrom(rest, q[1..], false, caps)
  {
    assert ([Ch(c)] + rest)[0] == Ch(c) && ([Ch(c)] + rest)[1..] == rest;
  }

  /** `t` is a prefix of `q`, read one character at a time. */
  lemma PrefixCons(q: string, t: string)
    requires t != []
    ensures (|t| <= |q| && q[..|t|] == t)
        <==> q != [] && q[0] == t[0] && |t| - 1 <= |q| - 1 && q[1..][..|t| - 1] == t[1..]
  {
    if q != [] && |t| <= |q| {
      assert q[..|t|] == [q[0]] + q[1..][..|t| - 1];
      assert t == [t[0]] + t[1..];
    }
  }

  lemma {:induction false} CharsMatch(t: string, rest: seq<Token>, q: string, atStart: bool, caps: seq<string>)
    ensures MatchesFrom(Chars(t) + rest, q, atStart, caps)
        <==> |t| <= |q| && q[..|t|] == t && MatchesFrom(rest, q[|t|..], atStart && t == [], caps)
  {
    if t == [] {
      assert Chars(t) + rest == rest;
    } else {
      assert Chars(t) + rest == [Ch(t[0])] + (Chars(t[1..]) + rest);
      CharStep(t[0], Chars(t[1..]) + rest, q, atStart, caps);
      PrefixCons(q, t);
      if q != [] {
        CharsMatch(t[1..], rest, q[1..], false, caps);
        if |t| <= |q| {
          assert q[1..][|t| - 1..] == q[|t|..];
        }
      }
    }
  }

  lemma PrefixSplit(q: string, w: string, f: string)
    ensures q == w + f <==> |w| <= |q| && q[..|w|] == w && q[|w|..] == f
  {
    if |w| <= |q| && q[..|w|] == w && q[|w|..] == f {
      assert q == q[..|w|] + q[|w|..];
    }
  }

  lemma SlashThen(t: string, rest: seq<Token>)
    ensures [Ch('/')] + Chars(t) + rest == Chars("/" + t) + rest
  {
    var w := "/" + t;
    assert w[0] == '/' && w[1..] == t;
    assert Chars(w) == [Ch('/')] + Chars(t);
  }

  lemma LiteralSegmentMatch(segs: seq<Segment>, q: string, atStart: bool, caps: seq<string>)
    requires segs != [] && segs[0].Literal?
    requires var w := "/" + segs[0].text;
      |w| <= |q| ==>
        (MatchesFrom(SegmentsTokens(segs[1..]) + [End], q[|w|..], false, caps)
         <==> FitsRoute(segs[1..], caps) && q[|w|..] == Fill(segs[1..], caps))
    ensures MatchesFrom(SegmentsTokens(segs) + [End], q, atStart, caps)
        <==> FitsRoute(segs, caps) && q == Fill(segs, caps)
  {
    var t := segs[0].text;
    var w := "/" + t;
    var tail := SegmentsTokens(segs[1..]) + [End];
    SlashThen(t, SegmentsTokens(segs[1..]));
    assert SegmentsTokens(segs) + [End] == Chars(w) + tail;
    CharsMatch(w, tail, q, atStart, caps);
    assert NumPlaceholders(segs) == NumPlaceholders(segs[1..]);
    if |caps| == NumPlaceholders(segs) {
      assert Fill(segs, caps) == w + Fill(segs[1..], caps);
      PrefixSplit(q, w, Fill(segs[1..], caps));
    }
  }

  /** One group token consumes the first capture from the unread text. */
  lemma GroupStep(tail: seq<Token>, r: string, caps: seq<string>)
    ensures MatchesFrom([Group] + tail, r, false, caps)
        <==> caps != [] && IsRouteText(caps[0]) && |caps[0]| <= |r| && r[..|caps[0]|] == caps[0]
             && MatchesFrom(tail, r[|caps[0]|..], false, caps[1..])
  {
    assert ([Group] + tail)[0] == Group && ([Group] + tail)[1..] == tail;
  }

  /** A route starting with a placeholder: its captures and its path, unfolded
      by one segment. */
  lemma PlaceholderFill(segs: seq<Segment>, caps: seq<string>)
    requires segs != [] && segs[0].Placeholder?
    ensures NumPlaceholders(segs) == 1 + NumPlaceholders(segs[1..])
    ensures FitsRoute(segs, caps)
        <==> caps != [] && IsRouteText(caps[0]) && FitsRoute(segs[1..], caps[1..])
    ensures FitsRoute(segs, caps) ==> Fill(segs, caps) == "/" + (caps[0] + Fill(segs[1..], caps[1..]))
  {
    if caps != [] && IsRouteText(caps[0]) && FitsRoute(segs[1..], caps[1..]) {
      forall k | 0 <= k < |caps| ensures IsRouteText(caps[k]) {
        if k > 0 { assert caps[k] == caps[1..][k - 1]; }
      }
    }
    if FitsRoute(segs, caps) {
      forall k | 0 <= k < |caps[1..]| ensures IsRouteText(caps[1..][k]) {
        assert caps[1..][k] == caps[k + 1];
      }
    }
  }

  /** A route starting with a literal: its captures all belong to the rest, and
      its path is `/`, the literal, then the rest's path. */
  lemma LiteralFill(segs: seq<Segment>, caps: seq<string>)
    requires segs != [] && segs[0].Literal? && FitsRoute(segs, caps)
    ensures FitsRoute(segs[1..], caps)
    ensures Fill(segs, caps) == "/" + (segs[0].text + Fill(segs[1..], caps))
  {
  }

  /** `q` is `/`, then `c`, then `f`, read off from the front. */
  lemma SlashPieceSplit(q: string, c: string, f: string)
    ensures q == "/" + (c + f)
        <==> |q| >= 1 && q[..1] == "/" && |c| <= |q[1..]| && q[1..][..|c|] == c && q[1..][|c|..] == f
  {
    PrefixSplit(q, "/", c + f);
    if |q| >= 1 {
      PrefixSplit(q[1..], c, f);
    }
  }

  lemma PlaceholderSegmentMatch(segs: seq<Segment>, q: string, atStart: bool, caps: seq<string>)
    requires segs != [] && segs[0].Placeholder?
    requires caps != [] && 1 + |caps[0]| <= |q| ==>
        (MatchesFrom(SegmentsTokens(segs[1..]) + [End], q[1 + |caps[0]|..], false, caps[1..])
         <==> FitsRoute(segs[1..], caps[1..]) && q[1 + |caps[0]|..] == Fill(segs[1..], caps[1..]))
    ensures MatchesFrom(SegmentsTokens(segs) + [End], q, atStart, caps)
        <==> FitsRoute(segs, caps) && q == Fill(segs, caps)
  {
    var tail := SegmentsTokens(segs[1..]) + [End];
    var gtail := [Group] + tail;
    SlashThen("", gtail);
    assert SegmentsTokens(segs) + [End] == Chars("/") + gtail;
    CharsMatch("/", gtail, q, atStart, caps);
    PlaceholderFill(segs, caps);
    if |q| >= 1 {
      var r := q[1..];
      GroupStep(tail, r, caps);
      if caps != [] {
        var c := caps[0];
        if |c| <= |r| {
          assert r[|c|..] == q[1 + |c|..];
        }
        if |caps| == NumPlaceholders(segs) {
          SlashPieceSplit(q, c, Fill(segs[1..], caps[1..]));
        }
      }
    }
  }

  /** The tokens of a route's segments, followed by the end anchor, match the
      unread text `q` exactly when `q` is the route's path with `caps` filled in. */
  lemma {:induction false} SegmentsMatch(segs: seq<Segment>, q: string, atStart: bool, caps: seq<string>)
    ensures MatchesFrom(SegmentsTokens(segs) + [End], q, atStart, caps)
        <==> FitsRoute(segs, caps) && q == Fill(segs, caps)
  {
    if segs == [] {
      assert SegmentsTokens(segs) + [End] == [End];
      assert MatchesFrom([End][1..], q, atStart, caps) <==> caps == [];
    } else if segs[0].Literal? {
      var n := 1 + |segs[0].text|;
      if n <= |q| {
        SegmentsMatch(segs[1..], q[n..], false, caps);
      }
      LiteralSegmentMatch(segs, q, atStart, caps);
    } else {
      if caps != [] && 1 + |caps[0]| <= |q| {
        SegmentsMatch(segs[1..], q[1 + |caps[0]|..], false, caps[1..]);
      }
      PlaceholderSegmentMatch(segs, q, atStart, caps);
    }
  }

  lemma StartAnchored(rest: seq<Token>, q: string, atStart: bool, caps: seq<string>)
    ensures MatchesFrom([Start] + rest, q, atStart, caps) <==> atStart && MatchesFrom(rest, q, atStart, caps)
  {
    assert ([Start] + rest)[0] == Start && ([Start] + rest)[1..] == rest;
  }

  /** The segment matcher agrees with the anchored regex the router builds:
      for every path, the regex `PatternTokens(segs)` captures `caps` in the
      path exactly when the segment matcher answers `Some(caps)`. In particular
      the regex has at most one match, and it spans the whole path. */
  lemma MatchAgreesWithPattern(segs: seq<Segment>, path: string, caps: seq<string>)
    requires ValidSegments(segs)
    ensures Captures(PatternTokens(segs), path, caps) <==> MatchSegments(segs, path) == Some(caps)
  {
    var body := if segs == [] then [Ch('/')] else SegmentsTokens(segs);
    var toks := PatternTokens(segs);
    assert toks == [Start] + (body + [End]);
    StartAnchored(body + [End], path, true, caps);
    assert path[0..] == path;
    if segs == [] {
      var t := body + [End];
      assert t[0] == Ch('/') && t[1..] == [End];
      if path != [] && path[0] == '/' {
        assert MatchesFrom(t[1..], path[1..], false, caps) <==> path[1..] == [] && caps == [];
        assert path[1..] == [] ==> path == "/";
      }
    } else {
      SegmentsMatch(segs, path, true, caps);
      MatchSegmentsIff(segs, path, caps);
    }
    if Captures(toks, path, caps) {
      var i :| 0 <= i <= |path| && MatchesFrom(toks, path[i..], i == 0, caps);
      StartAnchored(body + [End], path[i..], i == 0, caps);
    }
    if MatchSegments(segs, path) == Some(caps) {
      assert MatchesFrom(toks, path[0..], true, caps);
    }
  }

  // ---------------------------------------------------------------------------
  // Anchoring: the whole path must match, no more and no fewer segments.

  /** The route without segments matches the path `/` and nothing else. */
  lemma RootMatchesOnlySlash(path: string, caps: seq<string>)
    ensures Captures(PatternTokens([]), path, caps) <==> path == "/" && caps == []
  {
    MatchAgreesWithPattern([], path, caps);
  }

  /** The path `/` + the pieces joined by `/` splits back into those pieces. */
  lemma SplitPieces(pieces: seq<string>, path: string)
    requires |pieces| >= 1 && forall i :: 0 <= i < |pieces| ==> NoSlash(pieces[i])
    requires path == "/" + Join(pieces)
    ensures path[0] == '/' && Split(path[1..]) == pieces
  {
    JoinSplit(pieces);
    assert path[1..] == Join(pieces);
  }

  function CountSlash(s: string): nat
  {
    if s == [] then 0 else (if s[0] == '/' then 1 else 0) + CountSlash(s[1..])
  }

  lemma {:induction false} CountSlashAppend(a: string, b: string)
    ensures CountSlash(a + b) == CountSlash(a) + CountSlash(b)
  {
    if a == [] {
      assert a + b == b;
    } else {
      assert (a + b)[1..] == a[1..] + b;
      CountSlashAppend(a[1..], b);
    }
  }

  lemma {:induction false} CountNoSlash(s: string)
    requires NoSlash(s)
    ensures CountSlash(s) == 0
  {
    if s != [] {
      CountNoSlash(s[1..]);
    }
  }

  lemma IdentifierNoSlash(t: string)
    requires IsIdentifier(t)
    ensures t != [] && NoSlash(t)
  {
    assert forall i :: 0 <= i < |t| ==> IsWordChar(t[i]);
  }

  lemma ValidTail(segs: seq<Segment>)
    requires segs != [] && ValidSegments(segs)
    ensures ValidSegment(segs[0]) && ValidSegments(segs[1..])
  {
    assert forall i :: 0 <= i < |segs[1..]| ==> segs[1..][i] == segs[i + 1];
  }

  /** `/` followed by a piece without `/` adds one `/` and at least two characters. */
  lemma SlashPiece(piece: string, rest: string)
    requires NoSlash(piece) && piece != []
    ensures CountSlash("/" + (piece + rest)) == 1 + CountSlash(rest)
    ensures |"/" + (piece + rest)| >= 2 + |rest|
  {
    CountSlashAppend("/", piece + rest);
    CountSlashAppend(piece, rest);
    CountNoSlash(piece);
  }

  /** A route's filled-in path has one `/` per segment, and each segment
      contributes at least one character after its `/`. */
  lemma {:induction false} FillShape(segs: seq<Segment>, caps: seq<string>)
    requires ValidSegments(segs) && FitsRoute(segs, caps)
    ensures CountSlash(Fill(segs, caps)) == |segs|
    ensures |Fill(segs, caps)| >= 2 * |segs|
  {
    if segs != [] {
      ValidTail(segs);
      match segs[0]
      case Literal(t) =>
        LiteralFill(segs, caps);
        FillShape(segs[1..], caps);
        IdentifierNoSlash(t);
        SlashPiece(t, Fill(segs[1..], caps));
      case Placeholder(_, _) =>
        PlaceholderFill(segs, caps);
        FillShape(segs[1..], caps[1..]);
        SlashPiece(caps[0], Fill(segs[1..], caps[1..]));
    }
  }

  /** A path with an extra segment after a matching path does not match. */
  lemma ExtraSegmentRejected(segs: seq<Segment>, path: string, extra: string)
    requires ValidSegments(segs)
    requires MatchSegments(segs, path).Some?
    ensures MatchSegments(segs, path + "/" + extra).None?
  {
    var longer := path + "/" + extra;
    if segs != [] {
      var caps := MatchSegments(segs, path).value;
      MatchSegmentsIff(segs, path, caps);
      FillShape(segs, caps);
      assert path == Fill(segs, caps);
      assert longer == path + ("/" + extra);
      CountSlashAppend(path, "/" + extra);
      CountSlashAppend("/", extra);
      assert CountSlash("/") == 1;
      if MatchSegments(segs, longer).Some? {
        var caps' := MatchSegments(segs, longer).value;
        MatchSegmentsIff(segs, longer, caps');
        FillShape(segs, caps');
      }
    }
  }

  /** A path that matches a route does not match the same route extended by
      further segments. */
  lemma MissingSegmentRejected(segs: seq<Segment>, more: seq<Segment>, path: string)
    requires ValidSegments(segs + more) && more != []
    requires MatchSegments(segs, path).Some?
    ensures MatchSegments(segs + more, path).None?
  {
    var all := segs + more;
    assert ValidSegments(segs) by {
      forall i | 0 <= i < |segs| ensures ValidSegment(segs[i]) {
        assert segs[i] == all[i];
      }
    }
    var caps := MatchSegments(segs, path).value;
    MatchSegmentsIff(segs, path, caps);
    if MatchSegments(all, path).Some? {
      var caps' := MatchSegments(all, path).value;
      MatchSegmentsIff(all, path, caps');
      FillShape(all, caps');
      if segs != [] {
        FillShape(segs, caps);
      }
    }
  }

  /** Two routes a path matches have the same number of segments: the end
      anchor and the `/` per segment fix the segment count. */
  lemma SegmentCountDetermined(segs: seq<Segment>, other: seq<Segment>, path: string)
    requires ValidSegments(segs) && ValidSegments(other)
    requires MatchSegments(segs, path).Some? && MatchSegments(other, path).Some?
    ensures |segs| == |other|
  {
    var caps, caps' := MatchSegments(segs, path).value, MatchSegments(other, path).value;
    MatchSegmentsIff(segs, path, caps);
    MatchSegmentsIff(other, path, caps');
    FillShape(segs, caps);
    FillShape(other, caps');
  }
}
