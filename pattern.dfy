/** The anchored regular expression the router builds for one route, and what
    that expression means when a regex engine reads it. */
module Pattern {
  import opened Wrappers
  import opened Routes

  /** The capture group text pushed for every placeholder: `([\w-]+)`. */
  const GroupText: string := "([\\w-]+)"

  function SegmentText(seg: Segment): string
  {
    match seg
    case Literal(t) => t
    case Placeholder(_, _) => GroupText
  }

  /** Every segment contributes `/` followed by its text. */
  function SegmentsText(segs: seq<Segment>): string
  {
    if segs == [] then "" else "/" + SegmentText(segs[0]) + SegmentsText(segs[1..])
  }

  /** The pattern text of a route: anchored at both ends; the route without
      segments (the home route) reads `^/$`. */
  function PatternText(segs: seq<Segment>): string
  {
    "^" + (if segs == [] then "/" else SegmentsText(segs)) + "$"
  }

  lemma {:induction false} SegmentsTextSnoc(segs: seq<Segment>, seg: Segment)
    ensures SegmentsText(segs + [seg]) == SegmentsText(segs) + "/" + SegmentText(seg)
  {
    if segs == [] {
      assert segs + [seg] == [seg];
    } else {
      assert (segs + [seg])[1..] == segs[1..] + [seg];
      SegmentsTextSnoc(segs[1..], seg);
    }
  }

  /** The pattern text after segment `i` is pushed. */
  lemma PushedSegment(segs: seq<Segment>, i: nat, before: string)
    requires i < |segs| && before == "^" + SegmentsText(segs[..i])
    ensures before + "/" + SegmentText(segs[i]) == "^" + SegmentsText(segs[..i + 1])
  {
    assert segs[..i + 1] == segs[..i] + [segs[i]];
    SegmentsTextSnoc(segs[..i], segs[i]);
  }

  /** Builds the pattern text one push at a time, as the generated code does
      on every call: `^`, then `/` and the literal or the group per segment,
      one more `/` when nothing followed the `^`, and finally `$`. */
  method BuildPattern(segs: seq<Segment>) returns (s: string)
    ensures s == PatternText(segs)
  {
    s := "^";
    for i := 0 to |segs|
      invariant s == "^" + SegmentsText(segs[..i])
    {
      ghost var before := s;
      s := s + "/";
      match segs[i] {
        case Placeholder(_, _) => s := s + GroupText;
        case Literal(t) => s := s + t;
      }
      PushedSegment(segs, i, before);
    }
    assert segs[..|segs|] == segs;
    assert |s| == 1 <==> segs == [] by {
      if segs != [] {
        assert |SegmentsText(segs)| >= 1;
      }
    }
    if |s| == 1 {
      s := s + "/";
    }
    s := s + "$";
  }

  // ---------------------------------------------------------------------------
  // The regex reading of a pattern text.

  /** The fragment of regex syntax the router's patterns use. */
  datatype Token = Start | End | Ch(c: char) | Group

  /** Characters that stand for themselves in a regex outside a class. */
  predicate IsLiteralChar(c: char)
  {
    IsWordChar(c) || c == '/' || c == '-'
  }

  function TokenText(t: Token): string
  {
    match t
    case Start => "^"
    case End => "$"
    case Ch(c) => [c]
    case Group => GroupText
  }

  function Render(toks: seq<Token>): string
  {
    if toks == [] then "" else TokenText(toks[0]) + Render(toks[1..])
  }

  /** Reads a pattern text as a sequence of tokens; `None` when the text lies
      outside the fragment above (which says nothing about whether
      `Regex::new` would accept it). */
  function ParsePattern(s: string): (r: Option<seq<Token>>)
    decreases |s|
  {
    if s == [] then Some([])
    else if |s| >= |GroupText| && s[..|GroupText|] == GroupText then
      match ParsePattern(s[|GroupText|..])
      case None => None
      case Some(rest) => Some([Group] + rest)
    else
      var t :=
        if s[0] == '^' then Some(Start)
        else if s[0] == '$' then Some(End)
        else if IsLiteralChar(s[0]) then Some(Ch(s[0]))
        else None;
      match t
      case None => None
      case Some(tok) =>
        match ParsePattern(s[1..])
        case None => None
        case Some(rest) => Some([tok] + rest)
  }

  /** Literal characters, one token each. */
  function Chars(t: string): (toks: seq<Token>)
    ensures |toks| == |t|
  {
    if t == [] then [] else [Ch(t[0])] + Chars(t[1..])
  }

  function SegmentTokens(seg: Segment): seq<Token>
  {
    match seg
    case Literal(t) => Chars(t)
    case Placeholder(_, _) => [Group]
  }

  function SegmentsTokens(segs: seq<Segment>): seq<Token>
  {
    if segs == [] then [] else [Ch('/')] + SegmentTokens(segs[0]) + SegmentsTokens(segs[1..])
  }

  /** The regex a route's pattern text denotes. */
  function PatternTokens(segs: seq<Segment>): seq<Token>
  {
    [Start] + (if segs == [] then [Ch('/')] else SegmentsTokens(segs)) + [End]
  }

  /** The tokens `toks` match a prefix of `q`, the part of the text not yet
      read, capturing `caps` (one entry per group, left to right); `atStart`
      says that nothing of the text precedes `q`. Without an `End` token the
      rest of `q` is left unread: a regex search need not reach the end. */
  ghost predicate MatchesFrom(toks: seq<Token>, q: string, atStart: bool, caps: seq<string>)
    decreases |toks|
  {
    if toks == [] then caps == []
    else match toks[0]
      case Start => atStart && MatchesFrom(toks[1..], q, atStart, caps)
      case End => q == [] && MatchesFrom(toks[1..], q, atStart, caps)
      case Ch(c) => q != [] && q[0] == c && MatchesFrom(toks[1..], q[1..], false, caps)
      case Group =>
        caps != [] && IsRouteText(caps[0]) && |caps[0]| <= |q| && q[..|caps[0]|] == caps[0]
        && MatchesFrom(toks[1..], q[|caps[0]|..], false, caps[1..])
  }

  /** `Regex::captures`: the regex matches starting somewhere in `p`, with
      these groups. */
  ghost predicate Captures(toks: seq<Token>, p: string, caps: seq<string>)
  {
    exists i :: 0 <= i <= |p| && MatchesFrom(toks, p[i..], i == 0, caps)
  }

  // ---------------------------------------------------------------------------
  // The pattern text reads back as the route's tokens.

  lemma {:induction false} RenderAppend(a: seq<Token>, b: seq<Token>)
    ensures Render(a + b) == Render(a) + Render(b)
  {
    if a == [] {
      assert a + b == b;
    } else {
      assert (a + b)[1..] == a[1..] + b;
      RenderAppend(a[1..], b);
    }
  }

  lemma {:induction false} RenderChars(t: string)
    ensures Render(Chars(t)) == t
  {
    if t != [] {
      RenderChars(t[1..]);
    }
  }

  lemma {:induction false} RenderSegments(segs: seq<Segment>)
    ensures Render(SegmentsTokens(segs)) == SegmentsText(segs)
  {
    if segs != [] {
      var seg := segs[0];
      RenderSegments(segs[1..]);
      RenderAppend([Ch('/')] + SegmentTokens(seg), SegmentsTokens(segs[1..]));
      RenderAppend([Ch('/')], SegmentTokens(seg));
      match seg {
        case Literal(t) => RenderChars(t);
        case Placeholder(_, _) =>
      }
    }
  }

  /** The pattern text is the rendering of the route's tokens. */
  lemma PatternTextRenders(segs: seq<Segment>)
    ensures PatternText(segs) == Render(PatternTokens(segs))
  {
    var body := if segs == [] then [Ch('/')] else SegmentsTokens(segs);
    RenderAppend([Start] + body, [End]);
    RenderAppend([Start], body);
    if segs != [] {
      RenderSegments(segs);
    }
  }

  /** Tokens whose literal characters stay inside the fragment. */
  predicate PlainTokens(toks: seq<Token>)
  {
    forall i :: 0 <= i < |toks| ==> (toks[i].Ch? ==> IsLiteralChar(toks[i].c))
  }

  lemma {:induction false} ParseRender(toks: seq<Token>)
    requires PlainTokens(toks)
    ensures ParsePattern(Render(toks)) == Some(toks)
  {
    if toks != [] {
      var s := Render(toks);
      var rest := Render(toks[1..]);
      assert PlainTokens(toks[1..]) by {
        forall i | 0 <= i < |toks[1..]| ensures toks[1..][i].Ch? ==> IsLiteralChar(toks[1..][i].c) {
          assert toks[1..][i] == toks[i + 1];
        }
      }
      ParseRender(toks[1..]);
      assert s == TokenText(toks[0]) + rest;
      assert GroupText[0] == '(';
      assert toks == [toks[0]] + toks[1..];
      if toks[0].Group? {
        assert s[..|GroupText|] == GroupText;
        assert s[|GroupText|..] == rest;
        assert ParsePattern(s) == Some([Group] + toks[1..]);
      } else {
        assert s[0] != '(' && s[1..] == rest;
        assert |s| >= |GroupText| ==> s[..|GroupText|][0] != GroupText[0];
        assert toks == [toks[0]] + toks[1..];
        assert toks[0].Ch? ==> IsLiteralChar(toks[0].c);
      }
    }
  }

  lemma {:induction false} CharsPlain(t: string)
    requires t != [] && IsWord(t)
    ensures PlainTokens(Chars(t))
  {
    if |t| > 1 {
      CharsPlain(t[1..]);
    }
  }

  lemma {:induction false} SegmentsPlain(segs: seq<Segment>)
    requires ValidSegments(segs)
    ensures PlainTokens(SegmentsTokens(segs))
  {
    if segs != [] {
      assert ValidSegment(segs[0]);
      SegmentsPlain(segs[1..]);
      match segs[0] {
        case Literal(t) => CharsPlain(t);
        case Placeholder(_, _) =>
      }
    }
  }

  /** The text the router builds for a valid route is a pattern of the
      modelled fragment that denotes exactly that route's tokens. */
  lemma ParsePatternText(segs: seq<Segment>)
    requires ValidSegments(segs)
    ensures ParsePattern(PatternText(segs)) == Some(PatternTokens(segs))
  {
    PatternTextRenders(segs);
    if segs != [] {
      SegmentsPlain(segs);
    }
    ParseRender(PatternTokens(segs));
  }
}
