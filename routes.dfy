/** Route templates as the `router!` macro receives them: an HTTP method, a
    sequence of `/`-separated segments, each a literal identifier or a typed
    `{name: Type}` placeholder. */
module Routes {

  /** The nine request methods the router distinguishes; equality is exact. */
  datatype Method = GET | POST | PUT | PATCH | DELETE | OPTIONS | HEAD | CONNECT | TRACE

  /** The placeholder types the model coerces captures to. */
  datatype ParamType = StringType | U32Type

  datatype Segment =
    | Literal(text: string)
    | Placeholder(name: string, ty: ParamType)

  /** The regex class `\w`, read as ASCII letters, digits and underscore. */
  predicate IsWordChar(c: char)
  {
    ('a' <= c <= 'z') || ('A' <= c <= 'Z') || ('0' <= c <= '9') || c == '_'
  }

  /** The class `[\w-]` a placeholder is matched against. */
  predicate IsRouteChar(c: char)
  {
    IsWordChar(c) || c == '-'
  }

  /** What `([\w-]+)` accepts: a non-empty run of word characters or hyphens. */
  predicate IsRouteText(s: string)
  {
    |s| > 0 && forall i :: 0 <= i < |s| ==> IsRouteChar(s[i])
  }

  /** A Rust identifier token, read in ASCII: word characters, not starting
      with a digit, and not the lone `_` (which `$p:ident` does not match). */
  predicate IsIdentifier(s: string)
  {
    && |s| > 0
    && !('0' <= s[0] <= '9')
    && s != "_"
    && IsWord(s)
  }

  /** A run of word characters. */
  predicate IsWord(s: string)
  {
    forall i :: 0 <= i < |s| ==> IsWordChar(s[i])
  }

  /** What the macro accepts as a segment: literals are identifiers (the
      `@call` arms match them with `$p:ident`), placeholders are named. */
  predicate ValidSegment(seg: Segment)
  {
    match seg
    case Literal(t) => IsIdentifier(t)
    case Placeholder(name, _) => IsIdentifier(name)
  }

  predicate ValidSegments(segs: seq<Segment>)
  {
    forall i :: 0 <= i < |segs| ==> ValidSegment(segs[i])
  }

  /** The declared placeholder types, left to right. */
  function DeclaredTypes(segs: seq<Segment>): (ts: seq<ParamType>)
    ensures |ts| <= |segs|
  {
    if segs == [] then []
    else match segs[0]
      case Literal(_) => DeclaredTypes(segs[1..])
      case Placeholder(_, ty) => [ty] + DeclaredTypes(segs[1..])
  }

  function NumPlaceholders(segs: seq<Segment>): nat
  {
    |DeclaredTypes(segs)|
  }

  /** The largest number of placeholders an `@call` arm accepts. */
  const MaxPlaceholders := 7

  /** The types the generated code parses the captures with. The seven-placeholder
      arm passes `{$id6 : $ty6 : 6}`, so its seventh capture is parsed with the
      sixth declared type; every other arity uses the declared types as they are. */
  function CallTypes(segs: seq<Segment>): (ts: seq<ParamType>)
    ensures |ts| == NumPlaceholders(segs)
    ensures forall i :: 0 <= i < |ts| && i != 6 ==> ts[i] == DeclaredTypes(segs)[i]
    ensures |ts| == 7 ==> ts[6] == DeclaredTypes(segs)[5]
    ensures |ts| != 7 ==> ts == DeclaredTypes(segs)
  {
    var decl := DeclaredTypes(segs);
    if |decl| == 7 then decl[..6] + [decl[5]] else decl
  }
}
