/** Android's `UriMatcher`, as the library uses it: registrations of
    (authority, path pattern, code), where a pattern segment `#` matches an
    all-digit segment and `*` any segment. */
module UriMatchers {
  import opened Wrappers
  import opened JavaText
  import opened Uris

  /** `UriMatcher.NO_MATCH` */
  const NO_MATCH: int := -1

  datatype Token = Exact(text: string) | Number | AnyText

  function TokenOf(s: string): Token {
    if s == "#" then Number else if s == "*" then AnyText else Exact(s)
  }

  function Tokens(segments: seq<string>): (r: seq<Token>)
    ensures |r| == |segments|
    ensures forall i :: 0 <= i < |segments| ==> r[i] == TokenOf(segments[i])
  {
    if |segments| == 0 then [] else [TokenOf(segments[0])] + Tokens(segments[1..])
  }

  predicate TokenMatches(t: Token, segment: string) {
    match t
    case Exact(text) => text == segment
    case Number => AllDigits(segment)
    case AnyText => true
  }

  /** One `addURI` call: the path is kept as given and read as a pattern when matching. */
  datatype Registration = Registration(authority: string, path: string, code: int)

  /** The pattern a registered path stands for, one token per segment. */
  function Pattern(r: Registration): seq<Token> {
    Tokens(Segments(r.path))
  }

  /** A matcher: its registrations in the order `addURI` was called. */
  datatype UriMatcher = UriMatcher(registrations: seq<Registration>)

  const EMPTY := UriMatcher([])

  /** `addURI(authority, path, code)`. */
  function AddUri(m: UriMatcher, authority: string, path: string, code: int): (r: UriMatcher)
    ensures |r.registrations| == |m.registrations| + 1
    ensures r.registrations[..|m.registrations|] == m.registrations
  {
    UriMatcher(m.registrations + [Registration(authority, path, code)])
  }

  /** A registration matches a URI with its authority whose segments match
      the pattern one for one; the scheme plays no part. */
  predicate Matches(r: Registration, u: Uri) {
    var pattern := Pattern(r);
    r.authority == u.authority && |pattern| == |u.path| &&
    forall i :: 0 <= i < |u.path| ==> TokenMatches(pattern[i], u.path[i])
  }

  /** No registration of `rs` from position `from` on matches `u`. */
  predicate NoneFrom(rs: seq<Registration>, u: Uri, from: int) {
    forall j :: 0 <= from <= j < |rs| ==> !Matches(rs[j], u)
  }

  /** The position of the last registration among `rs` that matches `u`. */
  function LastMatch(rs: seq<Registration>, u: Uri): (r: Option<nat>)
    ensures r.Some? ==> r.value < |rs| && Matches(rs[r.value], u) && NoneFrom(rs, u, r.value + 1)
    ensures r.None? ==> NoneFrom(rs, u, 0)
  {
    if |rs| == 0 then None
    else if Matches(rs[|rs| - 1], u) then Some(|rs| - 1)
    else
      var front := rs[..|rs| - 1];
      var r := LastMatch(front, u);
      assert forall j :: 0 <= j < |front| ==> front[j] == rs[j];
      r
  }

  /** The code of the last matching registration among `rs`, else NO_MATCH. */
  function MatchIn(rs: seq<Registration>, u: Uri): (code: int)
    ensures (exists i :: 0 <= i < |rs| && Matches(rs[i], u) && code == rs[i].code &&
               forall j :: i < j < |rs| ==> !Matches(rs[j], u))
         || (code == NO_MATCH && forall i :: 0 <= i < |rs| ==> !Matches(rs[i], u))
  {
    match LastMatch(rs, u)
    case Some(i) => rs[i].code
    case None => NO_MATCH
  }

  /** `match(uri)`: the code registered for the pattern the URI matches;
      registering the same pattern again overwrites the earlier code. */
  function Match(m: UriMatcher, u: Uri): int {
    MatchIn(m.registrations, u)
  }

  /** A URI matched by exactly one registration gets that registration's
      code; a URI matched by none gets NO_MATCH. */
  lemma {:induction false} MatchUnique(rs: seq<Registration>, u: Uri, k: nat)
    requires k < |rs| && Matches(rs[k], u)
    requires forall j :: 0 <= j < |rs| && j != k ==> !Matches(rs[j], u)
    ensures MatchIn(rs, u) == rs[k].code
    decreases |rs|
  {
    if k != |rs| - 1 {
      MatchUnique(rs[..|rs| - 1], u, k);
    }
  }

  lemma {:induction false} MatchNone(rs: seq<Registration>, u: Uri)
    requires forall j :: 0 <= j < |rs| ==> !Matches(rs[j], u)
    ensures MatchIn(rs, u) == NO_MATCH
  {
  }

  /** A table name the matcher takes literally: one segment, not a wildcard. */
  predicate LiteralTable(t: string) {
    IsSegment(t) && t != "#" && t != "*"
  }

  lemma TableTokens(t: string)
    requires LiteralTable(t)
    ensures Tokens(Segments(t)) == [Exact(t)]
    ensures Tokens(Segments(t + "/#")) == [Exact(t), Number]
  {
    SegmentsOfSegment(t);
    assert IsSegment("#");
    SegmentsAppend(t, "#");
    assert t + "/#" == t + "/" + "#";
    assert Segments(t + "/#") == [t, "#"];
  }

  /** Which URIs the two patterns of a table accept: `t` accepts exactly the
      collection URI, `t/#` exactly the URIs with one more all-digit segment,
      so the item URI of a non-negative id and never that of a negative id. */
  lemma TablePatterns(authority: string, t: string, u: Uri, code: int, id: Long)
    requires LiteralTable(t)
    ensures Matches(Registration(authority, t, code), u)
        <==> u.authority == authority && u.path == [t]
    ensures Matches(Registration(authority, t + "/#", code), u)
        <==> u.authority == authority && |u.path| == 2 && u.path[0] == t && AllDigits(u.path[1])
    ensures var item := WithAppendedId(ContentUri(authority, t), id);
            Matches(Registration(authority, t + "/#", code), item) <==> id >= 0
  {
    TableTokens(t);
    var item := WithAppendedId(ContentUri(authority, t), id);
    assert item.path == [t, Decimal(id)];
    if id < 0 {
      assert Decimal(id)[0] == '-';
    } else {
      assert AllDigits(NatToString(id));
    }
  }
}
