/** Content URIs as (scheme, authority, path segments), with the two ways the
    library builds them: parsing `"content://" + authority + "/" + path`, and
    `ContentUris.withAppendedId`. */
module Uris {
  import opened Wrappers
  import opened JavaText

  /** `scheme://authority/seg1/seg2/...` */
  datatype Uri = Uri(scheme: string, authority: string, path: seq<string>)

  /** The non-empty strings of `ps`, in order. */
  function NonEmpty(ps: seq<string>): (r: seq<string>)
    ensures forall i :: 0 <= i < |r| ==> |r[i]| > 0
    ensures |r| <= |ps|
  {
    if |ps| == 0 then []
    else (if |ps[0]| > 0 then [ps[0]] else []) + NonEmpty(ps[1..])
  }

  /** `Uri.getPathSegments()`: the '/'-separated pieces of the path, empty ones dropped. */
  function Segments(path: string): seq<string> {
    NonEmpty(Split(path, '/'))
  }

  /** A string that is exactly one path segment. */
  predicate IsSegment(s: string) {
    |s| > 0 && forall i :: 0 <= i < |s| ==> s[i] != '/'
  }

  lemma {:induction false} NonEmptyAppend(p: seq<string>, q: seq<string>)
    ensures NonEmpty(p + q) == NonEmpty(p) + NonEmpty(q)
  {
    if |p| == 0 {
      assert p + q == q;
    } else {
      assert (p + q)[1..] == p[1..] + q;
      NonEmptyAppend(p[1..], q);
    }
  }

  /** A single segment parses to itself alone. */
  lemma SegmentsOfSegment(s: string)
    requires IsSegment(s)
    ensures Segments(s) == [s]
  {
    SplitOfPiece(s, '/');
  }

  /** Appending "/" and one more segment to a path appends that segment. */
  lemma SegmentsAppend(t: string, d: string)
    requires IsSegment(d)
    ensures Segments(t + "/" + d) == Segments(t) + [d]
  {
    SplitAround(t, d, '/');
    SplitOfPiece(d, '/');
    NonEmptyAppend(Split(t, '/'), Split(d, '/'));
  }

  /** `Uri.parse("content://" + authority + "/" + path)`, for an authority
      without '/', '?' or '#' and a path without '?', '#' or '%'. */
  function ContentUri(authority: string, path: string): (u: Uri)
    ensures u.scheme == "content" && u.authority == authority
    ensures IsSegment(path) ==> u.path == [path]
  {
    if IsSegment(path) then SegmentsOfSegment(path); Uri("content", authority, Segments(path))
    else Uri("content", authority, Segments(path))
  }

  /** `ContentUris.withAppendedId(u, id)`: the id's decimal text as one more segment. */
  function WithAppendedId(u: Uri, id: Long): Uri {
    u.(path := u.path + [Decimal(id)])
  }

  /** `Uri.getLastPathSegment()`: null for an empty path. */
  function LastPathSegment(u: Uri): Option<string> {
    if |u.path| == 0 then None else Some(u.path[|u.path| - 1])
  }

  /** The path in text form: "/" before every segment. */
  function PathText(p: seq<string>): string {
    if |p| == 0 then "" else "/" + p[0] + PathText(p[1..])
  }

  /** The text form of a URI. */
  function Text(u: Uri): string {
    u.scheme + "://" + u.authority + PathText(u.path)
  }

  /** Parsing the id-suffixed text and appending the id to the parsed
      collection URI give the same URI, whatever the path. */
  lemma ParsedItemUri(authority: string, path: string, id: Long)
    ensures ContentUri(authority, path + "/" + Decimal(id)) == WithAppendedId(ContentUri(authority, path), id)
  {
    DecimalIsSegment(id);
    SegmentsAppend(path, Decimal(id));
  }

  /** For a one-segment table name, the collection URI reads back as
      `"content://" + authority + "/" + table`. */
  lemma ContentUriText(authority: string, table: string)
    requires IsSegment(table)
    ensures Text(ContentUri(authority, table)) == "content://" + authority + "/" + table
  {
    var u := ContentUri(authority, table);
    assert u.path == [table];
    assert PathText([table]) == "/" + table + PathText([]);
  }

  /** The item URI of a one-segment table reads back as the collection URI
      followed by `"/" + id`. */
  lemma ItemUriText(authority: string, table: string, id: Long)
    requires IsSegment(table)
    ensures Text(WithAppendedId(ContentUri(authority, table), id))
         == "content://" + authority + "/" + table + "/" + Decimal(id)
  {
    var u := ContentUri(authority, table);
    assert u.path == [table];
    var w := WithAppendedId(u, id);
    var d := Decimal(id);
    assert w.path == [table, d];
    assert [table, d][1..] == [d];
    assert PathText([d]) == "/" + d;
    assert PathText([table, d]) == "/" + table + "/" + d;
  }

  /** The last segment of an item URI parses back to its id. */
  lemma ItemUriId(u: Uri, id: Long)
    ensures LastPathSegment(WithAppendedId(u, id)) == Some(Decimal(id))
    ensures ParseLong(LastPathSegment(WithAppendedId(u, id)).value) == Ok(id)
  {
    ParseDecimal(id);
  }
}
