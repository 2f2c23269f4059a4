/** An HTTP response as the client keeps it: the status code and raw body
    exactly as received, the header block parsed into a name-to-value array,
    and the decoded JSON body. The JSON decoder is a parameter. */
module Response {
  import opened Wrappers
  import opened Text
  import opened PhpArray
  import opened Json

  type Headers = PhpArray.Array<string>

  datatype HttpResponse = HttpResponse(statusCode: int, headers: Headers, rawBody: string, json: Option<Body>)

  /** Drops one trailing carriage return: exactly when the text ends with
      one, it is the result followed by that carriage return. */
  function DropCR(s: string): (r: string)
    ensures |s| > 0 && s[|s| - 1] == '\r' ==> s == r + "\r"
    ensures !(|s| > 0 && s[|s| - 1] == '\r') ==> r == s
  {
    if |s| > 0 && s[|s| - 1] == '\r' then s[..|s| - 1] else s
  }

  /** `preg_split('/(\r\n)|\n/', s)`: the pieces between line feeds, where a
      carriage return right before a line feed belongs to the separator. */
  function SplitLines(s: string): (lines: seq<string>)
    ensures |lines| == |Split(s, '\n')|
    ensures forall i :: 0 <= i < |lines| ==> '\n' !in lines[i]
    ensures forall i :: 0 <= i < |lines| - 1 ==>
              var p := Split(s, '\n')[i];
              (|p| > 0 && p[|p| - 1] == '\r' ==> p == lines[i] + "\r") &&
              (!(|p| > 0 && p[|p| - 1] == '\r') ==> p == lines[i])
    ensures lines[|lines| - 1] == Split(s, '\n')[|lines| - 1]
  {
    var pieces := Split(s, '\n');
    seq(|pieces|, i requires 0 <= i < |pieces| => if i < |pieces| - 1 then DropCR(pieces[i]) else pieces[i])
  }

  /** One header line: the trimmed line split at its first colon, both halves
      trimmed; None when the trimmed line has no colon (the status line, the
      blank line closing the block). */
  function ParseHeaderLine(line: string): (r: Option<(string, string)>)
    ensures r.None? <==> ':' !in Trim(line)
    ensures r.Some? ==> ':' !in r.value.0
  {
    var t := Trim(line);
    match SplitFirst(t, ':')
    case (_, None) => None
    case (name, Some(value)) =>
      TrimNoNewChars(name, ':');
      Some((Trim(name), Trim(value)))
  }

  /** A line whose trimmed text is `name:value`, with no colon in `name`,
      gives the header `Trim(name)` with value `Trim(value)`; further colons
      stay in the value. */
  lemma ParseHeaderLineAt(line: string, name: string, value: string)
    requires Trim(line) == name + ":" + value
    requires ':' !in name
    ensures ParseHeaderLine(line) == Some((Trim(name), Trim(value)))
  {
    SplitFirstAt(name, ':', value);
  }

  /** Each line parsed on its own. */
  function ParsedLines(lines: seq<string>): (os: seq<Option<(string, string)>>)
    ensures |os| == |lines|
    ensures forall i :: 0 <= i < |lines| ==> os[i] == ParseHeaderLine(lines[i])
  {
    seq(|lines|, i requires 0 <= i < |lines| => ParseHeaderLine(lines[i]))
  }

  /** The headers the lines contribute, in line order. */
  function HeaderPairs(lines: seq<string>): (ps: seq<(string, string)>)
    ensures |ps| <= |lines|
  {
    Somes(ParsedLines(lines))
  }

  /** Every header comes from a line of the block: `i` is that line. */
  lemma HeaderPairsFromLines(lines: seq<string>, k: nat) returns (i: nat)
    requires k < |HeaderPairs(lines)|
    ensures i < |lines| && ParseHeaderLine(lines[i]) == Some(HeaderPairs(lines)[k])
  {
    i := SomesFrom(ParsedLines(lines), k);
  }

  /** `_setRawHeaders`: every header line assigned in turn into an empty array. */
  function ParseHeaders(headerStr: string): (h: Headers)
    ensures UniqueKeys(h)
    ensures forall name :: name in Keys(h) <==> name in Keys(HeaderPairs(SplitLines(headerStr)))
  {
    var ps := HeaderPairs(SplitLines(headerStr));
    PutAllUnique([], ps);
    PutAllKeys([], ps);
    PutAll([], ps)
  }

  /** `HttpResponse::createFromRaw`. */
  function CreateFromRaw(statusCode: int, headerStr: string, body: string, decode: string -> Option<Body>): (r: HttpResponse)
    ensures GetStatusCode(r) == statusCode
    ensures GetRawBody(r) == body
    ensures GetJsonBody(r) == decode(body)
    ensures GetHeaders(r) == ParseHeaders(headerStr)
  {
    HttpResponse(statusCode, ParseHeaders(headerStr), body, decode(body))
  }

  function GetStatusCode(r: HttpResponse): int {
    r.statusCode
  }

  function GetHeaders(r: HttpResponse): Headers {
    r.headers
  }

  /** `getHeader(name, default)`: exact, case-sensitive lookup; the default
      (PHP's `null` unless given, here None) when the name is absent. */
  function GetHeader(r: HttpResponse, name: string, default: Option<string>): Option<string> {
    match Get(r.headers, name)
    case Some(v) => Some(v)
    case None => default
  }

  function GetRawBody(r: HttpResponse): string {
    r.rawBody
  }

  function GetJsonBody(r: HttpResponse): Option<Body> {
    r.json
  }

  /** A header read back from a response is the value of the LAST line of the
      header block that names it, and the default when no line does. */
  lemma HeaderLastWins(statusCode: int, headerStr: string, body: string, decode: string -> Option<Body>, name: string, default: Option<string>)
    ensures GetHeader(CreateFromRaw(statusCode, headerStr, body, decode), name, default)
         == match LastValue(HeaderPairs(SplitLines(headerStr)), name)
            case Some(v) => Some(v)
            case None => default
  {
    PutAllLastWins([], HeaderPairs(SplitLines(headerStr)), name);
  }

  /** Lines without a colon, such as the status line, add no header. */
  lemma LineWithoutColonIgnored(lines: seq<string>, line: string)
    requires ':' !in Trim(line)
    ensures HeaderPairs(lines + [line]) == HeaderPairs(lines)
  {
    assert ParsedLines(lines + [line]) == ParsedLines(lines) + [None];
    SomesSnoc(ParsedLines(lines), None);
  }

  /** Because every line is trimmed, a carriage return before the line feed
      never reaches a header: splitting on bare line feeds gives the same
      headers. */
  lemma TrimDropCR(s: string)
    ensures Trim(DropCR(s)) == Trim(s)
  {
    if |s| > 0 && s[|s| - 1] == '\r' {
      TrimTrailingCR(s[..|s| - 1]);
      assert s == s[..|s| - 1] + "\r";
    }
  }

  /** Lines with the same trimmed text give the same headers. */
  lemma HeaderPairsByTrim(a: seq<string>, b: seq<string>)
    requires |a| == |b|
    requires forall i :: 0 <= i < |a| ==> Trim(a[i]) == Trim(b[i])
    ensures HeaderPairs(a) == HeaderPairs(b)
  {
    assert ParsedLines(a) == ParsedLines(b);
  }

  /** Splitting the header block at CRLF or LF gives the same headers as
      splitting it at bare line feeds. */
  lemma HeadersIgnoreCR(headerStr: string)
    ensures ParseHeaders(headerStr) == PutAll([], HeaderPairs(Split(headerStr, '\n')))
  {
    var lines := SplitLines(headerStr);
    var pieces := Split(headerStr, '\n');
    forall i | 0 <= i < |lines|
      ensures Trim(lines[i]) == Trim(pieces[i])
    {
      if i < |lines| - 1 {
        TrimDropCR(pieces[i]);
      }
    }
    HeaderPairsByTrim(lines, pieces);
  }
}
