/** The message parser: a total function from the decoded text of a raw
    message to its seven typed headers, its plain-text and HTML bodies, and
    the raw header map. Each regular expression of the parser is written out
    here as the scanner it amounts to, including the way Python's
    backtracking resolves its `\s*` and alternatives. */
module EmailParser {
  import opened Scanners

  datatype EmailHeader = EmailHeader(
    fromAddr: string, toAddr: string, subject: string, date: string,
    messageId: string, contentType: string, mimeVersion: string)

  /** Plain-text and HTML bodies; `None` is a body that was never assigned. */
  datatype EmailContent = EmailContent(textPlain: Option<string>, textHtml: Option<string>)

  datatype ParsedEmail = ParsedEmail(
    headers: EmailHeader, content: EmailContent, rawHeaders: map<string, string>)

  /** The seven headers the parser recognises. */
  datatype Field = From | To | Subject | Date | MessageId | ContentType | MimeVersion

  /** The order in which the raw header map is filled. */
  const Fields: seq<Field> := [From, To, Subject, Date, MessageId, ContentType, MimeVersion]

  const HeaderKeys: set<string> :=
    {"from", "to", "subject", "date", "message_id", "content_type", "mime_version"}

  /** The key of a header in the raw header map. */
  function Key(f: Field): string {
    match f
    case From => "from"
    case To => "to"
    case Subject => "subject"
    case Date => "date"
    case MessageId => "message_id"
    case ContentType => "content_type"
    case MimeVersion => "mime_version"
  }

  /** The literal that opens a header line, matched without regard to case. */
  function Label(f: Field): string {
    match f
    case From => "From:"
    case To => "To:"
    case Subject => "Subject:"
    case Date => "Date:"
    case MessageId => "Message-ID:"
    case ContentType => "Content-Type:"
    case MimeVersion => "MIME-Version:"
  }

  /** The characters that end the value of a one-line header. */
  const LineStops: set<char> := {'\r', '\n'}
  const TypeStops: set<char> := {';', '\r', '\n'}

  /** `p` is where `^` matches in multi-line mode: the start of the text or
      just after a line feed. */
  predicate LineStart(s: string, p: nat) {
    p == 0 || (p <= |s| && s[p - 1] == '\n')
  }

  /** The capture of `\s*([^stop]+)` started at `a`. The greedy `\s*` stops at
      the first non-space `q`; if the character there may start the group,
      the group runs to the first stop character. Otherwise `\s*` backtracks
      to the last whitespace character after `a` that is not a stop
      character (the group is then that one character), and failing that the
      pattern does not match at this position. */
  function RunGroup(s: string, a: nat, stop: set<char>): (g: Option<string>)
    requires a <= |s|
    ensures g.Some? ==> g.value != [] && forall c :: c in g.value ==> c !in stop
  {
    var q := SkipSpaces(s, a);
    if q < |s| && s[q] !in stop then
      var e := RunEnd(s, q, stop);
      assert forall c :: c in s[q..e] ==> c !in stop by {
        forall c | c in s[q..e] ensures c !in stop {
          var k :| 0 <= k < e - q && s[q..e][k] == c;
          assert s[q + k] == c;
        }
      }
      Some(s[q..e])
    else
      match LastOutside(s, a, q, stop)
      case None => None
      case Some(k) =>
        var e := RunEnd(s, k, stop);
        assert forall c :: c in s[k..e] ==> c !in stop by {
          forall c | c in s[k..e] ensures c !in stop {
            var i :| 0 <= i < e - k && s[k..e][i] == c;
            assert s[k + i] == c;
          }
        }
        Some(s[k..e])
  }

  /** The capture of `\s*<([^>]+)>` started at `a`: `\s*` can only end at the
      first non-space, which must be `<`; the group then runs to the first
      `>` and must not be empty. */
  function AngleGroup(s: string, a: nat): (g: Option<string>)
    requires a <= |s|
    ensures g.Some? ==> g.value != [] && '>' !in g.value
  {
    var q := SkipSpaces(s, a);
    if q < |s| && s[q] == '<' then
      var e := RunEnd(s, q + 1, {'>'});
      if q + 1 < e < |s| then Some(s[q + 1..e]) else None
    else None
  }

  /** `\s*$` started at `t`: some whitespace, then the end of the text or a
      line feed (where `$` matches in multi-line mode). */
  predicate LineTail(s: string, t: nat)
    decreases |s| - t
  {
    t >= |s| || s[t] == '\n' || (IsSpace(s[t]) && LineTail(s, t + 1))
  }

  /** The first alternative of the address pattern, `[^<\r\n]*<[^>]+>`, at `q`,
      followed by `\s*$`. The greedy `[^<\r\n]*` must stop at a `<`, and
      `[^>]+` runs to the first `>`, possibly across lines. */
  function Bracketed(s: string, q: nat): (g: Option<string>)
    requires q <= |s|
    ensures g.Some? ==> |g.value| >= 3 && g.value[|g.value| - 1] == '>' && '<' in g.value
    ensures g.Some? ==> q + |g.value| <= |s| && g.value == s[q..q + |g.value|]
  {
    var r := RunEnd(s, q, {'<', '\r', '\n'});
    if r < |s| && s[r] == '<' then
      var e := RunEnd(s, r + 1, {'>'});
      if r + 1 < e < |s| && LineTail(s, e + 1) then
        assert s[q..e + 1][r - q] == '<';
        Some(s[q..e + 1])
      else None
    else None
  }

  /** The second alternative, `\S+@\S+`, at `q`, followed by `\s*$`. Both
      `\S+` stay within the run of non-space characters from `q`, so the
      group is that whole run, provided an `@` has a non-space character on
      each side. */
  function BareAddress(s: string, q: nat): (g: Option<string>)
    requires q <= |s|
    ensures g.Some? ==> '@' in g.value && forall c :: c in g.value ==> !IsSpace(c)
    ensures g.Some? ==> q + |g.value| <= |s| && g.value == s[q..q + |g.value|]
  {
    var w := SkipNonSpaces(s, q);
    if q + 2 <= w && '@' in s[q + 1..w - 1] && LineTail(s, w) then
      assert forall c :: c in s[q..w] ==> !IsSpace(c) by {
        forall c | c in s[q..w] ensures !IsSpace(c) {
          var k :| 0 <= k < w - q && s[q..w][k] == c;
          assert s[q + k] == c;
        }
      }
      assert '@' in s[q..w] by {
        var k :| 0 <= k < w - 1 - (q + 1) && s[q + 1..w - 1][k] == '@';
        assert s[q..w][k + 1] == '@';
      }
      Some(s[q..w])
    else None
  }

  /** The capture of `\s*([^<\r\n]*<[^>]+>|\S+@\S+)\s*$` started at `a`. Only
      the greedy end `q` of the leading `\s*` can succeed: before it, the
      first alternative meets the same `<` or an earlier line break, and the
      second needs a non-space character. */
  function AddressGroup(s: string, a: nat): (g: Option<string>)
    requires a <= |s|
    ensures g.Some? ==> IsTrimmed(g.value)
    ensures g.Some? ==> ('@' in g.value && forall c :: c in g.value ==> !IsSpace(c))
                        || (g.value != [] && g.value[|g.value| - 1] == '>' && '<' in g.value)
  {
    var q := SkipSpaces(s, a);
    match Bracketed(s, q)
    case Some(g) =>
      assert g[0] == s[q];
      Some(g)
    case None =>
      var b := BareAddress(s, q);
      assert b.Some? ==> b.value[0] in b.value && b.value[|b.value| - 1] in b.value;
      b
  }

  /** What the pattern for header `f` captures after its label. */
  function Group(s: string, f: Field, a: nat): Option<string>
    requires a <= |s|
  {
    match f
    case From => AddressGroup(s, a)
    case To => AddressGroup(s, a)
    case MessageId => AngleGroup(s, a)
    case ContentType => RunGroup(s, a, TypeStops)
    case Subject => RunGroup(s, a, LineStops)
    case Date => RunGroup(s, a, LineStops)
    case MimeVersion => RunGroup(s, a, LineStops)
  }

  /** The regular expressions of the parser. */
  datatype Pattern =
    | HeaderLine(field: Field)   // `^Label\s*(...)`, multi-line, case-insensitive
    | PartContentType            // `Content-Type:\s*([^;\r\n]+)`, unanchored, case-insensitive
    | BoundaryParam              // `boundary="([^"]+)"`, case-sensitive

  const BoundaryKey: string := "boundary=\""

  /** The capture of `pat` when it is tried at index `p`, if it matches there. */
  function MatchAt(s: string, pat: Pattern, p: nat): Option<string>
    requires p <= |s|
  {
    match pat
    case HeaderLine(f) => HeaderLineMatch(s, f, p)
    case PartContentType => TypeMatch(s, p)
    case BoundaryParam => BoundaryMatch(s, p)
  }

  /** `(?im)^<Label>` and the header's group, tried at `p`. */
  function HeaderLineMatch(s: string, f: Field, p: nat): Option<string>
    requires p <= |s|
  {
    if LineStart(s, p) && LabelAt(s, Label(f), p) then Group(s, f, p + |Label(f)|) else None
  }

  /** `(?i)Content-Type:\s*([^;\r\n]+)` tried at `p`. */
  function TypeMatch(s: string, p: nat): Option<string>
    requires p <= |s|
  {
    if LabelAt(s, Label(ContentType), p) then RunGroup(s, p + |Label(ContentType)|, TypeStops)
    else None
  }

  /** `boundary="([^"]+)"` tried at `p`. */
  function BoundaryMatch(s: string, p: nat): Option<string>
    requires p <= |s|
  {
    if StartsWith(s[p..], BoundaryKey) then
      var e := RunEnd(s, p + |BoundaryKey|, {'"'});
      if p + |BoundaryKey| < e < |s| then Some(s[p + |BoundaryKey|..e]) else None
    else None
  }

  /** For each index of `s` (and `|s|` itself), what `pat` captures there. */
  function Captures(s: string, pat: Pattern): (c: seq<Option<string>>)
    ensures |c| == |s| + 1
    ensures forall k :: 0 <= k <= |s| ==> c[k] == MatchAt(s, pat, k)
  {
    seq(|s| + 1, k requires 0 <= k <= |s| => MatchAt(s, pat, k))
  }

  /** The index where `re.search` reports a match of `pat`: the lowest one. */
  function FirstMatch(s: string, pat: Pattern): (r: Option<nat>)
    ensures r.Some? ==> r.value <= |s| && MatchAt(s, pat, r.value).Some?
                        && forall k :: 0 <= k < r.value ==> MatchAt(s, pat, k).None?
    ensures r.None? ==> forall k :: 0 <= k <= |s| ==> MatchAt(s, pat, k).None?
  {
    FirstSome(Captures(s, pat), 0)
  }

  /** `pat.search(s)`, reduced to its first capture group. */
  function Search(s: string, pat: Pattern): (g: Option<string>)
    ensures g.None? <==> FirstMatch(s, pat).None?
    ensures g.Some? ==> g == MatchAt(s, pat, FirstMatch(s, pat).value)
  {
    match FirstMatch(s, pat)
    case None => None
    case Some(p) => MatchAt(s, pat, p)
  }

  /** `_extract_header`: the first match's capture, stripped, or `""`. */
  function ExtractHeader(s: string, f: Field): (v: string)
    ensures IsTrimmed(v)
    ensures Search(s, HeaderLine(f)).None? ==> v == ""
  {
    match Search(s, HeaderLine(f))
    case None => ""
    case Some(g) => Strip(g)
  }

  /** The raw header map built from one value per header. */
  function RawMap(value: Field -> string): map<string, string> {
    map[
      "from" := value(From),
      "to" := value(To),
      "subject" := value(Subject),
      "date" := value(Date),
      "message_id" := value(MessageId),
      "content_type" := value(ContentType),
      "mime_version" := value(MimeVersion)]
  }

  /** The raw header map: each key mapped to the extraction of its header. */
  function HeaderMap(s: string): map<string, string> {
    RawMap(f => ExtractHeader(s, f))
  }

  /** The map after the entries for `fs` have been added, in order. */
  function HeadersOf(value: Field -> string, fs: seq<Field>): map<string, string>
    decreases |fs|
  {
    if fs == [] then map[]
    else HeadersOf(value, fs[..|fs| - 1])[Key(fs[|fs| - 1]) := value(fs[|fs| - 1])]
  }

  /** Going over all seven fields in order builds the raw header map. */
  lemma HeadersOfFields(value: Field -> string)
    ensures HeadersOf(value, Fields) == RawMap(value)
  {
    var m := map[];
    assert HeadersOf(value, Fields[..0]) == m;
    assert Fields[..1][..0] == Fields[..0];
    m := m["from" := value(From)];
    assert HeadersOf(value, Fields[..1]) == m;
    assert Fields[..2][..1] == Fields[..1];
    m := m["to" := value(To)];
    assert HeadersOf(value, Fields[..2]) == m;
    assert Fields[..3][..2] == Fields[..2];
    m := m["subject" := value(Subject)];
    assert HeadersOf(value, Fields[..3]) == m;
    assert Fields[..4][..3] == Fields[..3];
    m := m["date" := value(Date)];
    assert HeadersOf(value, Fields[..4]) == m;
    assert Fields[..5][..4] == Fields[..4];
    m := m["message_id" := value(MessageId)];
    assert HeadersOf(value, Fields[..5]) == m;
    assert Fields[..6][..5] == Fields[..5];
    m := m["content_type" := value(ContentType)];
    assert HeadersOf(value, Fields[..6]) == m;
    assert Fields[..7] == Fields;
    m := m["mime_version" := value(MimeVersion)];
    assert HeadersOf(value, Fields) == m;
  }

  /** `_parse_headers`: fills the map one pattern at a time. */
  method ParseHeaders(data: string) returns (headers: map<string, string>)
    ensures headers == HeaderMap(data)
  {
    ghost var value := f => ExtractHeader(data, f);
    headers := map[];
    for i := 0 to |Fields|
      invariant headers == HeadersOf(value, Fields[..i])
    {
      var f := Fields[i];
      assert Fields[..i + 1][..i] == Fields[..i];
      headers := headers[Key(f) := ExtractHeader(data, f)];
    }
    assert Fields[..|Fields|] == Fields;
    HeadersOfFields(value);
  }

  /** The raw map has exactly the seven keys, each holding the value of its
      header. */
  lemma RawMapEntries(value: Field -> string)
    ensures RawMap(value).Keys == HeaderKeys
    ensures forall f :: RawMap(value)[Key(f)] == value(f)
  {
    forall f ensures RawMap(value)[Key(f)] == value(f) {
      match f
      case From => case To => case Subject => case Date =>
      case MessageId => case ContentType => case MimeVersion =>
    }
  }

  /** `raw_headers` has exactly the seven keys. */
  lemma HeaderMapKeys(s: string)
    ensures HeaderMap(s).Keys == HeaderKeys
  {
    RawMapEntries(f => ExtractHeader(s, f));
  }

  const BlankLine: string := "\r\n\r\n"

  /** One multipart segment that was not skipped: its trimmed content type
      and its trimmed body. */
  datatype Section = Section(contentType: string, body: string)

  /** What one segment of the split yields inside the loop of
      `_parse_content`: `None` when it is blank, has no `Content-Type:` match,
      or has no blank line. */
  function SectionOf(part: string): (r: Option<Section>)
    ensures r.None? <==> AllSpace(part) || Search(part, PartContentType).None? || !Contains(part, BlankLine)
    ensures r.Some? ==> IsTrimmed(r.value.contentType) && IsTrimmed(r.value.body)
  {
    if Strip(part) == [] then None
    else
      match Search(part, PartContentType)
      case None => None
      case Some(g) =>
        match Find(part, BlankLine)
        case None => None
        case Some(k) => Some(Section(Strip(g), Strip(part[k..])))
  }

  /** Which of the two bodies a content type is stored in. */
  datatype BodyKind = Plain | Html

  function MimeType(k: BodyKind): string {
    match k
    case Plain => "text/plain"
    case Html => "text/html"
  }

  function Body(c: EmailContent, k: BodyKind): Option<string> {
    match k
    case Plain => c.textPlain
    case Html => c.textHtml
  }

  /** One iteration of the loop of `_parse_content`. */
  function Absorb(c: EmailContent, part: string): EmailContent {
    match SectionOf(part)
    case None => c
    case Some(sec) =>
      if sec.contentType == MimeType(Plain) then c.(textPlain := Some(sec.body))
      else if sec.contentType == MimeType(Html) then c.(textHtml := Some(sec.body))
      else c
  }

  /** The content after the loop has gone over `parts`, in order. */
  function AbsorbAll(parts: seq<string>): EmailContent
    decreases |parts|
  {
    if parts == [] then EmailContent(None, None)
    else Absorb(AbsorbAll(parts[..|parts| - 1]), parts[|parts| - 1])
  }

  /** The multipart delimiter for a boundary. */
  function Delimiter(boundary: string): (d: string)
    ensures |d| == |boundary| + 2
  {
    "--" + boundary
  }

  /** The content `_parse_content` returns. */
  function MultipartContent(data: string, boundary: string): EmailContent {
    AbsorbAll(Split(data, Delimiter(boundary)))
  }

  /** `_parse_content`: splits on the delimiter and overwrites a body whenever
      a part of its type comes along. */
  method ParseContent(data: string, boundary: string) returns (content: EmailContent)
    ensures content == MultipartContent(data, boundary)
  {
    content := EmailContent(None, None);
    var parts := Split(data, Delimiter(boundary));
    for i := 0 to |parts|
      invariant content == AbsorbAll(parts[..i])
    {
      var part := parts[i];
      assert parts[..i + 1][..i] == parts[..i];
      if Strip(part) == [] {
        continue;
      }
      var typeMatch := Search(part, PartContentType);
      if typeMatch.None? {
        continue;
      }
      var contentType := Strip(typeMatch.value);
      var contentStart := Find(part, BlankLine);
      if contentStart.None? {
        continue;
      }
      var partContent := Strip(part[contentStart.value..]);
      if contentType == "text/plain" {
        content := content.(textPlain := Some(partContent));
      } else if contentType == "text/html" {
        content := content.(textHtml := Some(partContent));
      }
    }
    assert parts[..|parts|] == parts;
  }

  /** The content of a message without a boundary: everything after the
      first blank line, untrimmed, or `""`. */
  function SinglePartContent(text: string): EmailContent {
    EmailContent(
      Some(match Find(text, BlankLine) case None => "" case Some(k) => text[k + |BlankLine|..]),
      None)
  }

  /** The value of `parse` on the decoded text. */
  function MessageOf(text: string): ParsedEmail {
    var raw := HeaderMap(text);
    var header := EmailHeader(
      raw["from"], raw["to"], raw["subject"], raw["date"],
      raw["message_id"], raw["content_type"], raw["mime_version"]);
    var content :=
      match Search(text, BoundaryParam)
      case Some(boundary) => MultipartContent(text, boundary)
      case None => SinglePartContent(text);
    ParsedEmail(header, content, raw)
  }

  /** `parse`: decodes the bytes (`decode` stands for UTF-8 decoding that
      drops invalid sequences), finds the boundary, extracts the headers and
      the bodies. */
  method Parse(rawEmail: seq<byte>, decode: seq<byte> -> string) returns (email: ParsedEmail)
    ensures email == MessageOf(decode(rawEmail))
  {
    var text := decode(rawEmail);
    var boundary := Search(text, BoundaryParam);
    var headers := ParseHeaders(text);
    var header := EmailHeader(
      headers["from"], headers["to"], headers["subject"], headers["date"],
      headers["message_id"], headers["content_type"], headers["mime_version"]);
    var content;
    if boundary.Some? {
      content := ParseContent(text, boundary.value);
    } else {
      content := SinglePartContent(text);
    }
    email := ParsedEmail(header, content, headers);
  }

  // Properties of the header extraction.

  /** Everything in `s[a..j]` is whitespace. */
  predicate SpacesBetween(s: string, a: nat, j: nat) {
    a <= j <= |s| && forall k :: a <= k < j ==> IsSpace(s[k])
  }

  /** `\s*([^stop]+)` matches at `a` exactly when some whitespace from `a`
      is followed by a character outside `stop`. */
  lemma RunGroupMatches(s: string, a: nat, stop: set<char>)
    requires a <= |s|
    ensures RunGroup(s, a, stop).Some? <==>
              exists j: nat :: SpacesBetween(s, a, j) && j < |s| && s[j] !in stop
  {
    var q := SkipSpaces(s, a);
    if q < |s| && s[q] !in stop {
      assert SpacesBetween(s, a, q);
    } else {
      match LastOutside(s, a, q, stop)
      case Some(k) =>
        assert SpacesBetween(s, a, k);
      case None =>
        forall j: nat | SpacesBetween(s, a, j) && j < |s| ensures s[j] in stop {
          assert j <= q;
        }
    }
  }

  /** Where the capture of `\s*([^stop]+)` lies: after whitespace from `a`,
      up to the next stop character or the end of the text. It starts at
      the last position the backtracking `\s*` can leave for the group. */
  lemma RunGroupCapture(s: string, a: nat, stop: set<char>) returns (j: nat)
    requires a <= |s| && RunGroup(s, a, stop).Some?
    ensures var g := RunGroup(s, a, stop).value;
      SpacesBetween(s, a, j) && j + |g| <= |s| && s[j..j + |g|] == g
      && (j + |g| == |s| || s[j + |g|] in stop)
    ensures forall k: nat :: j < k < |s| && SpacesBetween(s, a, k) ==> s[k] in stop
  {
    var q := SkipSpaces(s, a);
    if q < |s| && s[q] !in stop {
      j := q;
    } else {
      j := LastOutside(s, a, q, stop).value;
    }
  }

  /** The capture of `\s*<([^>]+)>` is what lies between the `<` that ends
      the whitespace from `a` and the next `>`. */
  lemma AngleGroupCapture(s: string, a: nat) returns (q: nat)
    requires a <= |s| && AngleGroup(s, a).Some?
    ensures var g := AngleGroup(s, a).value;
      SpacesBetween(s, a, q) && q + 1 + |g| < |s| && s[q] == '<'
      && s[q + 1..q + 1 + |g|] == g && s[q + 1 + |g|] == '>'
  {
    q := SkipSpaces(s, a);
  }

  /** `\s*<([^>]+)>` fails at `a` only when no `<` ends the whitespace from
      `a`, or the first `>` after it comes right after it, or there is none. */
  lemma AngleGroupFails(s: string, a: nat)
    requires a <= |s| && AngleGroup(s, a).None?
    ensures forall q: nat, e ::
              (SpacesBetween(s, a, q) && q < e < |s| && s[q] == '<' && s[e] == '>'
               && forall k :: q < k < e ==> s[k] != '>') ==> e == q + 1
  {
    forall q: nat, e | SpacesBetween(s, a, q) && q < e < |s| && s[q] == '<' && s[e] == '>'
                  && (forall k :: q < k < e ==> s[k] != '>')
      ensures e == q + 1
    {
      assert q == SkipSpaces(s, a);
      var e0 := RunEnd(s, q + 1, {'>'});
      assert e0 == e;
    }
  }

  /** A header whose label starts no line yields `""`. */
  lemma AbsentHeaderIsEmpty(s: string, f: Field)
    requires forall p :: 0 <= p <= |s| && LineStart(s, p) ==> !LabelAt(s, Label(f), p)
    ensures ExtractHeader(s, f) == ""
  {
    forall k | 0 <= k <= |s| ensures MatchAt(s, HeaderLine(f), k).None? {
      assert !(LineStart(s, k) && LabelAt(s, Label(f), k));
    }
  }

  /** The stop characters of a one-line header. */
  function Stops(f: Field): set<char> {
    if f == ContentType then TypeStops else LineStops
  }

  /** The value of Subject, Date, MIME-Version and Content-Type stays on one
      line; that of Content-Type also ends before any `;`. */
  lemma OneLineHeaderValue(s: string, f: Field)
    requires f == Subject || f == Date || f == MimeVersion || f == ContentType
    ensures forall c :: c in ExtractHeader(s, f) ==> c !in Stops(f)
  {
    var pat := HeaderLine(f);
    match Search(s, pat)
    case None =>
    case Some(g) =>
      var p := FirstMatch(s, pat).value;
      assert Group(s, f, p + |Label(f)|) == RunGroup(s, p + |Label(f)|, Stops(f));
      assert forall c :: c in g ==> c !in Stops(f);
  }

  /** The Message-ID value never holds `>`. */
  lemma MessageIdValue(s: string)
    ensures '>' !in ExtractHeader(s, MessageId)
  {
    match Search(s, HeaderLine(MessageId))
    case None =>
    case Some(g) =>
      assert '>' !in g;
  }

  /** Where a header pattern matches: a line start holding the label, from
      which the header's group captures what `Search` reports. */
  lemma HeaderMatch(s: string, f: Field) returns (p: nat)
    requires Search(s, HeaderLine(f)).Some?
    ensures p <= |s| && LineStart(s, p) && LabelAt(s, Label(f), p)
    ensures Search(s, HeaderLine(f)) == Group(s, f, p + |Label(f)|)
  {
    p := FirstMatch(s, HeaderLine(f)).value;
    HeaderLineAt(s, f, p);
  }

  /** A header pattern matches at `p` only at a line start holding the
      label, and then captures what the header's group does. */
  lemma HeaderLineAt(s: string, f: Field, p: nat)
    requires p <= |s| && MatchAt(s, HeaderLine(f), p).Some?
    ensures LineStart(s, p) && LabelAt(s, Label(f), p)
    ensures MatchAt(s, HeaderLine(f), p) == Group(s, f, p + |Label(f)|)
  {
  }

  /** A From or To value is empty, or a whitespace-free word holding `@`, or
      ends with `>` after a `<`. */
  lemma AddressHeaderValue(s: string, f: Field)
    requires f == From || f == To
    ensures var v := ExtractHeader(s, f);
      v == [] || ('@' in v && forall c :: c in v ==> !IsSpace(c))
      || (v[|v| - 1] == '>' && '<' in v)
  {
    if Search(s, HeaderLine(f)).Some? {
      var p := HeaderMatch(s, f);
      var g := AddressGroup(s, p + |Label(f)|);
      assert Search(s, HeaderLine(f)) == g;
      assert Strip(g.value) == g.value;
    }
  }

  /** `name` is `Label(f)` written in any letter case. */
  predicate SpellsLabel(name: string, f: Field) {
    |name| == |Label(f)| && forall i :: 0 <= i < |name| ==> Lower(name[i]) == Lower(Label(f)[i])
  }

  /** The first line of `s` that opens with the label of `f`, in any letter
      case, starts at `n`. */
  predicate FirstLabelled(s: string, f: Field, n: nat) {
    n <= |s| && LineStart(s, n) && LabelAt(s, Label(f), n)
    && forall k :: 0 <= k < n && LineStart(s, k) ==> !LabelAt(s, Label(f), k)
  }

  /** `pre` is empty or ends with a line feed, and none of its lines opens
      with the label of `f`. */
  predicate LinesBefore(pre: string, f: Field) {
    (pre == [] || pre[|pre| - 1] == '\n')
    && forall k :: 0 <= k < |pre| && LineStart(pre, k) ==> !LabelAt(pre, Label(f), k)
  }

  /** No label holds a line feed, in any letter case. */
  lemma LabelHasNoLineFeed(f: Field)
    ensures forall i :: 0 <= i < |Label(f)| ==> Lower(Label(f)[i]) != '\n'
  {
    var l := Label(f);
    forall i | 0 <= i < |l| ensures Lower(l[i]) != '\n' {
      assert l[i] in l;
    }
  }

  /** A label written right after such a prefix starts the first line of
      the text that opens with it. */
  lemma LabelledAfter(f: Field, pre: string, name: string, tail: string)
    requires LinesBefore(pre, f) && SpellsLabel(name, f)
    ensures FirstLabelled(pre + name + tail, f, |pre|)
  {
    var s := pre + name + tail;
    var l := Label(f);
    forall i | 0 <= i < |name| ensures Lower(s[|pre| + i]) == Lower(l[i]) {
      assert s[|pre| + i] == name[i];
    }
    LabelHasNoLineFeed(f);
    forall k | 0 <= k < |pre| && LineStart(s, k) ensures !LabelAt(s, l, k) {
      assert LineStart(pre, k);
      if k + |l| <= |pre| {
        forall j | k <= j < k + |l| ensures s[j] == pre[j] {
        }
        assert !LabelAt(pre, l, k);
      } else {
        var i := |pre| - 1 - k;
        assert s[k + i] == '\n';
        assert Lower(s[k + i]) != Lower(l[i]);
      }
    }
  }

  /** The run of non-stop characters from `i` ends where `v` does, when `v`
      holds no stop character and a stop character follows it. */
  lemma RunEndAt(s: string, i: nat, v: string, stop: set<char>)
    requires OccursAt(s, v, i) && i + |v| < |s| && s[i + |v|] in stop
    requires forall c :: c in v ==> c !in stop
    ensures RunEnd(s, i, stop) == i + |v|
  {
    forall k | i <= k < i + |v| ensures s[k] !in stop {
      assert s[i..i + |v|][k - i] == s[k];
    }
  }

  /** A match at `n` with none before it is what `Search` reports. */
  lemma SearchAt(s: string, pat: Pattern, n: nat, g: string)
    requires n <= |s| && MatchAt(s, pat, n) == Some(g)
    requires forall k :: 0 <= k < n ==> MatchAt(s, pat, k).None?
    ensures Search(s, pat) == Some(g)
  {
    assert FirstMatch(s, pat) == Some(n);
  }

  /** A header pattern does not match where no line opens with its label. */
  lemma UnlabelledLine(s: string, f: Field, k: nat)
    requires k <= |s| && !(LineStart(s, k) && LabelAt(s, Label(f), k))
    ensures MatchAt(s, HeaderLine(f), k).None?
  {
  }

  /** The first labelled line, when its group captures `g`, makes the
      header's value `Strip(g)`. */
  lemma HeaderAt(s: string, f: Field, n: nat, g: string)
    requires FirstLabelled(s, f, n) && Group(s, f, n + |Label(f)|) == Some(g)
    ensures ExtractHeader(s, f) == Strip(g)
  {
    forall k | 0 <= k < n ensures MatchAt(s, HeaderLine(f), k).None? {
      UnlabelledLine(s, f, k);
    }
    LabelledLine(s, f, n, g);
    SearchAt(s, HeaderLine(f), n, g);
  }

  /** A header pattern matches where a line opens with its label and the
      group after the label captures something. */
  lemma LabelledLine(s: string, f: Field, n: nat, g: string)
    requires n <= |s| && LineStart(s, n) && LabelAt(s, Label(f), n)
    requires Group(s, f, n + |Label(f)|) == Some(g)
    ensures MatchAt(s, HeaderLine(f), n) == Some(g)
  {
  }

  /** Whitespace from `a` up to `q`, where none is: the leading `\s*`
      ends at `q`. */
  lemma SkipTo(s: string, a: nat, q: nat)
    requires SpacesBetween(s, a, q) && q < |s| && !IsSpace(s[q])
    ensures SkipSpaces(s, a) == q
  {
  }

  /** All-whitespace text lays whitespace where it occurs. */
  lemma SpacesAt(s: string, a: nat, w: string)
    requires OccursAt(s, w, a) && AllSpace(w)
    ensures SpacesBetween(s, a, a + |w|)
  {
    forall k | a <= k < a + |w| ensures IsSpace(s[k]) {
      assert s[k] == s[a..a + |w|][k - a];
    }
  }

  /** Whitespace from `i` up to a line feed at `p`. */
  predicate EndsLine(s: string, i: nat, p: nat) {
    SpacesBetween(s, i, p) && p < |s| && s[p] == '\n'
  }

  /** Such whitespace is matched by `\s*$`. */
  lemma {:induction false} EndsLineTail(s: string, i: nat, p: nat)
    requires EndsLine(s, i, p)
    ensures LineTail(s, i)
    decreases p - i
  {
    if i < p {
      EndsLineTail(s, i + 1, p);
    }
  }

  /** A line end in the tail of `s` is one in `s`, `d` further on. */
  lemma EndsLineInTail(s: string, d: nat, t: string, i: nat, p: nat)
    requires EndsWith(s, d, t) && EndsLine(t, i, p)
    ensures EndsLine(s, d + i, d + p)
  {
    forall k | d + i <= k < d + p ensures IsSpace(s[k]) {
      assert s[k] == t[k - d];
    }
    assert s[d + p] == t[p];
  }

  /** `\s*([^stop]+)` at `a`, before a text `w` that is not all whitespace,
      holds no stop character and is followed by one: the group is `w`
      without its leading whitespace. */
  lemma RunGroupOver(s: string, a: nat, w: string, stop: set<char>)
    requires OccursAt(s, w, a) && a + |w| < |s| && s[a + |w|] in stop
    requires !AllSpace(w) && forall c :: c in w ==> c !in stop
    ensures RunGroup(s, a, stop) == Some(w[SkipSpaces(w, 0)..])
  {
    var i := SkipSpaces(w, 0);
    RunPlaced(s, a, w, i, stop);
    RunOver(s, a, a + i, a + |w|, stop);
    SliceOfOccurrence(s, a, w, i);
  }

  /** Whitespace from `a` up to `q`, then a run of non-stop characters up to
      a stop character at `e`: the group is that run. */
  lemma RunOver(s: string, a: nat, q: nat, e: nat, stop: set<char>)
    requires SpacesBetween(s, a, q) && q < e < |s| && !IsSpace(s[q])
    requires s[e] in stop && forall k :: q <= k < e ==> s[k] !in stop
    ensures RunGroup(s, a, stop) == Some(s[q..e])
  {
    SkipTo(s, a, q);
    RunEndIs(s, q, e, stop);
    RunGroupAt(s, a, q, e, stop, s[q..e]);
  }

  /** The characters of `w` where it lies in `s`: whitespace up to `a + i`,
      then no stop character up to the end of `w`. */
  lemma RunPlaced(s: string, a: nat, w: string, i: nat, stop: set<char>)
    requires OccursAt(s, w, a) && a + |w| < |s|
    requires !AllSpace(w) && forall c :: c in w ==> c !in stop
    requires i == SkipSpaces(w, 0)
    ensures i < |w| && SpacesBetween(s, a, a + i) && !IsSpace(s[a + i])
    ensures s[a + i] !in stop && forall k :: a + i <= k < a + |w| ==> s[k] !in stop
  {
    var e := a + |w|;
    forall k | a <= k < e ensures s[k] == w[k - a] {
      assert s[k] == s[a..e][k - a];
    }
    forall k | a + i <= k < e ensures s[k] !in stop {
      assert w[k - a] in w;
    }
  }

  /** The tail of an occurrence from `i` on. */
  lemma SliceOfOccurrence(s: string, a: nat, w: string, i: nat)
    requires OccursAt(s, w, a) && i <= |w|
    ensures s[a + i..a + |w|] == w[i..]
  {
    assert s[a..a + |w|] == w;
    assert s[a + i..a + |w|] == s[a..a + |w|][i..];
  }

  /** Dropping the leading whitespace does not change what `str.strip()`
      returns. */
  lemma StripLeading(w: string, i: nat)
    requires i == SkipSpaces(w, 0)
    ensures Strip(w[i..]) == Strip(w)
  {
    assert w[..i] + w[i..] == w;
    StripAfterSpace(w[..i], w[i..]);
  }

  /** The run of non-stop characters from `i` ends at `e` when `e` holds
      the first stop character from `i`. */
  lemma RunEndIs(s: string, i: nat, e: nat, stop: set<char>)
    requires i <= e < |s| && s[e] in stop && forall k :: i <= k < e ==> s[k] !in stop
    ensures RunEnd(s, i, stop) == e
  {
  }

  /** When the greedy `\s*` from `a` ends at `q`, before a character outside
      `stop`, the group is the run from `q` up to `e`. */
  lemma RunGroupAt(s: string, a: nat, q: nat, e: nat, stop: set<char>, g: string)
    requires a <= |s| && q == SkipSpaces(s, a) && q < |s| && s[q] !in stop
    requires e == RunEnd(s, q, stop) && g == s[q..e]
    ensures RunGroup(s, a, stop) == Some(g)
  {
  }

  /** The first labelled line at `n`, when the label is followed by a text
      `w` that is not all whitespace, holds no stop character and ends at
      one, yields `w` stripped. */
  lemma OneLineHeaderAt(s: string, f: Field, n: nat, w: string)
    requires f == Subject || f == Date || f == MimeVersion || f == ContentType
    requires FirstLabelled(s, f, n) && OccursAt(s, w, n + |Label(f)|)
    requires n + |Label(f)| + |w| < |s| && s[n + |Label(f)| + |w|] in Stops(f)
    requires !AllSpace(w) && forall c :: c in w ==> c !in Stops(f)
    ensures ExtractHeader(s, f) == Strip(w)
  {
    var i := SkipSpaces(w, 0);
    RunGroupOver(s, n + |Label(f)|, w, Stops(f));
    OneLineValueAt(s, f, n, w[i..]);
    StripLeading(w, i);
  }

  /** The first labelled line at `n`, when the run after the label is `g`,
      yields `g` stripped. */
  lemma OneLineValueAt(s: string, f: Field, n: nat, g: string)
    requires f == Subject || f == Date || f == MimeVersion || f == ContentType
    requires FirstLabelled(s, f, n) && n + |Label(f)| <= |s|
    requires RunGroup(s, n + |Label(f)|, Stops(f)) == Some(g)
    ensures ExtractHeader(s, f) == Strip(g)
  {
    OneLineGroup(s, f, n + |Label(f)|);
    HeaderAt(s, f, n, g);
  }

  /** The group of a one-line header is the run of non-stop characters. */
  lemma OneLineGroup(s: string, f: Field, a: nat)
    requires f == Subject || f == Date || f == MimeVersion || f == ContentType
    requires a <= |s|
    ensures Group(s, f, a) == RunGroup(s, a, Stops(f))
  {
  }

  /** Where the label of `pre + name + tail` lies, and what follows it. */
  lemma LabelLayout(f: Field, pre: string, name: string, tail: string)
    requires LinesBefore(pre, f) && SpellsLabel(name, f)
    ensures FirstLabelled(pre + name + tail, f, |pre|)
    ensures EndsWith(pre + name + tail, |pre| + |Label(f)|, tail)
  {
    LabelledAfter(f, pre, name, tail);
    EndsWithConcat(pre + name, tail);
  }

  /** The value of a one-line header and the stop character after it. */
  lemma OneLineTail(w: string, c: char, rest: string)
    ensures OccursAt(w + [c] + rest, w, 0) && |w| < |w + [c] + rest| && (w + [c] + rest)[|w|] == c
  {
    assert (w + [c] + rest)[..|w|] == w;
  }

  /** The same pieces, `d` further on in a text that ends with them. */
  lemma OneLineIn(s: string, d: nat, tail: string, w: string, c: char)
    requires EndsWith(s, d, tail) && OccursAt(tail, w, 0) && |w| < |tail| && tail[|w|] == c
    ensures OccursAt(s, w, d) && d + |w| < |s| && s[d + |w|] == c
  {
    OccursInTail(s, d, tail, 0, w);
    assert s[d + |w|] == tail[|w|];
  }

  /** Where a one-line value lies in `pre + name + (w + [c] + rest)`. */
  lemma OneLinePlaced(f: Field, pre: string, name: string, w: string, c: char, rest: string)
    requires LinesBefore(pre, f) && SpellsLabel(name, f)
    ensures var s := pre + name + (w + [c] + rest);
      var a := |pre| + |Label(f)|;
      FirstLabelled(s, f, |pre|) && OccursAt(s, w, a) && a + |w| < |s| && s[a + |w|] == c
  {
    var tail := w + [c] + rest;
    LabelLayout(f, pre, name, tail);
    OneLineTail(w, c, rest);
    OneLineIn(pre + name + tail, |pre| + |Label(f)|, tail, w, c);
  }

  /** A line `<Label><w>` yields `w` stripped, whatever the letter case of
      the label, when `w` is not all whitespace, holds no stop character, is
      followed by one, and no earlier line opens with the label. */
  lemma OneLineHeaderFound(f: Field, pre: string, name: string, w: string, c: char,
                           rest: string)
    requires f == Subject || f == Date || f == MimeVersion || f == ContentType
    requires LinesBefore(pre, f) && SpellsLabel(name, f)
    requires !AllSpace(w) && (forall ch :: ch in w ==> ch !in Stops(f)) && c in Stops(f)
    ensures ExtractHeader(pre + name + w + [c] + rest, f) == Strip(w)
  {
    assert pre + name + w + [c] + rest == pre + name + (w + [c] + rest);
    OneLinePlaced(f, pre, name, w, c, rest);
    OneLineHeaderAt(pre + name + (w + [c] + rest), f, |pre|, w);
  }

  /** Whitespace up to a `<` at `q`, then a non-empty `id` and the next `>`:
      the Message-ID group is `id`. */
  lemma AngleGroupOver(s: string, a: nat, q: nat, id: string)
    requires SpacesBetween(s, a, q) && q + 1 + |id| < |s| && s[q] == '<'
    requires OccursAt(s, id, q + 1) && id != [] && '>' !in id && s[q + 1 + |id|] == '>'
    ensures AngleGroup(s, a) == Some(id)
  {
    SkipTo(s, a, q);
    RunEndAt(s, q + 1, id, {'>'});
  }

  /** The first Message-ID line at `n`, when the label is followed by
      whitespace, `<`, `id` and `>`, yields `id` stripped. */
  lemma MessageIdAt(s: string, n: nat, q: nat, id: string)
    requires FirstLabelled(s, MessageId, n) && SpacesBetween(s, n + |Label(MessageId)|, q)
    requires q + 1 + |id| < |s| && s[q] == '<' && OccursAt(s, id, q + 1)
    requires id != [] && '>' !in id && s[q + 1 + |id|] == '>'
    ensures ExtractHeader(s, MessageId) == Strip(id)
  {
    AngleGroupOver(s, n + |Label(MessageId)|, q, id);
    HeaderAt(s, MessageId, n, id);
  }

  /** The pieces of `w + "<" + id + ">" + rest`. */
  lemma AngleTail(w: string, id: string, rest: string)
    ensures var t := w + "<" + id + ">" + rest;
      OccursAt(t, w, 0) && |w| + 1 + |id| < |t| && t[|w|] == '<'
      && OccursAt(t, id, |w| + 1) && t[|w| + 1 + |id|] == '>'
  {
    var t := w + "<" + id + ">" + rest;
    assert t[..|w|] == w;
    assert t[|w| + 1..|w| + 1 + |id|] == id;
  }

  /** The same pieces, `d` further on in a text that ends with them. */
  lemma AngleIn(s: string, d: nat, tail: string, w: string, id: string)
    requires EndsWith(s, d, tail) && OccursAt(tail, w, 0) && AllSpace(w)
    requires |w| + 1 + |id| < |tail| && tail[|w|] == '<'
    requires OccursAt(tail, id, |w| + 1) && tail[|w| + 1 + |id|] == '>'
    ensures var q := d + |w|;
      SpacesBetween(s, d, q) && q + 1 + |id| < |s| && s[q] == '<'
      && OccursAt(s, id, q + 1) && s[q + 1 + |id|] == '>'
  {
    OccursInTail(s, d, tail, 0, w);
    SpacesAt(s, d, w);
    OccursInTail(s, d, tail, |w| + 1, id);
    assert s[d + |w|] == tail[|w|];
    assert s[d + |w| + 1 + |id|] == tail[|w| + 1 + |id|];
  }

  /** Where the Message-ID lies in `pre + name + (w + "<" + id + ">" + rest)`. */
  lemma AnglePlaced(pre: string, name: string, w: string, id: string, rest: string)
    requires LinesBefore(pre, MessageId) && SpellsLabel(name, MessageId) && AllSpace(w)
    ensures var s := pre + name + (w + "<" + id + ">" + rest);
      var a := |pre| + |Label(MessageId)|;
      var q := a + |w|;
      FirstLabelled(s, MessageId, |pre|) && SpacesBetween(s, a, q) && q + 1 + |id| < |s|
      && s[q] == '<' && OccursAt(s, id, q + 1) && s[q + 1 + |id|] == '>'
  {
    var tail := w + "<" + id + ">" + rest;
    LabelLayout(MessageId, pre, name, tail);
    AngleTail(w, id, rest);
    AngleIn(pre + name + tail, |pre| + |Label(MessageId)|, tail, w, id);
  }

  /** A line `Message-ID:` followed by any whitespace, then `<id>`, yields
      `id` stripped, whatever the letter case of the label, when `id` is
      not empty and holds no `>` and no earlier line opens with the label. */
  lemma MessageIdFound(pre: string, name: string, w: string, id: string, rest: string)
    requires LinesBefore(pre, MessageId) && SpellsLabel(name, MessageId)
    requires AllSpace(w) && id != [] && '>' !in id
    ensures ExtractHeader(pre + name + w + "<" + id + ">" + rest, MessageId) == Strip(id)
  {
    assert pre + name + w + "<" + id + ">" + rest == pre + name + (w + "<" + id + ">" + rest);
    AnglePlaced(pre, name, w, id, rest);
    MessageIdAt(pre + name + (w + "<" + id + ">" + rest), |pre|,
                |pre| + |Label(MessageId)| + |w|, id);
  }

  /** `display`, `<`, `addr` and `>` lie one after the other from `q`. */
  predicate BracketedLayout(s: string, q: nat, display: string, addr: string) {
    OccursAt(s, display, q) && q + |display| + |addr| + 1 < |s| && s[q + |display|] == '<'
    && OccursAt(s, addr, q + |display| + 1) && s[q + |display| + 1 + |addr|] == '>'
  }

  /** The pieces of a bracketed address lie where it was put. */
  lemma BracketLayout(s: string, i: nat, display: string, addr: string)
    requires OccursAt(s, display + "<" + addr + ">", i)
    ensures BracketedLayout(s, i, display, addr)
  {
    var v := display + "<" + addr + ">";
    assert s[i..i + |v|] == v;
    assert s[i..i + |display|] == s[i..i + |v|][..|display|];
    assert v[..|display|] == display;
    var a := i + |display| + 1;
    forall k | 0 <= k < |addr| ensures s[a + k] == addr[k] {
      assert s[a + k] == s[i..i + |v|][|display| + 1 + k];
    }
    assert s[a..a + |addr|] == addr;
    assert s[i + |display|] == v[|display|];
    assert s[i + |display| + 1 + |addr|] == v[|display| + 1 + |addr|];
  }

  /** `[^<\r\n]*<[^>]+>` at `q`, followed by what `\s*$` matches, captures
      the bracketed address together with the text in front of it. */
  lemma BracketedAt(s: string, q: nat, display: string, addr: string, j: nat)
    requires OccursAt(s, display, q) && forall c :: c in display ==> c !in {'<', '\r', '\n'}
    requires q + |display| + |addr| + 1 < |s| && s[q + |display|] == '<'
    requires OccursAt(s, addr, q + |display| + 1) && addr != [] && '>' !in addr
    requires s[q + |display| + 1 + |addr|] == '>'
    requires j == q + |display| + |addr| + 2 && LineTail(s, j)
    ensures Bracketed(s, q) == Some(s[q..j])
  {
    var r := q + |display|;
    DisplayRunEnd(s, q, display);
    AddressRunEnd(s, r + 1, addr);
    BracketedIs(s, q, r, r + 1 + |addr|, j);
  }

  /** `[^<\r\n]*` over `display` stops at the `<` after it. */
  lemma DisplayRunEnd(s: string, q: nat, display: string)
    requires OccursAt(s, display, q) && forall c :: c in display ==> c !in {'<', '\r', '\n'}
    requires q + |display| < |s| && s[q + |display|] == '<'
    ensures RunEnd(s, q, {'<', '\r', '\n'}) == q + |display|
  {
    RunEndAt(s, q, display, {'<', '\r', '\n'});
  }

  /** `[^>]+` over `addr` stops at the `>` after it. */
  lemma AddressRunEnd(s: string, i: nat, addr: string)
    requires OccursAt(s, addr, i) && i + |addr| < |s| && s[i + |addr|] == '>' && '>' !in addr
    ensures RunEnd(s, i, {'>'}) == i + |addr|
  {
    RunEndAt(s, i, addr, {'>'});
  }

  /** The first address alternative, with both runs' ends given. */
  lemma BracketedIs(s: string, q: nat, r: nat, e: nat, j: nat)
    requires q <= r < |s| && r == RunEnd(s, q, {'<', '\r', '\n'}) && s[r] == '<'
    requires e == RunEnd(s, r + 1, {'>'}) && r + 1 < e < |s| && LineTail(s, e + 1) && j == e + 1
    ensures Bracketed(s, q) == Some(s[q..j])
  {
  }

  /** `display<addr>` as the first address alternative reads it: the
      display name holds no `<` and no line break and does not open with
      whitespace, and the address is not empty and holds no `>`. */
  predicate BracketedForm(display: string, addr: string) {
    (display == [] || !IsSpace(display[0]))
    && (forall c :: c in display ==> c !in {'<', '\r', '\n'})
    && addr != [] && '>' !in addr
  }

  /** A display name that does not open with whitespace, or the `<` after
      an empty one: the address does not open with whitespace. */
  lemma AddressOpens(s: string, q: nat, display: string)
    requires display == [] || !IsSpace(display[0])
    requires OccursAt(s, display, q) && q + |display| < |s| && s[q + |display|] == '<'
    ensures !IsSpace(s[q])
  {
    if display != [] {
      assert s[q] == s[q..q + |display|][0];
    }
  }

  /** Where the first alternative matches at the end `q` of the leading
      whitespace, the From/To group is its capture. */
  lemma AddressGroupBracketed(s: string, a: nat, q: nat, g: string)
    requires a <= |s| && q == SkipSpaces(s, a) && Bracketed(s, q) == Some(g)
    ensures AddressGroup(s, a) == Some(g)
  {
  }

  /** Whitespace up to `q`, then `display<addr>` and the end of the line:
      the From/To group is `display<addr>`. */
  lemma BracketedGroupAt(s: string, a: nat, q: nat, display: string, addr: string, j: nat)
    requires display == [] || !IsSpace(display[0])
    requires forall c :: c in display ==> c !in {'<', '\r', '\n'}
    requires SpacesBetween(s, a, q) && BracketedLayout(s, q, display, addr)
    requires addr != [] && '>' !in addr
    requires j == q + |display| + |addr| + 2 && LineTail(s, j)
    ensures AddressGroup(s, a) == Some(s[q..j])
  {
    AddressOpens(s, q, display);
    SkipTo(s, a, q);
    BracketedAt(s, q, display, addr, j);
    AddressGroupBracketed(s, a, q, s[q..j]);
  }

  /** The From/To pattern's group is the address group. */
  lemma AddressGroupIs(s: string, f: Field, a: nat)
    requires f == From || f == To
    requires a <= |s|
    ensures Group(s, f, a) == AddressGroup(s, a)
  {
  }

  /** The first labelled From/To line yields its address group, which is
      already trimmed. */
  lemma AddressHeaderAt(s: string, f: Field, n: nat, g: string)
    requires f == From || f == To
    requires FirstLabelled(s, f, n) && n + |Label(f)| <= |s|
    requires AddressGroup(s, n + |Label(f)|) == Some(g) && IsTrimmed(g)
    ensures ExtractHeader(s, f) == g
  {
    AddressGroupIs(s, f, n + |Label(f)|);
    HeaderAt(s, f, n, g);
  }

  /** `display<addr>`, `display` not opening with whitespace, is trimmed. */
  lemma AddressTrimmed(display: string, addr: string)
    requires display == [] || !IsSpace(display[0])
    ensures IsTrimmed(display + "<" + addr + ">")
  {
    var v := display + "<" + addr + ">";
    assert v[0] == if display == [] then '<' else display[0];
    assert v[|v| - 1] == '>';
  }

  /** Whitespace from `a` up to `q`, then `display<addr>` and the end of the
      line: the From/To group is `display<addr>`. */
  lemma BracketedValueGroup(s: string, a: nat, q: nat, display: string, addr: string, v: string)
    requires BracketedForm(display, addr) && v == display + "<" + addr + ">"
    requires SpacesBetween(s, a, q) && OccursAt(s, v, q) && LineTail(s, q + |v|)
    ensures AddressGroup(s, a) == Some(v) && IsTrimmed(v)
  {
    BracketLayout(s, q, display, addr);
    assert |v| == |display| + |addr| + 2;
    BracketedGroupAt(s, a, q, display, addr, q + |v|);
    AddressTrimmed(display, addr);
  }

  /** The pieces of `w + v + t + "\r\n" + rest`, with `w` and `t` whitespace. */
  lemma ValueTail(w: string, v: string, t: string, rest: string)
    requires AllSpace(t)
    ensures var x := w + v + t + "\r\n" + rest;
      OccursAt(x, w, 0) && OccursAt(x, v, |w|) && EndsLine(x, |w| + |v|, |w| + |v| + |t| + 1)
  {
    var x := w + v + t + "\r\n" + rest;
    assert x[..|w|] == w;
    assert x[|w|..|w| + |v|] == v;
    var m := |w| + |v|;
    forall k | m <= k < m + |t| + 1 ensures IsSpace(x[k]) {
      if k < m + |t| {
        assert x[k] == t[k - m];
      }
    }
  }

  /** The same pieces, `d` further on in a text that ends with them. */
  lemma ValueIn(s: string, d: nat, tail: string, w: string, v: string, p: nat)
    requires EndsWith(s, d, tail) && OccursAt(tail, w, 0) && AllSpace(w)
    requires OccursAt(tail, v, |w|) && EndsLine(tail, |w| + |v|, p)
    ensures SpacesBetween(s, d, d + |w|) && OccursAt(s, v, d + |w|)
    ensures EndsLine(s, d + |w| + |v|, d + p)
  {
    OccursInTail(s, d, tail, 0, w);
    SpacesAt(s, d, w);
    OccursInTail(s, d, tail, |w|, v);
    EndsLineInTail(s, d, tail, |w| + |v|, p);
  }

  /** Where a From/To value lies in a text that ends, from `d`, with
      `w + v + t + "\r\n" + rest`. */
  lemma ValuePlaced(s: string, d: nat, w: string, v: string, t: string, rest: string)
    requires EndsWith(s, d, w + v + t + "\r\n" + rest) && AllSpace(w) && AllSpace(t)
    ensures SpacesBetween(s, d, d + |w|) && OccursAt(s, v, d + |w|)
    ensures EndsLine(s, d + |w| + |v|, d + |w| + |v| + |t| + 1)
  {
    ValueTail(w, v, t, rest);
    ValueIn(s, d, w + v + t + "\r\n" + rest, w, v, |w| + |v| + |t| + 1);
  }

  /** A text that ends, from `d`, with whitespace, `display<addr>`,
      whitespace and a line break: the From/To group from `d` is
      `display<addr>`. */
  lemma BracketedValue(s: string, d: nat, w: string, display: string, addr: string, t: string,
                       rest: string)
    requires EndsWith(s, d, w + (display + "<" + addr + ">") + t + "\r\n" + rest)
    requires AllSpace(w) && AllSpace(t)
    requires BracketedForm(display, addr)
    ensures AddressGroup(s, d) == Some(display + "<" + addr + ">")
    ensures IsTrimmed(display + "<" + addr + ">")
  {
    var v := display + "<" + addr + ">";
    var q := d + |w|;
    ValuePlaced(s, d, w, v, t, rest);
    EndsLineTail(s, q + |v|, q + |v| + |t| + 1);
    BracketedValueGroup(s, d, q, display, addr, v);
  }

  /** Grouping the address line's pieces around the value. */
  lemma AddressLine(pre: string, name: string, w: string, display: string, addr: string,
                    t: string, rest: string)
    ensures pre + name + w + display + "<" + addr + ">" + t + "\r\n" + rest
         == pre + name + (w + (display + "<" + addr + ">") + t + "\r\n" + rest)
  {
  }

  /** `AddressFound`, with the pieces after the label grouped together. */
  lemma AddressLabelled(f: Field, pre: string, name: string, w: string, display: string,
                        addr: string, t: string, rest: string)
    requires f == From || f == To
    requires LinesBefore(pre, f) && SpellsLabel(name, f) && AllSpace(w) && AllSpace(t)
    requires BracketedForm(display, addr)
    ensures ExtractHeader(pre + name + (w + (display + "<" + addr + ">") + t + "\r\n" + rest), f)
         == display + "<" + addr + ">"
  {
    var tail := w + (display + "<" + addr + ">") + t + "\r\n" + rest;
    LabelLayout(f, pre, name, tail);
    BracketedValue(pre + name + tail, |pre| + |Label(f)|, w, display, addr, t, rest);
    AddressHeaderAt(pre + name + tail, f, |pre|, display + "<" + addr + ">");
  }

  /** A line `From:` (or `To:`), whitespace, `Display Name <address>`, then
      whitespace up to the line break, yields `Display Name <address>`
      whatever the letter case of the label, when no earlier line opens with
      the label. */
  lemma AddressFound(f: Field, pre: string, name: string, w: string, display: string,
                     addr: string, t: string, rest: string)
    requires f == From || f == To
    requires LinesBefore(pre, f) && SpellsLabel(name, f) && AllSpace(w) && AllSpace(t)
    requires BracketedForm(display, addr)
    ensures ExtractHeader(pre + name + w + display + "<" + addr + ">" + t + "\r\n" + rest, f)
         == display + "<" + addr + ">"
  {
    AddressLine(pre, name, w, display, addr, t, rest);
    AddressLabelled(f, pre, name, w, display, addr, t, rest);
  }

  /** A bare `user@host` word: no whitespace, an `@` with a character on
      each side, and no `<`, so that the first alternative cannot match. */
  predicate BareForm(addr: string) {
    |addr| >= 3 && (exists k :: 0 < k < |addr| - 1 && addr[k] == '@')
    && forall k :: 0 <= k < |addr| ==> addr[k] != '<' && !IsSpace(addr[k])
  }

  /** A text without `<`, then whitespace up to a line feed: the first
      address alternative fails, as `[^<\r\n]*` stops before any `<`. */
  lemma BracketedFails(s: string, q: nat, addr: string, p: nat)
    requires OccursAt(s, addr, q) && '<' !in addr && EndsLine(s, q + |addr|, p)
    ensures Bracketed(s, q).None?
  {
    var stop := {'<', '\r', '\n'};
    var r := RunEnd(s, q, stop);
    assert s[p] in stop;
    assert r <= p;
    if r < q + |addr| {
      assert s[r] == s[q..q + |addr|][r - q];
    }
  }

  /** Whitespace up to `q`, then a bare address and the end of the line:
      the From/To group is the address. */
  lemma BareGroupAt(s: string, a: nat, q: nat, addr: string, p: nat)
    requires BareForm(addr)
    requires SpacesBetween(s, a, q) && OccursAt(s, addr, q) && EndsLine(s, q + |addr|, p)
    ensures AddressGroup(s, a) == Some(addr)
  {
    var w := q + |addr|;
    assert addr[0] in addr;
    assert s[q] == s[q..w][0];
    SkipTo(s, a, q);
    BracketedFails(s, q, addr, p);
    forall k | q <= k < w ensures !IsSpace(s[k]) {
      assert s[k] == s[q..w][k - q];
    }
    assert IsSpace(s[w]);
    assert SkipNonSpaces(s, q) == w;
    var k :| 0 < k < |addr| - 1 && addr[k] == '@';
    assert s[q + k] == addr[k];
    assert s[q + 1..w - 1][k - 1] == '@';
    EndsLineTail(s, w, p);
    BareRun(s, q, w);
  }

  /** A run of non-space characters from `q` to `w` with an inner `@`, then
      the end of the line: the bare alternative captures the run. */
  lemma BareRun(s: string, q: nat, w: nat)
    requires q <= |s| && w == SkipNonSpaces(s, q)
    requires q + 2 <= w && '@' in s[q + 1..w - 1] && LineTail(s, w)
    ensures BareAddress(s, q) == Some(s[q..w])
  {
  }

  /** A text that ends, from `d`, with whitespace, a bare address,
      whitespace and a line break: the From/To group from `d` is the
      address. */
  lemma BareValue(s: string, d: nat, w: string, addr: string, t: string, rest: string)
    requires EndsWith(s, d, w + addr + t + "\r\n" + rest) && AllSpace(w) && AllSpace(t)
    requires BareForm(addr)
    ensures AddressGroup(s, d) == Some(addr) && IsTrimmed(addr)
  {
    ValuePlaced(s, d, w, addr, t, rest);
    BareGroupAt(s, d, d + |w|, addr, d + |w| + |addr| + |t| + 1);
    assert addr[0] in addr && addr[|addr| - 1] in addr;
  }

  /** Grouping the bare address line's pieces around the address. */
  lemma BareLine(pre: string, name: string, w: string, addr: string, t: string, rest: string)
    ensures pre + name + w + addr + t + "\r\n" + rest
         == pre + name + (w + addr + t + "\r\n" + rest)
  {
  }

  /** A line `From:` (or `To:`), whitespace, `user@host`, then whitespace up
      to the line break, yields the address whatever the letter case of the
      label, when no earlier line opens with the label. */
  lemma BareAddressFound(f: Field, pre: string, name: string, w: string, addr: string,
                         t: string, rest: string)
    requires f == From || f == To
    requires LinesBefore(pre, f) && SpellsLabel(name, f) && AllSpace(w) && AllSpace(t)
    requires BareForm(addr)
    ensures ExtractHeader(pre + name + w + addr + t + "\r\n" + rest, f) == addr
  {
    BareLine(pre, name, w, addr, t, rest);
    BareLabelled(f, pre, name, w, addr, t, rest);
  }

  /** The bare address line with its pieces grouped after the label. */
  lemma BareLabelled(f: Field, pre: string, name: string, w: string, addr: string,
                     t: string, rest: string)
    requires f == From || f == To
    requires LinesBefore(pre, f) && SpellsLabel(name, f) && AllSpace(w) && AllSpace(t)
    requires BareForm(addr)
    ensures ExtractHeader(pre + name + (w + addr + t + "\r\n" + rest), f) == addr
  {
    var tail := w + addr + t + "\r\n" + rest;
    LabelLayout(f, pre, name, tail);
    BareHeaderAt(pre + name + tail, f, |pre|, w, addr, t, rest);
  }

  /** The first labelled line at `n` carries, after the label, whitespace,
      a bare address and whitespace up to the line break: the header's value
      is the address. */
  lemma BareHeaderAt(s: string, f: Field, n: nat, w: string, addr: string, t: string,
                     rest: string)
    requires f == From || f == To
    requires FirstLabelled(s, f, n) && EndsWith(s, n + |Label(f)|, w + addr + t + "\r\n" + rest)
    requires AllSpace(w) && AllSpace(t) && BareForm(addr)
    ensures ExtractHeader(s, f) == addr
  {
    BareValue(s, n + |Label(f)|, w, addr, t, rest);
    AddressHeaderAt(s, f, n, addr);
  }

  // Properties of the boundary lookup.

  /** `s` holds `boundary="b"` at index `p`, with `b` non-empty and free of quotes. */
  predicate DeclaresBoundary(s: string, p: nat, b: string) {
    b != [] && '"' !in b && p + |BoundaryKey| + |b| < |s|
    && s[p..p + |BoundaryKey|] == BoundaryKey
    && s[p + |BoundaryKey|..p + |BoundaryKey| + |b|] == b
    && s[p + |BoundaryKey| + |b|] == '"'
  }

  /** The boundary pattern captures `b` at `p` exactly when `s` declares `b` there. */
  lemma BoundaryAt(s: string, p: nat, b: string)
    requires p <= |s|
    ensures MatchAt(s, BoundaryParam, p) == Some(b) <==> DeclaresBoundary(s, p, b)
  {
    var n := |BoundaryKey|;
    if MatchAt(s, BoundaryParam, p) == Some(b) {
      assert s[p..][..n] == s[p..p + n];
      var e := RunEnd(s, p + n, {'"'});
      assert b == s[p + n..e];
    }
    if DeclaresBoundary(s, p, b) {
      assert s[p..][..n] == s[p..p + n];
      var e := RunEnd(s, p + n, {'"'});
      forall k | p + n <= k < p + n + |b| ensures s[k] != '"' {
        assert s[k] == b[k - p - n];
      }
      assert e == p + n + |b|;
    }
  }

  /** The message is multipart exactly when it declares a boundary, and the
      first declaration supplies it. */
  lemma BoundaryDetection(s: string)
    ensures Search(s, BoundaryParam).None? <==> forall p, b :: !DeclaresBoundary(s, p, b)
    ensures Search(s, BoundaryParam).Some? ==>
              exists p :: DeclaresBoundary(s, p, Search(s, BoundaryParam).value)
                          && forall p', b' :: p' < p ==> !DeclaresBoundary(s, p', b')
  {
    forall p, b | DeclaresBoundary(s, p, b) ensures MatchAt(s, BoundaryParam, p) == Some(b) {
      BoundaryAt(s, p, b);
    }
    match FirstMatch(s, BoundaryParam)
    case None =>
    case Some(p) =>
      var b := MatchAt(s, BoundaryParam, p).value;
      BoundaryAt(s, p, b);
  }

  /** Without a quote character the message is single-part. */
  lemma NoQuoteNoBoundary(s: string)
    requires '"' !in s
    ensures Search(s, BoundaryParam).None?
  {
    BoundaryDetection(s);
    assert forall p: nat, b :: !DeclaresBoundary(s, p, b);
  }

  // Properties of the bodies.

  /** The first blank line of `head + BlankLine + body` is the one after
      `head`, when `head` followed by CR LF CR holds none. */
  lemma FirstBlankLine(head: string, body: string)
    requires !Contains(head + "\r\n\r", BlankLine)
    ensures Find(head + BlankLine + body, BlankLine) == Some(|head|)
  {
    var t := head + BlankLine + body;
    var h := |head|;
    assert OccursAt(t, BlankLine, h) by { assert t[h..h + 4] == BlankLine; }
    forall j | 0 <= j < h ensures !OccursAt(t, BlankLine, j) {
      if OccursAt(t, BlankLine, j) {
        var u := head + "\r\n\r";
        assert t[..h + 3] == u;
        assert u[j..j + 4] == t[j..j + 4];
        assert OccursAt(u, BlankLine, j);
      }
    }
  }

  /** Single-part: the plain body is everything after the first blank line. */
  lemma SinglePartAfterFirstBlankLine(head: string, body: string)
    requires !Contains(head + "\r\n\r", BlankLine)
    ensures SinglePartContent(head + BlankLine + body) == EmailContent(Some(body), None)
  {
    FirstBlankLine(head, body);
    assert (head + BlankLine + body)[|head| + 4..] == body;
  }

  /** A segment that holds text, a `Content-Type:` match and a blank line
      yields the trimmed capture and the trimmed text from the first blank
      line on. */
  lemma SectionAt(part: string, k: nat, g: string)
    requires !AllSpace(part) && Find(part, BlankLine) == Some(k)
    requires Search(part, PartContentType) == Some(g)
    ensures SectionOf(part) == Some(Section(Strip(g), Strip(part[k..])))
  {
  }

  /** A `Content-Type:` match makes a segment more than whitespace. */
  lemma TypedNotBlank(part: string)
    requires Search(part, PartContentType).Some?
    ensures !AllSpace(part)
  {
    var p := FirstMatch(part, PartContentType).value;
    assert LabelAt(part, Label(ContentType), p);
    assert Lower(part[p]) == Lower(Label(ContentType)[0]);
  }

  /** After the head, the text of the segment trims to the trimmed rest. */
  lemma SectionTail(head: string, rest: string)
    ensures Strip((head + BlankLine + rest)[|head|..]) == Strip(rest)
  {
    assert (head + BlankLine + rest)[|head|..] == BlankLine + rest;
    StripAfterSpace(BlankLine, rest);
  }

  /** A multipart segment laid out as a head, its first blank line and the
      rest: it yields the trimmed capture of its first `Content-Type:` match
      and the trimmed rest. */
  lemma SectionFound(head: string, rest: string, g: string)
    requires !Contains(head + "\r\n\r", BlankLine)
    requires Search(head + BlankLine + rest, PartContentType) == Some(g)
    ensures SectionOf(head + BlankLine + rest) == Some(Section(Strip(g), Strip(rest)))
  {
    var part := head + BlankLine + rest;
    FirstBlankLine(head, rest);
    TypedNotBlank(part);
    SectionAt(part, |head|, g);
    SectionTail(head, rest);
  }

  /** Single-part without a blank line: the plain body is `""`. */
  lemma SinglePartWithoutBlankLine(text: string)
    requires !Contains(text, BlankLine)
    ensures SinglePartContent(text) == EmailContent(Some(""), None)
  {
  }

  /** A segment supplies the body of kind `k`. */
  predicate Qualifies(part: string, k: BodyKind) {
    SectionOf(part).Some? && SectionOf(part).value.contentType == MimeType(k)
  }

  /** One iteration changes the body of kind `k` exactly when the part qualifies. */
  lemma AbsorbBody(c: EmailContent, part: string, k: BodyKind)
    ensures Body(Absorb(c, part), k) ==
              if Qualifies(part, k) then Some(SectionOf(part).value.body) else Body(c, k)
  {
  }

  /** The index of the last element of `parts` that satisfies `q`, if any. */
  function LastWhere(parts: seq<string>, q: string -> bool): (r: Option<nat>)
    ensures r.Some? ==> r.value < |parts| && q(parts[r.value])
                        && forall j :: r.value < j < |parts| ==> !q(parts[j])
    ensures r.None? ==> forall j :: 0 <= j < |parts| ==> !q(parts[j])
    decreases |parts|
  {
    if parts == [] then None
    else if q(parts[|parts| - 1]) then Some(|parts| - 1)
    else
      var init := parts[..|parts| - 1];
      assert forall j :: 0 <= j < |init| ==> init[j] == parts[j];
      LastWhere(init, q)
  }

  /** Multipart, last-wins: a body is `None` exactly when no part qualifies
      for it, and otherwise it is the trimmed body of the last part that does. */
  lemma {:induction false} LastQualifyingPartWins(parts: seq<string>, k: BodyKind)
    ensures Body(AbsorbAll(parts), k) ==
              match LastWhere(parts, part => Qualifies(part, k))
              case None => None
              case Some(i) => Some(SectionOf(parts[i]).value.body)
    ensures Body(AbsorbAll(parts), k).Some? ==> IsTrimmed(Body(AbsorbAll(parts), k).value)
    decreases |parts|
  {
    if parts != [] {
      var n := |parts| - 1;
      var init := parts[..n];
      LastQualifyingPartWins(init, k);
      AbsorbBody(AbsorbAll(init), parts[n], k);
      assert init == parts[..|parts| - 1];
    }
  }

  // Properties of the whole message.

  /** The typed headers are the raw map's entries, and the map has the seven keys. */
  lemma TypedHeadersMatchRaw(text: string)
    ensures var m := MessageOf(text);
      m.rawHeaders.Keys == HeaderKeys
      && m.headers.fromAddr == m.rawHeaders["from"] && m.headers.toAddr == m.rawHeaders["to"]
      && m.headers.subject == m.rawHeaders["subject"] && m.headers.date == m.rawHeaders["date"]
      && m.headers.messageId == m.rawHeaders["message_id"]
      && m.headers.contentType == m.rawHeaders["content_type"]
      && m.headers.mimeVersion == m.rawHeaders["mime_version"]
  {
    HeaderMapKeys(text);
  }

  /** The content is multipart exactly when a boundary is declared, split on
      the first declared one. */
  lemma ContentChoice(text: string)
    ensures (forall p, b :: !DeclaresBoundary(text, p, b)) ==>
              MessageOf(text).content == SinglePartContent(text)
    ensures forall p, b :: DeclaresBoundary(text, p, b)
                           && (forall p', b' :: p' < p ==> !DeclaresBoundary(text, p', b'))
                           ==> MessageOf(text).content == MultipartContent(text, b)
  {
    BoundaryDetection(text);
    forall p, b | DeclaresBoundary(text, p, b)
                  && (forall p', b' :: p' < p ==> !DeclaresBoundary(text, p', b'))
      ensures MessageOf(text).content == MultipartContent(text, b)
    {
      var g := Search(text, BoundaryParam).value;
      var p0 :| DeclaresBoundary(text, p0, g) && forall p', b' :: p' < p0 ==> !DeclaresBoundary(text, p', b');
      assert p0 == p;
      BoundaryAt(text, p, b);
      BoundaryAt(text, p, g);
    }
  }

  const ExampleText: string := "Subject: hi\r\n\r\nBody text"

  /** The message `Subject: hi`, a blank line and `Body text` has the
      subject `hi`. */
  lemma ExampleSubject()
    ensures ExtractHeader(ExampleText, Subject) == "hi"
  {
    ExampleLayout();
    assert SpellsLabel("Subject:", Subject);
    assert !IsSpace(" hi"[1]);
    OneLineHeaderFound(Subject, "", "Subject:", " hi", '\r', "\n\r\nBody text");
    HiStripped();
  }

  /** The example message cut into the pieces `OneLineHeaderFound` names. */
  lemma ExampleLayout()
    ensures ExampleText == "" + "Subject:" + " hi" + ['\r'] + "\n\r\nBody text"
  {
  }

  /** The subject line's value, stripped. */
  lemma HiStripped()
    ensures Strip(" hi") == "hi"
  {
    StripAfterSpace(" ", "hi");
    assert " " + "hi" == " hi";
  }

  /** It declares no boundary. */
  lemma ExampleNoBoundary()
    ensures Search(ExampleText, BoundaryParam).None?
  {
    assert forall i :: 0 <= i < |ExampleText| ==> ExampleText[i] != '"';
    NoQuoteNoBoundary(ExampleText);
  }

  /** Its single-part content is the plain body `Body text`, with no HTML body. */
  lemma ExampleBody()
    ensures SinglePartContent(ExampleText) == EmailContent(Some("Body text"), None)
  {
    var head := "Subject: hi";
    var u := head + "\r\n\r";
    forall k | 0 <= k <= |u| - 4 ensures !OccursAt(u, BlankLine, k) {
      assert u[k..k + 4][0] == u[k] && u[k..k + 4][2] == u[k + 2];
    }
    assert ExampleText == head + BlankLine + "Body text";
    SinglePartAfterFirstBlankLine(head, "Body text");
  }
}
