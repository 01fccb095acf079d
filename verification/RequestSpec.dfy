/**
 The incremental HTTP request parser on values: one attempt per state, repeated over a buffer
 until an attempt has to wait for more bytes. Tables and codecs are parameters.
 */
module RequestSpec {
  import opened Bytes

  type Text = seq<Byte>

  const SP: Byte := 32
  const CR: Byte := 13
  const LF: Byte := 10
  const COLON: Byte := 58
  const QUESTION: Byte := 63

  datatype Error = Http(code: nat) | Other(code: nat)

  const BAD_REQUEST := Http(400)
  const NOT_IMPLEMENTED := Http(501)
  const FIELDS_TOO_LARGE := Http(431)
  const PAYLOAD_TOO_LARGE := Http(413)
  const INVALID_ARG := Other(1)

  datatype Result<+T> = Ok(value: T) | Err(error: Error)

  datatype Method = Get | Head | OtherMethod(id: nat)

  datatype HeaderId = Cookie | ContentLength | Connection | ContentType | AnyHeader

  datatype Encoding = NoEncoding | FormUrlEncoded | MultipartFormData

  datatype Pair = Pair(key: Text, value: Text)

  datatype Part = Part(name: Text, filename: Text, contentType: Text, content: Text)

  /** The generated tables and the small codecs, each a fixed function of a complete piece of text. */
  datatype Codecs = Codecs(
    findMethod: Text -> Option<Method>,
    lower: Text -> Option<Text>,               // None: the name does not fit the arena
    headerId: Text -> HeaderId,
    cookies: Text -> Result<seq<Pair>>,
    keepAlive: Text -> Option<bool>,           // "close" and "keep-alive"
    encoding: Text -> Option<Encoding>,
    queryVars: Text -> Result<seq<Pair>>,
    formVars: Text -> Result<seq<Pair>>,
    multipart: (seq<Pair>, Text) -> Result<seq<Part>>)

  datatype Request = Request(
    verb: Method, path: Text, query: Text, version: nat, close: bool, body: Text,
    headers: seq<Pair>, cookies: seq<Pair>, queryVars: seq<Pair>, formVars: seq<Pair>, parts: seq<Part>)

  datatype State = InMethod | InPath | InVersion | InHeaders | InBody | Done

  datatype Parser = Parser(state: State, contentLen: nat, encoding: Encoding, request: Request)

  const START := Parser(InMethod, 0, NoEncoding, Request(Get, [], [], 0, false, [], [], [], [], [], []))

  predicate HeaderDone(p: Parser) {
    p.state == InBody || p.state == Done
  }

  /** A body is only waited for when one was announced. */
  predicate Valid(p: Parser) {
    p.state == InBody ==> 0 < p.contentLen
  }

  // ---------- Scanning ----------

  predicate TokenChar(c: Byte) {
    33 <= c < 127 && c !in [34, 60, 62, 91, 92, 93, 123, 125]
  }

  predicate UriChar(c: Byte) {
    33 <= c < 127 && c !in [34, 60, 62, 91, 92, 93, 94, 96, 123, 124, 125]
  }

  predicate PathStop(c: Byte) {
    c == SP || c == QUESTION
  }

  datatype Scan = Stopped(at: nat) | Refused | OutOfBytes

  /** The first stop character at or after `i`, unless a forbidden one or the end comes first. */
  function ScanFor(s: Text, i: nat, allowed: Byte -> bool, stop: Byte -> bool): (r: Scan)
    requires i <= |s|
    ensures r.Stopped? ==> i <= r.at < |s| && stop(s[r.at])
    decreases |s| - i
  {
    if i == |s| then OutOfBytes
    else if stop(s[i]) then Stopped(i)
    else if !allowed(s[i]) then Refused
    else ScanFor(s, i + 1, allowed, stop)
  }

  function FindFirst(s: Text, i: nat, c: Byte): (r: Option<nat>)
    requires i <= |s|
    ensures r.Some? ==> i <= r.value < |s| && s[r.value] == c
    ensures r.Some? ==> forall j :: i <= j < r.value ==> s[j] != c
    ensures r.None? ==> forall j :: i <= j < |s| ==> s[j] != c
    decreases |s| - i
  {
    if i == |s| then None else if s[i] == c then Some(i) else FindFirst(s, i + 1, c)
  }

  function StopAt(c: Byte): Byte -> bool {
    x => x == c
  }

  function ScanToken(s: Text, until: Byte): Scan {
    ScanFor(s, 0, TokenChar, StopAt(until))
  }

  function ScanSegment(s: Text): Scan {
    ScanFor(s, 0, UriChar, PathStop)
  }

  predicate Blank(c: Byte) {
    c == SP || c == 9
  }

  function TrimLeft(s: Text): Text {
    if s != [] && Blank(s[0]) then TrimLeft(s[1..]) else s
  }

  function TrimRight(s: Text): Text {
    if s != [] && Blank(s[|s| - 1]) then TrimRight(s[..|s| - 1]) else s
  }

  function Trim(s: Text): Text {
    TrimRight(TrimLeft(s))
  }

  predicate Printable(s: Text) {
    forall i :: 0 <= i < |s| ==> 32 <= s[i] <= 126
  }

  /** Decimal digits, accumulated in an `unsigned int` that wraps. */
  function ToUint(s: Text): Option<nat> {
    if s == [] then Some(0)
    else
      match ToUint(s[..|s| - 1])
      case None => None
      case Some(n) =>
        var c := s[|s| - 1];
        if 48 <= c <= 57 then Some((n * 10 + (c as nat - 48)) % 0x1_0000_0000) else None
  }

  // ---------- One attempt per state ----------

  /** `Advance` took `n` bytes; `Wait` needs more of them and may already have stored the path. */
  datatype Attempt = Advance(n: nat, p: Parser) | Wait(p: Parser) | Fail(error: Error)

  function DoMethod(c: Codecs, p: Parser, b: Text): Attempt {
    match ScanToken(b, SP)
    case Refused => Fail(BAD_REQUEST)
    case OutOfBytes => Wait(p)
    case Stopped(i) =>
      if i == 0 then Fail(BAD_REQUEST)
      else
        match c.findMethod(b[..i])
        case None => Fail(NOT_IMPLEMENTED)
        case Some(m) => Advance(i + 1, p.(state := InPath, request := p.request.(verb := m)))
  }

  function SetQuery(c: Codecs, p: Parser, query: Text): Parser {
    var vars := match c.queryVars(query) case Ok(v) => p.request.queryVars + v case Err(_) => [];
    p.(state := InVersion, request := p.request.(query := query, queryVars := vars))
  }

  function DoPath(c: Codecs, p: Parser, b: Text): Attempt {
    match ScanSegment(b)
    case Refused => Fail(BAD_REQUEST)
    case OutOfBytes => Wait(p)
    case Stopped(i) =>
      var q := p.(request := p.request.(path := b[..i]));
      if b[i] == QUESTION then
        var rest := b[i + 1..];
        match ScanSegment(rest)
        case Refused => Fail(BAD_REQUEST)
        case OutOfBytes => Wait(q)
        case Stopped(j) => Advance(i + 1 + (j + 1), SetQuery(c, q, rest[..j]))
      else Advance(i + 1, q.(state := InVersion, request := q.request.(query := [])))
  }

  predicate VersionOk(v: Text) {
    && |v| == 8
    && v[..7] == [72, 84, 84, 80, 47, 49, 46]  // HTTP/1.
    && 48 <= v[7] <= 57
  }

  function DoVersion(p: Parser, b: Text): Attempt {
    match FindFirst(b, 0, CR)
    case None => Wait(p)
    case Some(n) =>
      if n + 1 == |b| then Wait(p)
      else if b[n + 1] != LF || !VersionOk(b[..n]) then Fail(BAD_REQUEST)
      else Advance(n + 2, p.(state := InHeaders, request := p.request.(version := b[7] as nat - 48)))
  }

  function AddHeader(p: Parser, name: Text, value: Text): Parser {
    p.(request := p.request.(headers := p.request.headers + [Pair(name, value)]))
  }

  function HandleHeader(c: Codecs, p: Parser, name: Text, value: Text): Result<Parser> {
    match c.lower(name)
    case None => Err(FIELDS_TOO_LARGE)
    case Some(lower) =>
      match c.headerId(lower)
      case Cookie =>
        (match c.cookies(value)
         case Err(e) => Err(e)
         case Ok(pairs) => Ok(p.(request := p.request.(cookies := p.request.cookies + pairs))))
      case ContentLength =>
        (match ToUint(value)
         case None => Err(INVALID_ARG)
         case Some(n) => Ok(p.(contentLen := n)))
      case Connection =>
        var q := (match c.keepAlive(value)
                  case None => p
                  case Some(keep) => p.(request := p.request.(close := !keep)));
        Ok(AddHeader(q, lower, value))
      case ContentType =>
        var q := match c.encoding(value) case None => p case Some(e) => p.(encoding := e);
        Ok(AddHeader(q, lower, value))
      case AnyHeader => Ok(AddHeader(p, lower, value))
  }

  function EndOfHeaders(p: Parser): Attempt {
    if p.contentLen == 0 then Advance(2, p.(state := Done, request := p.request.(body := [])))
    else if p.request.verb == Get || p.request.verb == Head then Fail(BAD_REQUEST)
    else Advance(2, p.(state := InBody))
  }

  function DoHeader(c: Codecs, p: Parser, b: Text): Attempt {
    match FindFirst(b, 0, CR)
    case None => Wait(p)
    case Some(n) =>
      if n + 1 == |b| then Wait(p)
      else if b[n + 1] != LF then Fail(BAD_REQUEST)
      else if n == 0 then EndOfHeaders(p)
      else
        match ScanToken(b, COLON)
        case Refused => Fail(BAD_REQUEST)
        case OutOfBytes => Wait(p)
        case Stopped(i) =>
          if i == 0 then Fail(BAD_REQUEST)
          else
            CrEndsToken(b, n, i);
            var value := b[i + 1..n];
            if !Printable(value) then Fail(BAD_REQUEST)
            else
              match HandleHeader(c, p, Trim(b[..i]), Trim(value))
              case Err(e) => Fail(e)
              case Ok(q) => Advance(n + 2, q)
  }

  /** A carriage return is no token character, so a name never reaches past the end of its line. */
  lemma CrEndsToken(b: Text, n: nat, i: nat)
    requires n < |b| && b[n] == CR && ScanToken(b, COLON) == Stopped(i)
    ensures i < n
  {
    ScanPasses(b, 0, TokenChar, StopAt(COLON));
  }

  lemma {:induction false} ScanPasses(s: Text, i: nat, allowed: Byte -> bool, stop: Byte -> bool)
    requires i <= |s| && ScanFor(s, i, allowed, stop).Stopped?
    ensures forall j :: i <= j < ScanFor(s, i, allowed, stop).at ==> allowed(s[j]) && !stop(s[j])
    decreases |s| - i
  {
    if !stop(s[i]) {
      ScanPasses(s, i + 1, allowed, stop);
    }
  }

  function SetBody(c: Codecs, p: Parser, body: Text): Result<Request> {
    match p.encoding
    case FormUrlEncoded =>
      (match c.formVars(body)
       case Err(e) => Err(e)
       case Ok(vars) => Ok(p.request.(formVars := p.request.formVars + vars, body := body)))
    case MultipartFormData =>
      (match c.multipart(p.request.headers, body)
       case Err(e) => Err(e)
       case Ok(parts) => Ok(p.request.(parts := p.request.parts + parts, body := body)))
    case NoEncoding => Ok(p.request.(body := body))
  }

  function DoBody(c: Codecs, p: Parser, b: Text): Attempt {
    if |b| < p.contentLen then Wait(p)
    else
      match SetBody(c, p, b[..p.contentLen])
      case Err(e) => Fail(e)
      case Ok(request) => Advance(p.contentLen, p.(state := Done, request := request))
  }

  function ParseNext(c: Codecs, p: Parser, b: Text): (a: Attempt)
    requires Valid(p)
    ensures a.Advance? ==> 0 < a.n <= |b| && Valid(a.p)
    ensures a.Wait? ==> Valid(a.p) && a.p.state == p.state
  {
    match p.state
    case InMethod => DoMethod(c, p, b)
    case InPath => DoPath(c, p, b)
    case InVersion => DoVersion(p, b)
    case InHeaders => DoHeader(c, p, b)
    case InBody => DoBody(c, p, b)
    case Done => Wait(p)
  }

  // ---------- The parse loop ----------

  datatype Outcome = Parsed(p: Parser, n: nat) | Failed(error: Error) {
    function After(k: nat): Outcome {
      if Parsed? then Parsed(p, n + k) else this
    }
  }

  function Parse(c: Codecs, p: Parser, data: Text): (r: Outcome)
    requires Valid(p)
    ensures r.Parsed? ==> Valid(r.p) && r.n <= |data|
    decreases |data|
  {
    if data == [] then Parsed(p, 0)
    else
      match ParseNext(c, p, data)
      case Fail(e) => Failed(e)
      case Wait(q) => Parsed(q, 0)
      case Advance(n, q) => if q.state == Done then Parsed(q, n) else Parse(c, q, data[n..]).After(n)
  }

  // ---------- Fragmentation ----------

  lemma {:induction false} ScanGrows(s: Text, t: Text, i: nat, allowed: Byte -> bool, stop: Byte -> bool)
    requires i <= |s|
    ensures ScanFor(s, i, allowed, stop) != OutOfBytes ==>
              ScanFor(s + t, i, allowed, stop) == ScanFor(s, i, allowed, stop)
    decreases |s| - i
  {
    if i < |s| && !stop(s[i]) && allowed(s[i]) {
      ScanGrows(s, t, i + 1, allowed, stop);
    }
  }

  lemma {:induction false} FindGrows(s: Text, t: Text, i: nat, c: Byte)
    requires i <= |s|
    ensures FindFirst(s, i, c).Some? ==> FindFirst(s + t, i, c) == FindFirst(s, i, c)
    decreases |s| - i
  {
    if i < |s| && s[i] != c {
      FindGrows(s, t, i + 1, c);
    }
  }

  lemma MethodGrows(c: Codecs, p: Parser, a: Text, b: Text)
    ensures !DoMethod(c, p, a).Wait? ==> DoMethod(c, p, a + b) == DoMethod(c, p, a)
  {
    ScanGrows(a, b, 0, TokenChar, StopAt(SP));
    var r := ScanToken(a, SP);
    assert r.Stopped? ==> (a + b)[..r.at] == a[..r.at];
  }

  lemma PathGrows(c: Codecs, p: Parser, a: Text, b: Text)
    ensures var r := DoPath(c, p, a);
            DoPath(c, p, a + b) == if r.Wait? then DoPath(c, r.p, a + b) else r
  {
    ScanGrows(a, b, 0, UriChar, PathStop);
    var r := ScanSegment(a);
    if r.Stopped? {
      var i := r.at;
      assert (a + b)[..i] == a[..i] && (a + b)[i] == a[i];
      if a[i] == QUESTION {
        var rest := a[i + 1..];
        assert (a + b)[i + 1..] == rest + b;
        ScanGrows(rest, b, 0, UriChar, PathStop);
        var r' := ScanSegment(rest);
        assert r'.Stopped? ==> (rest + b)[..r'.at] == rest[..r'.at];
      }
    }
  }

  lemma VersionGrows(p: Parser, a: Text, b: Text)
    ensures !DoVersion(p, a).Wait? ==> DoVersion(p, a + b) == DoVersion(p, a)
  {
    FindGrows(a, b, 0, CR);
    var r := FindFirst(a, 0, CR);
    assert r.Some? ==> (a + b)[..r.value] == a[..r.value];
  }

  lemma HeaderGrows(c: Codecs, p: Parser, a: Text, b: Text)
    ensures !DoHeader(c, p, a).Wait? ==> DoHeader(c, p, a + b) == DoHeader(c, p, a)
  {
    FindGrows(a, b, 0, CR);
    ScanGrows(a, b, 0, TokenChar, StopAt(COLON));
    var n, r := FindFirst(a, 0, CR), ScanToken(a, COLON);
    if n.Some? && r.Stopped? {
      CrEndsToken(a, n.value, r.at);
      assert (a + b)[..r.at] == a[..r.at];
      assert (a + b)[r.at + 1..n.value] == a[r.at + 1..n.value];
    }
  }

  /** A header line that is complete never makes the parser wait. */
  lemma CompleteLineDecides(c: Codecs, p: Parser, b: Text)
    requires FindFirst(b, 0, CR).Some? && FindFirst(b, 0, CR).value + 1 < |b|
    ensures !DoHeader(c, p, b).Wait?
  {
    TokenBeforeCr(b, 0, FindFirst(b, 0, CR).value);
  }

  lemma {:induction false} TokenBeforeCr(b: Text, i: nat, n: nat)
    requires i <= n < |b| && b[n] == CR
    ensures ScanFor(b, i, TokenChar, StopAt(COLON)) != OutOfBytes
    decreases n - i
  {
    if i < n && b[i] != COLON && TokenChar(b[i]) {
      TokenBeforeCr(b, i + 1, n);
    }
  }

  lemma BodyGrows(c: Codecs, p: Parser, a: Text, b: Text)
    ensures !DoBody(c, p, a).Wait? ==> DoBody(c, p, a + b) == DoBody(c, p, a)
  {
    if p.contentLen <= |a| {
      assert (a + b)[..p.contentLen] == a[..p.contentLen];
    }
  }

  /** A decision taken on part of the bytes is the decision on all of them; after a wait the attempt can be repeated. */
  lemma AttemptGrows(c: Codecs, p: Parser, a: Text, b: Text)
    requires Valid(p)
    ensures var r := ParseNext(c, p, a);
            ParseNext(c, p, a + b) == if r.Wait? then ParseNext(c, r.p, a + b) else r
  {
    match p.state
    case InMethod => MethodGrows(c, p, a, b);
    case InPath => PathGrows(c, p, a, b);
    case InVersion => VersionGrows(p, a, b);
    case InHeaders => HeaderGrows(c, p, a, b);
    case InBody => BodyGrows(c, p, a, b);
    case Done =>
  }

  /** What is left to do after `r`, when `b` follows the bytes `a` it looked at. */
  function Resume(c: Codecs, a: Text, r: Outcome, b: Text): Outcome
    requires r.Parsed? ==> Valid(r.p) && r.n <= |a|
  {
    match r
    case Failed(_) => r
    case Parsed(q, n) => Parse(c, q, a[n..] + b).After(n)
  }

  lemma SkipTwice(a: Text, n: nat, m: nat)
    requires n + m <= |a|
    ensures a[n..][m..] == a[m + n..]
  {
  }

  lemma ResumeAfter(c: Codecs, a: Text, n: nat, s: Outcome, b: Text)
    requires n <= |a| && (s.Parsed? ==> Valid(s.p) && s.n <= |a[n..]|)
    ensures Resume(c, a, s.After(n), b) == Resume(c, a[n..], s, b).After(n)
  {
    if s.Parsed? {
      SkipTwice(a, n, s.n);
    }
  }

  /** Parsing a prefix and then the unconsumed remainder with the rest is parsing everything at once. */
  lemma {:induction false} ParseResumes(c: Codecs, p: Parser, a: Text, b: Text)
    requires Valid(p)
    ensures Parse(c, p, a + b) == Resume(c, a, Parse(c, p, a), b)
    decreases |a|
  {
    if a == [] {
      assert a + b == b && a[0..] + b == b;
    } else {
      AttemptGrows(c, p, a, b);
      match ParseNext(c, p, a)
      case Fail(_) =>
      case Wait(q) =>
        assert a[0..] + b == a + b;
      case Advance(n, q) =>
        assert (a + b)[n..] == a[n..] + b;
        if q.state == Done {
          assert Parse(c, q, a[n..] + b) == Parsed(q, 0);
        } else {
          ParseResumes(c, q, a[n..], b);
          ResumeAfter(c, a, n, Parse(c, q, a[n..]), b);
        }
    }
  }

  /** A parser with the bytes it has not consumed yet. */
  datatype Feed = Live(p: Parser, pending: Text) | Dead(error: Error)

  predicate ValidFeed(f: Feed) {
    f.Live? ==> Valid(f.p)
  }

  function ToFeed(data: Text, r: Outcome): Feed
    requires r.Parsed? ==> r.n <= |data|
  {
    match r
    case Failed(e) => Dead(e)
    case Parsed(q, n) => Live(q, data[n..])
  }

  function FeedBytes(c: Codecs, f: Feed, chunk: Text): (r: Feed)
    requires ValidFeed(f)
    ensures ValidFeed(r)
  {
    match f
    case Dead(_) => f
    case Live(p, pending) =>
      ToFeed(pending + chunk, Parse(c, p, pending + chunk))
  }

  function FeedAll(c: Codecs, f: Feed, chunks: seq<Text>): (r: Feed)
    requires ValidFeed(f)
    ensures ValidFeed(r)
    decreases |chunks|
  {
    if chunks == [] then f else FeedAll(c, FeedBytes(c, f, chunks[0]), chunks[1..])
  }

  lemma FeedTwice(c: Codecs, f: Feed, a: Text, b: Text)
    requires ValidFeed(f)
    ensures FeedBytes(c, FeedBytes(c, f, a), b) == FeedBytes(c, f, a + b)
  {
    if f.Live? {
      var data := f.pending + a;
      assert f.pending + (a + b) == data + b;
      FeedResumes(c, f.p, data, b);
    }
  }

  lemma RestBehind(data: Text, n: nat, b: Text, r: Outcome)
    requires n <= |data| && (r.Parsed? ==> r.n <= |data[n..] + b|)
    ensures r.Parsed? ==> (data[n..] + b)[r.n..] == (data + b)[r.n + n..]
  {
  }

  lemma FeedResumes(c: Codecs, p: Parser, data: Text, b: Text)
    requires Valid(p)
    ensures FeedBytes(c, ToFeed(data, Parse(c, p, data)), b) == ToFeed(data + b, Parse(c, p, data + b))
  {
    ParseResumes(c, p, data, b);
    var s := Parse(c, p, data);
    if s.Parsed? {
      RestBehind(data, s.n, b, Parse(c, s.p, data[s.n..] + b));
    }
  }

  /** Request fragmentation is unobservable: any number of pieces give what the whole gives. */
  lemma {:induction false} FragmentationIsUnobservable(c: Codecs, f: Feed, first: Text, chunks: seq<Text>)
    requires ValidFeed(f)
    ensures FeedAll(c, FeedBytes(c, f, first), chunks) == FeedBytes(c, f, first + Concat(chunks))
    decreases |chunks|
  {
    if chunks == [] {
      assert first + Concat(chunks) == first;
    } else {
      assert FeedBytes(c, FeedBytes(c, f, first), chunks[0]) == FeedBytes(c, f, first + chunks[0]) by {
        FeedTwice(c, f, first, chunks[0]);
      }
      FragmentationIsUnobservable(c, f, first + chunks[0], chunks[1..]);
      Associate(first, chunks[0], Concat(chunks[1..]));
    }
  }
}
