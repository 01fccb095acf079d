/**
 What the request parser makes of a request as a client writes it (sections 3 and 6 of RFC 9112):
 each piece of the text ends up in its own field, and nothing after the request is taken.
 */
module RequestRoundTrip {
  import opened Bytes
  import opened RequestSpec

  datatype Line = Line(verb: Text, path: Text, query: Option<Text>, minor: nat)

  const CRLF: Text := [CR, LF]
  const HTTP_1: Text := [72, 84, 84, 80, 47, 49, 46]

  predicate IsToken(t: Text, until: Byte) {
    t != [] && forall i :: 0 <= i < |t| ==> TokenChar(t[i]) && t[i] != until
  }

  /** Characters of a path or query; a question mark ends either of them. */
  predicate IsSegment(t: Text) {
    forall i :: 0 <= i < |t| ==> UriChar(t[i]) && !PathStop(t[i])
  }

  predicate WellFormedLine(l: Line) {
    IsToken(l.verb, SP) && IsSegment(l.path) && (l.query.Some? ==> IsSegment(l.query.value)) && l.minor < 10
  }

  function Target(l: Line): Text {
    l.path + (if l.query.Some? then [QUESTION] + l.query.value else []) + [SP]
  }

  function Version(minor: nat): Text
    requires minor < 10
  {
    HTTP_1 + [(48 + minor) as Byte]
  }

  function LineWire(l: Line): Text
    requires WellFormedLine(l)
  {
    l.verb + [SP] + Target(l) + Version(l.minor) + CRLF
  }

  predicate WellFormedHeader(h: Pair) {
    IsToken(h.key, COLON) && Printable(h.value)
  }

  predicate WellFormedHeaders(hs: seq<Pair>) {
    forall i :: 0 <= i < |hs| ==> WellFormedHeader(hs[i])
  }

  function HeaderWire(h: Pair): Text {
    h.key + [COLON] + h.value + CRLF
  }

  function HeaderLines(hs: seq<Pair>): Text {
    if hs == [] then [] else HeaderWire(hs[0]) + HeaderLines(hs[1..])
  }

  /** The meaning of a header section: each field in turn. */
  function ApplyHeaders(c: Codecs, p: Parser, hs: seq<Pair>): Result<Parser>
    decreases |hs|
  {
    if hs == [] then Ok(p)
    else
      match HandleHeader(c, p, Trim(hs[0].key), Trim(hs[0].value))
      case Err(e) => Err(e)
      case Ok(q) => ApplyHeaders(c, q, hs[1..])
  }

  /** The request line's fields, stored. */
  function AfterLine(c: Codecs, l: Line, verb: Method): Parser
    requires l.minor < 10
  {
    var vars :=
      match l.query
      case None => []
      case Some(q) => match c.queryVars(q) case Ok(v) => v case Err(_) => [];
    var query := if l.query.Some? then l.query.value else [];
    START.(state := InHeaders, request := START.request.(
      verb := verb, path := l.path, query := query, queryVars := vars, version := l.minor))
  }

  // ---------- Finding the separators ----------

  lemma {:induction false} ScanFinds(s: Text, i: nat, n: nat, allowed: Byte -> bool, stop: Byte -> bool)
    requires i <= n < |s| && stop(s[n])
    requires forall j :: i <= j < n ==> allowed(s[j]) && !stop(s[j])
    ensures ScanFor(s, i, allowed, stop) == Stopped(n)
    decreases n - i
  {
    if i < n {
      ScanFinds(s, i + 1, n, allowed, stop);
    }
  }

  lemma CrFound(s: Text, n: nat)
    requires n < |s| && s[n] == CR && forall j :: 0 <= j < n ==> s[j] != CR
    ensures FindFirst(s, 0, CR) == Some(n)
  {
  }

  lemma TokenFound(t: Text, until: Byte, rest: Text)
    requires IsToken(t, until)
    ensures ScanToken(t + [until] + rest, until) == Stopped(|t|)
  {
    var s := t + [until] + rest;
    assert forall j :: 0 <= j < |t| ==> s[j] == t[j];
    ScanFinds(s, 0, |t|, TokenChar, StopAt(until));
  }

  lemma SegmentFound(t: Text, stop: Byte, rest: Text)
    requires IsSegment(t) && PathStop(stop)
    ensures ScanSegment(t + [stop] + rest) == Stopped(|t|)
  {
    var s := t + [stop] + rest;
    assert forall j :: 0 <= j < |t| ==> s[j] == t[j];
    ScanFinds(s, 0, |t|, UriChar, PathStop);
  }

  // ---------- One piece at a time ----------

  lemma MethodParses(c: Codecs, p: Parser, verb: Text, rest: Text)
    requires IsToken(verb, SP)
    ensures DoMethod(c, p, verb + [SP] + rest) ==
      match c.findMethod(verb)
      case None => Fail(NOT_IMPLEMENTED)
      case Some(m) => Advance(|verb| + 1, p.(state := InPath, request := p.request.(verb := m)))
  {
    TokenFound(verb, SP, rest);
    assert (verb + [SP] + rest)[..|verb|] == verb;
  }

  lemma QueryParses(c: Codecs, p: Parser, path: Text, query: Text, stop: Byte, rest: Text)
    requires IsSegment(path) && IsSegment(query) && PathStop(stop)
    ensures DoPath(c, p, path + [QUESTION] + query + [stop] + rest) ==
      Advance(|path| + |query| + 2, SetQuery(c, p.(request := p.request.(path := path)), query))
  {
    var tail := query + [stop] + rest;
    var b := path + [QUESTION] + query + [stop] + rest;
    SegmentFound(path, QUESTION, tail);
    assert b == path + [QUESTION] + tail && b[..|path|] == path;
    assert b[|path| + 1..] == tail;
    SegmentFound(query, stop, rest);
    assert tail[..|query|] == query;
  }

  lemma TargetParses(c: Codecs, p: Parser, l: Line, rest: Text)
    requires WellFormedLine(l)
    ensures var q := p.(request := p.request.(path := l.path));
            DoPath(c, p, Target(l) + rest) == Advance(|Target(l)|,
              match l.query
              case None => q.(state := InVersion, request := q.request.(query := []))
              case Some(query) => SetQuery(c, q, query))
  {
    var b := Target(l) + rest;
    match l.query
    case None =>
      SegmentFound(l.path, SP, rest);
      assert b == l.path + [SP] + rest && b[..|l.path|] == l.path;
    case Some(query) =>
      QueryParses(c, p, l.path, query, SP, rest);
      assert b == l.path + [QUESTION] + query + [SP] + rest;
  }

  lemma VersionParses(p: Parser, minor: nat, rest: Text)
    requires minor < 10
    ensures DoVersion(p, Version(minor) + CRLF + rest) ==
              Advance(10, p.(state := InHeaders, request := p.request.(version := minor)))
  {
    var b := Version(minor) + CRLF + rest;
    assert b[..8] == Version(minor);
    assert forall j :: 0 <= j < 8 ==> b[j] == Version(minor)[j];
    CrFound(b, 8);
    assert Version(minor)[..7] == HTTP_1;
  }

  lemma HeaderParses(c: Codecs, p: Parser, h: Pair, rest: Text)
    requires WellFormedHeader(h)
    ensures DoHeader(c, p, HeaderWire(h) + rest) ==
      match HandleHeader(c, p, Trim(h.key), Trim(h.value))
      case Err(e) => Fail(e)
      case Ok(q) => Advance(|HeaderWire(h)|, q)
  {
    var b, i := HeaderWire(h) + rest, |h.key|;
    var n := i + 1 + |h.value|;
    TokenFound(h.key, COLON, h.value + CRLF + rest);
    assert b == h.key + [COLON] + (h.value + CRLF + rest);
    assert b[..i] == h.key && b[i + 1..n] == h.value;
    assert forall j :: 0 <= j < i ==> b[j] == h.key[j];
    assert forall j :: 0 <= j < |h.value| ==> b[i + 1 + j] == h.value[j];
    assert forall j :: i + 1 <= j < n ==> b[j] == h.value[j - i - 1];
    CrFound(b, n);
  }

  // ---------- The pieces in sequence ----------

  lemma ParseAdvances(c: Codecs, p: Parser, data: Text, n: nat, q: Parser)
    requires Valid(p) && data != [] && ParseNext(c, p, data) == Advance(n, q) && q.state != Done
    ensures Parse(c, p, data) == Parse(c, q, data[n..]).After(n)
  {
  }

  lemma LineParses(c: Codecs, l: Line, verb: Method, rest: Text)
    requires WellFormedLine(l) && c.findMethod(l.verb) == Some(verb)
    ensures Parse(c, START, LineWire(l) + rest) == Parse(c, AfterLine(c, l, verb), rest).After(|LineWire(l)|)
  {
    var afterTarget := Version(l.minor) + CRLF + rest;
    var afterVerb := Target(l) + afterTarget;
    var all := LineWire(l) + rest;
    var n1, n2 := |l.verb| + 1, |Target(l)|;
    var p1 := START.(state := InPath, request := START.request.(verb := verb));
    assert all == l.verb + [SP] + afterVerb;
    assert Parse(c, START, all) == Parse(c, p1, afterVerb).After(n1) by {
      MethodParses(c, START, l.verb, afterVerb);
      assert all[n1..] == afterVerb;
    }
    TargetParses(c, p1, l, afterTarget);
    var p2 := DoPath(c, p1, afterVerb).p;
    assert Parse(c, p1, afterVerb) == Parse(c, p2, afterTarget).After(n2) by {
      assert afterVerb[n2..] == afterTarget;
      ParseAdvances(c, p1, afterVerb, n2, p2);
    }
    var r := Parse(c, AfterLine(c, l, verb), rest);
    assert Parse(c, p2, afterTarget) == r.After(10) by {
      VersionParses(p2, l.minor, rest);
      assert afterTarget[10..] == rest;
      ParseAdvances(c, p2, afterTarget, 10, AfterLine(c, l, verb));
    }
    AfterTwice(r, 10, n2);
    AfterTwice(r, 10 + n2, n1);
  }

  lemma HandleHeaderKeepsState(c: Codecs, p: Parser, name: Text, value: Text)
    ensures var r := HandleHeader(c, p, name, value);
            r.Ok? ==> r.value.state == p.state && r.value.request.verb == p.request.verb
  {
  }

  lemma AfterTwice(r: Outcome, a: nat, b: nat)
    ensures r.After(a).After(b) == r.After(a + b)
  {
  }

  lemma {:induction false} HeadersParse(c: Codecs, p: Parser, hs: seq<Pair>, rest: Text)
    requires p.state == InHeaders && WellFormedHeaders(hs)
    ensures var r := ApplyHeaders(c, p, hs);
            var parsed := Parse(c, p, HeaderLines(hs) + rest);
            if r.Err? then parsed == Failed(r.error)
            else r.value.state == InHeaders && parsed == Parse(c, r.value, rest).After(|HeaderLines(hs)|)
    decreases |hs|
  {
    if hs == [] {
      assert HeaderLines(hs) + rest == rest;
    } else {
      var h, more := hs[0], hs[1..];
      var tail := HeaderLines(more) + rest;
      assert HeaderLines(hs) + rest == HeaderWire(h) + tail;
      var r := HandleHeader(c, p, Trim(h.key), Trim(h.value));
      OneHeaderParses(c, p, h, tail);
      if r.Ok? {
        HeadersParse(c, r.value, more, rest);
        var q := ApplyHeaders(c, r.value, more);
        if q.Ok? {
          AfterTwice(Parse(c, q.value, rest), |HeaderLines(more)|, |HeaderWire(h)|);
        }
      }
    }
  }

  lemma OneHeaderParses(c: Codecs, p: Parser, h: Pair, tail: Text)
    requires p.state == InHeaders && WellFormedHeader(h)
    ensures var r := HandleHeader(c, p, Trim(h.key), Trim(h.value));
            var parsed := Parse(c, p, HeaderWire(h) + tail);
            if r.Err? then parsed == Failed(r.error)
            else r.value.state == InHeaders && parsed == Parse(c, r.value, tail).After(|HeaderWire(h)|)
  {
    var all := HeaderWire(h) + tail;
    HeaderParses(c, p, h, tail);
    HandleHeaderKeepsState(c, p, Trim(h.key), Trim(h.value));
    assert all[|HeaderWire(h)|..] == tail;
  }

  /** What the end of the header section and the announced body lead to. */
  function Finish(c: Codecs, p: Parser, body: Text): Result<Request>
    requires |body| == p.contentLen
  {
    if p.contentLen == 0 then Ok(p.request.(body := []))
    else if p.request.verb == Get || p.request.verb == Head then Err(BAD_REQUEST)
    else SetBody(c, p, body)
  }

  lemma BodyParses(c: Codecs, p: Parser, body: Text, rest: Text)
    requires p.state == InHeaders && |body| == p.contentLen
    ensures match Finish(c, p, body)
            case Err(e) => Parse(c, p, CRLF + body + rest) == Failed(e)
            case Ok(request) =>
              Parse(c, p, CRLF + body + rest) == Parsed(p.(state := Done, request := request), 2 + |body|)
  {
    var all := CRLF + body + rest;
    assert all[0] == CR && all[1] == LF;
    CrFound(all, 0);
    assert ParseNext(c, p, all) == EndOfHeaders(p);
    if p.contentLen != 0 && p.request.verb != Get && p.request.verb != Head {
      var q := p.(state := InBody);
      assert all[2..] == body + rest;
      ParseAdvances(c, p, all, 2, q);
      assert (body + rest)[..|body|] == body;
    }
  }

  /**
   A whole request reads back: method, path, query, version, every header in order and the body,
   and the bytes that follow it are left alone.
   */
  lemma RequestReadsBack(c: Codecs, l: Line, verb: Method, hs: seq<Pair>, body: Text, rest: Text)
    requires WellFormedLine(l) && c.findMethod(l.verb) == Some(verb) && WellFormedHeaders(hs)
    requires ApplyHeaders(c, AfterLine(c, l, verb), hs).Ok?
    requires ApplyHeaders(c, AfterLine(c, l, verb), hs).value.contentLen == |body|
    ensures var p := ApplyHeaders(c, AfterLine(c, l, verb), hs).value;
            var wire := LineWire(l) + HeaderLines(hs) + CRLF + body;
            Parse(c, START, wire + rest) ==
              match Finish(c, p, body)
              case Err(e) => Failed(e)
              case Ok(request) => Parsed(p.(state := Done, request := request), |wire|)
  {
    hide ApplyHeaders;
    var p0 := AfterLine(c, l, verb);
    var p := ApplyHeaders(c, p0, hs).value;
    var end := CRLF + body + rest;
    assert LineWire(l) + HeaderLines(hs) + CRLF + body + rest == LineWire(l) + (HeaderLines(hs) + end);
    LineParses(c, l, verb, HeaderLines(hs) + end);
    HeadersParse(c, p0, hs, end);
    BodyParses(c, p, body, rest);
    AfterTwice(Parse(c, p, end), |HeaderLines(hs)|, |LineWire(l)|);
  }

  /** Only the headers decide the stored fields; a header section leaves the request line's fields alone. */
  lemma {:induction false} HeadersKeepLine(c: Codecs, p: Parser, hs: seq<Pair>)
    requires ApplyHeaders(c, p, hs).Ok?
    ensures var q := ApplyHeaders(c, p, hs).value;
            && q.request.verb == p.request.verb && q.request.path == p.request.path
            && q.request.query == p.request.query && q.request.queryVars == p.request.queryVars
            && q.request.version == p.request.version
    decreases |hs|
  {
    if hs != [] {
      HeadersKeepLine(c, HandleHeader(c, p, Trim(hs[0].key), Trim(hs[0].value)).value, hs[1..]);
    }
  }

  /**
   A question mark inside the query, which section 3.4 of RFC 3986 allows, ends it: the rest is
   taken for the protocol version and the request is refused.
   */
  lemma SecondQuestionMarkRefused(c: Codecs, l: Line, verb: Method, more: Text, rest: Text)
    requires WellFormedLine(l) && l.query.Some? && c.findMethod(l.verb) == Some(verb)
    requires forall j :: 0 <= j < |more| ==> more[j] != CR
    ensures Parse(c, START,
              l.verb + [SP] + l.path + [QUESTION] + l.query.value + [QUESTION] + more + [SP]
              + Version(l.minor) + CRLF + rest) == Failed(BAD_REQUEST)
  {
    var version := more + [SP] + Version(l.minor);
    var target := l.path + [QUESTION] + l.query.value + [QUESTION] + (version + CRLF + rest);
    assert l.verb + [SP] + target ==
      l.verb + [SP] + l.path + [QUESTION] + l.query.value + [QUESTION] + more + [SP] + Version(l.minor) + CRLF + rest;
    VerbParses(c, l.verb, verb, target);
    NoVersionAfterQuestion(c, START.(state := InPath, request := START.request.(verb := verb)),
      l.path, l.query.value, version, rest);
  }

  lemma VerbParses(c: Codecs, name: Text, verb: Method, target: Text)
    requires IsToken(name, SP) && c.findMethod(name) == Some(verb)
    ensures var p := START.(state := InPath, request := START.request.(verb := verb));
            Parse(c, START, name + [SP] + target) == Parse(c, p, target).After(|name| + 1)
  {
    MethodParses(c, START, name, target);
    assert (name + [SP] + target)[|name| + 1..] == target;
  }

  lemma NoVersionAfterQuestion(c: Codecs, p: Parser, path: Text, query: Text, version: Text, rest: Text)
    requires p.state == InPath && IsSegment(path) && IsSegment(query)
    requires 8 < |version| && forall j :: 0 <= j < |version| ==> version[j] != CR
    ensures Parse(c, p, path + [QUESTION] + query + [QUESTION] + (version + CRLF + rest)) == Failed(BAD_REQUEST)
  {
    var end := version + CRLF + rest;
    var target := path + [QUESTION] + query + [QUESTION] + end;
    QueryParses(c, p, path, query, QUESTION, end);
    assert target[|path| + |query| + 2..] == end;
    LongVersionRefused(SetQuery(c, p.(request := p.request.(path := path)), query), version, rest);
  }

  lemma LongVersionRefused(p: Parser, version: Text, rest: Text)
    requires 8 < |version| && forall j :: 0 <= j < |version| ==> version[j] != CR
    ensures DoVersion(p, version + CRLF + rest) == Fail(BAD_REQUEST)
  {
    var b := version + CRLF + rest;
    assert forall j :: 0 <= j < |version| ==> b[j] == version[j];
    CrFound(b, |version|);
    assert b[..|version|] == version;
  }

  /** Characters that section 3.4 of RFC 3986 allows in a query, as far as the parser's table does: "?" is one. */
  predicate IsQuery(t: Text) {
    forall i :: 0 <= i < |t| ==> UriChar(t[i])
  }

  /** A request line with any query. */
  function QueryLine(verb: Text, path: Text, query: Text, minor: nat): Text
    requires minor < 10
  {
    verb + [SP] + path + [QUESTION] + query + [SP] + Version(minor) + CRLF
  }

  lemma {:induction false} FirstQuestion(query: Text, i: nat)
    requires i <= |query| && forall j :: 0 <= j < i ==> query[j] != QUESTION
    requires QUESTION in query
    ensures exists k :: i <= k < |query| && query[k] == QUESTION && forall j :: 0 <= j < k ==> query[j] != QUESTION
    decreases |query| - i
  {
    if query[i] != QUESTION {
      FirstQuestion(query, i + 1);
    }
  }

  lemma QuestionRefused(c: Codecs, name: Text, verb: Method, path: Text, query: Text, minor: nat, rest: Text)
    requires IsToken(name, SP) && c.findMethod(name) == Some(verb) && IsSegment(path) && IsQuery(query) && minor < 10
    requires QUESTION in query
    ensures Parse(c, START, QueryLine(name, path, query, minor) + rest) == Failed(BAD_REQUEST)
  {
    FirstQuestion(query, 0);
    var k :| 0 <= k < |query| && query[k] == QUESTION && forall j :: 0 <= j < k ==> query[j] != QUESTION;
    var l, more := Line(name, path, Some(query[..k]), minor), query[k + 1..];
    assert query == query[..k] + [QUESTION] + more;
    SecondQuestionMarkRefused(c, l, verb, more, rest);
    SplitQuery(name + [SP] + path + [QUESTION], query[..k], more);
  }

  lemma SplitQuery(before: Text, a: Text, b: Text)
    ensures before + (a + [QUESTION] + b) == before + a + [QUESTION] + b
  {
  }

  lemma NoQuestionAccepted(c: Codecs, name: Text, verb: Method, path: Text, query: Text, minor: nat, rest: Text)
    requires IsToken(name, SP) && c.findMethod(name) == Some(verb) && IsSegment(path) && IsQuery(query) && minor < 10
    requires QUESTION !in query
    ensures var line := QueryLine(name, path, query, minor);
            Parse(c, START, line + rest) ==
              Parse(c, AfterLine(c, Line(name, path, Some(query), minor), verb), rest).After(|line|)
  {
    hide Parse;
    var l := Line(name, path, Some(query), minor);
    assert forall i :: 0 <= i < |query| ==> query[i] != QUESTION;
    LineParses(c, l, verb, rest);
    assert LineWire(l) == QueryLine(name, path, query, minor);
  }

  /** A request line with a query is accepted if and only if no question mark is in the query. */
  lemma QueryAcceptedExactly(c: Codecs, name: Text, verb: Method, path: Text, query: Text, minor: nat)
    requires IsToken(name, SP) && c.findMethod(name) == Some(verb) && IsSegment(path) && IsQuery(query) && minor < 10
    ensures Parse(c, START, QueryLine(name, path, query, minor)).Parsed? <==> QUESTION !in query
  {
    var line := QueryLine(name, path, query, minor);
    assert line + [] == line;
    if QUESTION in query {
      QuestionRefused(c, name, verb, path, query, minor, []);
    } else {
      NoQuestionAccepted(c, name, verb, path, query, minor, []);
    }
  }
}
