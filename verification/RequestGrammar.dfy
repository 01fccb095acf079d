/** Which bytes the request parser waits on, refuses and accepts: its language, exactly. */
module RequestGrammar {
  import opened Bytes
  import opened RequestSpec
  import opened RequestRoundTrip

  // ---------- Characters ----------

  /** Letters, digits and most marks: what may stand in a method or a header name. */
  lemma TokenChars(c: Byte)
    ensures TokenChar(c) <==>
            c == 33 || 35 <= c <= 59 || c == 61 || 63 <= c <= 90 || 94 <= c <= 122 || c == 124 || c == 126
  {
  }

  /** ... and in a path or query. */
  lemma UriChars(c: Byte)
    ensures UriChar(c) <==>
            c == 33 || 35 <= c <= 59 || c == 61 || 63 <= c <= 90 || c == 95 || 97 <= c <= 122 || c == 126
  {
  }

  /** A header value has no control characters and nothing beyond ASCII. */
  lemma PrintableExactly(s: Text)
    ensures Printable(s) <==> !exists i :: 0 <= i < |s| && (s[i] < 32 || 127 <= s[i])
  {
  }

  // ---------- Scanning ----------

  /** The first `i` bytes are allowed ones, none of which stops the scan. */
  predicate Passes(s: Text, i: nat, allowed: Byte -> bool, stop: Byte -> bool)
    requires i <= |s|
  {
    forall j :: 0 <= j < i ==> allowed(s[j]) && !stop(s[j])
  }

  lemma {:induction false} ScanFrom(s: Text, i: nat, allowed: Byte -> bool, stop: Byte -> bool)
    requires i <= |s| && Passes(s, i, allowed, stop)
    ensures match ScanFor(s, i, allowed, stop)
            case Stopped(n) => stop(s[n]) && Passes(s, n, allowed, stop)
            case Refused => exists n :: 0 <= n < |s| && !stop(s[n]) && !allowed(s[n]) && Passes(s, n, allowed, stop)
            case OutOfBytes => Passes(s, |s|, allowed, stop)
    decreases |s| - i
  {
    if i < |s| && !stop(s[i]) && allowed(s[i]) {
      ScanFrom(s, i + 1, allowed, stop);
    }
  }

  /** Bytes of a method or name, of which none is the one that ends it. */
  predicate NameBytes(b: Text, until: Byte) {
    forall j :: 0 <= j < |b| ==> TokenChar(b[j]) && b[j] != until
  }

  /** A byte that may not stand in a name comes before the name's end. */
  predicate BadName(b: Text, until: Byte) {
    exists n :: 0 <= n < |b| && NameBytes(b[..n], until) && b[n] != until && !TokenChar(b[n])
  }

  lemma TokenExactly(b: Text, until: Byte)
    ensures match ScanToken(b, until)
            case Stopped(n) => b[n] == until && NameBytes(b[..n], until)
            case Refused => BadName(b, until)
            case OutOfBytes => NameBytes(b, until)
  {
    ScanFrom(b, 0, TokenChar, StopAt(until));
    var r := ScanToken(b, until);
    if r.Refused? {
      var n :| 0 <= n < |b| && b[n] != until && !TokenChar(b[n]) && Passes(b, n, TokenChar, StopAt(until));
      assert NameBytes(b[..n], until);
    }
  }

  predicate PathBytes(b: Text) {
    forall j :: 0 <= j < |b| ==> UriChar(b[j]) && b[j] != 32 && b[j] != 63
  }

  predicate BadPath(b: Text) {
    exists n :: 0 <= n < |b| && PathBytes(b[..n]) && b[n] != 32 && b[n] != 63 && !UriChar(b[n])
  }

  lemma SegmentExactly(b: Text)
    ensures match ScanSegment(b)
            case Stopped(n) => (b[n] == 32 || b[n] == 63) && PathBytes(b[..n])
            case Refused => BadPath(b)
            case OutOfBytes => PathBytes(b)
  {
    ScanFrom(b, 0, UriChar, PathStop);
    var r := ScanSegment(b);
    if r.Refused? {
      var n :| 0 <= n < |b| && !PathStop(b[n]) && !UriChar(b[n]) && Passes(b, n, UriChar, PathStop);
      assert PathBytes(b[..n]);
    }
  }

  // ---------- What each attempt decides ----------

  /** The method attempt waits on a part of a name, refuses bad bytes and unknown methods, and takes the rest. */
  lemma MethodDecides(c: Codecs, p: Parser, b: Text)
    ensures match DoMethod(c, p, b)
            case Wait(q) => q == p && NameBytes(b, 32)
            case Fail(e) =>
              || (e == Http(400) && (BadName(b, 32) || (b != [] && b[0] == 32)))
              || (e == Http(501) && exists n :: 0 < n < |b| && NameBytes(b[..n], 32) && b[n] == 32
                                                  && c.findMethod(b[..n]) == None)
            case Advance(n, q) =>
              && 2 <= n <= |b| && IsToken(b[..n - 1], 32) && b[n - 1] == 32
              && c.findMethod(b[..n - 1]).Some?
              && q == p.(state := InPath, request := p.request.(verb := c.findMethod(b[..n - 1]).value))
  {
    TokenExactly(b, SP);
  }

  /** The path attempt, likewise; the path is stored as soon as it is complete. */
  lemma PathDecides(c: Codecs, p: Parser, b: Text)
    ensures match DoPath(c, p, b)
            case Wait(q) =>
              || (q == p && PathBytes(b))
              || exists i :: 0 <= i < |b| && PathBytes(b[..i]) && b[i] == 63 && PathBytes(b[i + 1..])
                             && q == p.(request := p.request.(path := b[..i]))
            case Fail(e) =>
              && e == Http(400)
              && (|| BadPath(b)
                  || exists i :: 0 <= i < |b| && PathBytes(b[..i]) && b[i] == 63 && BadPath(b[i + 1..]))
            case Advance(n, q) => exists l: Line, sep: Byte :: TargetTaken(c, p, b, n, q, l, sep)
  {
    SegmentExactly(b);
    var r := ScanSegment(b);
    if r.Stopped? {
      var i := r.at;
      if b[i] == 63 {
        var rest := b[i + 1..];
        SegmentExactly(rest);
        var r' := ScanSegment(rest);
        if r'.Stopped? {
          var l := Line([], b[..i], Some(rest[..r'.at]), 0);
          assert b[..i + r'.at + 2] == l.path + [QUESTION] + rest[..r'.at] + [rest[r'.at]];
          assert TargetTaken(c, p, b, i + r'.at + 2, DoPath(c, p, b).p, l, rest[r'.at]);
        }
      } else {
        var l := Line([], b[..i], None, 0);
        assert b[..i + 1] == l.path + [] + [SP];
        assert TargetTaken(c, p, b, i + 1, DoPath(c, p, b).p, l, SP);
      }
    }
  }

  /** What ends the request target: a space, or a second question mark. */
  predicate SepOk(l: Line, sep: Byte) {
    sep == 32 || (l.query.Some? && sep == 63)
  }

  function TargetText(l: Line, sep: Byte): Text {
    l.path + (if l.query.Some? then [63] + l.query.value else []) + [sep]
  }

  /** The first `n` bytes are path and query. */
  predicate TargetTaken(c: Codecs, p: Parser, b: Text, n: nat, q: Parser, l: Line, sep: Byte) {
    && n <= |b| && b[..n] == TargetText(l, sep) && SepOk(l, sep)
    && IsSegment(l.path) && (l.query.Some? ==> IsSegment(l.query.value))
    && q == (var r := p.request.(path := l.path);
             match l.query
             case None => p.(state := InVersion, request := r.(query := []))
             case Some(query) =>
               p.(state := InVersion, request := r.(
                 query := query,
                 queryVars := if c.queryVars(query).Ok? then r.queryVars + c.queryVars(query).value else [])))
  }

  /** The version attempt waits for a line end and takes only "HTTP/1." with one digit. */
  lemma VersionDecides(p: Parser, b: Text)
    ensures match DoVersion(p, b)
            case Wait(q) => q == p && LineOpen(b)
            case Fail(e) => e == Http(400) && !LineOpen(b) && !exists minor: nat :: VersionAt(b, minor)
            case Advance(n, q) =>
              exists minor: nat :: n == 10 && VersionAt(b, minor)
                                   && q == p.(state := InHeaders, request := p.request.(version := minor))
  {
    var r := FindFirst(b, 0, CR);
    if r.Some? && r.value + 1 < |b| {
      var n := r.value;
      if exists minor: nat :: VersionAt(b, minor) {
        var minor: nat :| VersionAt(b, minor);
        assert b[..10][8] == CR && forall j :: 0 <= j < 8 ==> b[j] == b[..10][j] == Version(minor)[j];
        assert n == 8 && b[..8] == Version(minor) && b[9] == b[..10][9] == LF;
        assert Version(minor)[..7] == HTTP_1;
      }
      if DoVersion(p, b).Advance? {
        var minor := b[7] as nat - 48;
        assert b[..8][..7] == HTTP_1 && b[..8] == b[..8][..7] + [b[7]];
        assert b[..10] == b[..8] + [b[8], b[9]];
        assert VersionAt(b, minor);
      }
    }
  }

  /** No line end has come: no CR, or nothing behind the first one. */
  predicate LineOpen(b: Text) {
    forall j :: 0 <= j < |b| - 1 ==> b[j] != 13
  }

  predicate VersionAt(b: Text, minor: nat) {
    minor < 10 && 10 <= |b| && b[..10] == Version(minor) + CRLF
  }

  /** The first line of `b` is a header field. */
  predicate FieldAt(b: Text, n: nat, h: Pair) {
    n <= |b| && WellFormedHeader(h) && b[..n] == HeaderWire(h)
  }

  /** The header attempt waits for a line end, and refuses a line that is neither empty nor a field. */
  lemma HeaderDecides(c: Codecs, p: Parser, b: Text)
    ensures match DoHeader(c, p, b)
            case Wait(q) => q == p && LineOpen(b)
            case Fail(e) =>
              || (e == Http(400) && !LineOpen(b) && !(2 <= |b| && b[..2] == CRLF) && !exists n, h :: FieldAt(b, n, h))
              || (e == Http(400) && 2 <= |b| && b[..2] == CRLF && p.contentLen > 0
                    && (p.request.verb == Get || p.request.verb == Head))
              || exists n, h :: FieldAt(b, n, h) && HandleHeader(c, p, Trim(h.key), Trim(h.value)) == Err(e)
            case Advance(n, q) =>
              || (n == 2 <= |b| && b[..2] == CRLF
                    && q == (if p.contentLen == 0 then p.(state := Done, request := p.request.(body := []))
                             else p.(state := InBody)))
              || exists h :: FieldAt(b, n, h) && HandleHeader(c, p, Trim(h.key), Trim(h.value)) == Ok(q)
  {
    hide HandleHeader, Trim;
    var found := FindFirst(b, 0, CR);
    if found.Some? && found.value + 1 < |b| {
      var n := found.value;
      if b[n + 1] != LF {
        NoFieldHere(b, n);
      } else if n == 0 {
        assert b[..2] == CRLF;
      } else {
        assert b[0] != CR;
        LineDecides(c, p, b, n);
      }
    } else {
      CompleteLineWaits(c, p, b);
    }
  }

  lemma CompleteLineWaits(c: Codecs, p: Parser, b: Text)
    requires FindFirst(b, 0, CR).None? || FindFirst(b, 0, CR).value + 1 == |b|
    ensures DoHeader(c, p, b) == Wait(p) && LineOpen(b)
  {
  }

  /** A field ends with the first CR and the LF behind it. */
  lemma FieldEnds(b: Text, n: nat, m: nat, h: Pair)
    requires n < |b| && b[n] == CR && (forall j :: 0 <= j < n ==> b[j] != CR) && FieldAt(b, m, h)
    ensures m == n + 2 && b[n + 1] == LF && h.key == b[..|h.key|] && |h.key| < n && b[|h.key|] == COLON
    ensures h.value == b[|h.key| + 1..n]
  {
    var i := |h.key|;
    var wire := HeaderWire(h);
    assert wire == b[..m];
    assert forall j :: 0 <= j < i ==> wire[j] == h.key[j];
    assert wire[i] == COLON;
    assert forall j :: 0 <= j < |h.value| ==> wire[i + 1 + j] == h.value[j];
    assert wire[m - 2] == CR && wire[m - 1] == LF;
    assert forall j :: 0 <= j < m ==> b[j] == wire[j];
    assert forall j :: i + 1 <= j < m - 2 ==> b[j] == h.value[j - i - 1];
    assert n == m - 2;
    assert b[..i] == h.key;
  }

  lemma NoFieldHere(b: Text, n: nat)
    requires n + 1 < |b| && b[n] == CR && (forall j :: 0 <= j < n ==> b[j] != CR) && b[n + 1] != LF
    ensures !(b[..2] == CRLF) && !exists m, h :: FieldAt(b, m, h)
    ensures !LineOpen(b)
  {
    forall m, h ensures !FieldAt(b, m, h) {
      if FieldAt(b, m, h) {
        FieldEnds(b, n, m, h);
      }
    }
    assert b[..2][0] == b[0] && b[..2][1] == b[1];
  }

  /** A complete line that is not empty. */
  lemma LineDecides(c: Codecs, p: Parser, b: Text, n: nat)
    requires 0 < n && n + 1 < |b| && b[n] == CR && (forall j :: 0 <= j < n ==> b[j] != CR) && b[n + 1] == LF
    requires FindFirst(b, 0, CR) == Some(n)
    ensures !LineOpen(b) && b[..2] != CRLF
    ensures (DoHeader(c, p, b) == Fail(Http(400)) && !exists m, h :: FieldAt(b, m, h))
            || exists m, h :: m == n + 2 && FieldAt(b, m, h) && DoHeader(c, p, b) == FieldAttempt(c, p, m, h)
  {
    hide DoHeader, HandleHeader, ScanFor, FieldAttempt, TokenChar, NameBytes;
    assert b[..2][0] == b[0] != CR;
    TokenExactly(b, COLON);
    var r := ScanToken(b, COLON);
    if r.Stopped? && 0 < r.at && (CrEndsToken(b, n, r.at); Printable(b[r.at + 1..n])) {
      LineIsField(c, p, b, n, r.at);
    } else {
      LineIsRefused(c, p, b, n);
      forall m, h ensures !FieldAt(b, m, h) {
        if FieldAt(b, m, h) {
          FieldEnds(b, n, m, h);
          FieldIsScanned(b, n, h);
        }
      }
    }
  }

  /** What becomes of a field. */
  function FieldAttempt(c: Codecs, p: Parser, n: nat, h: Pair): Attempt {
    match HandleHeader(c, p, Trim(h.key), Trim(h.value))
    case Err(e) => Fail(e)
    case Ok(q) => Advance(n, q)
  }

  lemma LineIsField(c: Codecs, p: Parser, b: Text, n: nat, i: nat)
    requires 0 < i < n && n + 1 < |b| && FindFirst(b, 0, CR) == Some(n) && b[n] == CR && b[n + 1] == LF
    requires ScanToken(b, COLON) == Stopped(i) && NameBytes(b[..i], COLON) && b[i] == COLON && Printable(b[i + 1..n])
    ensures FieldAt(b, n + 2, Pair(b[..i], b[i + 1..n]))
    ensures DoHeader(c, p, b) == FieldAttempt(c, p, n + 2, Pair(b[..i], b[i + 1..n]))
  {
    hide TokenChar, EndOfHeaders, ScanToken, HandleHeader, Trim;
    assert b[..n + 2] == b[..i] + [COLON] + b[i + 1..n] + CRLF;
  }

  lemma LineIsRefused(c: Codecs, p: Parser, b: Text, n: nat)
    requires 0 < n && n + 1 < |b| && FindFirst(b, 0, CR) == Some(n) && b[n + 1] == LF
    requires var r := ScanToken(b, COLON);
             !(r.Stopped? && 0 < r.at && (CrEndsToken(b, n, r.at); Printable(b[r.at + 1..n])))
    ensures DoHeader(c, p, b) == Fail(Http(400))
  {
    hide HandleHeader, Trim;
    CompleteLineDecides(c, p, b);
  }

  lemma FieldIsScanned(b: Text, n: nat, h: Pair)
    requires n < |b| && WellFormedHeader(h) && |h.key| < n
    requires h.key == b[..|h.key|] && b[|h.key|] == COLON && h.value == b[|h.key| + 1..n]
    ensures ScanToken(b, COLON) == Stopped(|h.key|) && 0 < |h.key| && Printable(b[|h.key| + 1..n])
  {
    assert forall j :: 0 <= j < |h.key| ==> b[j] == h.key[j];
    ScanFinds(b, 0, |h.key|, TokenChar, StopAt(COLON));
  }

  // ---------- The language ----------

  function LineText(l: Line, sep: Byte): Text
    requires l.minor < 10
  {
    l.verb + [SP] + TargetText(l, sep) + Version(l.minor) + CRLF
  }

  /**
   Every such line is taken: the space behind the query, which section 3 of RFC 9112 demands, may as
   well be a question mark.
   */
  lemma SeparatorIsEither(c: Codecs, l: Line, verb: Method, sep: Byte, rest: Text)
    requires WellFormedLine(l) && SepOk(l, sep) && c.findMethod(l.verb) == Some(verb)
    ensures Parse(c, START, LineText(l, sep) + rest) ==
            Parse(c, AfterLine(c, l, verb), rest).After(|LineText(l, sep)|)
  {
    hide Parse, AfterLine;
    if sep == SP {
      assert LineText(l, sep) == LineWire(l);
      LineParses(c, l, verb, rest);
    } else {
      QuestionEndsQuery(c, l, verb, rest);
    }
  }

  lemma VersionLine(c: Codecs, p: Parser, minor: nat, rest: Text)
    requires p.state == InVersion && minor < 10
    ensures var q := p.(state := InHeaders, request := p.request.(version := minor));
            Parse(c, p, Version(minor) + CRLF + rest) == Parse(c, q, rest).After(10)
  {
    hide DoVersion;
    var b := Version(minor) + CRLF + rest;
    VersionParses(p, minor, rest);
    assert b[10..] == rest;
    ParseAdvances(c, p, b, 10, p.(state := InHeaders, request := p.request.(version := minor)));
  }

  lemma QueryLineEnd(c: Codecs, p: Parser, path: Text, query: Text, rest: Text)
    requires p.state == InPath && IsSegment(path) && IsSegment(query)
    ensures var target := path + [QUESTION] + query + [QUESTION];
            var q := SetQuery(c, p.(request := p.request.(path := path)), query);
            Parse(c, p, target + rest) == Parse(c, q, rest).After(|target|)
  {
    hide DoPath;
    var b, n := path + [QUESTION] + query + [QUESTION] + rest, |path| + |query| + 2;
    QueryParses(c, p, path, query, QUESTION, rest);
    assert b[n..] == rest;
    ParseAdvances(c, p, b, n, SetQuery(c, p.(request := p.request.(path := path)), query));
  }

  lemma QuestionEndsQuery(c: Codecs, l: Line, verb: Method, rest: Text)
    requires WellFormedLine(l) && l.query.Some? && c.findMethod(l.verb) == Some(verb)
    ensures Parse(c, START, LineText(l, QUESTION) + rest) ==
            Parse(c, AfterLine(c, l, verb), rest).After(|LineText(l, QUESTION)|)
  {
    hide Parse, IsToken, IsSegment;
    var n := |TargetText(l, QUESTION)|;
    var version := Version(l.minor) + CRLF + rest;
    var p1 := START.(state := InPath, request := START.request.(verb := verb));
    var p2 := SetQuery(c, p1.(request := p1.request.(path := l.path)), l.query.value);
    assert LineText(l, QUESTION) + rest == l.verb + [SP] + (TargetText(l, QUESTION) + version);
    VerbParses(c, l.verb, verb, TargetText(l, QUESTION) + version);
    assert TargetText(l, QUESTION) == l.path + [QUESTION] + l.query.value + [QUESTION];
    QueryLineEnd(c, p1, l.path, l.query.value, version);
    VersionLine(c, p2, l.minor, rest);
    var r := Parse(c, AfterLine(c, l, verb), rest);
    assert p2.(state := InHeaders, request := p2.request.(version := l.minor)) == AfterLine(c, l, verb);
    AfterTwice(r, 10, n);
    AfterTwice(r, 10 + n, |l.verb| + 1);
  }

  predicate WrittenAs(t: Text, l: Line, sep: Byte, hs: seq<Pair>, body: Text) {
    WellFormedLine(l) && SepOk(l, sep) && WellFormedHeaders(hs) && t == LineText(l, sep) + HeaderLines(hs) + CRLF + body
  }

  /** A request line, header fields, an empty line and a body. */
  ghost predicate IsRequestText(t: Text) {
    exists l: Line, sep: Byte, hs: seq<Pair>, body: Text :: WrittenAs(t, l, sep, hs, body)
  }

  predicate EndsAs(t: Text, hs: seq<Pair>, body: Text) {
    WellFormedHeaders(hs) && t == HeaderLines(hs) + CRLF + body
  }

  ghost predicate IsSectionText(t: Text) {
    exists hs: seq<Pair>, body: Text :: EndsAs(t, hs, body)
  }

  lemma FieldInFront(h: Pair, t: Text)
    requires WellFormedHeader(h) && IsSectionText(t)
    ensures IsSectionText(HeaderWire(h) + t)
  {
    var hs: seq<Pair>, body: Text :| EndsAs(t, hs, body);
    var all := [h] + hs;
    assert all[1..] == hs;
    assert HeaderWire(h) + t == HeaderLines(all) + CRLF + body;
    assert EndsAs(HeaderWire(h) + t, all, body);
  }

  /** A parse that gets to the end gets there by way of an attempt that takes bytes. */
  lemma ParseGoesOn(c: Codecs, p: Parser, data: Text)
    requires Valid(p) && p.state != Done && Parse(c, p, data).Parsed? && Parse(c, p, data).p.state == Done
    ensures var a, r := ParseNext(c, p, data), Parse(c, p, data);
            && a.Advance? && 0 < a.n <= |data| && Valid(a.p)
            && if a.p.state == Done then r.n == a.n && r.p == a.p
               else
                 var s := Parse(c, a.p, data[a.n..]);
                 s.Parsed? && s.p == r.p && r.n == a.n + s.n <= |data|
  {
    hide DoMethod, DoPath, DoVersion, DoHeader, DoBody;
  }

  /** A header attempt takes a field, or the empty line behind the last one. */
  lemma HeaderTakes(c: Codecs, p: Parser, b: Text)
    requires p.state == InHeaders && DoHeader(c, p, b).Advance?
    ensures var a := DoHeader(c, p, b);
            if a.p.state == InHeaders then exists h :: FieldAt(b, a.n, h) else a.n == 2 <= |b| && b[..2] == CRLF
  {
    hide Trim, DoHeader, FieldAt;
    HeaderDecides(c, p, b);
    var a := DoHeader(c, p, b);
    if h :| FieldAt(b, a.n, h) && HandleHeader(c, p, Trim(h.key), Trim(h.value)) == Ok(a.p) {
      HandleHeaderKeepsState(c, p, Trim(h.key), Trim(h.value));
    }
  }

  lemma EmptyLineInFront(body: Text)
    ensures IsSectionText(CRLF + body)
  {
    assert HeaderLines([]) + CRLF + body == CRLF + body;
    assert EndsAs(CRLF + body, [], body);
  }

  /** What is taken from the header section on is fields, an empty line and a body. */
  lemma {:induction false} SectionTaken(c: Codecs, p: Parser, data: Text)
    requires p.state == InHeaders
    requires Parse(c, p, data).Parsed? && Parse(c, p, data).p.state == Done
    ensures IsSectionText(data[..Parse(c, p, data).n])
    decreases |data|
  {
    hide DoHeader, DoBody, IsSectionText, FieldAt, Parse;
    var a, r := DoHeader(c, p, data), Parse(c, p, data);
    ParseGoesOn(c, p, data);
    HeaderTakes(c, p, data);
    if a.p.state == InHeaders {
      var h :| FieldAt(data, a.n, h);
      var rest := data[a.n..];
      var n := Parse(c, a.p, rest).n;
      SectionTaken(c, a.p, rest);
      FieldBefore(data, a.n, n, h);
    } else {
      assert data[..r.n] == CRLF + data[2..r.n];
      EmptyLineInFront(data[2..r.n]);
    }
  }

  lemma FieldBefore(data: Text, m: nat, n: nat, h: Pair)
    requires FieldAt(data, m, h) && m + n <= |data| && IsSectionText(data[m..][..n])
    ensures IsSectionText(data[..m + n])
  {
    hide IsSectionText, HeaderWire;
    FieldInFront(h, data[m..][..n]);
    assert data[..m + n] == data[..m] + data[m..][..n];
  }

  /** The request line, piece by piece. */
  lemma LineTaken(c: Codecs, data: Text)
    requires Parse(c, START, data).Parsed? && Parse(c, START, data).p.state == Done
    ensures exists l: Line, sep: Byte, q: Parser, n: nat :: LineAt(c, data, l, sep, q, n)
  {
    hide Parse, DoMethod, DoPath, DoVersion, IsToken, WellFormedLine, LineText;
    ParseGoesOn(c, START, data);
    MethodDecides(c, START, data);
    var a1 := DoMethod(c, START, data);
    var d1, verb := data[a1.n..], data[..a1.n - 1];
    ParseGoesOn(c, a1.p, d1);
    PathDecides(c, a1.p, d1);
    var a2 := DoPath(c, a1.p, d1);
    var t: Line, sep: Byte :| TargetTaken(c, a1.p, d1, a2.n, a2.p, t, sep);
    var d2 := d1[a2.n..];
    ParseGoesOn(c, a2.p, d2);
    VersionDecides(a2.p, d2);
    var a3 := DoVersion(a2.p, d2);
    var minor: nat :| VersionAt(d2, minor) && a3.n == 10;
    LineTogether(data, a1.n, a2.n, verb, t, sep, minor);
    var l := Line(verb, t.path, t.query, minor);
    assert d2[10..] == data[a1.n + a2.n + 10..];
    assert LineAt(c, data, l, sep, a3.p, a1.n + a2.n + 10);
  }

  /** The first `n` bytes are a request line, and the parser goes on behind it. */
  predicate LineAt(c: Codecs, data: Text, l: Line, sep: Byte, q: Parser, n: nat) {
    && n <= |data| && WellFormedLine(l) && SepOk(l, sep) && data[..n] == LineText(l, sep) && q.state == InHeaders
    && var s, r := Parse(c, q, data[n..]), Parse(c, START, data);
       s.Parsed? && r.Parsed? && s.p == r.p && r.n == n + s.n
  }

  lemma LineTogether(data: Text, n1: nat, n2: nat, verb: Text, t: Line, sep: Byte, minor: nat)
    requires IsToken(verb, SP) && n1 == |verb| + 1 && n1 + n2 + 10 <= |data|
    requires data[..n1 - 1] == verb && data[n1 - 1] == SP && data[n1..][..n2] == TargetText(t, sep) && SepOk(t, sep)
    requires IsSegment(t.path) && (t.query.Some? ==> IsSegment(t.query.value))
    requires VersionAt(data[n1..][n2..], minor)
    ensures var l := Line(verb, t.path, t.query, minor);
            WellFormedLine(l) && SepOk(l, sep) && data[..n1 + n2 + 10] == LineText(l, sep)
  {
    hide IsToken, IsSegment, Version;
    var l := Line(verb, t.path, t.query, minor);
    var d1 := data[n1..];
    assert TargetText(l, sep) == TargetText(t, sep);
    assert data[..n1] == verb + [SP];
    assert data[..n1 + n2 + 10] == data[..n1] + d1[..n2] + d1[n2..][..10];
    assert data[..n1] + d1[..n2] + (Version(minor) + CRLF) == data[..n1] + d1[..n2] + Version(minor) + CRLF;
  }

  /** Whatever the parser accepts is a request line, header fields, an empty line and a body. */
  lemma AcceptedIsRequest(c: Codecs, data: Text)
    requires Parse(c, START, data).Parsed? && Parse(c, START, data).p.state == Done
    ensures IsRequestText(data[..Parse(c, START, data).n])
  {
    hide Parse, LineText;
    LineTaken(c, data);
    var l: Line, sep: Byte, q: Parser, n: nat :| LineAt(c, data, l, sep, q, n);
    SectionTaken(c, q, data[n..]);
    var m := Parse(c, q, data[n..]).n;
    var hs: seq<Pair>, body: Text :| EndsAs(data[n..][..m], hs, body);
    assert data[..n + m] == data[..n] + data[n..][..m];
    assert LineText(l, sep) + (HeaderLines(hs) + CRLF + body) == LineText(l, sep) + HeaderLines(hs) + CRLF + body;
    assert WrittenAs(data[..n + m], l, sep, hs, body);
  }
}
