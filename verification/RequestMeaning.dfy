/**
 What a parsed request holds, in terms of the text that a client wrote: the header section field by
 field, and the body.
 */
module RequestMeaning {
  import opened Bytes
  import opened RequestSpec
  import opened RequestRoundTrip

  // ---------- Blanks and digits ----------

  /** Space or tab. */
  predicate IsBlank(c: Byte) {
    c == 32 || c == 9
  }

  /** Between the first `i` and the last `|t| - j` bytes, all blank, is `s`, which no blank starts or ends. */
  predicate TrimmedAt(t: Text, s: Text, i: nat, j: nat) {
    && i <= j <= |t| && s == t[i..j]
    && (forall k :: 0 <= k < i ==> IsBlank(t[k]))
    && (forall k :: j <= k < |t| ==> IsBlank(t[k]))
    && (s != [] ==> !IsBlank(s[0]) && !IsBlank(s[|s| - 1]))
  }

  ghost predicate IsTrimmed(t: Text, s: Text) {
    exists i: nat, j: nat :: TrimmedAt(t, s, i, j)
  }

  lemma {:induction false} LeftTrimmed(t: Text, i: nat)
    requires i <= |t| && (forall k :: 0 <= k < i ==> IsBlank(t[k])) && (i == |t| || !IsBlank(t[i]))
    ensures TrimLeft(t) == t[i..]
  {
    if i > 0 {
      LeftTrimmed(t[1..], i - 1);
    }
  }

  lemma {:induction false} RightTrimmed(t: Text, j: nat)
    requires j <= |t| && (forall k :: j <= k < |t| ==> IsBlank(t[k])) && (j == 0 || !IsBlank(t[j - 1]))
    ensures TrimRight(t) == t[..j]
    decreases |t|
  {
    if j < |t| {
      RightTrimmed(t[..|t| - 1], j);
      assert t[..|t| - 1][..j] == t[..j];
    } else {
      assert t[..j] == t;
    }
  }

  /** Trimming leaves the part between the outer blanks. */
  lemma TrimmedOnce(t: Text, s: Text)
    requires IsTrimmed(t, s)
    ensures Trim(t) == s
  {
    var i: nat, j: nat :| TrimmedAt(t, s, i, j);
    if s == [] {
      LeftTrimmed(t, |t|);
    } else {
      LeftTrimmed(t, i);
      assert forall k :: 0 <= k < |t[i..]| ==> t[i..][k] == t[i + k];
      RightTrimmed(t[i..], j - i);
      assert t[i..][..j - i] == t[i..j];
    }
  }

  /** There is such a part of every text. */
  lemma {:induction false} BlanksInFront(t: Text) returns (i: nat)
    ensures i <= |t| && (forall k :: 0 <= k < i ==> IsBlank(t[k])) && (i == |t| || !IsBlank(t[i]))
  {
    i := 0;
    while i < |t| && IsBlank(t[i])
      invariant i <= |t| && forall k :: 0 <= k < i ==> IsBlank(t[k])
    {
      i := i + 1;
    }
  }

  lemma {:induction false} BlanksBehind(t: Text) returns (j: nat)
    ensures j <= |t| && (forall k :: j <= k < |t| ==> IsBlank(t[k])) && (j == 0 || !IsBlank(t[j - 1]))
  {
    j := |t|;
    while j > 0 && IsBlank(t[j - 1])
      invariant j <= |t| && forall k :: j <= k < |t| ==> IsBlank(t[k])
    {
      j := j - 1;
    }
  }

  lemma TrimIsTrimmed(t: Text)
    ensures IsTrimmed(t, Trim(t))
  {
    var i := BlanksInFront(t);
    var j := BlanksBehind(t);
    if i < j {
      assert TrimmedAt(t, t[i..j], i, j);
      TrimmedOnce(t, t[i..j]);
    } else {
      assert forall k :: 0 <= k < |t| ==> IsBlank(t[k]);
      assert TrimmedAt(t, [], |t|, |t|);
      TrimmedOnce(t, []);
    }
  }

  predicate Digits(s: Text) {
    forall i :: 0 <= i < |s| ==> 48 <= s[i] <= 57
  }

  /** The number that decimal digits write. */
  function Decimal(s: Text): nat
    requires Digits(s)
  {
    if s == [] then 0 else 10 * Decimal(s[..|s| - 1]) + (s[|s| - 1] as nat - 48)
  }

  lemma WrapsOnce(x: nat, d: nat)
    ensures ((x % 4294967296) * 10 + d) % 4294967296 == (10 * x + d) % 4294967296
  {
    var q, r := x / 4294967296, x % 4294967296;
    assert 10 * x + d == 4294967296 * (10 * q) + (r * 10 + d);
  }

  /** A length is the number written, modulo 2^32; anything but digits is refused. */
  lemma {:induction false} LengthIsDecimal(s: Text)
    ensures ToUint(s) == if Digits(s) then Some(Decimal(s) % 4294967296) else None
  {
    if s != [] {
      var front := s[..|s| - 1];
      LengthIsDecimal(front);
      assert Digits(s) <==> Digits(front) && 48 <= s[|s| - 1] <= 57;
      if Digits(s) {
        WrapsOnce(Decimal(front), s[|s| - 1] as nat - 48);
      }
    }
  }

  // ---------- The header section ----------

  /** Names and values between their outer blanks. */
  ghost predicate AreTrimmed(hs: seq<Pair>, clean: seq<Pair>) {
    && |clean| == |hs|
    && forall i :: 0 <= i < |hs| ==> IsTrimmed(hs[i].key, clean[i].key) && IsTrimmed(hs[i].value, clean[i].value)
  }

  /** Why a field is refused. */
  function Fault(c: Codecs, h: Pair): Option<Error> {
    match c.lower(h.key)
    case None => Some(Http(431))
    case Some(name) =>
      match c.headerId(name)
      case Cookie => (match c.cookies(h.value) case Err(e) => Some(e) case Ok(_) => None)
      case ContentLength => if Digits(h.value) then None else Some(Other(1))
      case _ => None
  }

  /** The fault of the first field that has one. */
  function FirstFault(c: Codecs, hs: seq<Pair>): Option<Error> {
    if hs == [] then None
    else
      var before := FirstFault(c, hs[..|hs| - 1]);
      if before.Some? then before else Fault(c, hs[|hs| - 1])
  }

  predicate IsA(c: Codecs, h: Pair, id: HeaderId) {
    c.lower(h.key).Some? && c.headerId(c.lower(h.key).value) == id
  }

  /** The fields that are stored: all but cookies and lengths, with lowered names, in order. */
  function Stored(c: Codecs, hs: seq<Pair>): seq<Pair> {
    if hs == [] then []
    else
      var h := hs[|hs| - 1];
      Stored(c, hs[..|hs| - 1]) +
      if c.lower(h.key).Some? && !IsA(c, h, Cookie) && !IsA(c, h, ContentLength)
      then [Pair(c.lower(h.key).value, h.value)] else []
  }

  /** The cookies of all Cookie fields, in order. */
  function CookiesOf(c: Codecs, hs: seq<Pair>): seq<Pair> {
    if hs == [] then []
    else
      var h := hs[|hs| - 1];
      CookiesOf(c, hs[..|hs| - 1]) +
      if IsA(c, h, Cookie) && c.cookies(h.value).Ok? then c.cookies(h.value).value else []
  }

  /** What the last Content-Length says. */
  function LastLength(c: Codecs, hs: seq<Pair>): nat {
    if hs == [] then 0
    else
      var h := hs[|hs| - 1];
      if IsA(c, h, ContentLength) && Digits(h.value) then Decimal(h.value) % 4294967296
      else LastLength(c, hs[..|hs| - 1])
  }

  /** What the last Connection field that says "close" or "keep-alive" says. */
  function LastClose(c: Codecs, hs: seq<Pair>): bool {
    if hs == [] then false
    else
      var h := hs[|hs| - 1];
      if IsA(c, h, Connection) && c.keepAlive(h.value).Some? then !c.keepAlive(h.value).value
      else LastClose(c, hs[..|hs| - 1])
  }

  /** The encoding that the last Content-Type with a known one names. */
  function LastEncoding(c: Codecs, hs: seq<Pair>): Encoding {
    if hs == [] then NoEncoding
    else
      var h := hs[|hs| - 1];
      if IsA(c, h, ContentType) && c.encoding(h.value).Some? then c.encoding(h.value).value
      else LastEncoding(c, hs[..|hs| - 1])
  }

  /** The parser that read the request line, with what the header section adds. */
  function WithHeaders(c: Codecs, p: Parser, hs: seq<Pair>): Parser {
    p.(contentLen := LastLength(c, hs), encoding := LastEncoding(c, hs),
       request := p.request.(headers := Stored(c, hs), cookies := CookiesOf(c, hs), close := LastClose(c, hs)))
  }

  /** No header has been read. */
  predicate NoHeaders(p: Parser) {
    && p.contentLen == 0 && p.encoding == NoEncoding
    && p.request.headers == [] && p.request.cookies == [] && !p.request.close
  }

  lemma {:induction false} ApplySnoc(c: Codecs, p: Parser, hs: seq<Pair>, h: Pair)
    ensures ApplyHeaders(c, p, hs + [h]) ==
            match ApplyHeaders(c, p, hs)
            case Err(e) => Err(e)
            case Ok(q) => HandleHeader(c, q, Trim(h.key), Trim(h.value))
    decreases |hs|
  {
    hide HandleHeader, Trim;
    if hs == [] {
      assert hs + [h] == [h] && [h][1..] == [];
    } else {
      var r := HandleHeader(c, p, Trim(hs[0].key), Trim(hs[0].value));
      assert (hs + [h])[0] == hs[0] && (hs + [h])[1..] == hs[1..] + [h];
      if r.Ok? {
        ApplySnoc(c, r.value, hs[1..], h);
      }
    }
  }

  /** One more field. */
  lemma FieldAdds(c: Codecs, p: Parser, hs: seq<Pair>, h: Pair)
    requires NoHeaders(p)
    ensures var q := WithHeaders(c, p, hs);
            HandleHeader(c, q, h.key, h.value) ==
              if Fault(c, h).Some? then Err(Fault(c, h).value) else Ok(WithHeaders(c, p, hs + [h]))
  {
    hide ToUint;
    LengthIsDecimal(h.value);
    assert (hs + [h])[..|hs + [h]| - 1] == hs && (hs + [h])[|hs + [h]| - 1] == h;
    assert Stored(c, hs) + [] == Stored(c, hs) && CookiesOf(c, hs) + [] == CookiesOf(c, hs);
  }

  /**
   The header section is refused with the fault of its first bad field; otherwise every field is
   stored or takes effect, in order.
   */
  lemma {:induction false} HeadersMean(c: Codecs, p: Parser, hs: seq<Pair>, clean: seq<Pair>)
    requires NoHeaders(p) && AreTrimmed(hs, clean)
    ensures ApplyHeaders(c, p, hs) ==
            if FirstFault(c, clean).Some? then Err(FirstFault(c, clean).value) else Ok(WithHeaders(c, p, clean))
    decreases |hs|
  {
    if hs != [] {
      var front, last := hs[..|hs| - 1], hs[|hs| - 1];
      var front', last' := clean[..|hs| - 1], clean[|hs| - 1];
      assert hs == front + [last] && clean == front' + [last'];
      ApplySnoc(c, p, front, last);
      TrimmedOnce(last.key, last'.key);
      TrimmedOnce(last.value, last'.value);
      HeadersMean(c, p, front, front');
      FieldAdds(c, p, front', last');
    }
  }

  // ---------- The body ----------

  /** What the fields of a form in the body are, if it is one. */
  function Fields(c: Codecs, encoding: Encoding, body: Text): Result<seq<Pair>> {
    if encoding == FormUrlEncoded && body != [] then c.formVars(body) else Ok([])
  }

  function Parts(c: Codecs, encoding: Encoding, headers: seq<Pair>, body: Text): Result<seq<Part>> {
    if encoding == MultipartFormData && body != [] then c.multipart(headers, body) else Ok([])
  }

  /** A finished request holds the written body, and its form fields or parts as the codecs read them. */
  lemma BodyIsStored(c: Codecs, p: Parser, body: Text)
    requires |body| == p.contentLen && p.request.formVars == [] && p.request.parts == []
    ensures var fields, parts := Fields(c, p.encoding, body), Parts(c, p.encoding, p.request.headers, body);
            Finish(c, p, body) ==
              if body != [] && (p.request.verb == Get || p.request.verb == Head) then Err(Http(400))
              else if fields.Err? then Err(fields.error)
              else if parts.Err? then Err(parts.error)
              else Ok(p.request.(body := body, formVars := fields.value, parts := parts.value))
  {
    assert forall v: seq<Pair> :: [] + v == v;
    assert forall v: seq<Part> :: [] + v == v;
  }

  // ---------- The whole request ----------

  /** The variables of the query; a query that does not decode has none. */
  function QueryFields(c: Codecs, query: Option<Text>): seq<Pair> {
    match query
    case None => []
    case Some(q) => if c.queryVars(q).Ok? then c.queryVars(q).value else []
  }

  /**
   What a client writes is what the handler gets: every field of the request in terms of the written
   text and the codecs alone, or the reason for which it is refused.
   */
  lemma RequestIs(c: Codecs, l: Line, verb: Method, hs: seq<Pair>, clean: seq<Pair>, body: Text, rest: Text)
    requires WellFormedLine(l) && c.findMethod(l.verb) == Some(verb) && WellFormedHeaders(hs) && AreTrimmed(hs, clean)
    requires FirstFault(c, clean) == None && LastLength(c, clean) == |body|
    ensures var wire := LineWire(l) + HeaderLines(hs) + CRLF + body;
            var parsed := Parse(c, START, wire + rest);
            var headers, encoding := Stored(c, clean), LastEncoding(c, clean);
            var fields, parts := Fields(c, encoding, body), Parts(c, encoding, headers, body);
            if body != [] && (verb == Get || verb == Head) then parsed == Failed(Http(400))
            else if fields.Err? then parsed == Failed(fields.error)
            else if parts.Err? then parsed == Failed(parts.error)
            else
              && parsed.Parsed? && parsed.n == |wire| && parsed.p.state == Done
              && parsed.p.request == Request(
                   verb, l.path, if l.query.Some? then l.query.value else [], l.minor, LastClose(c, clean), body,
                   headers, CookiesOf(c, clean), QueryFields(c, l.query), fields.value, parts.value)
  {
    hide Parse, ApplyHeaders, Finish, LastLength, Stored, CookiesOf, LastClose, LastEncoding, FirstFault;
    var p0 := AfterLine(c, l, verb);
    HeadersMean(c, p0, hs, clean);
    BodyIsStored(c, WithHeaders(c, p0, clean), body);
    RequestReadsBack(c, l, verb, hs, body, rest);
  }

  /** A header section with a bad field makes the request fail, before its body is looked at. */
  lemma BadFieldRefused(c: Codecs, l: Line, verb: Method, hs: seq<Pair>, clean: seq<Pair>, rest: Text)
    requires WellFormedLine(l) && c.findMethod(l.verb) == Some(verb) && WellFormedHeaders(hs) && AreTrimmed(hs, clean)
    requires FirstFault(c, clean).Some?
    ensures Parse(c, START, LineWire(l) + HeaderLines(hs) + rest) == Failed(FirstFault(c, clean).value)
  {
    hide Parse, ApplyHeaders, FirstFault;
    var p0 := AfterLine(c, l, verb);
    HeadersMean(c, p0, hs, clean);
    LineParses(c, l, verb, HeaderLines(hs) + rest);
    HeadersParse(c, p0, hs, rest);
    assert LineWire(l) + HeaderLines(hs) + rest == LineWire(l) + (HeaderLines(hs) + rest);
  }
}
