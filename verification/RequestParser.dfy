/** The HTTP request parser as it runs: scan loops over a view of the buffer, state updated in place. */
module RequestParser {
  import opened Bytes
  import opened RequestSpec

  /** Scans for `until`; an empty token is an error. */
  method NextToken(buffer: Text, until: Byte) returns (r: Scan)
    ensures r == if ScanToken(buffer, until) == Stopped(0) then Refused else ScanToken(buffer, until)
  {
    var i := 0;
    while i < |buffer| && buffer[i] != until
      invariant i <= |buffer|
      invariant ScanToken(buffer, until) == ScanFor(buffer, i, TokenChar, StopAt(until))
    {
      if !TokenChar(buffer[i]) {
        return Refused;
      }
      i := i + 1;
    }
    if i == |buffer| {
      return OutOfBytes;
    }
    if i == 0 {
      return Refused;
    }
    return Stopped(i);
  }

  method NextSegment(buffer: Text) returns (r: Scan)
    ensures r == ScanSegment(buffer)
  {
    var i := 0;
    while i < |buffer| && buffer[i] != SP && buffer[i] != QUESTION
      invariant i <= |buffer|
      invariant ScanSegment(buffer) == ScanFor(buffer, i, UriChar, PathStop)
    {
      if !UriChar(buffer[i]) {
        return Refused;
      }
      i := i + 1;
    }
    return if i == |buffer| then OutOfBytes else Stopped(i);
  }

  method IsPrintable(input: Text) returns (ok: bool)
    ensures ok == Printable(input)
  {
    for i := 0 to |input|
      invariant forall j :: 0 <= j < i ==> 32 <= input[j] <= 126
    {
      if input[i] < 32 || input[i] > 126 {
        return false;
      }
    }
    return true;
  }

  method TrimBlanks(s: Text) returns (t: Text)
    ensures t == Trim(s)
  {
    var start := 0;
    while start < |s| && (s[start] == SP || s[start] == 9)
      invariant start <= |s| && TrimLeft(s) == TrimLeft(s[start..])
    {
      assert s[start..][1..] == s[start + 1..];
      start := start + 1;
    }
    var end := |s|;
    assert TrimLeft(s) == s[start..end];
    while end > start && (s[end - 1] == SP || s[end - 1] == 9)
      invariant start <= end <= |s| && Trim(s) == TrimRight(s[start..end])
    {
      assert s[start..end][..end - 1 - start] == s[start..end - 1];
      end := end - 1;
    }
    return s[start..end];
  }

  method StrToUint(s: Text) returns (r: Option<nat>)
    ensures r == ToUint(s)
  {
    var n := 0;
    for i := 0 to |s|
      invariant ToUint(s[..i]) == Some(n)
    {
      assert s[..i + 1][..i] == s[..i];
      if s[i] < 48 || s[i] > 57 {
        UintPrefix(s, i + 1);
        return None;
      }
      n := (n * 10 + (s[i] as nat - 48)) % 0x1_0000_0000;
    }
    assert s[..|s|] == s;
    return Some(n);
  }

  lemma {:induction false} UintPrefix(s: Text, i: nat)
    requires i <= |s| && ToUint(s[..i]) == None
    ensures ToUint(s) == None
    decreases |s| - i
  {
    if i < |s| {
      assert s[..i + 1][..i] == s[..i];
      UintPrefix(s, i + 1);
    } else {
      assert s[..i] == s;
    }
  }

  class Parser {
    const codecs: Codecs
    var state: State
    var contentLen: nat
    var encoding: Encoding
    var request: Request

    constructor (codecs: Codecs)
      ensures this.codecs == codecs && View() == START
    {
      this.codecs := codecs;
      state, contentLen, encoding, request := InMethod, 0, NoEncoding, START.request;
    }

    ghost function View(): RequestSpec.Parser
      reads this
    {
      RequestSpec.Parser(state, contentLen, encoding, request)
    }

    /** What one attempt reports and leaves behind. */
    ghost predicate Did(a: Attempt, err: Option<Error>, parsed: nat)
      reads this
    {
      match a
      case Fail(e) => err == Some(e)
      case Wait(q) => err == None && parsed == 0 && View() == q
      case Advance(n, q) => err == None && parsed == n && View() == q
    }

    method DoMethod(buffer: Text) returns (err: Option<Error>, parsed: nat)
      modifies this
      ensures Did(RequestSpec.DoMethod(codecs, old(View()), buffer), err, parsed)
    {
      var r := NextToken(buffer, SP);
      if r.Refused? {
        return Some(BAD_REQUEST), 0;
      }
      if r.OutOfBytes? {
        return None, 0;
      }
      var m := codecs.findMethod(buffer[..r.at]);
      if m.None? {
        return Some(NOT_IMPLEMENTED), 0;
      }
      request := request.(verb := m.value);
      state := InPath;
      return None, r.at + 1;
    }

    /** Stores the path as soon as it is complete; a query that is not complete yet makes the attempt start over. */
    method DoPath(buffer: Text) returns (err: Option<Error>, parsed: nat)
      modifies this
      ensures Did(RequestSpec.DoPath(codecs, old(View()), buffer), err, parsed)
    {
      var r := NextSegment(buffer);
      if !r.Stopped? {
        return if r.Refused? then Some(BAD_REQUEST) else None, 0;
      }
      request := request.(path := buffer[..r.at]);
      parsed := r.at + 1;
      if buffer[r.at] == QUESTION {
        var rest := buffer[parsed..];
        var r' := NextSegment(rest);
        if !r'.Stopped? {
          return if r'.Refused? then Some(BAD_REQUEST) else None, 0;
        }
        var query := rest[..r'.at];
        request := request.(query := query);
        var vars := codecs.queryVars(query);
        request := request.(queryVars := if vars.Ok? then request.queryVars + vars.value else []);
        parsed := parsed + (r'.at + 1);
      } else {
        request := request.(query := []);
      }
      state := InVersion;
      err := None;
    }

    method DoVersion(buffer: Text) returns (err: Option<Error>, parsed: nat)
      modifies this
      ensures Did(RequestSpec.DoVersion(old(View()), buffer), err, parsed)
    {
      var n := FindFirst(buffer, 0, CR);
      if n.None? || n.value + 1 == |buffer| {
        return None, 0;
      }
      if buffer[n.value + 1] != LF || !VersionOk(buffer[..n.value]) {
        return Some(BAD_REQUEST), 0;
      }
      request := request.(version := buffer[7] as nat - 48);
      state := InHeaders;
      return None, n.value + 2;
    }

    method HandleHeader(name: Text, value: Text) returns (err: Option<Error>)
      modifies this`contentLen, this`encoding, this`request
      ensures var r := RequestSpec.HandleHeader(codecs, old(View()), name, value);
              if r.Ok? then err == None && View() == r.value else err == Some(r.error)
    {
      var lower := codecs.lower(name);
      if lower.None? {
        return Some(FIELDS_TOO_LARGE);
      }
      match codecs.headerId(lower.value) {
      case Cookie =>
        var pairs := codecs.cookies(value);
        if pairs.Err? {
          return Some(pairs.error);
        }
        request := request.(cookies := request.cookies + pairs.value);
        return None;
      case ContentLength =>
        var n := StrToUint(value);
        if n.None? {
          return Some(INVALID_ARG);
        }
        contentLen := n.value;
        return None;
      case Connection =>
        var keep := codecs.keepAlive(value);
        if keep.Some? {
          request := request.(close := !keep.value);
        }
      case ContentType =>
        var e := codecs.encoding(value);
        if e.Some? {
          encoding := e.value;
        }
      case AnyHeader =>
      }
      request := request.(headers := request.headers + [Pair(lower.value, value)]);
      err := None;
    }

    method DoHeader(buffer: Text) returns (err: Option<Error>, parsed: nat)
      modifies this
      ensures Did(RequestSpec.DoHeader(codecs, old(View()), buffer), err, parsed)
    {
      var n := FindFirst(buffer, 0, CR);
      if n.None? || n.value + 1 == |buffer| {
        return None, 0;
      }
      if buffer[n.value + 1] != LF {
        return Some(BAD_REQUEST), 0;
      }
      if n.value == 0 {
        err, parsed := EndOfHeaders();
        return;
      }
      var r := NextToken(buffer, COLON);
      if !r.Stopped? {
        return if r.Refused? then Some(BAD_REQUEST) else None, 0;
      }
      CrEndsToken(buffer, n.value, r.at);
      var value := buffer[r.at + 1..n.value];
      var printable := IsPrintable(value);
      if !printable {
        return Some(BAD_REQUEST), 0;
      }
      var name := TrimBlanks(buffer[..r.at]);
      var trimmed := TrimBlanks(value);
      err := HandleHeader(name, trimmed);
      parsed := n.value + 2;
    }

    method EndOfHeaders() returns (err: Option<Error>, parsed: nat)
      modifies this
      ensures Did(RequestSpec.EndOfHeaders(old(View())), err, parsed)
    {
      if contentLen == 0 {
        request := request.(body := []);
        state := Done;
      } else {
        if request.verb == Get || request.verb == Head {
          return Some(BAD_REQUEST), 2;
        }
        state := InBody;
      }
      return None, 2;
    }

    method DoBody(buffer: Text) returns (err: Option<Error>, parsed: nat)
      modifies this
      ensures Did(RequestSpec.DoBody(codecs, old(View()), buffer), err, parsed)
    {
      if |buffer| < contentLen {
        return None, 0;
      }
      var body := buffer[..contentLen];
      if encoding == FormUrlEncoded {
        var vars := codecs.formVars(body);
        if vars.Err? {
          return Some(vars.error), 0;
        }
        request := request.(formVars := request.formVars + vars.value);
      } else if encoding == MultipartFormData {
        var parts := codecs.multipart(request.headers, body);
        if parts.Err? {
          return Some(parts.error), 0;
        }
        request := request.(parts := request.parts + parts.value);
      }
      request := request.(body := body);
      state := Done;
      return None, contentLen;
    }

    method ParseNext(data: Text) returns (err: Option<Error>, parsed: nat)
      requires Valid(View())
      modifies this
      ensures Did(RequestSpec.ParseNext(codecs, old(View()), data), err, parsed)
    {
      match state
      case InMethod => err, parsed := DoMethod(data);
      case InPath => err, parsed := DoPath(data);
      case InVersion => err, parsed := DoVersion(data);
      case InHeaders => err, parsed := DoHeader(data);
      case InBody => err, parsed := DoBody(data);
      case Done => err, parsed := None, 0;
    }

    /** Repeats attempts until one has to wait, fails or finishes the request; `parsed` counts the bytes taken. */
    method Parse(data: Text) returns (err: Option<Error>, parsed: nat)
      requires Valid(View())
      modifies this
      ensures match RequestSpec.Parse(codecs, old(View()), data)
              case Failed(e) => err == Some(e)
              case Parsed(p, n) => err == None && parsed == n && View() == p && Valid(p) && n <= |data|
    {
      parsed := 0;
      while parsed < |data|
        invariant parsed <= |data| && Valid(View())
        invariant RequestSpec.Parse(codecs, old(View()), data) ==
                    RequestSpec.Parse(codecs, View(), data[parsed..]).After(parsed)
      {
        ghost var rest := data[parsed..];
        var p;
        err, p := ParseNext(data[parsed..]);
        if err.Some? {
          return err, parsed;
        }
        parsed := parsed + p;
        assert rest[p..] == data[parsed..];
        if p == 0 || state == Done {
          return None, parsed;
        }
      }
      assert data[parsed..] == [];
      err := None;
    }
  }
}
