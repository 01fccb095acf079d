/** The receive loop of an HTTP connection as it runs: one buffer, two indices, one requested window. */
module RequestReader {
  import opened Bytes
  import opened RequestSpec
  import P = RequestParser
  import opened ReaderSpec
  import S = SessionSpec

  class Http {
    const parser: P.Parser
    var buf: array<Byte>
    var readBytes: nat
    var parsedBytes: nat
    var verdict: Option<Verdict>
    // the window of the last receive
    var askOffset: nat
    var askLen: nat
    var askExact: bool
    var close: bool
    ghost var base: nat  // the size of the buffer when the request under way began
    var answers: seq<Verdict>  // what the handler was given, in order

    ghost predicate Indices()
      reads this
    {
      parsedBytes <= readBytes <= buf.Length
    }

    ghost function View(): Reader
      requires Indices()
      reads this, buf, parser
    {
      match verdict
      case Some(v) => Finished(v)
      case None => Reading(parser.View(), buf.Length, parsedBytes, buf[parsedBytes..readBytes])
    }

    /** The receive in progress asks for the window that the state calls for. */
    ghost predicate Asked()
      reads this, buf, parser
    {
      Indices() && (verdict == None ==>
        askOffset == readBytes && askLen == WindowLen(View()) && (askExact <==> HeaderDone(parser.View())))
    }

    /** The connection between two receives. */
    ghost function Session(): S.Session
      requires Asked()
      reads this, buf, parser
    {
      if close then S.Closed(answers) else S.Serving(View(), base, answers)
    }

    constructor (codecs: Codecs)
      ensures Asked() && View() == ReaderSpec.Start(SMALL_HEADER_LEN) && parser.codecs == codecs && fresh(buf)
      ensures fresh(parser) && verdict == None && Session() == S.Begin(SMALL_HEADER_LEN, [])
    {
      parser := new P.Parser(codecs);
      buf := new Byte[SMALL_HEADER_LEN](_ => 0);
      readBytes, parsedBytes, verdict := 0, 0, None;
      askOffset, askLen, askExact := 0, SMALL_HEADER_LEN, false;
      close, base, answers := false, SMALL_HEADER_LEN, [];
    }

    /** One receive of the connection: an answer ends it or makes the reader start over. */
    method Receive(ghost chunk: Text, len: nat, keeps: seq<Verdict> -> bool)
      requires Asked() && verdict == None && readBytes + len <= buf.Length
      requires buf[readBytes..readBytes + len] == chunk && S.Takes(Session(), chunk)
      modifies this, buf, parser
      ensures Asked() && (buf == old(buf) || fresh(buf)) && (close || verdict == None)
      ensures Session() == S.Receive(parser.codecs, keeps, old(Session()), chunk)
    {
      HandleRead(len);
      if verdict.Some? {
        answers := answers + [verdict.value];
        if keeps(answers) {
          base := buf.Length;
          Restart();
        } else {
          close := true;
        }
      }
    }

    /** A connection from its start: whenever no receive overshoots, its answers are the judgement of the stream. */
    method Serve(chunks: seq<Text>, keeps: seq<Verdict> -> bool)
      requires Asked() && verdict == None && Session() == S.Begin(SMALL_HEADER_LEN, [])
      requires S.IsRun(parser.codecs, keeps, Session(), chunks)
      modifies this, buf, parser
      ensures Asked() && Session() == S.Run(parser.codecs, keeps, old(Session()), chunks)
      ensures S.Aligned(parser.codecs, keeps, LARGE_HEADER_LEN, [], chunks) ==>
                answers == S.JudgeAll(parser.codecs, keeps, LARGE_HEADER_LEN, [], Concat(chunks)).answers
    {
      ghost var s := Session();
      S.ConnectionInStepExactly(parser.codecs, keeps, SMALL_HEADER_LEN, chunks);
      S.StartsInStep(parser.codecs, keeps, SMALL_HEADER_LEN);
      assert chunks[0..] == chunks;
      for i := 0 to |chunks|
        invariant Asked() && (buf == old(buf) || fresh(buf)) && (close || verdict == None)
        invariant S.Sound(parser.codecs, Session())
        invariant S.IsRun(parser.codecs, keeps, Session(), chunks[i..])
        invariant S.Run(parser.codecs, keeps, Session(), chunks[i..]) == S.Run(parser.codecs, keeps, s, chunks)
      {
        assert chunks[i..][0] == chunks[i] && chunks[i..][1..] == chunks[i + 1..];
        S.ReceiveKeepsSound(parser.codecs, keeps, Session(), chunks[i]);
        ServeOne(chunks[i], keeps);
      }
    }

    method ServeOne(chunk: Text, keeps: seq<Verdict> -> bool)
      requires Asked() && verdict == None && readBytes + |chunk| <= buf.Length && S.Takes(Session(), chunk)
      modifies this, buf, parser
      ensures Asked() && (buf == old(buf) || fresh(buf)) && (close || verdict == None)
      ensures Session() == S.Receive(parser.codecs, keeps, old(Session()), chunk)
    {
      Arrive(chunk);
      Receive(chunk, |chunk|, keeps);
    }

    /** The bytes of a receive are put into the window that was asked for. */
    method Arrive(chunk: Text)
      requires Asked() && verdict == None && readBytes + |chunk| <= buf.Length
      modifies buf
      ensures Asked() && Session() == old(Session())
      ensures buf[readBytes..readBytes + |chunk|] == chunk
    {
      forall k | 0 <= k < |chunk| {
        buf[askOffset + k] := chunk[k];
      }
      assert buf[readBytes..readBytes + |chunk|] == chunk;
      assert buf[parsedBytes..readBytes] == old(buf[parsedBytes..readBytes]);
    }

    /** Starts over for the next request on the connection; the buffer keeps the size it has grown to. */
    method Restart()
      modifies this, parser
      ensures buf == old(buf) && Asked() && View() == ReaderSpec.Start(buf.Length) && verdict == None
      ensures close == old(close) && base == old(base) && answers == old(answers)
    {
      readBytes, parsedBytes, verdict := 0, 0, None;
      parser.state, parser.contentLen, parser.encoding, parser.request := InMethod, 0, NoEncoding, START.request;
      Recv(0, buf.Length, false);
    }

    method Recv(offset: nat, len: nat, exact: bool)
      modifies this`askOffset, this`askLen, this`askExact
      ensures askOffset == offset && askLen == len && askExact == exact
    {
      askOffset, askLen, askExact := offset, len, exact;
    }

    method Resize(size: nat)
      requires Indices() && buf.Length <= size
      modifies this`buf
      ensures fresh(buf) && buf.Length == size && buf[..readBytes] == old(buf[..readBytes])
    {
      var grown := new Byte[size](_ => 0);
      forall i | 0 <= i < buf.Length {
        grown[i] := buf[i];
      }
      buf := grown;
    }

    method Answer(v: Verdict)
      requires Indices()
      modifies this`verdict
      ensures Asked() && View() == Finished(v)
    {
      verdict := Some(v);
    }

    /** `len` received bytes lie at `readBytes`. */
    method HandleRead(len: nat)
      requires Asked() && verdict == None && readBytes + len <= buf.Length
      requires Delivers(View(), buf[readBytes..readBytes + len])
      modifies this, buf, parser
      ensures Asked() && (buf == old(buf) || fresh(buf))
      ensures View() == Handle(parser.codecs, old(View()), old(buf[readBytes..readBytes + len]))
      ensures verdict.Some? ==> buf == old(buf)
      ensures close == old(close) && base == old(base) && answers == old(answers)
    {
      hide Parse, ParseNext, HeaderDone;
      ghost var p, chunk := parser.View(), buf[readBytes..readBytes + len];
      ghost var data := buf[parsedBytes..readBytes] + chunk;
      ghost var after := Handle(parser.codecs, View(), chunk);
      assert buf[parsedBytes..readBytes + len] == data;
      readBytes := readBytes + len;
      var err, parsed := ParseHeld(data);
      if err == None {
        if parser.state == Done {
          Answer(Complete(parser.request));
        } else {
          ShortBodyLeft(parser.codecs, p, data);
          assert after == Continue(parser.View(), buf.Length, parsedBytes, buf[parsedBytes..readBytes]);
          AskForMore();
        }
      } else {
        Answer(Rejected(err.value));
      }
      assert View() == after;
    }

    /** Parses what is held and moves past the bytes that were consumed. */
    method ParseHeld(ghost data: Text) returns (err: Option<Error>, parsed: nat)
      requires Indices() && Valid(parser.View()) && buf[parsedBytes..readBytes] == data
      modifies parser, this`parsedBytes
      ensures match Parse(parser.codecs, old(parser.View()), data)
              case Failed(e) => err == Some(e) && parsedBytes == old(parsedBytes)
              case Parsed(q, n) =>
                && err == None && parser.View() == q && n <= |data|
                && parsedBytes == old(parsedBytes) + n <= readBytes && buf[parsedBytes..readBytes] == data[n..]
    {
      err, parsed := parser.Parse(buf[parsedBytes..readBytes]);
      if err == None {
        parsedBytes := parsedBytes + parsed;
      }
    }

    method AskForMore()
      requires Indices() && verdict == None && parser.state != Done
      requires parser.state == InBody && parser.contentLen <= MAX_BODY_LEN ==>
                 readBytes - parsedBytes < parser.contentLen
      modifies this, buf
      ensures Asked() && (buf == old(buf) || fresh(buf)) && (verdict.Some? ==> buf == old(buf))
      ensures close == old(close) && base == old(base) && answers == old(answers)
      ensures View() ==
              Continue(old(parser.View()), old(buf.Length), old(parsedBytes), old(buf[parsedBytes..readBytes]))
    {
      hide Parse;
      if parser.state != InBody {
        if readBytes == buf.Length {
          if buf.Length < LARGE_HEADER_LEN {
            Resize(LARGE_HEADER_LEN);
          } else {
            Answer(Rejected(FIELDS_TOO_LARGE));
            return;
          }
        }
        Recv(readBytes, buf.Length - readBytes, false);
        assert buf[parsedBytes..readBytes] == buf[..readBytes][parsedBytes..];
        assert old(buf[parsedBytes..readBytes]) == old(buf[..readBytes])[parsedBytes..];
      } else {
        if parser.contentLen > MAX_BODY_LEN {
          Answer(Rejected(PAYLOAD_TOO_LARGE));
          return;
        }
        var received := readBytes - parsedBytes;
        var remaining := parser.contentLen - received;
        if readBytes + remaining > buf.Length {
          Compact();
          if parser.contentLen > buf.Length {
            Resize(parser.contentLen);
          }
          assert buf[..readBytes] == old(buf[parsedBytes..readBytes]);
        }
        Recv(readBytes, remaining, true);
      }
    }

    /** Moves the unparsed bytes to the front of the buffer; source and destination may overlap. */
    method Compact()
      requires Indices()
      modifies this`readBytes, this`parsedBytes, buf
      ensures parsedBytes == 0 && readBytes == old(readBytes - parsedBytes)
      ensures Indices() && buf[..readBytes] == old(buf[parsedBytes..readBytes])
    {
      var received := readBytes - parsedBytes;
      forall i | 0 <= i < received {
        buf[i] := buf[parsedBytes + i];
      }
      readBytes, parsedBytes := received, 0;
    }
  }
}
