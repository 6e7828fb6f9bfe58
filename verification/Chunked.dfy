// The chunked request body: send_chunk and the send loop of src/here_tracking_http.c, and a
// decoder for the chunked coding of section 4.1 of RFC 7230.

module Chunked {
  import opened Bytes
  import opened Errors
  import opened Options
  import opened TlsWriters
  import opened Utils

  // ----- the receiving end, after the RFC -----

  function HexRun(s: bytes): (k: nat)
    ensures k <= |s|
  {
    if s == [] || !IsHexDigit(s[0]) then 0 else 1 + HexRun(s[1..])
  }

  datatype Decoded = Decoded(data: bytes, rest: bytes)

  /** One chunk: chunk-size CRLF chunk-data CRLF. The last chunk has size zero, and the CRLF
      after its empty data is the one that ends an empty trailer part. */
  function DecodeChunk(s: bytes): (r: Option<Decoded>)
    ensures r.Some? ==> |r.value.rest| < |s|
  {
    var k := HexRun(s);
    var n := Value(s[..k], 16);
    if k > 0 && k + 2 + n + 2 <= |s| && s[k..k + 2] == CRLF && s[k + 2 + n..k + 4 + n] == CRLF then
      Some(Decoded(s[k + 2..k + 2 + n], s[k + 4 + n..]))
    else
      None
  }

  /** Chunks up to and including the first empty one. */
  function Decode(s: bytes): Option<Decoded>
    decreases |s|
  {
    match DecodeChunk(s)
    case None => None
    case Some(c) =>
      if c.data == [] then Some(c)
      else
        match Decode(c.rest)
        case None => None
        case Some(more) => Some(Decoded(c.data + more.data, more.rest))
  }

  // ----- the sending end -----

  /** What the application's send callback answers; the pair (NULL, 0) is Data([]). */
  datatype SendAnswer = Data(data: bytes) | Refused(err: Err)

  /** A callback that has run out of scripted answers keeps saying there is no more data. */
  function AnswerAt(answers: seq<SendAnswer>, k: nat): SendAnswer {
    if k < |answers| then answers[k] else Data([])
  }

  function ChunkText(d: bytes): bytes {
    Digits(|d|, 16) + CRLF + d + CRLF
  }

  function ChunkedText(chunks: seq<bytes>): bytes {
    if chunks == [] then ChunkText([]) else ChunkText(chunks[0]) + ChunkedText(chunks[1..])
  }

  /** The non-empty answers before the one that ends the body, unless a refusal comes first. */
  function Upload(answers: seq<SendAnswer>): Option<seq<bytes>> {
    if answers == [] || answers[0] == Data([]) then Some([])
    else if answers[0].Refused? then None
    else
      match Upload(answers[1..])
      case None => None
      case Some(more) => Some([answers[0].data] + more)
  }

  /** The text of the answers up to the one that ends the body or refuses. */
  function OfferedText(answers: seq<SendAnswer>): bytes {
    if answers == [] then ChunkText([])
    else if answers[0].Refused? then []
    else if answers[0].data == [] then ChunkText([])
    else ChunkText(answers[0].data) + OfferedText(answers[1..])
  }

  ghost predicate Scripted(answers: seq<SendAnswer>) {
    forall a :: a in answers ==> if a.Data? then |a.data| < TWO_32 else a.err != Ok
  }

  lemma {:induction false} UploadText(answers: seq<SendAnswer>)
    requires Upload(answers).Some?
    ensures OfferedText(answers) == ChunkedText(Upload(answers).value)
    ensures forall d :: d in Upload(answers).value ==> d != []
  {
    if answers != [] && answers[0] != Data([]) {
      UploadText(answers[1..]);
      assert Upload(answers).value[1..] == Upload(answers[1..]).value;
    }
  }

  function Answered(chunks: seq<bytes>): seq<SendAnswer> {
    if chunks == [] then [] else [Data(chunks[0])] + Answered(chunks[1..])
  }

  /** A callback that answers with these chunks and then with no data uploads exactly them, in
      order, whatever it would answer later; one that refuses in between uploads nothing. */
  lemma {:induction false} UploadExactly(chunks: seq<bytes>, next: SendAnswer, later: seq<SendAnswer>)
    requires forall d :: d in chunks ==> d != []
    requires next.Refused? || next.data == []
    ensures Upload(Answered(chunks) + ([next] + later)) == if next.Refused? then None else Some(chunks)
    decreases |chunks|
  {
    var all := Answered(chunks) + ([next] + later);
    if chunks == [] {
      assert all == [next] + later;
    } else {
      assert forall d :: d in chunks[1..] ==> d in chunks;
      UploadExactly(chunks[1..], next, later);
      assert all[0] == Data(chunks[0]) && chunks[0] in chunks;
      assert all[1..] == Answered(chunks[1..]) + ([next] + later);
      assert chunks == [chunks[0]] + chunks[1..];
    }
  }

  lemma ChunkParts(acc: bytes, d: bytes)
    ensures var h := Digits(|d|, 16);
      var all := acc + ChunkText(d);
      acc + h <= all && acc + h + CRLF <= all && acc + h + CRLF + d <= all &&
      acc + h + CRLF + d + CRLF == all && (d == [] ==> acc + h + CRLF + CRLF == all)
  {
    hide Digits;
    Stages(acc, Digits(|d|, 16), CRLF, d, CRLF);
  }

  method SendChunk(w: TlsWriter, d: bytes) returns (err: Err)
    requires w.Valid() && !w.Full() && |d| < TWO_32
    modifies w.tls`calls, w.tls`sent, w.data`size, w.data.buffer
    ensures w.Valid()
    ensures err == Ok || err == Error
    ensures w.tls.behaviour.Reliable() ==> err == Ok
    ensures err == Ok ==> w.Accepted() == old(w.Accepted()) + ChunkText(d) && !w.Full()
    ensures old(w.tls.sent) <= w.tls.sent <= old(w.Accepted()) + ChunkText(d)
  {
    hide ChunkText, Digits;
    ChunkParts(w.Accepted(), d);
    err := w.WriteUtoa(|d| % TWO_32, 16);
    if err == Ok {
      err := w.WriteData(CRLF);
    }
    if err == Ok && d != [] {
      err := w.WriteData(d);
    }
    if err == Ok {
      err := w.WriteData(CRLF);
    }
  }

  /** The do-while loop of send_stream. */
  method SendAnswers(w: TlsWriter, answers: seq<SendAnswer>) returns (err: Err)
    requires w.Valid() && !w.Full() && Scripted(answers)
    modifies w.tls`calls, w.tls`sent, w.data`size, w.data.buffer
    ensures w.Valid()
    ensures err == Ok ==> Upload(answers).Some?
    ensures w.tls.behaviour.Reliable() && Upload(answers).Some? ==> err == Ok
    ensures err == Ok ==> w.Accepted() == old(w.Accepted()) + OfferedText(answers)
    ensures old(w.tls.sent) <= w.tls.sent <= old(w.Accepted()) + OfferedText(answers)
  {
    var k, more := 0, true;
    err := Ok;
    ghost var acc, done, all := w.Accepted(), [], OfferedText(answers);
    assert answers[0..] == answers;
    while err == Ok && more
      invariant w.Valid() && 0 <= k && (err == Ok && more ==> k <= |answers|)
      invariant done <= all
      invariant err == Ok && more ==> all == done + OfferedText(answers[k..])
      invariant old(w.tls.sent) <= w.tls.sent <= acc + done
      invariant err == Ok ==> !w.Full() && w.Accepted() == acc + done
      invariant err == Ok && more ==> Upload(answers).Some? == Upload(answers[k..]).Some?
      invariant err == Ok && !more ==> Upload(answers).Some? && done == all
      invariant w.tls.behaviour.Reliable() && Upload(answers).Some? ==> err == Ok
      decreases |answers| + 1 - k, if err == Ok then 1 else 0
    {
      var answer := AnswerAt(answers, k);
      NextAnswer(answers, k, done);
      k := k + 1;
      if answer.Refused? {
        err := answer.err;
      } else {
        err := SendChunk(w, answer.data);
        Assoc(acc, done, ChunkText(answer.data));
        done := done + ChunkText(answer.data);
        more := |answer.data| > 0;
      }
    }
    assert acc + done <= acc + all;
  }

  /** Sending a body and the flush after it. On success TLS has taken the chunked text of the
      callback's data, and a receiver decodes it to that data; on failure it has taken a
      prefix of what the callback offered. */
  method SendBody(w: TlsWriter, answers: seq<SendAnswer>) returns (err: Err)
    requires w.Valid() && !w.Full() && Scripted(answers)
    modifies w.tls`calls, w.tls`sent, w.data`size, w.data.buffer
    ensures w.Valid()
    ensures old(w.tls.sent) <= w.tls.sent <= old(w.Accepted()) + OfferedText(answers)
    ensures err == Ok ==> Upload(answers).Some? && w.data.Contents() == []
    ensures w.tls.behaviour.Reliable() && Upload(answers).Some? ==> err == Ok
    ensures err == Ok ==> w.tls.sent == old(w.Accepted()) + ChunkedText(Upload(answers).value)
    ensures err == Ok ==> Decode(w.tls.sent[|old(w.Accepted())|..]) ==
                          Some(Decoded(Concat(Upload(answers).value), []))
  {
    err := SendAnswers(w, answers);
    if err == Ok {
      ghost var acc, all := old(w.Accepted()), OfferedText(answers);
      assert acc + all == w.Accepted();
      err := w.Flush();
      UploadText(answers);
      DecodeChunkedText(Upload(answers).value, []);
      assert all + [] == all == (acc + all)[|acc|..];
    }
  }

  lemma NextAnswer(answers: seq<SendAnswer>, k: nat, done: bytes)
    requires k <= |answers|
    requires OfferedText(answers) == done + OfferedText(answers[k..])
    requires Upload(answers).Some? == Upload(answers[k..]).Some?
    ensures AnswerAt(answers, k).Refused? ==> k < |answers|
    ensures AnswerAt(answers, k).Data? ==>
      var text := ChunkText(AnswerAt(answers, k).data);
      if AnswerAt(answers, k).data == [] then
        Upload(answers).Some? && OfferedText(answers) == done + text
      else
        k < |answers| && Upload(answers).Some? == Upload(answers[k + 1..]).Some? &&
        OfferedText(answers) == (done + text) + OfferedText(answers[k + 1..])
  {
    if k < |answers| {
      assert answers[k..][1..] == answers[k + 1..];
      if answers[k].Data? && answers[k].data != [] {
        Assoc(done, ChunkText(answers[k].data), OfferedText(answers[k + 1..]));
      }
    }
  }

  // ----- decoding what was sent -----

  lemma {:induction false} HexRunOfDigits(d: bytes, rest: bytes)
    requires forall c :: c in d ==> IsHexDigit(c)
    requires rest != [] && !IsHexDigit(rest[0])
    ensures HexRun(d + rest) == |d|
  {
    if d == [] {
      assert d + rest == rest;
    } else {
      HexRunOfDigits(d[1..], rest);
      assert (d + rest)[1..] == d[1..] + rest;
    }
  }

  /** Where the parts of a framed chunk are. */
  lemma Layout(h: bytes, d: bytes, rest: bytes)
    ensures var s := h + CRLF + d + CRLF + rest;
      var k := |h|;
      var n := |d|;
      |s| >= k + 4 + n && s[..k] == h && s[k..k + 2] == CRLF && s[k + 2..k + 2 + n] == d &&
      s[k + 2 + n..k + 4 + n] == CRLF && s[k + 4 + n..] == rest &&
      s == h + s[k..] && s[k] == CR
  {
    var s := h + CRLF + d + CRLF + rest;
    var k, n := |h|, |d|;
    assert s[k..k + 2] == CRLF;
    assert s[k + 2..k + 2 + n] == d;
    assert s[k + 2 + n..k + 4 + n] == CRLF;
    assert s[k + 4 + n..] == rest;
  }

  lemma DigitsAreHex(n: nat)
    ensures Digits(n, 16) != [] && forall c :: c in Digits(n, 16) ==> IsHexDigit(c)
  {
    DigitsShape(n, 16);
  }

  lemma DecodeChunkText(d: bytes, rest: bytes)
    ensures DecodeChunk(ChunkText(d) + rest) == Some(Decoded(d, rest))
  {
    hide Digits, HexRun, Value;
    var h := Digits(|d|, 16);
    var s := h + CRLF + d + CRLF + rest;
    DigitsAreHex(|d|);
    DigitsValue(|d|, 16);
    Layout(h, d, rest);
    HexRunOfDigits(h, s[|h|..]);
  }

  /** Decoding an upload gives back exactly the concatenation of its chunks and stops right
      behind the terminating chunk, whatever the chunk data looks like. */
  lemma {:induction false} DecodeChunkedText(chunks: seq<bytes>, rest: bytes)
    requires forall d :: d in chunks ==> d != []
    ensures Decode(ChunkedText(chunks) + rest) == Some(Decoded(Concat(chunks), rest))
  {
    if chunks == [] {
      DecodeLast(rest);
    } else {
      var tail := ChunkedText(chunks[1..]) + rest;
      assert chunks[0] in chunks && forall d :: d in chunks[1..] ==> d in chunks;
      DecodeChunkedText(chunks[1..], rest);
      DecodeMore(chunks[0], tail, Decoded(Concat(chunks[1..]), rest));
      ChunkedTextSplits(chunks, rest);
    }
  }

  lemma DecodeLast(rest: bytes)
    ensures Decode(ChunkText([]) + rest) == Some(Decoded([], rest))
  {
    DecodeChunkText([], rest);
  }

  lemma DecodeMore(d: bytes, tail: bytes, more: Decoded)
    requires d != [] && Decode(tail) == Some(more)
    ensures Decode(ChunkText(d) + tail) == Some(Decoded(d + more.data, more.rest))
  {
    DecodeChunkText(d, tail);
    DecodeStep(ChunkText(d) + tail, Decoded(d, tail), more);
  }

  lemma ChunkedTextSplits(chunks: seq<bytes>, rest: bytes)
    requires chunks != []
    ensures ChunkedText(chunks) + rest
         == ChunkText(chunks[0]) + (ChunkedText(chunks[1..]) + rest)
  {
    var head, tail := ChunkText(chunks[0]), ChunkedText(chunks[1..]);
    Assoc(head, tail, rest);
  }

  lemma DecodeStep(s: bytes, first: Decoded, more: Decoded)
    requires DecodeChunk(s) == Some(first) && first.data != []
    requires Decode(first.rest) == Some(more)
    ensures Decode(s) == Some(Decoded(first.data + more.data, more.rest))
  {
  }
}
