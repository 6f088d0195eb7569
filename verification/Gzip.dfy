/**
 The gzip response writer: flags, capture buffer and gzip stream over the client's writer.

 The client sees a head and a sequence of body chunks. A body is wholly plain, or one gzip stream
 that ends in a trailer; `Decode` gives the bytes it stands for.
 */
module Gzip {
  import opened Text
  import opened Responses

  const CONTENT_TYPE := "Content-Type"
  const CONTENT_ENCODING := "Content-Encoding"
  const CONTENT_LENGTH := "Content-Length"
  const VARY := "Vary"
  const CHUNK_SIZE := 8192

  datatype Chunk = Plain(data: string) | Deflated(data: string) | SyncFlush | Trailer

  function Data(chunks: seq<Chunk>): string {
    if chunks == [] then ""
    else
      var last := chunks[|chunks| - 1];
      Data(chunks[..|chunks| - 1]) + if last.Plain? || last.Deflated? then last.data else ""
  }

  lemma DataAppend(chunks: seq<Chunk>, c: Chunk)
    ensures Data(chunks + [c]) == Data(chunks) + if c.Plain? || c.Deflated? then c.data else ""
  {
    assert (chunks + [c])[..|chunks|] == chunks;
  }

  /** A body cut into chunks of at most `CHUNK_SIZE` bytes. */
  function Pieces(body: string): seq<Chunk> {
    if body == "" then []
    else
      var n := if CHUNK_SIZE > |body| then |body| else CHUNK_SIZE;
      [Plain(body[..n])] + Pieces(body[n..])
  }

  lemma PiecesStep(body: string, from: nat, to: nat)
    requires from < |body| && to == if from + CHUNK_SIZE > |body| then |body| else from + CHUNK_SIZE
    ensures Pieces(body[from..]) == [Plain(body[from..to])] + Pieces(body[to..])
  {
    assert body[from..][..to - from] == body[from..to];
    assert body[from..][to - from..] == body[to..];
  }

  lemma {:induction false} DataConcat(a: seq<Chunk>, b: seq<Chunk>)
    ensures Data(a + b) == Data(a) + Data(b)
  {
    if b == [] {
      assert a + b == a && Data(a) + "" == Data(a);
    } else {
      var front, last := b[..|b| - 1], b[|b| - 1];
      assert a + b == (a + front) + [last];
      DataAppend(a + front, last);
      DataConcat(a, front);
    }
  }

  /** Cutting loses nothing. */
  lemma {:induction false} PiecesAreBody(body: string)
    ensures Data(Pieces(body)) == body && IsPlain(Pieces(body))
    decreases |body|
  {
    if body != "" {
      var n := if CHUNK_SIZE > |body| then |body| else CHUNK_SIZE;
      var first := [Plain(body[..n])];
      PiecesAreBody(body[n..]);
      DataConcat(first, Pieces(body[n..]));
      DataAppend([], first[0]);
      assert [] + first == first && Data(first) == body[..n];
    }
  }

  predicate IsPlain(chunks: seq<Chunk>) {
    forall c :: c in chunks ==> c.Plain?
  }

  /** A gzip stream that is still open. */
  predicate IsOpenGzip(chunks: seq<Chunk>) {
    forall c :: c in chunks ==> c.Deflated? || c.SyncFlush?
  }

  predicate IsGzip(chunks: seq<Chunk>) {
    |chunks| > 0 && chunks[|chunks| - 1] == Trailer && IsOpenGzip(chunks[..|chunks| - 1])
  }

  /** What a client reads; nothing when the body mixes codings or a stream has no trailer. */
  function Decode(chunks: seq<Chunk>): Option<string> {
    if IsPlain(chunks) || IsGzip(chunks) then Some(Data(chunks)) else None
  }

  // The decision

  function Lower(s: string): string {
    seq(|s|, i requires 0 <= i < |s| => if 'A' <= s[i] <= 'Z' then s[i] - 'A' + 'a' else s[i])
  }

  predicate Contains(s: string, sub: string) {
    exists i :: 0 <= i <= |s| && sub <= s[i..]
  }

  predicate Incompressible(contentType: string) {
    || Contains(contentType, "stream") || Contains(contentType, "event-stream") || Contains(contentType, "websocket")
    || "image/" <= contentType || "video/" <= contentType || "audio/" <= contentType
    || "application/zip" <= contentType || "application/gzip" <= contentType || "application/pdf" <= contentType
    || "application/octet-stream" <= contentType
  }

  predicate ShouldCompress(status: int, h: Header) {
    && status < 400
    && Value(h, CONTENT_TYPE) != ""
    && Value(h, CONTENT_ENCODING) == ""
    && !Incompressible(Lower(Value(h, CONTENT_TYPE)))
  }

  predicate ShouldDefer(status: int, h: Header) {
    status < 400 && Value(h, CONTENT_ENCODING) == "" && Value(h, CONTENT_TYPE) == ""
  }

  // What a caller can see coming, from the handler's calls alone

  /** The handler edited its headers after the response was opened. */
  predicate LateEdit(calls: History) {
    calls.Then? && (LateEdit(calls.before) || (calls.call.Edit? && Closed(calls.before)))
  }

  /** A status line without a content type was sent, and neither a write nor a flush followed. */
  predicate Deferred(calls: History) {
    match calls
    case Fresh => false
    case Then(before, call) =>
      if Closed(before) then Deferred(before) && !call.Write? && !call.Flush?
      else call.WriteHeader? && ShouldDefer(call.status, HeaderOf(before))
  }

  /** The status a response has, or gets from a write. */
  function StatusOf(calls: History): int {
    var c := Committed(calls);
    if c.None? then STATUS_OK else Shown(c.value.status)
  }

  /** Compression is chosen and nothing has been written yet: at the opening call, or by an empty write after a deferral. */
  predicate Chosen(calls: History) {
    match calls
    case Fresh => false
    case Then(before, call) =>
      if Closed(before) then
        || (Chosen(before) && (call.Write? ==> call.data == ""))
        || (Deferred(before) && call == Write("") && ShouldCompress(StatusOf(before), HeaderOf(before)))
      else
        || (call.WriteHeader? && ShouldCompress(call.status, HeaderOf(before)))
        || (call == Write("") && ShouldCompress(STATUS_OK, HeaderOf(before)))
  }

  /** The headers with the content type filled in from the bytes `p`. */
  function Typed(h: Header, p: string, detect: string -> string): Header {
    if p != "" && Value(h, CONTENT_TYPE) == "" then h[CONTENT_TYPE := [detect(p)]] else h
  }

  lemma TypedTwice(h: Header, p: string, detect: string -> string)
    ensures Typed(Typed(h, p, detect), p, detect) == Typed(h, p, detect)
  {
  }

  /** Writing `p` next finds compression chosen, or chooses it. */
  predicate Picked(calls: History, p: string, detect: string -> string) {
    || Chosen(calls)
    || ((!Closed(calls) || Deferred(calls)) && ShouldCompress(StatusOf(calls), Typed(HeaderOf(calls), p, detect)))
  }

  /** A write has started the gzip stream. */
  predicate Gzipped(calls: History, detect: string -> string, maxBytes: int) {
    calls.Then? &&
    (|| Gzipped(calls.before, detect, maxBytes)
     || (calls.call.Write? && 0 < |calls.call.data| <= maxBytes && Picked(calls.before, calls.call.data, detect)))
  }

  /** A flush came in that gap. */
  predicate EarlyFlush(calls: History) {
    calls.Then? && (EarlyFlush(calls.before) || (calls.call.Flush? && Chosen(calls.before)))
  }

  /** ... and a write small enough to start the gzip stream followed it. */
  predicate Hazard(calls: History, maxBytes: int) {
    calls.Then? &&
    (|| Hazard(calls.before, maxBytes)
     || (calls.call.Write? && 0 < |calls.call.data| <= maxBytes && EarlyFlush(calls.before) && Chosen(calls.before)))
  }

  /** What a write of some bytes changes in all this. */
  lemma WroteBytes(calls: History, p: string, detect: string -> string, maxBytes: int)
    requires p != ""
    ensures var all := Then(calls, Call.Write(p));
            && Closed(all) && !Chosen(all) && !Deferred(all) && HeaderOf(all) == HeaderOf(calls)
            && LateEdit(all) == LateEdit(calls) && EarlyFlush(all) == EarlyFlush(calls)
            && Hazard(all, maxBytes) == (Hazard(calls, maxBytes) || (|p| <= maxBytes && EarlyFlush(calls) && Chosen(calls)))
            && Gzipped(all, detect, maxBytes) == (Gzipped(calls, detect, maxBytes) || (|p| <= maxBytes && Picked(calls, p, detect)))
  {
  }

  // The client's writer

  class Sink {
    const base: Header
    /** Whether the client's writer can be flushed. */
    const canFlush: bool
    var head: Option<Head>
    var chunks: seq<Chunk>

    constructor (base: Header, canFlush: bool)
      ensures this.base == base && this.canFlush == canFlush && head == None && chunks == []
    {
      this.base, this.canFlush := base, canFlush;
      head, chunks := None, [];
    }

    /** Only the first head is sent. */
    method WriteHeader(status: int, header: Header)
      modifies `head
      ensures head == if old(head).Some? then old(head) else Some(Head(status, header))
    {
      if head.None? {
        head := Some(Head(status, header));
      }
    }

    method Emit(c: Chunk)
      requires head.Some?
      modifies `chunks
      ensures chunks == old(chunks) + [c]
      ensures Data(chunks) == Data(old(chunks)) + if c.Plain? || c.Deflated? then c.data else ""
    {
      DataAppend(chunks, c);
      chunks := chunks + [c];
    }
  }

  datatype Buffer = Buffer(header: Header, status: int, body: string)

  const EmptyBuffer := Buffer(map[], STATUS_OK, "")

  /** `StatusCode` of the buffer. */
  function Shown(status: int): int {
    if status == 0 then STATUS_OK else status
  }

  class GzipResponseWriter {
    const sink: Sink
    const maxBytes: int
    /** `http.DetectContentType`. */
    const detect: string -> string
    /** The values of the Vary field after Accept-Encoding is added. */
    const vary: seq<string> -> seq<string>
    var gz: bool
    var compressionUsed: bool
    var wroteHeader: bool
    var buffer: Option<Buffer>
    var headersFlushed: bool
    var passThrough: bool
    var pendingCompress: bool
    /** Every call the handler made; whether a flush came between choosing gzip and starting it. */
    ghost var calls: History
    ghost var early: bool

    /** The flags stand for one of six modes. */
    ghost predicate Flags()
      reads this
    {
      && maxBytes > 0
      && (gz ==> compressionUsed)
      && (compressionUsed ==> wroteHeader && buffer.Some? && !passThrough && !pendingCompress && gz == headersFlushed)
      && (pendingCompress ==> wroteHeader && buffer.Some? && (passThrough || !headersFlushed))
      && (passThrough ==> headersFlushed)
      && (headersFlushed ==> wroteHeader)
      && (wroteHeader && !pendingCompress && !compressionUsed ==> headersFlushed)
      && (early ==> wroteHeader && !pendingCompress)
    }

    /** The body sent is all that was written, in one coding; the capture buffer is empty between calls. */
    ghost predicate BodyOk(written: string)
      reads this, sink
    {
      && (buffer.Some? ==> buffer.value.body == "")
      && Data(sink.chunks) == written
      && (if gz then IsOpenGzip(sink.chunks) else IsPlain(sink.chunks))
      && (!headersFlushed ==> sink.chunks == [])
    }

    function Current(): Header
      reads this
    {
      if buffer.Some? then buffer.value.header else map[]
    }

    /** Before the head is sent: the buffer holds the handler's own status and headers, up to a detected type. */
    ghost predicate Staged(calls: History)
      reads this, sink
    {
      !headersFlushed ==>
        && Derived(Current(), HeaderOf(calls))
        && (!wroteHeader ==> Current() == HeaderOf(calls) && (buffer.Some? ==> buffer.value.status == STATUS_OK))
        && (wroteHeader ==> Committed(calls).Some? && buffer.Some? && buffer.value.status == Committed(calls).value.status)
        && (sink.head.Some? <==> early)
        && (compressionUsed ==> Value(Current(), CONTENT_ENCODING) == "" || LateEdit(calls))
        && (pendingCompress ==> Value(Current(), CONTENT_TYPE) == "" || LateEdit(calls))
    }

    /** After the head is sent: it is the handler's, and it announces gzip exactly over a gzip body. */
    ghost predicate Announced(calls: History)
      reads this, sink
    {
      headersFlushed ==>
        && sink.head.Some? && Committed(calls).Some?
        && (!early ==>
              && sink.head.value.status == Shown(Committed(calls).value.status)
              && (gz ==> Value(sink.head.value.header, CONTENT_ENCODING) == "gzip")
              && (!LateEdit(calls) && gz ==> GzipHead(sink.head.value.header, sink.base, HeaderOf(calls)))
              && (!LateEdit(calls) && !gz ==> PlainHead(sink.head.value.header, sink.base, HeaderOf(calls))))
    }

    /** The mode, in terms of the handler's calls. */
    ghost predicate Foreseen(calls: History)
      reads this, sink
    {
      && wroteHeader == Closed(calls)
      && (early ==> sink.head == Some(Head(STATUS_OK, sink.base)) && Flushed(calls))
      && (compressionUsed && !gz <==> Chosen(calls))
      && early == (sink.canFlush && EarlyFlush(calls))
      && (gz && early <==> sink.canFlush && Hazard(calls, maxBytes))
    }

    /** The coding, in terms of the handler's calls. */
    ghost predicate Coded(calls: History)
      reads this
    {
      && (gz <==> Gzipped(calls, detect, maxBytes))
      && (pendingCompress && !headersFlushed <==> Deferred(calls))
      && (Deferred(calls) ==> Current() == HeaderOf(calls))
    }

    ghost predicate Valid()
      reads this, sink
    {
      && Flags() && BodyOk(BodyOf(calls)) && Staged(calls) && Announced(calls) && Foreseen(calls) && Coded(calls)
      && !Hijacked(calls)
    }

    constructor (sink: Sink, maxBytes: int, detect: string -> string, vary: seq<string> -> seq<string>)
      requires maxBytes > 0 && sink.head == None && sink.chunks == []
      ensures Valid() && calls == Fresh && this.sink == sink && this.maxBytes == maxBytes && this.detect == detect
    {
      this.sink, this.maxBytes, this.detect, this.vary := sink, maxBytes, detect, vary;
      gz, compressionUsed, wroteHeader, buffer := false, false, false, None;
      headersFlushed, passThrough, pendingCompress := false, false, false;
      calls, early := Fresh, false;
    }

    // Steps shared by the calls

    method EnsureBuffer()
      modifies `buffer
      ensures buffer == Some(if old(buffer).Some? then old(buffer).value else EmptyBuffer)
    {
      if buffer.None? {
        buffer := Some(EmptyBuffer);
      }
    }

    method FlushHeaders()
      requires buffer.Some?
      modifies `headersFlushed, sink`head
      ensures headersFlushed
      ensures sink.head == if old(headersFlushed) || old(sink.head).Some? then old(sink.head)
                           else Some(Head(Shown(buffer.value.status), Overlay(sink.base, buffer.value.header)))
    {
      if headersFlushed {
        return;
      }
      sink.WriteHeader(Shown(buffer.value.status), Overlay(sink.base, buffer.value.header));
      headersFlushed := true;
    }

    /** The part of `WriteHeader` that runs once: defer, refuse or choose compression. */
    method Open(status: int)
      requires !wroteHeader && !headersFlushed && !compressionUsed && !pendingCompress
      modifies this`wroteHeader, this`buffer, this`pendingCompress, this`compressionUsed, this`headersFlushed, sink`head
      ensures wroteHeader && buffer == Some(Buffer(old(Current()), status, if old(buffer).Some? then old(buffer).value.body else ""))
      ensures pendingCompress == ShouldDefer(status, Current())
      ensures compressionUsed == ShouldCompress(status, Current())
      ensures headersFlushed == (!pendingCompress && !compressionUsed)
      ensures sink.head == if !headersFlushed || old(sink.head).Some? then old(sink.head)
                           else Some(Head(Shown(status), Overlay(sink.base, Current())))
    {
      wroteHeader := true;
      EnsureBuffer();
      buffer := Some(buffer.value.(status := status));
      if ShouldDefer(status, buffer.value.header) {
        pendingCompress := true;
        return;
      }
      if !ShouldCompress(status, buffer.value.header) {
        compressionUsed := false;
        FlushHeaders();
        return;
      }
      compressionUsed := true;
    }

    method Resolve()
      requires pendingCompress && buffer.Some? && !headersFlushed
      modifies this`pendingCompress, this`compressionUsed, this`headersFlushed, sink`head
      ensures !pendingCompress
      ensures compressionUsed == ShouldCompress(Shown(buffer.value.status), Current())
      ensures headersFlushed == !compressionUsed
      ensures sink.head == if compressionUsed || old(sink.head).Some? then old(sink.head)
                           else Some(Head(Shown(buffer.value.status), Overlay(sink.base, Current())))
    {
      pendingCompress := false;
      compressionUsed := ShouldCompress(Shown(buffer.value.status), buffer.value.header);
      if !compressionUsed {
        FlushHeaders();
      }
    }

    /** Fills in the content type from the first bytes. */
    method Detect(p: string)
      modifies `buffer
      ensures buffer.Some? && Derived(Current(), old(Current()))
      ensures Current() == Typed(old(Current()), p, detect)
      ensures old(buffer).Some? ==> buffer.value.status == old(buffer).value.status && buffer.value.body == old(buffer).value.body
      ensures old(buffer).None? ==> buffer.value.status == STATUS_OK && buffer.value.body == ""
    {
      EnsureBuffer();
      if |p| > 0 && Value(buffer.value.header, CONTENT_TYPE) == "" {
        buffer := Some(buffer.value.(header := buffer.value.header[CONTENT_TYPE := [detect(p)]]));
      }
    }

    /** Gives up compression: the buffered bytes in chunks, then `p`, all plain. */
    method Bypass(p: string)
      requires buffer.Some? && !headersFlushed && IsPlain(sink.chunks)
      modifies this`compressionUsed, this`buffer, this`headersFlushed, sink
      ensures !compressionUsed && headersFlushed
      ensures buffer == Some(old(buffer).value.(header := old(Current()) - {CONTENT_ENCODING}, body := ""))
      ensures sink.head == if old(sink.head).Some? then old(sink.head)
                           else Some(Head(Shown(buffer.value.status), Overlay(sink.base, Current())))
      ensures IsPlain(sink.chunks) && Data(sink.chunks) == Data(old(sink.chunks)) + old(buffer).value.body + p
    {
      compressionUsed := false;
      buffer := Some(buffer.value.(header := buffer.value.header - {CONTENT_ENCODING}));
      FlushHeaders();
      PiecesAreBody(buffer.value.body);
      DataConcat(sink.chunks, Pieces(buffer.value.body));
      EmitPlain(buffer.value.body);
      buffer := Some(buffer.value.(body := ""));
      sink.Emit(Plain(p));
    }

    method EmitPlain(body: string)
      requires sink.head.Some?
      modifies sink`chunks
      ensures sink.chunks == old(sink.chunks) + Pieces(body)
    {
      var total := 0;
      while total < |body|
        invariant 0 <= total <= |body|
        invariant sink.chunks + Pieces(body[total..]) == old(sink.chunks) + Pieces(body)
      {
        var end := if total + CHUNK_SIZE > |body| then |body| else total + CHUNK_SIZE;
        ghost var sent := sink.chunks;
        sink.Emit(Plain(body[total..end]));
        PiecesStep(body, total, end);
        assert sink.chunks + Pieces(body[end..]) == sent + ([Plain(body[total..end])] + Pieces(body[end..]));
        total := end;
      }
      assert Pieces(body[total..]) == [];
    }

    /** Starts the gzip stream: announces it, then compresses what the buffer holds. */
    method Start(p: string, ghost own: Header)
      requires Derived(Current(), own)
      requires buffer.Some? && buffer.value.body == "" && !headersFlushed && 0 < |p|
      modifies this`gz, this`buffer, this`headersFlushed, sink
      ensures gz && headersFlushed && buffer.Some? && buffer.value.body == ""
      ensures old(sink.head).Some? ==> sink.head == old(sink.head)
      ensures old(sink.head).None? ==>
              && sink.head.Some? && sink.head.value.status == Shown(old(buffer).value.status)
              && Value(sink.head.value.header, CONTENT_ENCODING) == "gzip"
              && GzipHead(sink.head.value.header, sink.base, own)
      ensures sink.chunks == old(sink.chunks) + [Deflated(p)] && Data(sink.chunks) == Data(old(sink.chunks)) + p
    {
      buffer := Some(buffer.value.(body := buffer.value.body + p));
      assert buffer.value.body == p;
      OverlayGzip(sink.base, buffer.value.header, own, vary);
      buffer := Some(buffer.value.(header := GzipHeader(buffer.value.header, vary)));
      FlushHeaders();
      gz := true;
      sink.Emit(Deflated(buffer.value.body));
      buffer := Some(buffer.value.(body := ""));
    }

    // The calls

    method EditHeader(h: Header)
      requires Valid()
      modifies this
      ensures Valid() && calls == Then(old(calls), Edit(h))
    {
      if !wroteHeader {
        StageHeader(h);
      } else {
        ReplaceHeader(h);
      }
    }

    /** An edit once the response is open; after a head that was never staged it has no effect. */
    method ReplaceHeader(h: Header)
      requires Valid() && wroteHeader
      modifies this
      ensures Valid() && calls == Then(old(calls), Edit(h))
    {
      if !passThrough || buffer.Some? {
        EnsureBuffer();
        buffer := Some(buffer.value.(header := h));
      }
      calls := Then(calls, Edit(h));
    }

    method StageHeader(h: Header)
      requires Valid() && !wroteHeader
      modifies this
      ensures Valid() && calls == Then(old(calls), Edit(h))
    {
      EnsureBuffer();
      buffer := Some(buffer.value.(header := h));
      calls := Then(calls, Edit(h));
    }

    /** A second status line or a refused hijack changes nothing. */
    ghost method Ignore(call: Call)
      requires Valid() && ((wroteHeader && call.WriteHeader?) || call == Call.Hijack(false))
      modifies `calls
      ensures Valid() && calls == Then(old(calls), call)
    {
      OpenIsEmpty(calls);
      calls := Then(calls, call);
    }

    method OpenWith(status: int)
      requires Valid() && !wroteHeader
      modifies this, sink
      ensures Valid() && calls == Then(old(calls), Call.WriteHeader(status))
    {
      OverlayPlain(sink.base, Current(), HeaderOf(calls));
      Open(status);
      calls := Then(calls, Call.WriteHeader(status));
    }

    method WriteHeader(status: int)
      requires Valid()
      modifies this, sink
      ensures Valid() && calls == Then(old(calls), Call.WriteHeader(status))
    {
      if wroteHeader {
        Ignore(Call.WriteHeader(status));
      } else {
        OpenWith(status);
      }
    }

    /** Half-way through `Write(p)`: the coding, or what the choice will depend on. */
    ghost predicate CodedFor(p: string)
      reads this
    {
      && (gz <==> Gzipped(calls, detect, maxBytes))
      && (pendingCompress ==> PendingFor(p))
      && (!pendingCompress && p != "" ==> (compressionUsed && !gz <==> Picked(calls, p, detect)))
    }

    ghost predicate PendingFor(p: string)
      reads this
    {
      && !Chosen(calls) && (!Closed(calls) || Deferred(calls))
      && Typed(Current(), p, detect) == Typed(HeaderOf(calls), p, detect)
      && buffer.Some? && Shown(buffer.value.status) == StatusOf(calls)
    }

    /** Half-way through `Write(p)`: the response is open, `p` is not yet sent. */
    ghost predicate Reached(p: string)
      reads this, sink
    {
      var all := Then(calls, Call.Write(p));
      && Flags() && wroteHeader && !passThrough && CodedFor(p)
      && BodyOk(BodyOf(calls)) && Staged(all) && Announced(all) && !Hijacked(calls)
      && (early ==> sink.head == Some(Head(STATUS_OK, sink.base)) && Flushed(calls))
      && early == (sink.canFlush && EarlyFlush(calls))
      && (gz && early <==> sink.canFlush && Hazard(calls, maxBytes))
      && (early ==> (compressionUsed && !gz <==> Chosen(calls)))
      && (p == "" && !pendingCompress ==> (compressionUsed && !gz <==> Chosen(all)))
    }

    method OpenFor(p: string)
      requires Valid() && !wroteHeader
      modifies this, sink
      ensures calls == old(calls) && Reached(p)
    {
      Detect(p);
      TypedTwice(HeaderOf(calls), p, detect);
      OpenIsEmpty(calls);
      OverlayPlain(sink.base, Current(), HeaderOf(calls));
      Open(STATUS_OK);
    }

    method Settle(p: string)
      requires Reached(p) && pendingCompress
      modifies this, sink
      ensures calls == old(calls) && Reached(p) && !pendingCompress
    {
      Detect(p);
      OverlayPlain(sink.base, Current(), HeaderOf(calls));
      Resolve();
    }

    method Decide(p: string)
      requires Valid() && !passThrough
      modifies this, sink
      ensures calls == old(calls) && Reached(p) && !pendingCompress
    {
      if !wroteHeader {
        OpenFor(p);
      } else {
      }
      if pendingCompress {
        Settle(p);
      }
    }

    /** The coding is settled: pass on plain, or continue the gzip stream. */
    method Continue(p: string)
      requires Reached(p) && !pendingCompress && (!compressionUsed || gz)
      modifies this, sink
      ensures calls == Then(old(calls), Call.Write(p)) && Valid()
    {
      sink.Emit(if gz then Deflated(p) else Plain(p));
      calls := Then(calls, Call.Write(p));
    }

    method PassOn(p: string)
      requires Valid() && passThrough
      modifies this, sink
      ensures calls == Then(old(calls), Call.Write(p)) && Valid()
    {
      sink.Emit(Plain(p));
      calls := Then(calls, Call.Write(p));
    }

    /** An empty write before the stream starts changes nothing. */
    method Hold()
      requires Reached("") && compressionUsed && !gz
      modifies this, sink
      ensures calls == Then(old(calls), Call.Write("")) && Valid()
    {
      calls := Then(calls, Call.Write(""));
    }

    method GiveUp(p: string)
      requires Reached(p) && compressionUsed && !gz && |p| > maxBytes
      modifies this, sink
      ensures calls == Then(old(calls), Call.Write(p)) && Valid()
    {
      OverlayGivenUp(sink.base, Current(), HeaderOf(calls));
      Bypass(p);
      calls := Then(calls, Call.Write(p));
    }

    method Begin(p: string)
      requires Reached(p) && compressionUsed && !gz && 0 < |p| <= maxBytes
      modifies this, sink
      ensures calls == Then(old(calls), Call.Write(p)) && Valid()
    {
      WroteBytes(calls, p, detect, maxBytes);
      Start(p, HeaderOf(calls));
      calls := Then(calls, Call.Write(p));
    }

    method Write(p: string)
      requires Valid()
      modifies this, sink
      ensures calls == Then(old(calls), Call.Write(p)) && Valid()
    {
      if passThrough {
        PassOn(p);
        return;
      }
      Decide(p);
      if !compressionUsed || gz {
        Continue(p);
      } else if |buffer.value.body| + |p| > maxBytes {
        GiveUp(p);
      } else if |buffer.value.body| + |p| > 0 {
        Begin(p);
      } else {
        Hold();
      }
    }

    method CommitPassThrough()
      requires Valid() && !compressionUsed
      modifies this, sink`head
      ensures Valid() && calls == Then(old(calls), Call.Flush) && headersFlushed
    {
      if headersFlushed {
        passThrough := true;
        calls := Then(calls, Call.Flush);
      } else {
        CommitHead();
      }
    }

    /** A flush that sends the handler's head before any body. */
    method CommitHead()
      requires Valid() && !compressionUsed && !headersFlushed
      modifies this, sink`head
      ensures Valid() && calls == Then(old(calls), Call.Flush) && headersFlushed
    {
      if buffer.Some? {
        OverlayPlain(sink.base, Current(), HeaderOf(calls));
        passThrough, wroteHeader := true, true;
        FlushHeaders();
        calls := Then(calls, Call.Flush);
      } else {
        CommitBareHead();
      }
    }

    /** The same when the handler never touched its headers. */
    method CommitBareHead()
      requires Valid() && !compressionUsed && !headersFlushed && buffer.None?
      modifies this, sink`head
      ensures Valid() && calls == Then(old(calls), Call.Flush) && headersFlushed
    {
      OverlayNothing(sink.base, HeaderOf(calls));
      passThrough, wroteHeader := true, true;
      sink.WriteHeader(STATUS_OK, sink.base);
      headersFlushed := true;
      calls := Then(calls, Call.Flush);
    }

    /** Flushing the client's writer, if it can be, sends its head, as it stands, if none was sent. */
    method Flush()
      requires Valid()
      modifies this, sink
      ensures Valid() && calls == Then(old(calls), Call.Flush)
      ensures sink.canFlush ==> sink.head.Some?
      ensures sink.chunks == old(sink.chunks) + if old(gz) then [SyncFlush] else []
    {
      if !compressionUsed {
        CommitPassThrough();
        assert sink.chunks + [] == sink.chunks;
        return;
      }
      if gz {
        sink.Emit(SyncFlush);
      } else {
        early := early || sink.canFlush;
      }
      if sink.canFlush {
        sink.WriteHeader(STATUS_OK, sink.base);
      }
      calls := Then(calls, Call.Flush);
    }

    /** Any one call; a refused hijack does nothing. */
    method Handle(call: Call)
      requires Valid() && call != Hijack(true)
      modifies this, sink
      ensures Valid() && calls == Then(old(calls), call)
    {
      match call
      case Edit(h) => EditHeader(h);
      case WriteHeader(status) => WriteHeader(status);
      case Write(p) => Write(p);
      case Flush => Flush();
      case Hijack(_) => Ignore(call);
    }

    /** Ends the response; after a panic only if some of it is already out. */
    method Finalize(panicking: bool)
      requires Valid()
      modifies this, sink
      ensures calls == old(calls)
      ensures Decode(sink.chunks) == Some(BodyOf(calls))
      ensures if old(gz) then IsGzip(sink.chunks) else IsPlain(sink.chunks)
      ensures sink.head.None? <==> !Closed(calls) || (panicking && !old(headersFlushed) && !early)
      ensures sink.head.Some? && !early ==>
              && Committed(calls).Some?
              && sink.head.value.status == Shown(Committed(calls).value.status)
              && (old(gz) ==> Value(sink.head.value.header, CONTENT_ENCODING) == "gzip")
              && (!LateEdit(calls) && old(gz) ==> GzipHead(sink.head.value.header, sink.base, HeaderOf(calls)))
              && (!LateEdit(calls) && !old(gz) ==> PlainHead(sink.head.value.header, sink.base, HeaderOf(calls)))
      ensures early ==> sink.head == Some(Head(STATUS_OK, sink.base))
      ensures gz == old(gz) && early == old(early)
    {
      if panicking && !headersFlushed && !gz {
        return;
      }
      if !headersFlushed && wroteHeader {
        OverlayPlain(sink.base, Current(), HeaderOf(calls));
      }
      if pendingCompress {
        pendingCompress := false;
        FlushHeaders();
      } else if gz {
        sink.Emit(Trailer);
        assert sink.chunks[..|sink.chunks| - 1] == old(sink.chunks);
        assert Data(sink.chunks) == BodyOf(calls);
      } else if compressionUsed {
        // The capture buffer is empty, so there is no body left to send.
        FlushHeaders();
      }
    }
  }

  function Field(h: Header, key: string): Option<seq<string>> {
    if key in h then Some(h[key]) else None
  }

  ghost predicate Agree(h: Header, other: Header, except: set<string>) {
    forall k {:trigger Field(h, k)} {:trigger Field(other, k)} :: k !in except ==> Field(h, k) == Field(other, k)
  }

  /** A content type the handler set is kept. */
  ghost predicate TypeKept(h: Header, own: Header) {
    Value(own, CONTENT_TYPE) != "" ==> Field(h, CONTENT_TYPE) == Field(own, CONTENT_TYPE)
  }

  /** The handler's headers, up to a detected content type. */
  ghost predicate Derived(h: Header, own: Header) {
    Agree(h, own, {CONTENT_TYPE}) && TypeKept(h, own)
  }

  /** The content coding sent is the one the handler, or else the writer beneath, already had. */
  predicate OwnCoding(sent: Header, base: Header, own: Header) {
    || Value(sent, CONTENT_ENCODING) == Value(base + own, CONTENT_ENCODING)
    || (Value(own, CONTENT_ENCODING) == "" && Value(sent, CONTENT_ENCODING) == Value(base, CONTENT_ENCODING))
  }

  /** The head of a plain body: the handler's fields over those beneath, and no coding added. */
  ghost predicate PlainHead(sent: Header, base: Header, own: Header) {
    Agree(sent, base + own, {CONTENT_TYPE, CONTENT_ENCODING, NO_SNIFF}) && TypeKept(sent, own) && OwnCoding(sent, base, own)
  }

  /** The head of a gzip body: gzip is announced, and no length of the handler's is. */
  ghost predicate GzipHead(sent: Header, base: Header, own: Header) {
    && Agree(sent, base + own, {CONTENT_TYPE, CONTENT_ENCODING, CONTENT_LENGTH, VARY, NO_SNIFF}) && TypeKept(sent, own)
    && Value(sent, CONTENT_ENCODING) == "gzip" && Field(sent, CONTENT_LENGTH) == Field(base, CONTENT_LENGTH)
  }

  /** The header edits that announce a gzip body. */
  function GzipHeader(h: Header, vary: seq<string> -> seq<string>): Header {
    (h - {CONTENT_LENGTH})[VARY := vary(if VARY in h then h[VARY] else [])][CONTENT_ENCODING := ["gzip"]]
  }

  // What is sent over `base` when the buffer's headers are `staged` and the handler's are `own`

  lemma OverlayPlain(base: Header, staged: Header, own: Header)
    requires Derived(staged, own)
    ensures PlainHead(Overlay(base, staged), base, own)
    ensures Value(staged, CONTENT_ENCODING) == Value(own, CONTENT_ENCODING)
  {
    forall k | k !in {CONTENT_TYPE, CONTENT_ENCODING, NO_SNIFF}
      ensures Field(Overlay(base, staged), k) == Field(base + own, k)
    {
      assert Field(staged, k) == Field(own, k);
    }
    assert Field(staged, CONTENT_ENCODING) == Field(own, CONTENT_ENCODING);
  }

  lemma OverlayGivenUp(base: Header, staged: Header, own: Header)
    requires Derived(staged, own)
    ensures Value(staged, CONTENT_ENCODING) == Value(own, CONTENT_ENCODING)
    ensures Value(own, CONTENT_ENCODING) == "" ==> PlainHead(Overlay(base, staged - {CONTENT_ENCODING}), base, own)
  {
    forall k | k !in {CONTENT_TYPE, CONTENT_ENCODING, NO_SNIFF}
      ensures Field(Overlay(base, staged - {CONTENT_ENCODING}), k) == Field(base + own, k)
    {
      assert Field(staged, k) == Field(own, k);
    }
    assert Field(staged, CONTENT_ENCODING) == Field(own, CONTENT_ENCODING);
  }

  lemma OverlayGzip(base: Header, staged: Header, own: Header, vary: seq<string> -> seq<string>)
    requires Derived(staged, own)
    ensures GzipHead(Overlay(base, GzipHeader(staged, vary)), base, own)
  {
    var h := GzipHeader(staged, vary);
    assert VARY != CONTENT_LENGTH && VARY != CONTENT_ENCODING && VARY != CONTENT_TYPE;
    forall k | k !in {CONTENT_TYPE, CONTENT_ENCODING, CONTENT_LENGTH, VARY, NO_SNIFF}
      ensures Field(Overlay(base, h), k) == Field(base + own, k)
    {
      assert Field(staged, k) == Field(own, k) && Field(h, k) == Field(staged, k);
    }
    assert CONTENT_LENGTH !in h && Field(h, CONTENT_TYPE) == Field(staged, CONTENT_TYPE);
  }

  lemma OverlayNothing(base: Header, own: Header)
    requires own == map[]
    ensures PlainHead(base, base, own)
  {
    assert base + own == base;
  }

  /** A handler that sends a compressible status, flushes and then writes meets the hazard. */
  lemma HazardAfterFlush(h: Header, status: int, data: string, maxBytes: int)
    requires ShouldCompress(status, h) && 0 < |data| <= maxBytes
    ensures Hazard(Then(Then(Then(Then(Fresh, Edit(h)), Call.WriteHeader(status)), Call.Flush), Call.Write(data)), maxBytes)
  {
    var begun := Then(Then(Fresh, Edit(h)), Call.WriteHeader(status));
    assert !Closed(Fresh) && !Closed(Then(Fresh, Edit(h)));
    assert HeaderOf(Then(Fresh, Edit(h))) == h;
    assert Chosen(begun) && Closed(begun);
    var flushed := Then(begun, Call.Flush);
    assert EarlyFlush(flushed);
    assert Closed(flushed.before) && Chosen(flushed);
    var calls := Then(flushed, Call.Write(data));
    assert calls.call.data == data && Hazard(calls, maxBytes);
  }

  lemma HazardExample()
    ensures exists calls :: !LateEdit(calls) && Hazard(calls, 1)
  {
    var h := map[CONTENT_TYPE := ["text/html"]];
    var edited := Then(Fresh, Edit(h));
    var flushed := Then(Then(edited, Call.WriteHeader(200)), Call.Flush);
    TextIsCompressible(h);
    HazardAfterFlush(h, 200, "x", 1);
    assert !Closed(Fresh) && !LateEdit(edited);
    assert !LateEdit(flushed.before) && !LateEdit(flushed);
    assert !LateEdit(Then(flushed, Call.Write("x")));
  }

  // What is compressible, letter by letter

  /** `c` is the given lower-case letter or byte, in either case. */
  predicate Folds(lower: char, c: char) {
    c == lower || ('A' <= c <= 'Z' && lower == c - 'A' + 'a')
  }

  predicate NoCapital(s: string) {
    forall i :: 0 <= i < |s| ==> !('A' <= s[i] <= 'Z')
  }

  predicate StartsFolded(s: string, prefix: string) {
    |prefix| <= |s| && forall i :: 0 <= i < |prefix| ==> Folds(prefix[i], s[i])
  }

  predicate HoldsFolded(s: string, sub: string) {
    exists i :: 0 <= i <= |s| && StartsFolded(s[i..], sub)
  }

  lemma StartsLower(s: string, prefix: string)
    requires NoCapital(prefix)
    ensures prefix <= Lower(s) <==> StartsFolded(s, prefix)
  {
    assert |prefix| <= |s| ==> forall i :: 0 <= i < |prefix| ==> (prefix[i] == Lower(s)[i] <==> Folds(prefix[i], s[i]));
  }

  lemma HoldsLower(s: string, sub: string)
    requires NoCapital(sub)
    ensures Contains(Lower(s), sub) <==> HoldsFolded(s, sub)
  {
    forall i | 0 <= i <= |s|
      ensures sub <= Lower(s)[i..] <==> StartsFolded(s[i..], sub)
    {
      assert Lower(s)[i..] == Lower(s[i..]);
      StartsLower(s[i..], sub);
    }
  }

  lemma ContainsTail(s: string, sub: string, from: nat)
    requires from <= |sub| && Contains(s, sub)
    ensures Contains(s, sub[from..])
  {
    var i :| 0 <= i <= |s| && sub <= s[i..];
    assert sub[from..] <= s[i + from..];
  }

  lemma EventStream(s: string)
    requires Contains(s, "event-stream")
    ensures Contains(s, "stream")
  {
    ContainsTail(s, "event-stream", 6);
    assert "event-stream"[6..] == "stream";
  }

  lemma StreamIff(contentType: string)
    ensures Contains(Lower(contentType), "stream") <==> HoldsFolded(contentType, "stream")
    ensures Contains(Lower(contentType), "websocket") <==> HoldsFolded(contentType, "websocket")
  {
    HoldsLower(contentType, "stream");
    HoldsLower(contentType, "websocket");
  }

  const BinaryTypes := ["image/", "video/", "audio/", "application/zip", "application/gzip", "application/pdf", "application/octet-stream"]

  ghost predicate Binary(contentType: string) {
    exists k :: 0 <= k < |BinaryTypes| && StartsFolded(contentType, BinaryTypes[k])
  }

  lemma BinaryNoCapital(k: nat)
    requires k < |BinaryTypes|
    ensures NoCapital(BinaryTypes[k])
  {
  }

  lemma BinaryIff(contentType: string)
    ensures var low := Lower(contentType);
            Binary(contentType) <==>
            "image/" <= low || "video/" <= low || "audio/" <= low || "application/zip" <= low || "application/gzip" <= low
            || "application/pdf" <= low || "application/octet-stream" <= low
  {
    forall k | 0 <= k < |BinaryTypes|
      ensures BinaryTypes[k] <= Lower(contentType) <==> StartsFolded(contentType, BinaryTypes[k])
    {
      BinaryNoCapital(k);
      StartsLower(contentType, BinaryTypes[k]);
    }
    assert BinaryTypes[0] == "image/" && BinaryTypes[1] == "video/" && BinaryTypes[2] == "audio/";
    assert BinaryTypes[3] == "application/zip" && BinaryTypes[4] == "application/gzip" && BinaryTypes[5] == "application/pdf";
    assert BinaryTypes[6] == "application/octet-stream";
  }

  /**
   A response is compressible just when its status is below 400, it has a content type and no coding,
   and the type, in any letter case, neither mentions "stream" or "websocket" nor starts like one of
   the types that are compressed or binary already.
   */
  lemma CompressibleIff(status: int, h: Header)
    ensures var t := Value(h, CONTENT_TYPE);
            ShouldCompress(status, h) <==>
            && status < 400 && t != "" && Value(h, CONTENT_ENCODING) == ""
            && !HoldsFolded(t, "stream") && !HoldsFolded(t, "websocket") && !Binary(t)
  {
    var t := Value(h, CONTENT_TYPE);
    StreamIff(t);
    BinaryIff(t);
    if Contains(Lower(t), "event-stream") {
      EventStream(Lower(t));
    }
  }

  lemma LowerIs(s: string)
    requires forall c :: c in s ==> !('A' <= c <= 'Z')
    ensures Lower(s) == s
  {
    forall i | 0 <= i < |s|
      ensures Lower(s)[i] == s[i]
    {
      assert s[i] in s;
    }
  }

  lemma NotIn(s: string, sub: string)
    requires |sub| > |s| || (sub != "" && sub[0] !in s)
    ensures !Contains(s, sub)
  {
    forall i | 0 <= i <= |s|
      ensures !(sub <= s[i..])
    {
      assert i < |s| ==> s[i..][0] == s[i] && s[i] in s;
    }
  }

  lemma NotPrefix(s: string, prefix: string)
    requires s != "" && prefix != "" && s[0] != prefix[0]
    ensures !(prefix <= s)
  {
  }

  lemma TextIsCompressible(h: Header)
    requires h == map[CONTENT_TYPE := ["text/html"]]
    ensures ShouldCompress(200, h)
  {
    var text := "text/html";
    LowerIs(text);
    NotIn(text, "stream");
    NotIn(text, "event-stream");
    NotIn(text, "websocket");
    assert text[0] == 't';
    NotPrefix(text, "image/");
    NotPrefix(text, "video/");
    NotPrefix(text, "audio/");
    NotPrefix(text, "application/zip");
    NotPrefix(text, "application/gzip");
    NotPrefix(text, "application/pdf");
    NotPrefix(text, "application/octet-stream");
  }

  /** A handler's calls, first to last, as a history. */
  function Log(script: seq<Call>): History {
    if script == [] then Fresh else Then(Log(script[..|script| - 1]), script[|script| - 1])
  }

  lemma {:induction false} LogPrefix(script: seq<Call>, i: nat)
    requires i < |script|
    ensures Log(script[..i + 1]) == Then(Log(script[..i]), script[i])
    ensures Hijacked(Log(script[..i + 1])) ==> Hijacked(Log(script))
    decreases |script| - i
  {
    assert script[..i + 1][..i] == script[..i];
    if i + 1 == |script| {
      assert script[..i + 1] == script;
    } else {
      LogPrefix(script, i + 1);
    }
  }

  // When a body is gzip, from the list of calls

  predicate EmptyWrites(l: seq<Call>) {
    forall i :: 0 <= i < |l| && l[i].Write? ==> l[i].data == ""
  }

  predicate NoWriteOrFlush(l: seq<Call>) {
    forall i :: 0 <= i < |l| ==> !l[i].Write? && !l[i].Flush?
  }

  lemma WritesSnoc(l: seq<Call>, call: Call)
    ensures EmptyWrites(l + [call]) <==> EmptyWrites(l) && (call.Write? ==> call.data == "")
    ensures NoWriteOrFlush(l + [call]) <==> NoWriteOrFlush(l) && !call.Write? && !call.Flush?
  {
    assert (l + [call])[|l|] == call;
    assert forall i :: 0 <= i < |l| ==> l[i] == (l + [call])[i];
  }

  lemma OpenIsSilent(l: seq<Call>)
    requires NoneCloses(l)
    ensures EmptyWrites(l) && NoWriteOrFlush(l)
  {
    assert forall i :: 0 <= i < |l| ==> !Closes(l[i]);
  }

  /** Nothing is decided: no write, no flush, and no status line, or one whose headers only lacked a content type. */
  ghost predicate Undecided(l: seq<Call>) {
    var c := Committed(Log(l));
    NoWriteOrFlush(l) && (NoneCloses(l) || (c.Some? && ShouldDefer(c.value.status, c.value.header)))
  }

  /** Call `i` chooses compression: the first status line, or an empty write while nothing is decided. */
  ghost predicate ChoosesAt(l: seq<Call>, i: nat) {
    i < |l| &&
    var before := Log(l[..i]);
    || (l[i].WriteHeader? && NoneCloses(l[..i]) && ShouldCompress(l[i].status, HeaderOf(before)))
    || (l[i] == Write("") && Undecided(l[..i]) && ShouldCompress(StatusOf(before), HeaderOf(before)))
  }

  /** After the calls `l` a write of `p` finds compression chosen, or chooses it with a missing content type read off `p`. */
  ghost predicate Ready(l: seq<Call>, p: string, detect: string -> string) {
    || (EmptyWrites(l) && exists i: nat :: ChoosesAt(l, i))
    || (Undecided(l) && ShouldCompress(StatusOf(Log(l)), Typed(HeaderOf(Log(l)), p, detect)))
  }

  /** The write at `k` starts the gzip stream. */
  ghost predicate StartsAt(script: seq<Call>, k: nat, detect: string -> string, maxBytes: int) {
    k < |script| && script[k].Write? && 0 < |script[k].data| <= maxBytes && Ready(script[..k], script[k].data, detect)
  }

  lemma {:induction false} CalledLog(l: seq<Call>)
    ensures Called(Log(l)) == l
  {
    if l != [] {
      CalledLog(l[..|l| - 1]);
    }
  }

  lemma {:induction false} DeferredIff(calls: History)
    requires !Hijacked(calls)
    ensures var c := Committed(calls);
            Deferred(calls) <==>
            Closed(calls) && NoWriteOrFlush(Called(calls)) && c.Some? && ShouldDefer(c.value.status, c.value.header)
  {
    if calls.Then? {
      var before, call := calls.before, calls.call;
      DeferredIff(before);
      OpenUntilClosing(before);
      WritesSnoc(Called(before), call);
      if !Closed(before) {
        OpenIsSilent(Called(before));
      }
    }
  }

  lemma UndecidedIff(l: seq<Call>)
    requires !Hijacked(Log(l))
    ensures Undecided(l) <==> !Closed(Log(l)) || Deferred(Log(l))
  {
    CalledLog(l);
    DeferredIff(Log(l));
    OpenUntilClosing(Log(l));
    if !Closed(Log(l)) {
      OpenIsSilent(l);
    }
  }

  lemma ChoosesEarlier(l: seq<Call>, call: Call, i: nat)
    requires i < |l|
    ensures ChoosesAt(l + [call], i) <==> ChoosesAt(l, i)
  {
    assert (l + [call])[..i] == l[..i] && (l + [call])[i] == l[i];
  }

  lemma ChoosesSnoc(l: seq<Call>, call: Call)
    ensures (exists i: nat :: ChoosesAt(l + [call], i)) <==> (exists i: nat :: ChoosesAt(l, i)) || ChoosesAt(l + [call], |l|)
  {
    forall i: nat | i < |l|
      ensures ChoosesAt(l + [call], i) <==> ChoosesAt(l, i)
    {
      ChoosesEarlier(l, call, i);
    }
  }

  /** Compression is chosen just when some call chose it and no bytes were written. */
  lemma {:induction false} ChosenIff(l: seq<Call>)
    requires !Hijacked(Log(l))
    ensures Chosen(Log(l)) <==> EmptyWrites(l) && exists i: nat :: ChoosesAt(l, i)
  {
    if l != [] {
      var front, call := l[..|l| - 1], l[|l| - 1];
      assert l == front + [call] && l[..|front|] == front;
      ChosenIff(front);
      UndecidedIff(front);
      ChoosesSnoc(front, call);
      WritesSnoc(front, call);
      CalledLog(front);
      OpenUntilClosing(Log(front));
      OpenIsEmpty(Log(front));
      if NoneCloses(front) {
        OpenIsSilent(front);
      }
    }
  }

  lemma PickedIff(l: seq<Call>, p: string, detect: string -> string)
    requires !Hijacked(Log(l))
    ensures Picked(Log(l), p, detect) <==> Ready(l, p, detect)
  {
    ChosenIff(l);
    UndecidedIff(l);
  }

  lemma StartsEarlier(l: seq<Call>, call: Call, k: nat, detect: string -> string, maxBytes: int)
    requires k < |l|
    ensures StartsAt(l + [call], k, detect, maxBytes) <==> StartsAt(l, k, detect, maxBytes)
  {
    assert (l + [call])[..k] == l[..k] && (l + [call])[k] == l[k];
  }

  lemma StartsLast(l: seq<Call>, call: Call, detect: string -> string, maxBytes: int)
    requires !Hijacked(Log(l))
    ensures StartsAt(l + [call], |l|, detect, maxBytes) <==>
            call.Write? && 0 < |call.data| <= maxBytes && Picked(Log(l), call.data, detect)
  {
    assert (l + [call])[..|l|] == l && (l + [call])[|l|] == call;
    if call.Write? {
      PickedIff(l, call.data, detect);
    }
  }

  ghost predicate StartsSomewhere(l: seq<Call>, detect: string -> string, maxBytes: int) {
    exists k: nat :: StartsAt(l, k, detect, maxBytes)
  }

  lemma StartsSnoc(l: seq<Call>, call: Call, detect: string -> string, maxBytes: int)
    ensures StartsSomewhere(l + [call], detect, maxBytes) <==>
            StartsSomewhere(l, detect, maxBytes) || StartsAt(l + [call], |l|, detect, maxBytes)
  {
    forall k: nat | k < |l|
      ensures StartsAt(l + [call], k, detect, maxBytes) <==> StartsAt(l, k, detect, maxBytes)
    {
      StartsEarlier(l, call, k, detect, maxBytes);
    }
  }

  /** The response becomes gzip at some write, and only there. */
  lemma {:induction false} GzippedIff(script: seq<Call>, detect: string -> string, maxBytes: int)
    requires !Hijacked(Log(script))
    ensures Gzipped(Log(script), detect, maxBytes) <==> StartsSomewhere(script, detect, maxBytes)
  {
    if script != [] {
      var front, last := script[..|script| - 1], script[|script| - 1];
      assert script == front + [last];
      GzippedIff(front, detect, maxBytes);
      StartsLast(front, last, detect, maxBytes);
      StartsSnoc(front, last, detect, maxBytes);
    }
  }

  // The flush hazard, from the list of calls

  /** Call `f` is a flush, call `i` before it chose compression, and no bytes were written before it. */
  ghost predicate FlushesEarly(l: seq<Call>, i: nat, f: nat) {
    i < f < |l| && ChoosesAt(l, i) && l[f].Flush? && EmptyWrites(l[..f])
  }

  /** ... and call `k` after it is the first write of bytes, small enough to start the stream. */
  ghost predicate HazardAt(l: seq<Call>, i: nat, f: nat, k: nat, maxBytes: int) {
    FlushesEarly(l, i, f) && f < k < |l| && l[k].Write? && 0 < |l[k].data| <= maxBytes && EmptyWrites(l[..k])
  }

  ghost predicate EarlyFlushIn(l: seq<Call>) {
    exists i: nat, f: nat :: FlushesEarly(l, i, f)
  }

  ghost predicate HazardIn(l: seq<Call>, maxBytes: int) {
    exists i: nat, f: nat, k: nat :: HazardAt(l, i, f, k, maxBytes)
  }

  lemma FlushesEarlier(l: seq<Call>, call: Call, i: nat, f: nat)
    requires i < f < |l|
    ensures FlushesEarly(l + [call], i, f) <==> FlushesEarly(l, i, f)
  {
    ChoosesEarlier(l, call, i);
    assert (l + [call])[..f] == l[..f] && (l + [call])[f] == l[f];
  }

  lemma FlushesLast(l: seq<Call>, call: Call, i: nat)
    requires i < |l|
    ensures FlushesEarly(l + [call], i, |l|) <==> ChoosesAt(l, i) && call.Flush? && EmptyWrites(l)
  {
    ChoosesEarlier(l, call, i);
    assert (l + [call])[..|l|] == l;
  }

  lemma EarlyFlushSnoc(l: seq<Call>, call: Call)
    requires !Hijacked(Log(l))
    ensures EarlyFlushIn(l + [call]) <==> EarlyFlushIn(l) || (call.Flush? && Chosen(Log(l)))
  {
    ChosenIff(l);
    forall i: nat, f: nat | i < f < |l|
      ensures FlushesEarly(l + [call], i, f) <==> FlushesEarly(l, i, f)
    {
      FlushesEarlier(l, call, i, f);
    }
    forall i: nat | i < |l|
      ensures FlushesEarly(l + [call], i, |l|) <==> ChoosesAt(l, i) && call.Flush? && EmptyWrites(l)
    {
      FlushesLast(l, call, i);
    }
  }

  lemma {:induction false} EarlyFlushIff(l: seq<Call>)
    requires !Hijacked(Log(l))
    ensures EarlyFlush(Log(l)) <==> EarlyFlushIn(l)
  {
    if l != [] {
      var front, call := l[..|l| - 1], l[|l| - 1];
      assert l == front + [call];
      EarlyFlushIff(front);
      EarlyFlushSnoc(front, call);
    }
  }

  lemma HazardEarlier(l: seq<Call>, call: Call, i: nat, f: nat, k: nat, maxBytes: int)
    requires i < f < k < |l|
    ensures HazardAt(l + [call], i, f, k, maxBytes) <==> HazardAt(l, i, f, k, maxBytes)
  {
    FlushesEarlier(l, call, i, f);
    assert (l + [call])[..k] == l[..k] && (l + [call])[k] == l[k];
  }

  lemma HazardLast(l: seq<Call>, call: Call, i: nat, f: nat, maxBytes: int)
    requires i < f < |l|
    ensures HazardAt(l + [call], i, f, |l|, maxBytes) <==>
            FlushesEarly(l, i, f) && call.Write? && 0 < |call.data| <= maxBytes && EmptyWrites(l)
  {
    FlushesEarlier(l, call, i, f);
    assert (l + [call])[..|l|] == l;
  }

  lemma HazardSnoc(l: seq<Call>, call: Call, maxBytes: int)
    ensures HazardIn(l + [call], maxBytes) <==>
            HazardIn(l, maxBytes) || (EarlyFlushIn(l) && call.Write? && 0 < |call.data| <= maxBytes && EmptyWrites(l))
  {
    forall i: nat, f: nat, k: nat | i < f < k < |l|
      ensures HazardAt(l + [call], i, f, k, maxBytes) <==> HazardAt(l, i, f, k, maxBytes)
    {
      HazardEarlier(l, call, i, f, k, maxBytes);
    }
    forall i: nat, f: nat | i < f < |l|
      ensures HazardAt(l + [call], i, f, |l|, maxBytes) <==>
              FlushesEarly(l, i, f) && call.Write? && 0 < |call.data| <= maxBytes && EmptyWrites(l)
    {
      HazardLast(l, call, i, f, maxBytes);
    }
  }

  lemma EarlyFlushChose(l: seq<Call>)
    requires EarlyFlushIn(l) && EmptyWrites(l) && !Hijacked(Log(l))
    ensures Chosen(Log(l))
  {
    var i: nat, f: nat :| FlushesEarly(l, i, f);
    ChosenIff(l);
    assert ChoosesAt(l, i);
  }

  /** The hazard: compression chosen, then a flush, then a small write as the first bytes. */
  lemma {:induction false} HazardIff(l: seq<Call>, maxBytes: int)
    requires !Hijacked(Log(l))
    ensures Hazard(Log(l), maxBytes) <==> HazardIn(l, maxBytes)
  {
    if l != [] {
      var front, call := l[..|l| - 1], l[|l| - 1];
      assert l == front + [call];
      HazardIff(front, maxBytes);
      EarlyFlushIff(front);
      HazardSnoc(front, call, maxBytes);
      ChosenIff(front);
      if EarlyFlushIn(front) && EmptyWrites(front) {
        EarlyFlushChose(front);
      }
    }
  }

  /**
   One response through the middleware: any calls of the handler, ending in a return or a panic.

   The body decodes to exactly what was written. It is gzip if and only if some write of the script
   starts the stream. A gzip body goes out unannounced precisely in the flush hazard on a writer that
   can be flushed. Otherwise the status is the handler's, and so are the fields when they were not
   edited late, with `gzip` announced over a gzip body and no coding added over a plain one.
   */
  method Serve(script: seq<Call>, panicking: bool, base: Header, canFlush: bool, maxBytes: int,
               detect: string -> string, vary: seq<string> -> seq<string>)
    returns (head: Option<Head>, chunks: seq<Chunk>)
    requires maxBytes > 0 && !Hijacked(Log(script))
    ensures Decode(chunks) == Some(BodyOf(Log(script)))
    ensures IsGzip(chunks) <==> StartsSomewhere(script, detect, maxBytes)
    ensures !panicking ==> (head.Some? <==> Closed(Log(script)))
    ensures IsGzip(chunks) && !(canFlush && HazardIn(script, maxBytes)) ==>
            head.Some? && Value(head.value.header, CONTENT_ENCODING) == "gzip"
    ensures IsGzip(chunks) && Value(base, CONTENT_ENCODING) != "gzip" ==>
            (head.Some? && Value(head.value.header, CONTENT_ENCODING) == "gzip" <==> !(canFlush && HazardIn(script, maxBytes)))
    ensures !(canFlush && EarlyFlushIn(script)) && head.Some? ==>
            && Committed(Log(script)).Some? && head.value.status == Shown(Committed(Log(script)).value.status)
            && (!LateEdit(Log(script)) && IsPlain(chunks) ==> PlainHead(head.value.header, base, HeaderOf(Log(script))))
            && (!LateEdit(Log(script)) && IsGzip(chunks) ==> GzipHead(head.value.header, base, HeaderOf(Log(script))))
    ensures canFlush && EarlyFlushIn(script) ==> head == Some(Head(STATUS_OK, base))
  {
    EarlyFlushIff(script);
    HazardIff(script, maxBytes);
    GzippedIff(script, detect, maxBytes);
    var w := Drive(script, base, canFlush, maxBytes, detect, vary);
    w.Finalize(panicking);
    return w.sink.head, w.sink.chunks;
  }

  /** The writer after the handler's calls. */
  method Drive(script: seq<Call>, base: Header, canFlush: bool, maxBytes: int,
               detect: string -> string, vary: seq<string> -> seq<string>)
    returns (w: GzipResponseWriter)
    requires maxBytes > 0 && !Hijacked(Log(script))
    ensures fresh(w) && fresh(w.sink) && w.Valid() && w.calls == Log(script)
    ensures w.maxBytes == maxBytes && w.detect == detect && w.sink.base == base && w.sink.canFlush == canFlush
  {
    var sink := new Sink(base, canFlush);
    w := new GzipResponseWriter(sink, maxBytes, detect, vary);
    for i := 0 to |script|
      invariant w.Valid() && w.calls == Log(script[..i]) && w.maxBytes == maxBytes && w.detect == detect
      invariant w.sink == sink && sink.base == base && sink.canFlush == canFlush
      invariant fresh(w) && fresh(sink)
    {
      LogPrefix(script, i);
      w.Handle(script[i]);
    }
    assert script[..|script|] == script;
  }
}
