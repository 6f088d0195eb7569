/**
 Request coalescing: the response recorder of the leader, and the protocol between leaders and
 waiters as a step system in which arrivals, handler calls, returns, panics, map removal, channel
 close, wake-ups, timeouts and cancellations interleave in any order.
 */
module Singleflight {
  import opened Text
  import opened Responses

  datatype Error = UpstreamPanic | ResponseTooLarge | Unreplayable

  datatype Response = Response(status: int, header: Header, body: string)

  datatype Outcome = Ok(response: Response) | Err(error: Error)

  // What a record must hold, from the handler's calls alone

  predicate TooLarge(calls: History, maxBytes: int) {
    maxBytes > 0 && |BodyOf(calls)| > maxBytes
  }

  predicate Streams(calls: History) {
    Flushed(calls) || Hijacked(calls)
  }

  /** The response to replay, or why there is none. */
  function Capture(calls: History, maxBytes: int): Outcome {
    if TooLarge(calls, maxBytes) then Err(ResponseTooLarge)
    else if Streams(calls) then Err(Unreplayable)
    else
      var head := Committed(calls);
      if head.Some? then Ok(Response(head.value.status, head.value.header, BodyOf(calls)))
      else Ok(Response(STATUS_OK, HeaderOf(calls), ""))
  }

  /** Each outcome with the whole condition behind it. */
  lemma CaptureCases(calls: History, maxBytes: int)
    ensures var o := Capture(calls, maxBytes);
            var large := maxBytes > 0 && |BodyOf(calls)| > maxBytes;
            && (o == Err(ResponseTooLarge) <==> large)
            && (o == Err(Unreplayable) <==> !large && (Flushed(calls) || Hijacked(calls)))
            && (o.Ok? <==> !large && !Flushed(calls) && !Hijacked(calls))
  {
  }

  /** The body bytes that reach the leader's own client. */
  function Sent(calls: History): string {
    match calls
    case Fresh => ""
    case Then(before, call) => Sent(before) + if call.Write? && !Hijacked(before) then call.data else ""
  }

  lemma {:induction false} SentIsBody(calls: History)
    requires !Hijacked(calls)
    ensures Sent(calls) == BodyOf(calls)
  {
    if calls.Then? {
      SentIsBody(calls.before);
    }
  }

  /**
   A replayed response is what the leader's client was sent: same status, same bytes, and the same
   headers before the client writer's own and `nosniff` are laid under them. The one difference is
   a handler that never commits: its headers reach the waiters only.
   */
  lemma ReplayIsSent(calls: History, maxBytes: int)
    requires Capture(calls, maxBytes).Ok?
    ensures var r := Capture(calls, maxBytes).response;
            && r.body == Sent(calls) == BodyOf(calls)
            && (Committed(calls).Some? ==> Committed(calls).value == Head(r.status, r.header))
            && (Committed(calls).None? ==> !Closed(calls) && r == Response(STATUS_OK, HeaderOf(calls), ""))
  {
    SentIsBody(calls);
    OpenIsEmpty(calls);
  }

  // The recorder

  /** The writer of the leader's client. */
  class Client {
    const base: Header
    var head: Option<Head>
    var body: string
    var hijacked: bool

    constructor (base: Header)
      ensures this.base == base && head == None && body == "" && !hijacked
    {
      this.base := base;
      head, body, hijacked := None, "", false;
    }
  }

  class LimitedResponseRecorder {
    const client: Client
    const maxBytes: int
    var statusCode: int
    var header: Header
    var committed: Option<Header>
    var body: string
    var wroteHeader: bool
    var overflow: bool
    var unreplayable: bool
    /** Every call the handler made. */
    ghost var calls: History

    ghost predicate Valid()
      reads this, client
    {
      && header == HeaderOf(calls)
      && wroteHeader == Closed(calls)
      && (Committed(calls).Some? ==>
            committed == Some(Committed(calls).value.header) && statusCode == Committed(calls).value.status)
      && (Committed(calls).None? ==> committed == None && statusCode == STATUS_OK)
      && overflow == TooLarge(calls, maxBytes)
      && (!overflow ==> body == BodyOf(calls))
      && unreplayable == Streams(calls)
      && Delivered()
    }

    /** The leader's client has the whole response, whatever the recorder could keep. */
    ghost predicate Delivered()
      reads this, client
    {
      && client.hijacked == Hijacked(calls)
      && client.body == Sent(calls)
      && (Committed(calls).None? ==> client.head == None)
      && (Committed(calls).Some? ==>
            client.head == Some(Head(Committed(calls).value.status, Overlay(client.base, Committed(calls).value.header))))
    }

    constructor (client: Client, maxBytes: int)
      requires client.head == None && client.body == "" && !client.hijacked
      ensures Valid() && calls == Fresh && this.client == client && this.maxBytes == maxBytes
    {
      this.client, this.maxBytes := client, maxBytes;
      statusCode, header, committed, body := STATUS_OK, map[], None, "";
      wroteHeader, overflow, unreplayable := false, false, false;
      calls := Fresh;
    }

    /** The handler edits the map that `Header` returns. */
    method EditHeader(h: Header)
      requires Valid()
      modifies this
      ensures Valid() && calls == Then(old(calls), Edit(h))
    {
      calls := Then(calls, Edit(h));
      header := h;
    }

    /** Chooses the status line, unless that is settled. */
    method Commit(status: int)
      modifies this, client
      ensures unchanged(this`header, this`body, this`overflow, this`unreplayable, this`calls, client`body, client`hijacked)
      ensures wroteHeader
      ensures old(wroteHeader) ==> unchanged(this) && unchanged(client)
      ensures !old(wroteHeader) ==>
              && committed == Some(header) && statusCode == status
              && client.head == Some(Head(status, Overlay(client.base, header)))
    {
      if wroteHeader {
        return;
      }
      statusCode := status;
      wroteHeader := true;
      committed := Some(header);
      client.head := Some(Head(status, Overlay(client.base, header)));
    }

    method WriteHeader(status: int)
      requires Valid()
      modifies this, client
      ensures Valid() && calls == Then(old(calls), Call.WriteHeader(status))
    {
      OpenIsEmpty(calls);
      Commit(status);
      calls := Then(calls, Call.WriteHeader(status));
    }

    /** Keeps `p` for replay while the whole body fits. */
    method Retain(p: string)
      modifies `overflow, `body
      ensures overflow == (old(overflow) || (maxBytes > 0 && |old(body)| + |p| > maxBytes))
      ensures !overflow ==> body == old(body) + p
    {
      if !overflow {
        if maxBytes > 0 && |body| + |p| > maxBytes {
          overflow := true;
          body := "";
        } else {
          body := body + p;
        }
      }
    }

    method Write(p: string)
      requires Valid()
      modifies this, client
      ensures Valid() && calls == Then(old(calls), Call.Write(p))
    {
      OpenIsEmpty(calls);
      if !wroteHeader {
        Commit(STATUS_OK);
      }
      Retain(p);
      if !client.hijacked {
        client.body := client.body + p;
      }
      calls := Then(calls, Call.Write(p));
    }

    method Flush()
      requires Valid()
      modifies this, client
      ensures Valid() && calls == Then(old(calls), Call.Flush)
    {
      OpenIsEmpty(calls);
      unreplayable := true;
      if !wroteHeader {
        Commit(STATUS_OK);
      }
      calls := Then(calls, Call.Flush);
    }

    /** `supported` says whether the client's writer can be taken over. */
    method Hijack(supported: bool) returns (ok: bool)
      requires Valid()
      modifies this, client
      ensures Valid() && calls == Then(old(calls), Call.Hijack(ok)) && ok == supported
    {
      OpenIsEmpty(calls);
      ok := supported;
      if ok {
        client.hijacked := true;
        wroteHeader := true;
        unreplayable := true;
      }
      calls := Then(calls, Call.Hijack(ok));
    }

    /** What `executeRequest` records when the handler returns. */
    method Result() returns (o: Outcome)
      requires Valid()
      ensures o == Capture(calls, maxBytes)
    {
      OpenIsEmpty(calls);
      if overflow {
        return Err(ResponseTooLarge);
      }
      if unreplayable {
        return Err(Unreplayable);
      }
      return Ok(Response(statusCode, if committed.Some? then committed.value else header, body));
    }
  }
}
