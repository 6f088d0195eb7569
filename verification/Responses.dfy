/** What a handler does to a response writer, and the header edits the middleware shares. */
module Responses {
  import opened Text

  type Header = map<string, seq<string>>

  /** A status line with its headers, as sent. */
  datatype Head = Head(status: int, header: Header)

  const STATUS_OK := 200
  const NO_SNIFF := "X-Content-Type-Options"

  function Value(h: Header, key: string): string {
    if key in h && h[key] != [] then h[key][0] else ""
  }

  function EnsureNoSniff(h: Header): Header {
    if Value(h, NO_SNIFF) == "" then h[NO_SNIFF := ["nosniff"]] else h
  }

  /** `sent` has the fields of `h`, except that an absent or empty NO_SNIFF field is "nosniff". */
  ghost predicate Guarded(sent: Header, h: Header) {
    && sent.Keys == h.Keys + {NO_SNIFF}
    && (forall f :: f in h && f != NO_SNIFF ==> sent[f] == h[f])
    && sent[NO_SNIFF] == if NO_SNIFF !in h || h[NO_SNIFF] == [] || h[NO_SNIFF][0] == "" then ["nosniff"] else h[NO_SNIFF]
  }

  lemma EnsureNoSniffGuards(h: Header)
    ensures Guarded(EnsureNoSniff(h), h)
  {
    assert EnsureNoSniff(h).Keys == h.Keys + {NO_SNIFF};
  }

  /** What `CommitHeadersCopy` sends over a writer whose own headers are `base`. */
  function Overlay(base: Header, src: Header): Header {
    EnsureNoSniff(base + src)
  }

  /** One call of a handler on its response writer; `Edit` leaves the header map as given. */
  datatype Call =
    | Edit(header: Header)
    | WriteHeader(status: int)
    | Write(data: string)
    | Flush
    | Hijack(ok: bool)

  /** The calls a handler has made, the latest outermost. */
  datatype History = Fresh | Then(before: History, call: Call)

  /** The handler's header map after the calls. */
  function HeaderOf(calls: History): Header {
    match calls
    case Fresh => map[]
    case Then(before, call) => if call.Edit? then call.header else HeaderOf(before)
  }

  /** Everything the handler wrote. */
  function BodyOf(calls: History): string {
    match calls
    case Fresh => ""
    case Then(before, call) => BodyOf(before) + if call.Write? then call.data else ""
  }

  predicate Flushed(calls: History) {
    calls.Then? && (calls.call.Flush? || Flushed(calls.before))
  }

  predicate Hijacked(calls: History) {
    calls.Then? && (calls.call == Hijack(true) || Hijacked(calls.before))
  }

  /** No status line can be chosen any more: one was, or the connection was taken over. */
  predicate Closed(calls: History) {
    calls.Then? && (Closes(calls.call) || Closed(calls.before))
  }

  predicate Closes(call: Call) {
    call.WriteHeader? || call.Write? || call.Flush? || call == Hijack(true)
  }

  /** The status line and headers chosen by the first call that commits, unless a hijack came first. */
  function Committed(calls: History): Option<Head> {
    match calls
    case Fresh => None
    case Then(before, call) =>
      if Closed(before) then Committed(before)
      else if call.WriteHeader? then Some(Head(call.status, HeaderOf(before)))
      else if call.Write? || call.Flush? then Some(Head(STATUS_OK, HeaderOf(before)))
      else None
  }

  /** Without a commit nothing was written. */
  lemma {:induction false} OpenIsEmpty(calls: History)
    ensures !Closed(calls) ==> Committed(calls) == None && BodyOf(calls) == ""
    ensures Committed(calls) == None && !Hijacked(calls) ==> !Closed(calls)
  {
    if calls.Then? {
      OpenIsEmpty(calls.before);
    }
  }

  // The same, from the list of calls

  function Called(calls: History): seq<Call> {
    match calls
    case Fresh => []
    case Then(before, call) => Called(before) + [call]
  }

  ghost predicate LatestEdit(l: seq<Call>, k: nat) {
    k < |l| && l[k].Edit? && forall i :: k < i < |l| ==> !l[i].Edit?
  }

  /** The header the last edit left, empty without one. */
  ghost predicate EditedTo(h: Header, l: seq<Call>) {
    && ((forall i :: 0 <= i < |l| ==> !l[i].Edit?) ==> h == map[])
    && (forall k: nat :: LatestEdit(l, k) ==> h == l[k].header)
  }

  lemma {:induction false} Unedited(calls: History)
    requires forall i :: 0 <= i < |Called(calls)| ==> !Called(calls)[i].Edit?
    ensures HeaderOf(calls) == map[]
  {
    if calls.Then? {
      var l := Called(calls.before);
      assert Called(calls)[|l|] == calls.call;
      assert forall i :: 0 <= i < |l| ==> Called(calls)[i] == l[i];
      Unedited(calls.before);
    }
  }

  lemma {:induction false} EditIsLatest(calls: History, k: nat)
    requires LatestEdit(Called(calls), k)
    ensures HeaderOf(calls) == Called(calls)[k].header
  {
    var l := Called(calls.before);
    assert Called(calls)[|l|] == calls.call;
    if k < |l| {
      assert forall i :: 0 <= i < |l| ==> Called(calls)[i] == l[i];
      EditIsLatest(calls.before, k);
    }
  }

  lemma EditLaw(calls: History)
    ensures EditedTo(HeaderOf(calls), Called(calls))
  {
    if forall i :: 0 <= i < |Called(calls)| ==> !Called(calls)[i].Edit? {
      Unedited(calls);
    }
    forall k: nat | LatestEdit(Called(calls), k)
      ensures HeaderOf(calls) == Called(calls)[k].header
    {
      EditIsLatest(calls, k);
    }
  }

  ghost predicate FirstClosing(l: seq<Call>, k: nat) {
    k < |l| && Closes(l[k]) && forall i :: 0 <= i < k ==> !Closes(l[i])
  }

  /** What is committed by the first closing call, made after the calls `l[..k]`. */
  ghost predicate CommittedBy(c: Option<Head>, l: seq<Call>, k: nat)
    requires k < |l|
  {
    if l[k].Hijack? then c == None
    else c.Some? && c.value.status == (if l[k].WriteHeader? then l[k].status else STATUS_OK) && EditedTo(c.value.header, l[..k])
  }

  ghost predicate NoneCloses(l: seq<Call>) {
    forall i :: 0 <= i < |l| ==> !Closes(l[i])
  }

  lemma NoneClosesSnoc(l: seq<Call>, call: Call)
    ensures NoneCloses(l + [call]) <==> NoneCloses(l) && !Closes(call)
  {
    assert (l + [call])[|l|] == call;
    if NoneCloses(l + [call]) {
      assert forall i :: 0 <= i < |l| ==> l[i] == (l + [call])[i];
    }
  }

  lemma {:induction false} OpenUntilClosing(calls: History)
    ensures !Closed(calls) <==> NoneCloses(Called(calls))
  {
    if calls.Then? {
      OpenUntilClosing(calls.before);
      NoneClosesSnoc(Called(calls.before), calls.call);
    }
  }

  /** The first closing call decides the status line, with the header as it stood then. */
  lemma {:induction false} CommitIsFirst(calls: History, k: nat)
    requires FirstClosing(Called(calls), k)
    ensures CommittedBy(Committed(calls), Called(calls), k)
  {
    var l := Called(calls.before);
    OpenUntilClosing(calls.before);
    assert Called(calls)[|l|] == calls.call;
    assert forall i :: 0 <= i < |l| ==> Called(calls)[i] == l[i];
    if k < |l| {
      assert l[..k] == Called(calls)[..k];
      assert Closes(l[k]);
      CommitIsFirst(calls.before, k);
    } else {
      assert l == Called(calls)[..k];
      EditLaw(calls.before);
    }
  }

  /** Fields of the overlay: the source's where it has them, else the base's, with "nosniff" for an empty NO_SNIFF field. */
  lemma OverlayFields(base: Header, src: Header, f: string)
    ensures f in Overlay(base, src) <==> f in base || f in src || f == NO_SNIFF
    ensures f != NO_SNIFF && f in src ==> Overlay(base, src)[f] == src[f]
    ensures f != NO_SNIFF && f in base && f !in src ==> Overlay(base, src)[f] == base[f]
    ensures Value(Overlay(base, src), NO_SNIFF) != ""
  {
  }
}
