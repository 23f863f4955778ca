/** What every run of the session keeps: the signing session and the signing requests, characterised by the trace of
    commands alone. */
module SessionTraces {
  import opened Bytes
  import opened Buffering
  import opened Address
  import opened SessionSpec

  // ---------- Reading a trace ----------

  /** Commands that leave the signing session alone: refused at a gate, version queries, unknown payload types. */
  predicate IsNeutral(e: Event) {
    e.Apdu? && var c := Classify(e.frame); c.Refused? || c.Version? || c.SignOther?
  }

  predicate IsAdd(e: Event) {
    e.Apdu? && Classify(e.frame).SignAdd?
  }

  /** An accepted start of a signing session for `path`. */
  predicate IsInit(e: Event, path: Path) {
    e.Apdu? && Classify(e.frame) == SignInit(Some(path)) && IsMainnet(path)
  }

  /** An accepted start for some path. */
  predicate IsStart(e: Event) {
    e.Apdu? && Classify(e.frame).SignInit? && Classify(e.frame).path.Some? && IsMainnet(Classify(e.frame).path.value)
  }

  function Payload(e: Event): seq<byte> {
    if IsAdd(e) then Classify(e.frame).chunk else []
  }

  function Payloads(events: seq<Event>): seq<byte> {
    if events == [] then [] else Payloads(events[..|events| - 1]) + Payload(events[|events| - 1])
  }

  /** Event `j` starts a session for `path`; since then there are only neutral commands and added chunks, which
      concatenate to `message` and fit the buffer. */
  predicate OpenSince(limit: nat, events: seq<Event>, j: nat, path: Path, message: seq<byte>) {
    && j < |events|
    && IsInit(events[j], path)
    && (forall m :: j < m < |events| ==> IsNeutral(events[m]) || IsAdd(events[m]))
    && message == Payloads(events[j + 1..])
    && |message| <= limit
  }

  ghost predicate IsOpen(limit: nat, events: seq<Event>, path: Path, message: seq<byte>) {
    exists j :: OpenSince(limit, events, j, path, message)
  }

  /** The trace ends in a last chunk that completes a nonempty message of an open session, within the buffer. */
  ghost predicate IsComplete(limit: nat, events: seq<Event>, path: Path, message: seq<byte>) {
    && events != []
    && var k := |events| - 1;
    && events[k].Apdu? && Classify(events[k].frame).SignLast?
    && var chunk := Classify(events[k].frame).chunk;
    && message != [] && |message| <= limit
    && EndsWith(message, chunk)
    && IsOpen(limit, events[..k], path, Before(message, chunk))
  }

  // ---------- One more event ----------

  lemma OpenAfterInit(limit: nat, events: seq<Event>, e: Event, path: Path, p: Path, m: seq<byte>)
    requires IsInit(e, path)
    ensures IsOpen(limit, events + [e], p, m) <==> p == path && m == []
  {
    var all := events + [e];
    var n := |events|;
    assert all[n + 1..] == [];
    assert OpenSince(limit, all, n, path, []);
    assert !IsNeutral(all[n]) && !IsAdd(all[n]);
  }

  lemma OpenAfterOther(limit: nat, events: seq<Event>, e: Event, path: Path, message: seq<byte>)
    requires !IsNeutral(e) && !IsAdd(e) && !IsInit(e, path)
    ensures !IsOpen(limit, events + [e], path, message)
  {
    var last := (events + [e])[|events|];
    assert last == e;
  }

  lemma PayloadsSnoc(events: seq<Event>, e: Event, j: nat)
    requires j < |events|
    ensures Payloads((events + [e])[j + 1..]) == Payloads(events[j + 1..]) + Payload(e)
  {
    var s := (events + [e])[j + 1..];
    assert s[..|s| - 1] == events[j + 1..] && s[|s| - 1] == e;
  }

  /** The message without the bytes of its last payload. */
  function Before(message: seq<byte>, payload: seq<byte>): seq<byte> {
    if |payload| <= |message| then message[..|message| - |payload|] else []
  }

  predicate EndsWith(message: seq<byte>, payload: seq<byte>) {
    |payload| <= |message| && message[|message| - |payload|..] == payload
  }

  lemma SplitEnd(message: seq<byte>, front: seq<byte>, payload: seq<byte>)
    ensures message == front + payload <==> EndsWith(message, payload) && Before(message, payload) == front
  {
    if EndsWith(message, payload) {
      assert message == Before(message, payload) + payload;
    }
  }

  lemma OpenSinceStep(limit: nat, events: seq<Event>, e: Event, j: nat, path: Path, message: seq<byte>)
    requires (IsNeutral(e) || IsAdd(e)) && j < |events|
    ensures OpenSince(limit, events + [e], j, path, message) <==>
            |message| <= limit && EndsWith(message, Payload(e)) &&
            OpenSince(limit, events, j, path, Before(message, Payload(e)))
  {
    var all := events + [e];
    PayloadsSnoc(events, e, j);
    SplitEnd(message, Payloads(events[j + 1..]), Payload(e));
    assert all[|events|] == e;
    assert forall m :: j <= m < |events| ==> all[m] == events[m];
  }

  /** A neutral command or an added chunk extends the open session by its payload, or closes it by overflow. */
  lemma OpenAfterStep(limit: nat, events: seq<Event>, e: Event, path: Path, message: seq<byte>)
    requires IsNeutral(e) || IsAdd(e)
    ensures IsOpen(limit, events + [e], path, message) <==>
            |message| <= limit && EndsWith(message, Payload(e)) &&
            IsOpen(limit, events, path, Before(message, Payload(e)))
  {
    var all := events + [e];
    if IsOpen(limit, all, path, message) {
      var j: nat :| OpenSince(limit, all, j, path, message);
      assert all[|events|] == e;
      OpenSinceStep(limit, events, e, j, path, message);
    }
    if |message| <= limit && EndsWith(message, Payload(e)) && IsOpen(limit, events, path, Before(message, Payload(e))) {
      var j: nat :| OpenSince(limit, events, j, path, Before(message, Payload(e)));
      OpenSinceStep(limit, events, e, j, path, message);
    }
  }

  // ---------- Runs ----------

  /** Facts of every reachable state: the buffer bound, and no open session under review. */
  predicate IsBounded(limit: nat, st: State) {
    |st.content| <= limit && (st.initialized ==> st.pending.Idle?)
  }

  lemma StepBounded(cfg: Config, st: State, e: Event)
    requires IsBounded(Limit(cfg), st) && Enabled(st, e)
    ensures IsBounded(Limit(cfg), Step(cfg, st, e).state)
  {
  }

  lemma {:induction false} ReachableBounded(cfg: Config, events: seq<Event>)
    requires Legal(cfg, events)
    ensures IsBounded(Limit(cfg), Run(cfg, events))
  {
    if events != [] {
      ReachableBounded(cfg, events[..|events| - 1]);
      StepBounded(cfg, Run(cfg, events[..|events| - 1]), events[|events| - 1]);
    }
  }

  /** The session part of a state: nothing unless a session is open. */
  predicate Holds(st: State, path: Path, message: seq<byte>) {
    st.initialized && st.path == path && st.content == message
  }

  predicate AwaitsSignature(st: State, path: Path, message: seq<byte>) {
    st.pending.AwaitingSignature? && st.path == path && st.content == message
  }

  lemma StepAddOrNeutral(cfg: Config, st: State, e: Event, path: Path, message: seq<byte>)
    requires (IsNeutral(e) || IsAdd(e)) && IsBounded(Limit(cfg), st)
    ensures Holds(Step(cfg, st, e).state, path, message) <==>
            |message| <= Limit(cfg) && EndsWith(message, Payload(e)) && Holds(st, path, Before(message, Payload(e)))
  {
    SplitEnd(message, st.content, Payload(e));
    if IsNeutral(e) {
      assert Step(cfg, st, e).state == st;
      assert Payload(e) == [];
      assert st.content + [] == st.content;
    }
  }

  lemma StepInit(cfg: Config, st: State, e: Event, p: Path, path: Path, message: seq<byte>)
    requires IsInit(e, p)
    ensures Holds(Step(cfg, st, e).state, path, message) <==> path == p && message == []
  {
  }

  lemma StepOther(cfg: Config, st: State, e: Event)
    requires IsBounded(Limit(cfg), st) && Enabled(st, e)
    requires !IsNeutral(e) && !IsAdd(e) && !IsStart(e)
    ensures !Step(cfg, st, e).state.initialized
  {
  }

  /** In every run the session is open exactly when the trace says so, with the path of the last accepted start and the
      concatenation of the chunks added since. */
  lemma {:induction false} OpenIff(cfg: Config, events: seq<Event>, path: Path, message: seq<byte>)
    requires Legal(cfg, events)
    ensures Holds(Run(cfg, events), path, message) <==> IsOpen(Limit(cfg), events, path, message)
    decreases |events|, 0
  {
    if events != [] {
      var init, e := events[..|events| - 1], events[|events| - 1];
      LastSplit(events);
      OpenStep(cfg, init, e, path, message);
    }
  }

  /** One event takes the trace and the state to the same open session. */
  lemma {:induction false} OpenStep(cfg: Config, init: seq<Event>, e: Event, path: Path, message: seq<byte>)
    requires Legal(cfg, init) && Enabled(Run(cfg, init), e)
    ensures Holds(Step(cfg, Run(cfg, init), e).state, path, message) <==>
            IsOpen(Limit(cfg), init + [e], path, message)
    decreases |init|, 1
  {
    var st := Run(cfg, init);
    ReachableBounded(cfg, init);
    if IsNeutral(e) || IsAdd(e) {
      OpenIff(cfg, init, path, Before(message, Payload(e)));
      OpenAfterStep(Limit(cfg), init, e, path, message);
      StepAddOrNeutral(cfg, st, e, path, message);
    } else if IsStart(e) {
      var p := Classify(e.frame).path.value;
      OpenAfterInit(Limit(cfg), init, e, p, path, message);
      StepInit(cfg, st, e, p, path, message);
    } else {
      OpenAfterOther(Limit(cfg), init, e, path, message);
      StepOther(cfg, st, e);
    }
  }

  /** A signing request is pending exactly when the trace is complete, for that path and that message. */
  lemma PendingIff(cfg: Config, events: seq<Event>, path: Path, message: seq<byte>)
    requires Legal(cfg, events)
    ensures AwaitsSignature(Run(cfg, events), path, message) <==> IsComplete(Limit(cfg), events, path, message)
  {
    if events != [] {
      var init, e := events[..|events| - 1], events[|events| - 1];
      ReachableBounded(cfg, init);
      if e.Apdu? && Classify(e.frame).SignLast? {
        OpenIff(cfg, init, path, Before(message, Classify(e.frame).chunk));
        StepLast(cfg, Run(cfg, init), e.frame, path, message);
      } else {
        StepNotLast(cfg, Run(cfg, init), e);
      }
    }
  }

  lemma PendingNotEmpty(cfg: Config, events: seq<Event>)
    requires Legal(cfg, events)
    ensures Run(cfg, events).pending.AwaitingSignature? ==> Run(cfg, events).content != []
  {
    PendingIff(cfg, events, Run(cfg, events).path, Run(cfg, events).content);
  }

  lemma StepLast(cfg: Config, st: State, frame: Frame, path: Path, message: seq<byte>)
    requires Classify(frame).SignLast? && IsBounded(Limit(cfg), st) && st.pending.Idle?
    ensures var chunk := Classify(frame).chunk;
            AwaitsSignature(Step(cfg, st, Apdu(frame)).state, path, message) <==>
            && message != [] && |message| <= Limit(cfg)
            && EndsWith(message, chunk) && Holds(st, path, Before(message, chunk))
  {
    SplitEnd(message, st.content, Classify(frame).chunk);
  }

  lemma StepNotLast(cfg: Config, st: State, e: Event)
    requires Enabled(st, e) && !(e.Apdu? && Classify(e.frame).SignLast?)
    ensures !Step(cfg, st, e).state.pending.AwaitingSignature?
  {
  }

  /** The signing call is reached only by an approval, and exactly for the path and the message of a complete trace: the
      path of one accepted start, and the in-order concatenation of the payloads sent since, with nothing but neutral
      commands in between. */
  lemma SignedIff(cfg: Config, events: seq<Event>, e: Event, path: Path, message: seq<byte>)
    requires Legal(cfg, events) && Enabled(Run(cfg, events), e)
    ensures Step(cfg, Run(cfg, events), e).signed == Some((path, message)) <==>
            e.Approve? && IsComplete(Limit(cfg), events, path, message)
  {
    PendingIff(cfg, events, path, message);
    StepSigned(cfg, Run(cfg, events), e, path, message);
  }

  lemma StepSigned(cfg: Config, st: State, e: Event, path: Path, message: seq<byte>)
    requires Enabled(st, e)
    ensures Step(cfg, st, e).signed == Some((path, message)) <==>
            e.Approve? && AwaitsSignature(st, path, message)
  {
  }

  /** What the last chunk leads to, in every reachable state: a review exactly when a session is open, the chunk fits
      and the whole message is not empty; otherwise the error that names the reason. */
  lemma LastChunkOutcome(cfg: Config, events: seq<Event>, frame: Frame, path: Path, message: seq<byte>)
    requires Legal(cfg, events) && Run(cfg, events).pending.Idle? && Classify(frame).SignLast?
    ensures var chunk := Classify(frame).chunk;
            var reply := Step(cfg, Run(cfg, events), Apdu(frame)).reply;
            && (reply == Data(StatusBytes(TX_NOT_INITIALIZED)) <==>
                forall p, m :: !IsOpen(Limit(cfg), events, p, m))
            && (IsOpen(Limit(cfg), events, path, message) ==>
                && (reply == Deferred <==> 0 < |message| + |chunk| <= Limit(cfg))
                && (reply == Data(EmptyMessageText() + StatusBytes(DATA_INVALID)) <==> |message| + |chunk| == 0)
                && (reply == Data(StatusBytes(OUTPUT_BUFFER_TOO_SMALL)) <==> |message| + |chunk| > Limit(cfg)))
  {
    var st := Run(cfg, events);
    LastStep(cfg, st, frame);
    OpenIff(cfg, events, path, message);
    OpenIff(cfg, events, st.path, st.content);
    forall p, m
      ensures IsOpen(Limit(cfg), events, p, m) ==> st.initialized
    {
      OpenIff(cfg, events, p, m);
    }
  }

  lemma LastStep(cfg: Config, st: State, frame: Frame)
    requires Classify(frame).SignLast?
    ensures var total := |st.content| + |Classify(frame).chunk|;
            var reply := Step(cfg, st, Apdu(frame)).reply;
            && (reply == Data(StatusBytes(TX_NOT_INITIALIZED)) <==> !st.initialized)
            && (st.initialized ==>
                && (reply == Deferred <==> 0 < total <= Limit(cfg))
                && (reply == Data(EmptyMessageText() + StatusBytes(DATA_INVALID)) <==> total == 0)
                && (reply == Data(StatusBytes(OUTPUT_BUFFER_TOO_SMALL)) <==> total > Limit(cfg)))
  {
    var chunk := Classify(frame).chunk;
    DistinctReplies();
    assert Step(cfg, st, Apdu(frame)).reply == OnSignLast(cfg, st, chunk).reply;
    assert [] + StatusBytes(TX_NOT_INITIALIZED) == StatusBytes(TX_NOT_INITIALIZED);
    assert [] + StatusBytes(OUTPUT_BUFFER_TOO_SMALL) == StatusBytes(OUTPUT_BUFFER_TOO_SMALL);
    assert |st.content + chunk| == |st.content| + |chunk|;
  }

  lemma DistinctReplies()
    ensures StatusBytes(TX_NOT_INITIALIZED) != StatusBytes(OUTPUT_BUFFER_TOO_SMALL)
    ensures |EmptyMessageText() + StatusBytes(DATA_INVALID)| == 27
  {
    assert StatusBytes(TX_NOT_INITIALIZED)[1] == 0x87;
    assert StatusBytes(OUTPUT_BUFFER_TOO_SMALL)[1] == 0x83;
  }

  // ---------- A whole signing exchange ----------

  lemma {:induction false} AddsKeepIdle(cfg: Config, events: seq<Event>, adds: seq<Event>)
    requires IsIdle(cfg, events)
    requires forall e :: e in adds ==> IsAdd(e)
    ensures IsIdle(cfg, events + adds)
    decreases |adds|
  {
    if adds == [] {
      assert events + adds == events;
    } else {
      var init, e := adds[..|adds| - 1], adds[|adds| - 1];
      AddsKeepIdle(cfg, events, init);
      AddKeepsIdle(cfg, events + init, e);
      assert events + adds == (events + init) + [e];
    }
  }

  predicate IsIdle(cfg: Config, events: seq<Event>) {
    Legal(cfg, events) && Run(cfg, events).pending.Idle?
  }

  lemma AddKeepsIdle(cfg: Config, events: seq<Event>, e: Event)
    requires IsIdle(cfg, events) && IsAdd(e)
    ensures IsIdle(cfg, events + [e])
  {
    RunSnoc(cfg, events, e);
  }

  /** From any reachable state without a pending review, an accepted start, any number of chunks and a last chunk lead
      to the review of exactly their concatenation, if and only if it is not empty and fits the buffer: where the chunk
      boundaries lie, and what was sent before, makes no difference. */
  lemma ExchangeIff(cfg: Config, before: seq<Event>, start: Event, adds: seq<Event>, last: Event, path: Path)
    requires IsIdle(cfg, before)
    requires IsInit(start, path) && (forall e :: e in adds ==> IsAdd(e))
    requires last.Apdu? && Classify(last.frame).SignLast?
    ensures var all := before + [start] + adds + [last];
            var message := Payloads(adds) + Classify(last.frame).chunk;
            && Legal(cfg, all)
            && (AwaitsSignature(Run(cfg, all), path, message) <==> 0 < |message| <= Limit(cfg))
  {
    var begun := before + [start];
    var sent := begun + adds;
    var chunk := Classify(last.frame).chunk;
    var message := Payloads(adds) + chunk;
    RunSnoc(cfg, before, start);
    StartStaysIdle(cfg, Run(cfg, before), start, path);
    AddsKeepIdle(cfg, begun, adds);
    RunSnoc(cfg, sent, last);
    PendingIff(cfg, sent + [last], path, message);
    SplitEnd(message, Payloads(adds), chunk);
    assert (sent + [last])[..|sent|] == sent;
    if |message| <= Limit(cfg) {
      assert sent[|before| + 1..] == adds;
      assert sent[|before|] == start;
      assert forall m :: |before| < m < |sent| ==> sent[m] in adds;
      assert OpenSince(Limit(cfg), sent, |before|, path, Payloads(adds));
    }
  }

  lemma StartStaysIdle(cfg: Config, st: State, e: Event, path: Path)
    requires IsInit(e, path) && st.pending.Idle?
    ensures Step(cfg, st, e).state.pending.Idle?
  {
  }

  // ---------- Replies ----------

  /** Two address requests of one run that differ in the confirmation byte alone: when the confirmed one is put under
      review and approved, the reply bytes and the state reached are those of the direct one; when it is not put under
      review, both fail in the same way. */
  lemma SameAddressReply(cfg: Config, events: seq<Event>, direct: Frame, p1: byte)
    requires IsIdle(cfg, events) && Classify(direct).GetAddr? && direct.io[OFFSET_P1] == 0 && p1 != 0
    ensures var confirmed: Frame := direct.(io := direct.io[OFFSET_P1 := p1]);
            var now := Step(cfg, Run(cfg, events), Apdu(direct));
            var reviewed := events + [Apdu(confirmed)];
            if Step(cfg, Run(cfg, events), Apdu(confirmed)).reply == Deferred then
              Legal(cfg, reviewed + [Approve]) && Step(cfg, Run(cfg, reviewed), Approve) == now
            else Step(cfg, Run(cfg, events), Apdu(confirmed)) == now
  {
    var confirmed: Frame := direct.(io := direct.io[OFFSET_P1 := p1]);
    var st := Run(cfg, events);
    RunSnoc(cfg, events, Apdu(confirmed));
    ConfirmedRequest(direct, confirmed, p1);
    SameAddress(cfg, st, PathIn(direct));
    if Step(cfg, st, Apdu(confirmed)).reply == Deferred {
      RunSnoc(cfg, events + [Apdu(confirmed)], Approve);
    }
  }

  lemma ConfirmedRequest(direct: Frame, confirmed: Frame, p1: byte)
    requires Classify(direct).GetAddr? && direct.io[OFFSET_P1] == 0 && p1 != 0
    requires confirmed == direct.(io := direct.io[OFFSET_P1 := p1])
    ensures Classify(direct) == GetAddr(false, PathIn(direct)) && Classify(confirmed) == GetAddr(true, PathIn(direct))
  {
    if direct.rx >= OFFSET_DATA + 12 {
      assert PathAt(confirmed.io, OFFSET_DATA) == PathAt(direct.io, OFFSET_DATA);
    }
  }

  lemma SameAddress(cfg: Config, st: State, path: Option<Path>)
    requires st.pending.Idle?
    ensures var direct := OnGetAddr(cfg, st, false, path);
            var reviewed := OnGetAddr(cfg, st, true, path);
            if reviewed.reply == Deferred then
              reviewed.state.pending.AwaitingAddress? && OnApprove(cfg, reviewed.state) == direct
            else reviewed == direct
  {
  }

  /** Every reply, in every reachable state, is some body followed by a status word of class 6 or 9 in big-endian
      order. */
  lemma ReplyHasStatus(cfg: Config, events: seq<Event>, e: Event)
    requires Legal(cfg, events) && Enabled(Run(cfg, events), e)
    ensures var reply := Step(cfg, Run(cfg, events), e).reply;
            reply.Data? ==> EndsInStatus(reply.bytes)
  {
    StepReply(cfg, Run(cfg, events), e);
  }

  predicate EndsInStatus(bytes: seq<byte>) {
    |bytes| >= 2 &&
    var hi: nat, lo: nat := bytes[|bytes| - 2], bytes[|bytes| - 1];
    HasStatusClass(256 * hi + lo)
  }

  lemma AnswerEndsInStatus(body: seq<byte>, sw: uint16)
    requires HasStatusClass(sw)
    ensures EndsInStatus(body + StatusBytes(sw))
  {
    var bytes := body + StatusBytes(sw);
    assert bytes[|bytes| - 2] == sw / 256 && bytes[|bytes| - 1] == sw % 256;
  }

  lemma StepReply(cfg: Config, st: State, e: Event)
    requires Enabled(st, e)
    ensures var reply := Step(cfg, st, e).reply; reply.Data? ==> EndsInStatus(reply.bytes)
  {
    match e
    case Apdu(frame) => CommandReply(cfg, st, Classify(frame));
    case Reject => AnswerEndsInStatus([], COMMAND_NOT_ALLOWED);
    case Approve =>
      match st.pending {
        case Idle =>
        case AwaitingAddress(body) => AnswerEndsInStatus(body, OK);
        case AwaitingSignature =>
          AnswerEndsInStatus([], SIGN_VERIFY_ERROR);
          match cfg.device.sign(st.path, st.content) {
            case None =>
            case Some(signature) => AnswerEndsInStatus(signature, OK);
          }
      }
  }

  lemma CommandReply(cfg: Config, st: State, command: Command)
    requires command.Refused? ==> HasStatusClass(command.sw)
    ensures var reply := OnCommand(cfg, st, command).reply; reply.Data? ==> EndsInStatus(reply.bytes)
  {
    match command
    case Refused(sw) => AnswerEndsInStatus([], sw);
    case Version(locked) => AnswerEndsInStatus(VersionBytes(cfg.device.version, locked), OK);
    case GetAddr(confirm, path) => GetAddrReply(cfg, st, confirm, path);
    case SignInit(path) =>
      AnswerEndsInStatus([], WRONG_LENGTH);
      AnswerEndsInStatus([], DATA_INVALID);
      AnswerEndsInStatus([], OK);
    case SignAdd(chunk) =>
      AnswerEndsInStatus([], TX_NOT_INITIALIZED);
      AnswerEndsInStatus([], OUTPUT_BUFFER_TOO_SMALL);
      AnswerEndsInStatus([], OK);
    case SignLast(chunk) =>
      AnswerEndsInStatus([], TX_NOT_INITIALIZED);
      AnswerEndsInStatus([], OUTPUT_BUFFER_TOO_SMALL);
      AnswerEndsInStatus(EmptyMessageText(), DATA_INVALID);
    case SignOther => AnswerEndsInStatus([], INVALID_P1P2);
  }

  lemma GetAddrReply(cfg: Config, st: State, confirm: bool, path: Option<Path>)
    ensures var reply := OnGetAddr(cfg, st, confirm, path).reply; reply.Data? ==> EndsInStatus(reply.bytes)
  {
    AnswerEndsInStatus([], WRONG_LENGTH);
    AnswerEndsInStatus([], DATA_INVALID);
    AnswerEndsInStatus([], EXECUTION_ERROR);
    if path.Some? && AddressBody(cfg.device, path.value).Some? {
      AnswerEndsInStatus(AddressBody(cfg.device, path.value).value, OK);
    }
  }
}
