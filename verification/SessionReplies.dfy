/** What a client sends and gets back, byte for byte: the meaning of every command frame and the exact outcome of every
    step, stated on the bytes themselves. */
module SessionReplies {
  import opened Bytes
  import opened Buffering
  import opened Address
  import opened Ed25519
  import opened SessionSpec
  import opened SessionTraces

  // ---------- Frames ----------

  /** At least a header of the application's class, with this instruction. */
  predicate Asks(f: Frame, ins: byte) {
    f.io[0] == 0x64 && f.rx >= 5 && f.io[1] == ins
  }

  /** The same from an unlocked device, with the first parameter. */
  predicate AsksSigning(f: Frame, p1: byte) {
    Asks(f, 2) && f.pinValidated && f.io[2] == p1
  }

  /** The data starts with three little-endian words: the derivation path. */
  predicate SendsPath(f: Frame, path: Path) {
    && f.rx >= 17
    && path[0] == LeValue(f.io[5..9]) && path[1] == LeValue(f.io[9..13]) && path[2] == LeValue(f.io[13..17])
  }

  /** 44'/1551' */
  predicate HasPrefix(path: Path) {
    path[0] == 0x8000_002c && path[1] == 0x8000_060f
  }

  lemma WordIsLittleEndian(io: seq<byte>, at: nat)
    requires at + 4 <= |io|
    ensures Word(io, at) == LeValue(io[at..at + 4])
  {
    var w := io[at..at + 4];
    assert w[1..][1..] == w[2..] && w[2..][1..] == w[3..] && w[3..][1..] == [];
    assert LeValue(w[3..]) == w[3];
    assert LeValue(w[2..]) == w[2] + 256 * LeValue(w[3..]);
    assert LeValue(w[1..]) == w[1] + 256 * LeValue(w[2..]);
  }

  lemma PathInIff(f: Frame, path: Path)
    ensures PathIn(f) == Some(path) <==> SendsPath(f, path)
    ensures PathIn(f) == None <==> f.rx < 17
  {
    if f.rx >= 17 {
      WordIsLittleEndian(f.io, 5);
      WordIsLittleEndian(f.io, 9);
      WordIsLittleEndian(f.io, 13);
      assert PathIn(f) == Some([Word(f.io, 5), Word(f.io, 9), Word(f.io, 13)]);
      assert path == [path[0], path[1], path[2]];
    }
  }

  /** Which frames start a session, add a chunk, send the last one, and ask for an address. */
  lemma FrameMeaning(f: Frame, path: Path, chunk: seq<byte>, confirm: bool)
    ensures Classify(f) == SignInit(Some(path)) <==> AsksSigning(f, 0) && SendsPath(f, path)
    ensures Classify(f) == SignAdd(chunk) <==> AsksSigning(f, 1) && chunk == f.io[5..f.rx]
    ensures Classify(f) == SignLast(chunk) <==> AsksSigning(f, 2) && chunk == f.io[5..f.rx]
    ensures Classify(f) == GetAddr(confirm, Some(path)) <==>
            Asks(f, 1) && f.pinValidated && confirm == (f.io[2] != 0) && SendsPath(f, path)
  {
    PathInIff(f, path);
  }

  // ---------- Replies ----------

  function Bare(hi: byte, lo: byte): Reply {
    Data([hi, lo])
  }

  lemma BareAnswer(st: State, sw: uint16)
    ensures Answer(st, [], sw) == Outcome(st, Bare(sw / 256, sw % 256), None)
  {
    assert [] + StatusBytes(sw) == [sw / 256, sw % 256];
  }

  /** The gates, in their order, before any handler: each refusal leaves the state alone. A locked device answers
      nothing but the version. */
  lemma GateReplies(cfg: Config, st: State, f: Frame)
    ensures var o := Step(cfg, st, Apdu(f));
            && (f.io[0] != 0x64 ==> o == Outcome(st, Bare(0x6e, 0x00), None))
            && (f.io[0] == 0x64 && f.rx < 5 ==> o == Outcome(st, Bare(0x67, 0x00), None))
            && (f.io[0] == 0x64 && f.rx >= 5 && f.io[1] > 2 ==> o == Outcome(st, Bare(0x6d, 0x00), None))
            && ((Asks(f, 1) || Asks(f, 2)) && !f.pinValidated ==> o == Outcome(st, Bare(0x69, 0x86), None))
            && (Asks(f, 2) && f.pinValidated && f.io[2] > 2 ==> o == Outcome(st, Bare(0x6b, 0x00), None))
  {
    BareAnswer(st, 0x6e00);
    BareAnswer(st, 0x6700);
    BareAnswer(st, 0x6d00);
    BareAnswer(st, 0x6986);
    BareAnswer(st, 0x6b00);
  }

  /** The version is answered whether or not the PIN is validated, with the lock state of the moment. */
  lemma VersionReply(cfg: Config, st: State, f: Frame)
    requires Asks(f, 0)
    ensures var o := Step(cfg, st, Apdu(f));
            && o.state == st && o.signed == None
            && o.reply.Data? && |o.reply.bytes| == 14
            && var r, v := o.reply.bytes, cfg.device.version;
            && (r[0] == 1 <==> v.testing) && (r[0] == 0 <==> !v.testing)
            && (r[7] == 1 <==> !f.uxAllowed) && (r[7] == 0 <==> f.uxAllowed)
            && BeValue(r[1..3]) == v.major && BeValue(r[3..5]) == v.minor && BeValue(r[5..7]) == v.patch
            && BeValue(r[8..12]) == v.targetId
            && r[12] == 0x90 && r[13] == 0x00
  {
    var v, locked := cfg.device.version, !f.uxAllowed;
    var body := VersionBytes(v, locked);
    VersionLayout(v, locked);
    FrontSlices(body, StatusBytes(OK));
  }

  lemma FrontSlices(body: Bytes12, status: seq<byte>)
    ensures var r := body + status;
            r[1..3] == body[1..3] && r[3..5] == body[3..5] && r[5..7] == body[5..7] && r[8..12] == body[8..12]
  {
  }

  /** The first command of a signing session empties the buffer whatever its path is; it opens the session exactly for a
      path with the application's prefix. */
  lemma StartReply(cfg: Config, st: State, f: Frame, path: Path)
    requires AsksSigning(f, 0)
    ensures var o := Step(cfg, st, Apdu(f));
            && o.signed == None && o.state.content == [] && o.state.pending == st.pending
            && (f.rx < 17 ==> o.reply == Bare(0x67, 0x00) && o.state.path == st.path && !o.state.initialized)
            && (SendsPath(f, path) ==>
                && o.state.path == path
                && (o.state.initialized <==> HasPrefix(path))
                && o.reply == if HasPrefix(path) then Bare(0x90, 0x00) else Bare(0x69, 0x84))
  {
    PathInIff(f, path);
    StartFound(st, PathIn(f));
  }

  lemma StartFound(st: State, found: Option<Path>)
    ensures var closed := st.(initialized := false, content := []);
            OnSignInit(st, found) ==
            match found
            case None => Outcome(closed, Bare(0x67, 0x00), None)
            case Some(p) =>
              if HasPrefix(p) then Outcome(closed.(path := p, initialized := true), Bare(0x90, 0x00), None)
              else Outcome(closed.(path := p), Bare(0x69, 0x84), None)
  {
    var closed := st.(initialized := false, content := []);
    BareAnswer(closed, 0x6700);
    if found.Some? {
      BareAnswer(closed.(path := found.value), 0x6984);
      BareAnswer(closed.(path := found.value, initialized := true), 0x9000);
    }
  }

  /** The buffer of the device in bytes. */
  function Room(cfg: Config): nat {
    if cfg.target.NanoS? then 8192 else 16384
  }

  /** A further chunk is acknowledged exactly when a session is open and the chunk fits; a chunk that does not fit ends
      the session. */
  lemma ChunkReply(cfg: Config, st: State, f: Frame)
    requires AsksSigning(f, 1)
    ensures var o := Step(cfg, st, Apdu(f));
            var chunk := f.io[5..f.rx];
            if !st.initialized then o == Outcome(st, Bare(0x69, 0x87), None)
            else if |st.content| + |chunk| > Room(cfg) then
              o == Outcome(st.(initialized := false), Bare(0x69, 0x83), None)
            else o == Outcome(st.(content := st.content + chunk), Bare(0x90, 0x00), None)
  {
    BareAnswer(st, 0x6987);
    BareAnswer(st.(initialized := false), 0x6983);
    BareAnswer(st.(content := st.content + f.io[5..f.rx]), 0x9000);
  }

  /** The last chunk ends the session and puts a nonempty message that fits under review. */
  lemma LastReply(cfg: Config, st: State, f: Frame)
    requires AsksSigning(f, 2)
    ensures var o := Step(cfg, st, Apdu(f));
            var message := st.content + f.io[5..f.rx];
            var closed := st.(initialized := false);
            if !st.initialized then o == Outcome(st, Bare(0x69, 0x87), None)
            else if |message| > Room(cfg) then o == Outcome(closed, Bare(0x69, 0x83), None)
            else if message == [] then
              o == Outcome(closed, Data(Ascii("Initialized empty context") + [0x69, 0x84]), None)
            else o == Outcome(closed.(content := message, pending := AwaitingSignature), Deferred, None)
  {
    BareAnswer(st, 0x6987);
    BareAnswer(st.(initialized := false), 0x6983);
    assert StatusBytes(DATA_INVALID) == [0x69, 0x84];
  }

  // ---------- Addresses ----------

  /** An address request closes the session. For a path with the prefix it gets, at once or after review, the compressed
      key of exactly that path and the address of that key. */
  lemma AddressReply(cfg: Config, st: State, f: Frame, path: Path)
    requires Asks(f, 1) && f.pinValidated
    ensures var o := Step(cfg, st, Apdu(f));
            && o.signed == None && !o.state.initialized && o.state.content == st.content
            && (f.rx < 17 ==> o.reply == Bare(0x67, 0x00) && o.state.path == st.path && o.state.pending == st.pending)
            && (SendsPath(f, path) && !HasPrefix(path) ==>
                o.state.path == path && o.state.pending == st.pending && o.reply == Bare(0x69, 0x84))
  {
    PathInIff(f, path);
    BareAnswer(st.(initialized := false), 0x6700);
    BareAnswer(st.(initialized := false, path := path), 0x6984);
  }

  /** What the address request finds for a path: the compressed key of that path and its address, or nothing. */
  lemma KeyReply(cfg: Config, st: State, f: Frame, path: Path)
    requires Asks(f, 1) && f.pinValidated && SendsPath(f, path) && HasPrefix(path)
    ensures var o := Step(cfg, st, Apdu(f));
            var next := st.(initialized := false, path := path);
            var key := cfg.device.publicKey(path);
            if key == None || cfg.device.encoderFails(cfg.device.sha256(Compress(key.value))[..28]) then
              o == Outcome(next, Bare(0x64, 0x00), None)
            else
              var body := Compress(key.value) + Ascii(AddressOf(cfg.device, Compress(key.value)));
              o == if f.io[2] == 0 then Outcome(next, Data(body + [0x90, 0x00]), None)
                   else Outcome(next.(pending := AwaitingAddress(body)), Deferred, None)
  {
    PathInIff(f, path);
    BodyIff(cfg.device, path);
    FoundReply(cfg, st, f.io[2] != 0, path, AddressBody(cfg.device, path));
  }

  lemma FoundReply(cfg: Config, st: State, confirm: bool, path: Path, found: Option<seq<byte>>)
    requires HasPrefix(path) && found == AddressBody(cfg.device, path)
    ensures var next := st.(initialized := false, path := path);
            OnGetAddr(cfg, st, confirm, Some(path)) ==
            match found
            case None => Outcome(next, Bare(0x64, 0x00), None)
            case Some(body) =>
              if confirm then Outcome(next.(pending := AwaitingAddress(body)), Deferred, None)
              else Outcome(next, Data(body + [0x90, 0x00]), None)
  {
    BareAnswer(st.(initialized := false, path := path), 0x6400);
    assert StatusBytes(OK) == [0x90, 0x00];
  }

  // ---------- Review outcomes ----------

  /** Approving an address sends the body under review. */
  lemma AddressApproval(cfg: Config, st: State, body: seq<byte>)
    requires st.pending == AwaitingAddress(body)
    ensures Step(cfg, st, Approve) == Outcome(st.(pending := Idle), Data(body + [0x90, 0x00]), None)
  {
    assert StatusBytes(OK) == [0x90, 0x00];
  }

  /** The answer of the signing call as a reply: the signature as it is, or the signing error. */
  function SignatureReply(answer: Option<Bytes64>): Reply {
    match answer
    case None => Bare(0x6f, 0x01)
    case Some(signature) => Data(signature + [0x90, 0x00])
  }

  lemma SigningAnswer(cfg: Config, st: State)
    requires st.pending.AwaitingSignature?
    ensures Step(cfg, st, Approve) ==
            Outcome(st.(pending := Idle), SignatureReply(cfg.device.sign(st.path, st.content)),
                    Some((st.path, st.content)))
  {
    BareAnswer(st.(pending := Idle), 0x6f01);
    assert StatusBytes(OK) == [0x90, 0x00];
  }

  /** In every run, approving a complete trace returns what the signing call gives for its path and its message, byte
      for byte, or the signing error. */
  lemma ApprovalReply(cfg: Config, events: seq<Event>, path: Path, message: seq<byte>)
    requires Legal(cfg, events) && IsComplete(Limit(cfg), events, path, message)
    ensures var o := Step(cfg, Run(cfg, events), Approve);
            && o.signed == Some((path, message))
            && o.state == Run(cfg, events).(pending := Idle)
            && (cfg.device.sign(path, message) == None ==> o.reply == Data([0x6f, 0x01]))
            && (cfg.device.sign(path, message) != None ==>
                o.reply == Data(cfg.device.sign(path, message).value + [0x90, 0x00]))
  {
    PendingIff(cfg, events, path, message);
    SigningAnswer(cfg, Run(cfg, events));
  }

  /** A rejection signs nothing, sends nothing but its status, and ends the review. */
  lemma RejectionReply(cfg: Config, st: State)
    ensures Step(cfg, st, Reject) == Outcome(st.(pending := Idle), Bare(0x69, 0x86), None)
  {
    BareAnswer(st.(pending := Idle), 0x6986);
  }
}
