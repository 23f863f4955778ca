/** The signing session as a state machine over command frames and review outcomes, and what every run of it keeps. */
module SessionSpec {
  import opened Bytes
  import opened Buffering
  import opened Address
  import TxView

  // ---------- Commands ----------

  const IO_APDU_BUFFER_SIZE := 260
  const APDU_MIN_LENGTH := 5
  const OFFSET_CLA := 0
  const OFFSET_INS := 1
  const OFFSET_P1 := 2
  const OFFSET_DATA := 5

  const CLA: byte := 0x64
  const INS_GET_VERSION: byte := 0
  const INS_GET_ADDR: byte := 1
  const INS_SIGN: byte := 2
  const P1_INIT: byte := 0
  const P1_ADD: byte := 1
  const P1_LAST: byte := 2

  const HDPATH_0_DEFAULT: uint32 := 0x8000002c
  const HDPATH_1_DEFAULT: uint32 := 0x8000060f

  const EXECUTION_ERROR: uint16 := 0x6400
  const WRONG_LENGTH: uint16 := 0x6700
  const OUTPUT_BUFFER_TOO_SMALL: uint16 := 0x6983
  const DATA_INVALID: uint16 := 0x6984
  const COMMAND_NOT_ALLOWED: uint16 := 0x6986
  const TX_NOT_INITIALIZED: uint16 := 0x6987
  const INVALID_P1P2: uint16 := 0x6b00
  const INS_NOT_SUPPORTED: uint16 := 0x6d00
  const CLA_NOT_SUPPORTED: uint16 := 0x6e00
  const SIGN_VERIFY_ERROR: uint16 := 0x6f01
  const OK: uint16 := 0x9000

  /** The exchange buffer when a command arrives, how many bytes were received, and the device's lock state: whether the
      PIN is validated and whether the user interface is available. */
  datatype RawFrame = Frame(io: seq<byte>, rx: nat, pinValidated: bool, uxAllowed: bool)

  type Frame = f: RawFrame | |f.io| == IO_APDU_BUFFER_SIZE && f.rx <= IO_APDU_BUFFER_SIZE
    witness Frame(seq(IO_APDU_BUFFER_SIZE, _ => 0), 0, false, false)

  datatype Command =
    | Refused(sw: uint16)
    | Version(locked: bool)
    | GetAddr(confirm: bool, path: Option<Path>)
    | SignInit(path: Option<Path>)
    | SignAdd(chunk: seq<byte>)
    | SignLast(chunk: seq<byte>)
    | SignOther

  function Word(io: seq<byte>, at: nat): uint32
    requires at + 4 <= |io|
  {
    var b0: nat, b1: nat, b2: nat, b3: nat := io[at], io[at + 1], io[at + 2], io[at + 3];
    b0 + 0x100 * b1 + 0x1_0000 * b2 + 0x100_0000 * b3
  }

  function PathAt(io: seq<byte>, at: nat): Path
    requires at + 12 <= |io|
  {
    [Word(io, at), Word(io, at + 4), Word(io, at + 8)]
  }

  function PathIn(f: Frame): Option<Path> {
    if f.rx < OFFSET_DATA + 12 then None else Some(PathAt(f.io, OFFSET_DATA))
  }

  predicate IsMainnet(path: Path) {
    path[0] == HDPATH_0_DEFAULT && path[1] == HDPATH_1_DEFAULT
  }

  /** The payload type of a signing command. */
  function SignCommand(f: Frame): Command
    requires f.rx >= OFFSET_DATA
  {
    if f.io[OFFSET_P1] == P1_INIT then SignInit(PathIn(f))
    else if f.io[OFFSET_P1] == P1_ADD then SignAdd(f.io[OFFSET_DATA..f.rx])
    else if f.io[OFFSET_P1] == P1_LAST then SignLast(f.io[OFFSET_DATA..f.rx])
    else SignOther
  }

  function Classify(f: Frame): Command {
    if f.io[OFFSET_CLA] != CLA then Refused(CLA_NOT_SUPPORTED)
    else if f.rx < APDU_MIN_LENGTH then Refused(WRONG_LENGTH)
    else if f.io[OFFSET_INS] == INS_GET_VERSION then Version(!f.uxAllowed)
    else if f.io[OFFSET_INS] != INS_GET_ADDR && f.io[OFFSET_INS] != INS_SIGN then Refused(INS_NOT_SUPPORTED)
    else if !f.pinValidated then Refused(COMMAND_NOT_ALLOWED)
    else if f.io[OFFSET_INS] == INS_GET_ADDR then GetAddr(f.io[OFFSET_P1] != 0, PathIn(f))
    else SignCommand(f)
  }

  // ---------- Status words ----------

  function StatusBytes(sw: uint16): (r: seq<byte>)
    ensures |r| == 2
  {
    [sw / 256, sw % 256]
  }

  /** What the exception handler reports for an exception code: codes of class 6 and 9 as they are, all others mapped
      into class 6. */
  function Status(e: uint16): uint16 {
    if e / 0x1000 == 6 || e / 0x1000 == 9 then e else 0x6800 + e % 0x800
  }

  predicate HasStatusClass(sw: int) {
    sw / 0x1000 == 6 || sw / 0x1000 == 9
  }

  lemma StatusIdempotent(e: uint16)
    ensures Status(Status(e)) == Status(e) && HasStatusClass(Status(e))
    ensures Status(e) == e <==> HasStatusClass(e)
    ensures !HasStatusClass(e) ==> Status(e) / 0x800 == 13 && Status(e) % 0x800 == e % 0x800
  {
  }

  // ---------- Version replies ----------

  lemma BeSnoc(s: seq<byte>, b: byte)
    ensures BeValue(s + [b]) == 256 * BeValue(s) + b
  {
    assert (s + [b])[..|s|] == s;
  }

  /** The value of two bytes within a longer string. */
  lemma BigEndian16(s: seq<byte>, i: nat)
    requires i + 2 <= |s|
    ensures var a: nat, b: nat := s[i], s[i + 1]; BeValue(s[i..i + 2]) == 0x100 * a + b
  {
    BeSnoc([], s[i]);
    BeSnoc([s[i]], s[i + 1]);
    assert [] + [s[i]] == [s[i]];
    assert s[i..i + 2] == [s[i]] + [s[i + 1]];
  }

  /** The value of four bytes within a longer string. */
  lemma BigEndian32(s: seq<byte>, i: nat)
    requires i + 4 <= |s|
    ensures var a: nat, b: nat, c: nat, d: nat := s[i], s[i + 1], s[i + 2], s[i + 3];
            BeValue(s[i..i + 4]) == 0x100_0000 * a + 0x1_0000 * b + 0x100 * c + d
  {
    BigEndian16(s, i);
    BeSnoc(s[i..i + 2], s[i + 2]);
    BeSnoc(s[i..i + 2] + [s[i + 2]], s[i + 3]);
    assert s[i..i + 4] == s[i..i + 2] + [s[i + 2]] + [s[i + 3]];
  }

  function Flag(on: bool): byte {
    if on then 1 else 0
  }

  /** The body of a version reply. */
  function VersionBytes(v: VersionInfo, locked: bool): Bytes12 {
    var t := v.targetId;
    [Flag(v.testing), v.major / 0x100, v.major % 0x100, v.minor / 0x100, v.minor % 0x100,
     v.patch / 0x100, v.patch % 0x100, Flag(locked),
     t / 0x100_0000, t / 0x1_0000 % 0x100, t / 0x100 % 0x100, t % 0x100]
  }

  /** A client reads the version numbers and the target from the reply as big-endian numbers. */
  lemma VersionLayout(v: VersionInfo, locked: bool)
    ensures var r := VersionBytes(v, locked);
            && r[0] == Flag(v.testing) && r[7] == Flag(locked)
            && BeValue(r[1..3]) == v.major && BeValue(r[3..5]) == v.minor && BeValue(r[5..7]) == v.patch
            && BeValue(r[8..12]) == v.targetId
  {
    var r := VersionBytes(v, locked);
    Read16(r, 1, v.major);
    Read16(r, 3, v.minor);
    Read16(r, 5, v.patch);
    Read32(r, 8, v.targetId);
  }

  lemma Read16(s: seq<byte>, i: nat, w: uint16)
    requires i + 2 <= |s| && s[i] == w / 0x100 && s[i + 1] == w % 0x100
    ensures BeValue(s[i..i + 2]) == w
  {
    BigEndian16(s, i);
  }

  lemma Read32(s: seq<byte>, i: nat, t: uint32)
    requires i + 4 <= |s| && s[i] == t / 0x100_0000 && s[i + 1] == t / 0x1_0000 % 0x100
    requires s[i + 2] == t / 0x100 % 0x100 && s[i + 3] == t % 0x100
    ensures BeValue(s[i..i + 4]) == t
  {
    BigEndian32(s, i);
    Digits32(t);
  }

  lemma Digits32(t: uint32)
    ensures 0x100_0000 * (t / 0x100_0000) + 0x1_0000 * (t / 0x1_0000 % 0x100) + 0x100 * (t / 0x100 % 0x100) + t % 0x100
            == t
  {
    var t1 := t / 0x100;
    var t2 := t1 / 0x100;
    assert t2 == t / 0x1_0000 && t2 / 0x100 == t / 0x100_0000;
    assert t == 0x100 * t1 + t % 0x100 && t1 == 0x100 * t2 + t1 % 0x100;
    assert t2 == 0x100 * (t2 / 0x100) + t2 % 0x100;
  }

  // ---------- States and steps ----------

  datatype Config = Config(device: Device, target: Target)

  datatype Pending = Idle | AwaitingAddress(body: seq<byte>) | AwaitingSignature

  datatype State = State(initialized: bool, path: Path, content: seq<byte>, pending: Pending)

  datatype Reply = Data(bytes: seq<byte>) | Deferred

  /** One step's result: the next state, the reply, and the path and message handed to the signing call, if any. */
  datatype Outcome = Outcome(state: State, reply: Reply, signed: Option<(Path, seq<byte>)>)

  datatype Event = Apdu(frame: Frame) | Approve | Reject

  function Limit(cfg: Config): nat {
    FlashSize(cfg.target)
  }

  function Answer(st: State, body: seq<byte>, sw: uint16): Outcome {
    Outcome(st, Data(body + StatusBytes(sw)), None)
  }

  function OnGetAddr(cfg: Config, st: State, confirm: bool, path: Option<Path>): Outcome {
    var closed := st.(initialized := false);
    match path
    case None => Answer(closed, [], WRONG_LENGTH)
    case Some(p) =>
      var next := closed.(path := p);
      if !IsMainnet(p) then Answer(next, [], DATA_INVALID)
      else
        match AddressBody(cfg.device, p)
        case None => Answer(next, [], EXECUTION_ERROR)
        case Some(body) =>
          if confirm then Outcome(next.(pending := AwaitingAddress(body)), Deferred, None)
          else Answer(next, body, OK)
  }

  function OnSignInit(st: State, path: Option<Path>): Outcome {
    var closed := st.(initialized := false, content := []);
    match path
    case None => Answer(closed, [], WRONG_LENGTH)
    case Some(p) =>
      if IsMainnet(p) then Answer(closed.(path := p, initialized := true), [], OK)
      else Answer(closed.(path := p), [], DATA_INVALID)
  }

  function OnSignAdd(cfg: Config, st: State, chunk: seq<byte>): Outcome {
    if !st.initialized then Answer(st, [], TX_NOT_INITIALIZED)
    else if |st.content| + |chunk| > Limit(cfg) then Answer(st.(initialized := false), [], OUTPUT_BUFFER_TOO_SMALL)
    else Answer(st.(content := st.content + chunk), [], OK)
  }

  function OnSignLast(cfg: Config, st: State, chunk: seq<byte>): Outcome {
    var closed := st.(initialized := false);
    if !st.initialized then Answer(st, [], TX_NOT_INITIALIZED)
    else if |st.content| + |chunk| > Limit(cfg) then Answer(closed, [], OUTPUT_BUFFER_TOO_SMALL)
    else if st.content + chunk == [] then
      Answer(closed.(content := []), EmptyMessageText(), DATA_INVALID)
    else Outcome(closed.(content := st.content + chunk, pending := AwaitingSignature), Deferred, None)
  }

  function EmptyMessageText(): seq<byte> {
    Ascii(TxView.ErrorText(TxView.ParserInitContextEmpty))
  }

  function OnCommand(cfg: Config, st: State, command: Command): Outcome {
    match command
    case Refused(sw) => Answer(st, [], sw)
    case Version(locked) => Answer(st, VersionBytes(cfg.device.version, locked), OK)
    case GetAddr(confirm, path) => OnGetAddr(cfg, st, confirm, path)
    case SignInit(path) => OnSignInit(st, path)
    case SignAdd(chunk) => OnSignAdd(cfg, st, chunk)
    case SignLast(chunk) => OnSignLast(cfg, st, chunk)
    case SignOther => Answer(st, [], INVALID_P1P2)
  }

  function OnApprove(cfg: Config, st: State): Outcome {
    var done := st.(pending := Idle);
    match st.pending
    case Idle => Outcome(st, Deferred, None)
    case AwaitingAddress(body) => Answer(done, body, OK)
    case AwaitingSignature =>
      match cfg.device.sign(st.path, st.content)
      case None => Answer(done, [], SIGN_VERIFY_ERROR).(signed := Some((st.path, st.content)))
      case Some(signature) => Answer(done, signature, OK).(signed := Some((st.path, st.content)))
  }

  function OnReject(st: State): Outcome {
    Answer(st.(pending := Idle), [], COMMAND_NOT_ALLOWED)
  }

  function Step(cfg: Config, st: State, e: Event): Outcome {
    match e
    case Apdu(frame) => OnCommand(cfg, st, Classify(frame))
    case Approve => OnApprove(cfg, st)
    case Reject => OnReject(st)
  }

  /** A command is taken only when no review is pending, a review outcome only when one is. */
  predicate Enabled(st: State, e: Event) {
    e.Apdu? <==> st.pending.Idle?
  }

  function Initial(): State {
    State(false, [0, 0, 0], [], Idle)
  }

  function Run(cfg: Config, events: seq<Event>): State {
    if events == [] then Initial()
    else Step(cfg, Run(cfg, events[..|events| - 1]), events[|events| - 1]).state
  }

  predicate Legal(cfg: Config, events: seq<Event>) {
    events == [] ||
    (Legal(cfg, events[..|events| - 1]) && Enabled(Run(cfg, events[..|events| - 1]), events[|events| - 1]))
  }

  lemma RunSnoc(cfg: Config, events: seq<Event>, e: Event)
    requires Legal(cfg, events) && Enabled(Run(cfg, events), e)
    ensures Legal(cfg, events + [e]) && Run(cfg, events + [e]) == Step(cfg, Run(cfg, events), e).state
  {
    assert (events + [e])[..|events + [e]| - 1] == events;
  }
}
