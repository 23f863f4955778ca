/** The session in the form the application keeps it: one exchange buffer, the session flag and path, the two-tier
    transaction buffer, the parsed view and the pending review. Every method is proved to take the step that the session
    specification gives, and the ghost trace ties the object to its whole run. */
module Session {
  import opened Bytes
  import opened Buffering
  import opened Address
  import opened Ed25519
  import opened Paging
  import opened ReviewDisplay
  import opened SessionReplies
  import opened SessionSpec
  import opened SessionTraces
  import opened TxView

  /** How a handler leaves: by throwing a code with `tx` reply bytes already in place, or by waiting for a review. */
  datatype Exit = Throw(code: uint16, tx: nat) | Async

  datatype ChunkResult = More | Complete | Failed(code: uint16)

  datatype Review = NoReview | ReviewAddress | ReviewTransaction

  /** The exit produces the reply: the bytes already in the buffer followed by the status word. */
  predicate Produces(exit: Exit, io: seq<byte>, reply: Reply)
    requires |io| == IO_APDU_BUFFER_SIZE
  {
    match exit
    case Async => reply == Deferred
    case Throw(code, tx) =>
      tx <= IO_APDU_BUFFER_SIZE - 2 && HasStatusClass(code) && reply == Data(io[..tx] + StatusBytes(code))
  }

  /** Behind the length gate the 32-bit subtraction of the data offset does not wrap. */
  lemma NoWrap(rx: uint32)
    requires rx >= OFFSET_DATA
    ensures SubUint32(rx, OFFSET_DATA) == rx - OFFSET_DATA
  {
  }

  /** Lengths within the buffer bound survive the narrowing to 16 bits. */
  lemma NarrowingLossless(n: nat)
    requires n < 0x1_0000
    ensures ToUint16(n) == n
  {
  }

  class SigningApp {
    const cfg: Config
    const io: array<byte>
    const tx: Buffer
    const view: View
    var txInitialized: bool
    var hdPath: Path
    var addrResponseLen: uint16
    var review: Review
    ghost var trace: seq<Event>

    /** The pieces are separate, and the view points into the transaction buffer or nowhere. */
    ghost predicate Wired()
      reads tx, view
    {
      && tx.Valid() && view.Valid()
      && tx.target == cfg.target
      && io.Length == IO_APDU_BUFFER_SIZE
      && io != tx.ram && io != tx.flash
      && (view.ptr == null || view.ptr == tx.ram || view.ptr == tx.flash)
    }

    function PendingReview(): Pending
      requires io.Length == IO_APDU_BUFFER_SIZE
      reads `review, `addrResponseLen, io
    {
      match review
      case NoReview => Idle
      case ReviewAddress =>
        AwaitingAddress(if addrResponseLen <= IO_APDU_BUFFER_SIZE - 2 then io[..addrResponseLen] else [])
      case ReviewTransaction => AwaitingSignature
    }

    /** The state of the specification that the fields stand for. */
    function Abstract(): State
      requires Wired()
      reads `txInitialized, `hdPath, `review, `addrResponseLen, io, tx, tx.ram, tx.flash, view
    {
      State(txInitialized, hdPath, tx.Content(), PendingReview())
    }

    /** What a pending review relies on: the exchange buffer holds the address reply for the current path, or the view
        shows exactly the transaction buffer. */
    ghost predicate ReviewReady()
      requires Wired()
      reads `hdPath, `review, `addrResponseLen, io, tx, tx.ram, tx.flash, view
    {
      && (review.ReviewAddress? ==>
            && addrResponseLen == 87
            && AddressBody(cfg.device, hdPath).Some?
            && io[..] == Filled(cfg.device, hdPath, IO_APDU_BUFFER_SIZE))
      && (review.ReviewTransaction? ==> view.Shown() == tx.Content())
    }

    /** The object is in the state that its own trace leads to. */
    ghost predicate Valid()
      reads this, io, tx, tx.ram, tx.flash, view
    {
      && Wired()
      && ReviewReady()
      && Legal(cfg, trace)
      && Abstract() == Run(cfg, trace)
    }

    /** Writes outside the transaction buffer and the view leave the pieces in place and the content alone. */
    twostate lemma ContentKept()
      requires old(Wired()) && unchanged(tx, tx.ram, tx.flash, view)
      ensures Wired() && tx.Content() == old(tx.Content())
    {
    }

    constructor (cfg: Config)
      ensures Valid() && trace == [] && this.cfg == cfg
    {
      this.cfg := cfg;
      io := new byte[IO_APDU_BUFFER_SIZE](_ => 0);
      tx := new Buffer(cfg.target);
      view := new View();
      txInitialized, hdPath := false, [0, 0, 0];
      addrResponseLen, review := 0, NoReview;
      trace := [];
    }

    /** Overwrites the path before checking it; the subtraction is on 32 bits. */
    method ExtractHdPath(rx: uint32, offset: nat) returns (thrown: Option<uint16>)
      requires io.Length == IO_APDU_BUFFER_SIZE && offset + 12 <= IO_APDU_BUFFER_SIZE
      modifies this`txInitialized, this`hdPath
      ensures !txInitialized
      ensures if SubUint32(rx, offset) < 12 then thrown == Some(WRONG_LENGTH) && hdPath == old(hdPath)
              else hdPath == PathAt(io[..], offset) && thrown == if IsMainnet(hdPath) then None else Some(DATA_INVALID)
    {
      txInitialized := false;
      if SubUint32(rx, offset) < 12 {
        return Some(WRONG_LENGTH);
      }
      hdPath := PathAt(io[..], offset);
      if !(hdPath[0] == HDPATH_0_DEFAULT && hdPath[1] == HDPATH_1_DEFAULT) {
        return Some(DATA_INVALID);
      }
      return None;
    }

    /** A handler that answers at once, without reply bytes: the specification's step ends in this state, with this
        code. */
    ghost predicate Answers(o: Outcome, code: uint16)
      requires Wired()
      reads `txInitialized, `hdPath, `review, `addrResponseLen, io, tx, tx.ram, tx.flash, view
    {
      HasStatusClass(code) && o == Answer(Abstract(), [], code)
    }

    /** `P1_INIT`: the buffer is emptied before the path is looked at. */
    method StartSession(rx: nat) returns (r: ChunkResult)
      requires Wired() && OFFSET_DATA <= rx <= IO_APDU_BUFFER_SIZE
      modifies this`txInitialized, this`hdPath, tx
      ensures Wired()
      ensures r != Complete
      ensures var path := PathIn(Frame(io[..], rx, true, true));
              Answers(OnSignInit(old(Abstract()), path), if r == More then OK else r.code)
    {
      tx.Reset();
      NoWrap(rx);
      var thrown := ExtractHdPath(rx, OFFSET_DATA);
      assert tx.Content() == [];
      if thrown.Some? {
        return Failed(thrown.value);
      }
      txInitialized := true;
      return More;
    }

    /** `P1_ADD`. */
    method AddChunk(rx: nat) returns (r: ChunkResult)
      requires Wired() && OFFSET_DATA <= rx <= IO_APDU_BUFFER_SIZE
      modifies this`txInitialized, tx, tx.ram, tx.flash
      ensures Wired()
      ensures r != Complete
      ensures Answers(OnSignAdd(cfg, old(Abstract()), io[OFFSET_DATA..rx]), if r == More then OK else r.code)
    {
      if !txInitialized {
        return Failed(TX_NOT_INITIALIZED);
      }
      var added := tx.Append(io, OFFSET_DATA, rx - OFFSET_DATA);
      if added != rx - OFFSET_DATA {
        txInitialized := false;
        return Failed(OUTPUT_BUFFER_TOO_SMALL);
      }
      return More;
    }

    /** `P1_LAST`: closes the session whether or not the chunk fits. */
    method LastChunk(rx: nat) returns (r: ChunkResult)
      requires Wired() && OFFSET_DATA <= rx <= IO_APDU_BUFFER_SIZE
      modifies this`txInitialized, tx, tx.ram, tx.flash
      ensures Wired()
      ensures r != More
      ensures r.Failed? ==> Answers(OnSignLast(cfg, old(Abstract()), io[OFFSET_DATA..rx]), r.code)
      ensures r == Complete ==>
                var before := old(Abstract());
                var message := before.content + io[OFFSET_DATA..rx];
                && before.initialized
                && |message| <= Limit(cfg)
                && Abstract() == before.(initialized := false, content := message)
    {
      if !txInitialized {
        return Failed(TX_NOT_INITIALIZED);
      }
      var added := tx.Append(io, OFFSET_DATA, rx - OFFSET_DATA);
      txInitialized := false;
      if added != rx - OFFSET_DATA {
        return Failed(OUTPUT_BUFFER_TOO_SMALL);
      }
      return Complete;
    }

    method ProcessChunk(rx: nat) returns (r: ChunkResult)
      requires Wired() && rx <= IO_APDU_BUFFER_SIZE
      modifies this`txInitialized, this`hdPath, tx, tx.ram, tx.flash
      ensures Wired()
      ensures rx < OFFSET_DATA ==> r == Failed(WRONG_LENGTH) && Abstract() == old(Abstract())
      ensures rx >= OFFSET_DATA && r != Complete ==>
                var command := SignCommand(Frame(io[..], rx, true, true));
                Answers(OnCommand(cfg, old(Abstract()), command), if r == More then OK else r.code)
      ensures r == Complete ==>
                var before := old(Abstract());
                && rx >= OFFSET_DATA
                && SignCommand(Frame(io[..], rx, true, true)) == SignLast(io[OFFSET_DATA..rx])
                && before.initialized
                && |before.content + io[OFFSET_DATA..rx]| <= Limit(cfg)
                && Abstract() == before.(initialized := false, content := before.content + io[OFFSET_DATA..rx])
    {
      var payloadType := io[OFFSET_P1];
      if rx < OFFSET_DATA {
        return Failed(WRONG_LENGTH);
      }
      if payloadType == P1_INIT {
        r := StartSession(rx);
      } else if payloadType == P1_ADD {
        r := AddChunk(rx);
      } else if payloadType == P1_LAST {
        r := LastChunk(rx);
      } else {
        r := Failed(INVALID_P1P2);
      }
    }

    method HandleSign(rx: nat) returns (exit: Exit)
      requires Wired() && OFFSET_DATA <= rx <= IO_APDU_BUFFER_SIZE && review == NoReview
      modifies this`txInitialized, this`hdPath, this`review, io, tx, tx.ram, tx.flash, view
      ensures Wired() && ReviewReady() && (exit.Throw? ==> review == NoReview)
      ensures var o := OnCommand(cfg, old(Abstract()), SignCommand(Frame(old(io[..]), rx, true, true)));
              Abstract() == o.state && Produces(exit, io[..], o.reply)
    {
      var r := ProcessChunk(rx);
      if r != Complete {
        assert io[..0] == [];
        return Throw(if r == More then OK else r.code, 0);
      }
      var err := view.TxParse(tx);
      if err != ParserOk {
        var text := Ascii(ErrorText(err));
        Store(io, 0, text);
        assert io[..|text|] == text;
        return Throw(DATA_INVALID, |text|);
      }
      review := ReviewTransaction;
      return Async;
    }

    method FillAddressReply() returns (thrown: Option<uint16>)
      requires io.Length == IO_APDU_BUFFER_SIZE
      modifies this`addrResponseLen, io
      ensures thrown == if AddressBody(cfg.device, hdPath).Some? then None else Some(EXECUTION_ERROR)
      ensures thrown == None ==>
                addrResponseLen == 87 && io[..87] == AddressBody(cfg.device, hdPath).value
      ensures io[..] == Filled(cfg.device, hdPath, IO_APDU_BUFFER_SIZE)
    {
      Zero(io);
      addrResponseLen := 0;
      var err, length := FillAddress(cfg.device, hdPath, io, addrResponseLen);
      addrResponseLen := length;
      if err != ZxErr.ZxOk || addrResponseLen == 0 {
        return Some(EXECUTION_ERROR);
      }
      return None;
    }

    method HandleGetAddr(rx: nat) returns (exit: Exit)
      requires Wired() && OFFSET_DATA <= rx <= IO_APDU_BUFFER_SIZE && review == NoReview
      modifies this`txInitialized, this`hdPath, this`review, this`addrResponseLen, io
      ensures Wired() && ReviewReady() && (exit.Throw? ==> review == NoReview)
      ensures var f: Frame := Frame(old(io[..]), rx, true, true);
              var o := OnGetAddr(cfg, old(Abstract()), f.io[OFFSET_P1] != 0, PathIn(f));
              Abstract() == o.state && Produces(exit, io[..], o.reply)
    {
      NoWrap(rx);
      var thrown := ExtractHdPath(rx, OFFSET_DATA);
      ContentKept();
      if thrown.Some? {
        assert io[..0] == [];
        return Throw(thrown.value, 0);
      }
      exit := SendAddress(io[OFFSET_P1]);
    }

    /** The address of the current path, at once or under review. */
    method SendAddress(requireConfirmation: byte) returns (exit: Exit)
      requires Wired() && review == NoReview && !txInitialized && IsMainnet(hdPath)
      modifies this`review, this`addrResponseLen, io
      ensures Wired() && ReviewReady() && (exit.Throw? ==> review == NoReview)
      ensures var o := OnGetAddr(cfg, old(Abstract()), requireConfirmation != 0, Some(hdPath));
              Abstract() == o.state && Produces(exit, io[..], o.reply)
    {
      ghost var before := Abstract();
      var thrown := FillAddressReply();
      ContentKept();
      assert Abstract() == before;
      if thrown.Some? {
        assert io[..0] == [];
        return Throw(thrown.value, 0);
      }
      ghost var body := AddressBody(cfg.device, hdPath).value;
      if requireConfirmation != 0 {
        review := ReviewAddress;
        assert PendingReview() == AwaitingAddress(body);
        return Async;
      }
      return Throw(OK, addrResponseLen);
    }

    /** One byte after the other, most significant first. */
    method HandleGetVersion(locked: bool) returns (exit: Exit)
      requires io.Length == IO_APDU_BUFFER_SIZE
      modifies io
      ensures exit == Throw(OK, 12) && io[..12] == VersionBytes(cfg.device.version, locked)
    {
      var v := cfg.device.version;
      io[0] := 0;
      if v.testing {
        io[0] := 1;
      }
      io[1], io[2] := v.major / 0x100, v.major % 0x100;
      io[3], io[4] := v.minor / 0x100, v.minor % 0x100;
      io[5], io[6] := v.patch / 0x100, v.patch % 0x100;
      io[7] := Flag(locked);
      io[8], io[9] := v.targetId / 0x100_0000, v.targetId / 0x1_0000 % 0x100;
      io[10], io[11] := v.targetId / 0x100 % 0x100, v.targetId % 0x100;
      return Throw(OK, 12);
    }

    /** The gates in their order, then the handler for the instruction. */
    method Dispatch(rx: nat, pinValidated: bool, uxAllowed: bool) returns (exit: Exit)
      requires Wired() && rx <= IO_APDU_BUFFER_SIZE && review == NoReview
      modifies this`txInitialized, this`hdPath, this`review, this`addrResponseLen, io, tx, tx.ram, tx.flash, view
      ensures Wired() && ReviewReady() && (exit.Throw? ==> review == NoReview)
      ensures var f: Frame := Frame(old(io[..]), rx, pinValidated, uxAllowed);
              var o := OnCommand(cfg, old(Abstract()), Classify(f));
              Abstract() == o.state && Produces(exit, io[..], o.reply)
      ensures rx >= 5 && !pinValidated && old(io[0]) == 0x64 && (old(io[1]) == 1 || old(io[1]) == 2) ==>
                exit == Throw(0x6986, 0) && Abstract() == old(Abstract())
    {
      assert io[..0] == [];
      if io[OFFSET_CLA] != CLA {
        return Throw(CLA_NOT_SUPPORTED, 0);
      }
      if rx < APDU_MIN_LENGTH {
        return Throw(WRONG_LENGTH, 0);
      }
      var ins := io[OFFSET_INS];
      if ins == INS_GET_VERSION {
        exit := HandleGetVersion(!uxAllowed);
      } else if ins == INS_GET_ADDR {
        if !pinValidated {
          return Throw(COMMAND_NOT_ALLOWED, 0);
        }
        exit := HandleGetAddr(rx);
      } else if ins == INS_SIGN {
        if !pinValidated {
          return Throw(COMMAND_NOT_ALLOWED, 0);
        }
        exit := HandleSign(rx);
      } else {
        return Throw(INS_NOT_SUPPORTED, 0);
      }
    }

    /** Records the step just taken in the ghost trace. */
    ghost method Record(e: Event)
      requires Wired() && ReviewReady()
      requires Legal(cfg, trace) && Enabled(Run(cfg, trace), e)
      requires Abstract() == Step(cfg, Run(cfg, trace), e).state
      modifies this`trace
      ensures Valid() && trace == old(trace) + [e]
    {
      ghost var st := Abstract();
      RunSnoc(cfg, trace, e);
      trace := trace + [e];
      assert ReviewReady() && Abstract() == st;
    }

    /** One command. No review may be pending; the reply starts at the beginning of the exchange buffer. */
    method HandleApdu(rx: nat, pinValidated: bool, uxAllowed: bool) returns (reply: Reply)
      requires Valid() && rx <= IO_APDU_BUFFER_SIZE && review == NoReview
      modifies this, io, tx, tx.ram, tx.flash, view
      ensures Valid()
      ensures var f: Frame := Frame(old(io[..]), rx, pinValidated, uxAllowed);
              && trace == old(trace) + [Apdu(f)]
              && reply == Step(cfg, Run(cfg, old(trace)), Apdu(f)).reply
      ensures rx >= 5 && !pinValidated && old(io[0]) == 0x64 && (old(io[1]) == 1 || old(io[1]) == 2) ==>
                reply == Data([0x69, 0x86]) && Abstract() == old(Abstract())
    {
      ghost var f: Frame := Frame(io[..], rx, pinValidated, uxAllowed);
      var exit := Dispatch(rx, pinValidated, uxAllowed);
      match exit {
        case Async =>
          reply := Deferred;
        case Throw(code, n) =>
          StatusIdempotent(code);
          SetCode(n, Status(code));
          reply := Data(io[..n + 2]);
      }
      Record(Apdu(f));
      GateReplies(cfg, Run(cfg, old(trace)), f);
    }

    /** Writes a status word behind the first `n` bytes. */
    method SetCode(n: nat, sw: uint16)
      requires io.Length == IO_APDU_BUFFER_SIZE && n <= IO_APDU_BUFFER_SIZE - 2
      modifies io
      ensures io[..n + 2] == old(io[..n]) + StatusBytes(sw)
    {
      io[n] := sw / 256;
      io[n + 1] := sw % 256;
    }

    /** Signs with the key of the current path; the error path clears the output area. `request` is what was handed to
        the signing call, nothing when the arguments are refused. */
    method CryptoSign(maxLength: nat, message: seq<byte>, length: uint16)
      returns (err: ZxErr, request: Option<(Path, seq<byte>)>)
      requires io.Length == IO_APDU_BUFFER_SIZE && maxLength <= IO_APDU_BUFFER_SIZE && length <= |message|
      modifies io
      ensures request == if maxLength < 64 || length == 0 then None else Some((hdPath, message[..length]))
      ensures err == if request == None then ZxInvalidCryptoSettings
                     else if cfg.device.sign(request.value.0, request.value.1) == None then ZxErr.ZxUnknown
                     else ZxErr.ZxOk
      ensures err == ZxErr.ZxOk ==> io[..64] == cfg.device.sign(request.value.0, request.value.1).value
      ensures err == ZxErr.ZxUnknown ==> io[..maxLength] == ZeroBytes(maxLength)
      ensures err == ZxInvalidCryptoSettings ==> io[..] == old(io[..])
    {
      if maxLength < 64 || length == 0 {
        return ZxInvalidCryptoSettings, None;
      }
      request := Some((hdPath, message[..length]));
      match cfg.device.sign(hdPath, message[..length])
      case None =>
        Store(io, 0, ZeroBytes(maxLength));
        return ZxErr.ZxUnknown, request;
      case Some(signature) =>
        Store(io, 0, signature);
        return ZxErr.ZxOk, request;
    }

    /** The user approves. `signed` is what the signing call was given: always the path and message of a complete trace,
        and exactly the bytes that the review has been showing. */
    method Approve() returns (reply: Reply, signed: Option<(Path, seq<byte>)>)
      requires Valid() && review != NoReview
      modifies this, io
      ensures Valid()
      ensures trace == old(trace) + [Event.Approve]
      ensures reply == Step(cfg, Run(cfg, old(trace)), Event.Approve).reply
      ensures signed == Step(cfg, Run(cfg, old(trace)), Event.Approve).signed
      ensures old(review) == ReviewAddress ==>
                var key := cfg.device.publicKey(old(hdPath));
                && signed == None && key.Some?
                && reply == Data(Compress(key.value) + Ascii(AddressOf(cfg.device, Compress(key.value))) + [0x90, 0x00])
      ensures signed.Some? ==>
                && IsComplete(Limit(cfg), old(trace), signed.value.0, signed.value.1)
                && signed.value.1 == old(view.Shown())
      ensures signed.Some? ==>
                var answer := cfg.device.sign(signed.value.0, signed.value.1);
                reply == if answer == None then Data([0x6f, 0x01]) else Data(answer.value + [0x90, 0x00])
    {
      ghost var before := trace;
      PendingNotEmpty(cfg, before);
      if review == ReviewAddress {
        BodyIff(cfg.device, hdPath);
        AddressApproval(cfg, Abstract(), AddressBody(cfg.device, hdPath).value);
      }
      reply, signed := RunAction();
      Record(Event.Approve);
      if signed.Some? {
        SignedIff(cfg, before, Event.Approve, signed.value.0, signed.value.1);
      }
    }

    /** The action registered with the review; the review is over. */
    method RunAction() returns (reply: Reply, signed: Option<(Path, seq<byte>)>)
      requires Wired() && review != NoReview
      requires review == ReviewAddress ==> addrResponseLen <= IO_APDU_BUFFER_SIZE - 2
      requires review == ReviewTransaction ==> tx.Content() != []
      modifies this`review, io
      ensures Wired() && review == NoReview
      ensures var o := Step(cfg, old(Abstract()), Event.Approve);
              Abstract() == o.state && reply == o.reply && signed == o.signed
      ensures signed.Some? ==> old(review) == ReviewTransaction && signed.value.1 == old(tx.Content())
      ensures signed.Some? ==>
                var answer := cfg.device.sign(signed.value.0, signed.value.1);
                reply == if answer == None then Data([0x6f, 0x01]) else Data(answer.value + [0x90, 0x00])
    {
      if review == ReviewAddress {
        reply := ApproveAddress();
        signed := None;
      } else {
        reply, signed := ApproveSignature();
      }
      review := NoReview;
      ContentKept();
    }

    method ApproveAddress() returns (reply: Reply)
      requires Wired() && review == ReviewAddress && addrResponseLen <= IO_APDU_BUFFER_SIZE - 2
      modifies io
      ensures Wired() && reply == OnApprove(cfg, old(Abstract())).reply
    {
      SetCode(addrResponseLen, OK);
      reply := Data(io[..addrResponseLen + 2]);
    }

    /** The length is narrowed to 16 bits on the way to the signing call; the buffer bound makes that harmless. */
    method ApproveSignature() returns (reply: Reply, signed: Option<(Path, seq<byte>)>)
      requires Wired() && review == ReviewTransaction && tx.Content() != []
      modifies io
      ensures Wired()
      ensures reply == OnApprove(cfg, old(Abstract())).reply
      ensures signed == OnApprove(cfg, old(Abstract())).signed
      ensures var answer := cfg.device.sign(hdPath, old(tx.Content()));
              reply == if answer == None then Data([0x6f, 0x01]) else Data(answer.value + [0x90, 0x00])
    {
      var message := tx.Content();
      var length := ToUint16(|message|);
      NarrowingLossless(|message|);
      assert message[..length] == message;
      var err;
      err, signed := CryptoSign(IO_APDU_BUFFER_SIZE - 3, message, length);
      if err != ZxErr.ZxOk {
        assert io[..0] == [];
        SetCode(0, SIGN_VERIFY_ERROR);
        reply := Data(io[..2]);
      } else {
        SetCode(64, OK);
        reply := Data(io[..66]);
      }
    }

    method Reject() returns (reply: Reply)
      requires Valid() && review != NoReview
      modifies this, io
      ensures Valid()
      ensures trace == old(trace) + [Event.Reject]
      ensures reply == Step(cfg, Run(cfg, old(trace)), Event.Reject).reply
      ensures reply == Data([0x69, 0x86])
    {
      reply := ReplyRejected();
      Record(Event.Reject);
    }

    method ReplyRejected() returns (reply: Reply)
      requires Wired()
      modifies this`review, io
      ensures Wired() && review == NoReview
      ensures var o := Step(cfg, old(Abstract()), Event.Reject); Abstract() == o.state && reply == o.reply
      ensures reply == Data([0x69, 0x86])
    {
      Zero(io);
      assert io[..0] == [];
      SetCode(0, COMMAND_NOT_ALLOWED);
      reply := Data(io[..2]);
      review := NoReview;
      ContentKept();
    }

    /** What a pending transaction review shows is the message that approving would sign. */
    method ReviewItem(displayIdx: int, outKeyLen: uint16, outValLen: uint16, pageIdx: byte)
      returns (err: ZxError, item: Item)
      requires Valid() && review == ReviewTransaction && -128 <= displayIdx < 128
      ensures err == if 0 <= displayIdx < NUM_ITEMS then ZxError.ZxOk else ZxNoData
      ensures err == ZxError.ZxOk ==>
                var message := OnApprove(cfg, Abstract()).signed.value.1;
                item == ItemFor(message, displayIdx, outKeyLen, outValLen, pageIdx)
    {
      err, item := view.TxGetItem(displayIdx, outKeyLen, outValLen, pageIdx);
    }

    /** Reading every page of a pending transaction review gives the message that approving would sign exactly when it
        fits in 255 pages. */
    method ReviewMessage(outKeyLen: uint16, outValLen: uint16) returns (text: string)
      requires Valid() && review == ReviewTransaction
      ensures var message := OnApprove(cfg, Abstract()).signed.value.1;
              text == Hex(message) <==> |message| <= 255 * PageBytes(outValLen)
    {
      text := ReadMessage(view, outKeyLen, outValLen);
    }

    /** What a pending address review shows: the address of the key in the reply that approving would send, and in
        expert mode the current path, page by page. */
    method ReviewAddressItem(displayIdx: int, expert: bool, pathText: Path -> string, outKeyLen: uint16,
                             outValLen: uint16, pageIdx: byte)
      returns (err: ZxError, item: Item)
      requires Wired() && ReviewReady() && review == ReviewAddress && -128 <= displayIdx < 128
      ensures err == if displayIdx == 0 || (displayIdx == 1 && expert) then ZxError.ZxOk else ZxNoData
      ensures OnApprove(cfg, Abstract()).reply == Data(io[..87] + StatusBytes(OK))
      ensures displayIdx == 0 ==>
                && item == TextItem("Address", AddressOf(cfg.device, io[..32]), outKeyLen, outValLen, pageIdx)
                && cfg.device.publicKey(hdPath).Some? && io[..32] == Compress(cfg.device.publicKey(hdPath).value)
      ensures displayIdx == 1 && expert ==>
                item == TextItem("Your Path", pathText(hdPath), outKeyLen, outValLen, pageIdx)
    {
      assert PendingReview() == AwaitingAddress(io[..87]);
      if displayIdx == 0 {
        var text := AddressOnScreen();
        item := TextItem("Address", text, outKeyLen, outValLen, pageIdx);
        return ZxError.ZxOk, item;
      } else if displayIdx == 1 {
        if !expert {
          return ZxNoData, Item("", "", 0);
        }
        item := TextItem("Your Path", pathText(hdPath), outKeyLen, outValLen, pageIdx);
        return ZxError.ZxOk, item;
      }
      return ZxNoData, Item("", "", 0);
    }

    /** The C string behind the key in the exchange buffer. */
    method AddressOnScreen() returns (text: string)
      requires Wired() && ReviewReady() && review == ReviewAddress
      ensures text == AddressOf(cfg.device, io[..32])
      ensures cfg.device.publicKey(hdPath).Some? && io[..32] == Compress(cfg.device.publicKey(hdPath).value)
    {
      BodyKey(cfg.device, hdPath);
      ghost var body := AddressBody(cfg.device, hdPath).value;
      ShownAddress(cfg.device, hdPath, IO_APDU_BUFFER_SIZE);
      BodyCharacters(cfg.device, hdPath);
      assert io[..32] == body[..32];
      text := Characters(CString(io[PK_LEN_25519..]));
    }
  }
}
