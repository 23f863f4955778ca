/** What the review of a message shows against what approving it signs. Going through every announced page of the
    message item shows the message in full only when the page count, which is stored in one byte, does not wrap; the
    messages that a device signs unseen in part can all be received. */
module ReviewDisplay {
  import opened Bytes
  import opened Address
  import opened Paging
  import opened SessionSpec
  import opened SessionTraces
  import opened TxView

  // ---------- What is shown ----------

  /** The values of the message item on its first `n` pages, joined. */
  function DisplayedText(message: seq<byte>, keyLen: uint16, valLen: uint16, n: nat): string
    decreases n
  {
    if n == 0 then ""
    else DisplayedText(message, keyLen, valLen, n - 1) + ItemFor(message, 1, keyLen, valLen, n - 1).value
  }

  /** The announced pages together are the whole message in hexadecimal. */
  predicate ShownInFull(message: seq<byte>, keyLen: uint16, valLen: uint16) {
    DisplayedText(message, keyLen, valLen, ItemFor(message, 1, keyLen, valLen, 0).pageCount) == Hex(message)
  }

  lemma {:induction false} DisplayedPages(message: seq<byte>, keyLen: uint16, valLen: uint16, n: nat)
    ensures var perPage := PageBytes(valLen);
            DisplayedText(message, keyLen, valLen, n) == Pages(message, perPage, PageCount(|message|, perPage), n)
  {
    if n > 0 {
      DisplayedPages(message, keyLen, valLen, n - 1);
    }
  }

  /** When no page is announced, the first page is empty. */
  lemma NothingBeyond(message: seq<byte>, keyLen: uint16, valLen: uint16)
    requires ItemFor(message, 1, keyLen, valLen, 0).pageCount == 0
    ensures DisplayedText(message, keyLen, valLen, 1) == DisplayedText(message, keyLen, valLen, 0)
  {
  }

  lemma ShownInFullIff(message: seq<byte>, keyLen: uint16, valLen: uint16)
    ensures ShownInFull(message, keyLen, valLen) <==> |message| <= 255 * PageBytes(valLen)
  {
    var perPage := PageBytes(valLen);
    DisplayedPages(message, keyLen, valLen, PageCount(|message|, perPage));
    AllPagesShowEverything(message, perPage);
  }

  lemma NextPage(message: seq<byte>, keyLen: uint16, valLen: uint16, n: nat, item: Item)
    requires item == ItemFor(message, 1, keyLen, valLen, n)
    ensures item.pageCount == ItemFor(message, 1, keyLen, valLen, 0).pageCount < 256
    ensures DisplayedText(message, keyLen, valLen, n + 1) == DisplayedText(message, keyLen, valLen, n) + item.value
  {
  }

  /** The first page is fetched even when no page is announced, and is then empty. */
  lemma AllRead(message: seq<byte>, keyLen: uint16, valLen: uint16, n: nat)
    requires var total := ItemFor(message, 1, keyLen, valLen, 0).pageCount; n == if total == 0 then 1 else total
    ensures DisplayedText(message, keyLen, valLen, n) == Hex(message) <==> |message| <= 255 * PageBytes(valLen)
  {
    if ItemFor(message, 1, keyLen, valLen, 0).pageCount == 0 {
      NothingBeyond(message, keyLen, valLen);
    }
    ShownInFullIff(message, keyLen, valLen);
  }

  /** Going through every page of the message item, as a client that dumps the items does: the count starts at one and
      each fetched page updates it. */
  method ReadMessage(view: View, keyLen: uint16, valLen: uint16) returns (text: string)
    requires view.Valid()
    ensures text == Hex(view.Shown()) <==> |view.Shown()| <= 255 * PageBytes(valLen)
  {
    ghost var message := view.Shown();
    ghost var total := ItemFor(message, 1, keyLen, valLen, 0).pageCount;
    var page, count := 0, 1;
    text := "";
    while page < count
      invariant 0 <= page < 256
      invariant count == if page == 0 then 1 else total
      invariant page <= if total == 0 then 1 else total
      invariant text == DisplayedText(message, keyLen, valLen, page)
      decreases 256 - page
    {
      var err, item := view.GetItem(1, keyLen, valLen, page);
      NextPage(message, keyLen, valLen, page, item);
      text, count := text + item.value, item.pageCount;
      page := page + 1;
    }
    AllRead(message, keyLen, valLen, page);
  }

  /** An approval that is possible after these events signs this message for this path. */
  predicate Signs(cfg: Config, events: seq<Event>, path: Path, message: seq<byte>) {
    && Legal(cfg, events) && Enabled(Run(cfg, events), Approve)
    && Step(cfg, Run(cfg, events), Approve).signed == Some((path, message))
  }

  /** In every run a complete trace gets its message signed whole, and the review shows it whole exactly when it fits in
      255 pages of the display. */
  lemma SignedIsShownIff(cfg: Config, events: seq<Event>, path: Path, message: seq<byte>, keyLen: uint16,
                         valLen: uint16)
    requires Legal(cfg, events) && IsComplete(Limit(cfg), events, path, message)
    ensures Signs(cfg, events, path, message)
    ensures ShownInFull(message, keyLen, valLen) <==> |message| <= 255 * PageBytes(valLen)
  {
    PendingIff(cfg, events, path, message);
    SignedIff(cfg, events, Approve, path, message);
    ShownInFullIff(message, keyLen, valLen);
  }

  // ---------- Which messages can be signed ----------

  /** A signing command of the given payload type, as a client builds it. */
  function SignFrame(p1: byte, data: seq<byte>): (f: Frame)
    requires |data| <= 255
    ensures f.rx == OFFSET_DATA + |data| && f.io[OFFSET_DATA..f.rx] == data && f.io[OFFSET_P1] == p1
    ensures Classify(f) == SignCommand(f)
  {
    var header: seq<byte> := [CLA, INS_SIGN, p1, 0, |data|];
    var f: Frame := Frame(header + data + ZeroBytes(255 - |data|), OFFSET_DATA + |data|, true, true);
    assert f.io[OFFSET_DATA..f.rx] == data;
    f
  }

  function PathBytes(path: Path): (r: seq<byte>)
    ensures |r| == 12
  {
    LeBytes(path[0], 4) + LeBytes(path[1], 4) + LeBytes(path[2], 4)
  }

  lemma WordOfLeBytes(io: seq<byte>, at: nat, n: uint32)
    requires at + 4 <= |io| && io[at..at + 4] == LeBytes(n, 4)
    ensures Word(io, at) == n
  {
    var n1 := n / 256;
    var n2 := n1 / 256;
    assert LeBytes(n2, 2) == [n2 % 256, n2 / 256 % 256];
    assert LeBytes(n, 4) == [n % 256, n1 % 256, n2 % 256, n2 / 256 % 256];
    assert io[at] == io[at..at + 4][0] && io[at + 1] == io[at..at + 4][1];
    assert io[at + 2] == io[at..at + 4][2] && io[at + 3] == io[at..at + 4][3];
  }

  lemma ThreeWords(a: seq<byte>, b: seq<byte>, c: seq<byte>)
    requires |a| == |b| == |c| == 4
    ensures (a + b + c)[0..4] == a && (a + b + c)[4..8] == b && (a + b + c)[8..12] == c
  {
  }

  lemma SliceOfSlice<T>(s: seq<T>, lo: nat, hi: nat, from: nat, to: nat)
    requires lo <= hi <= |s| && from <= to <= hi - lo
    ensures s[lo..hi][from..to] == s[lo + from..lo + to]
  {
    var inner, outer := s[lo..hi][from..to], s[lo + from..lo + to];
    assert |inner| == |outer|;
    forall i | 0 <= i < to - from
      ensures inner[i] == outer[i]
    {
    }
  }

  lemma PathOfBytes(io: seq<byte>, path: Path)
    requires OFFSET_DATA + 12 <= |io| && io[OFFSET_DATA..OFFSET_DATA + 12] == PathBytes(path)
    ensures PathAt(io, OFFSET_DATA) == path
  {
    ThreeWords(LeBytes(path[0], 4), LeBytes(path[1], 4), LeBytes(path[2], 4));
    SliceOfSlice(io, 5, 17, 0, 4);
    SliceOfSlice(io, 5, 17, 4, 8);
    SliceOfSlice(io, 5, 17, 8, 12);
    WordOfLeBytes(io, 5, path[0]);
    WordOfLeBytes(io, 9, path[1]);
    WordOfLeBytes(io, 13, path[2]);
  }

  /** The first frame of a signing session for `path`. */
  lemma InitFrame(path: Path) returns (start: Event)
    requires IsMainnet(path)
    ensures IsInit(start, path)
  {
    var f := SignFrame(P1_INIT, PathBytes(path));
    PathOfBytes(f.io, path);
    start := Apdu(f);
  }

  /** One added chunk for every byte of the message. */
  function Transmission(message: seq<byte>): seq<Event> {
    if message == [] then []
    else Transmission(message[..|message| - 1]) + [Apdu(SignFrame(P1_ADD, [message[|message| - 1]]))]
  }

  lemma {:induction false} TransmissionPayloads(message: seq<byte>)
    ensures Payloads(Transmission(message)) == message
    ensures forall e :: e in Transmission(message) ==> IsAdd(e)
  {
    if message != [] {
      var init, last := message[..|message| - 1], message[|message| - 1];
      TransmissionPayloads(init);
      var e := Apdu(SignFrame(P1_ADD, [last]));
      var all := Transmission(message);
      assert all[..|all| - 1] == Transmission(init);
      LastSplit(message);
    }
  }

  /** Exactly the nonempty messages within the buffer can be brought to be signed, each for every path of the
      application's prefix. */
  lemma SignableIff(cfg: Config, path: Path, message: seq<byte>)
    ensures (exists events :: Signs(cfg, events, path, message)) <==>
            && path[0] == 0x8000_002c && path[1] == 0x8000_060f
            && 0 < |message| <= if cfg.target.NanoS? then 8192 else 16384
  {
    if IsMainnet(path) && 0 < |message| <= Limit(cfg) {
      var events := Exchange(cfg, path, message);
    }
    forall events | Signs(cfg, events, path, message)
      ensures IsMainnet(path) && 0 < |message| <= Limit(cfg)
    {
      SignedIff(cfg, events, Approve, path, message);
    }
  }

  lemma Exchange(cfg: Config, path: Path, message: seq<byte>) returns (events: seq<Event>)
    requires IsMainnet(path) && 0 < |message| <= Limit(cfg)
    ensures Signs(cfg, events, path, message)
  {
    var init, chunk := message[..|message| - 1], [message[|message| - 1]];
    var start := InitFrame(path);
    var last := Apdu(SignFrame(P1_LAST, chunk));
    TransmissionPayloads(init);
    ExchangeIff(cfg, [], start, Transmission(init), last, path);
    LastSplit(message);
    events := [] + [start] + Transmission(init) + [last];
    StepSigned(cfg, Run(cfg, events), Approve, path, message);
  }

  /** A device shows everything that it can be brought to sign exactly when its buffer holds no more than 255 pages. */
  lemma EverySignedMessageShownIff(cfg: Config, keyLen: uint16, valLen: uint16)
    ensures (forall events, path, message :: Signs(cfg, events, path, message) ==>
               ShownInFull(message, keyLen, valLen)) <==>
            (if cfg.target.NanoS? then 8192 else 16384) <= 255 * PageBytes(valLen)
  {
    if Limit(cfg) <= 255 * PageBytes(valLen) {
      forall events, path, message | Signs(cfg, events, path, message)
        ensures ShownInFull(message, keyLen, valLen)
      {
        SignedIff(cfg, events, Approve, path, message);
        ShownInFullIff(message, keyLen, valLen);
      }
    } else {
      var path: Path := [HDPATH_0_DEFAULT, HDPATH_1_DEFAULT, 0];
      var message := ZeroBytes(Limit(cfg));
      var events := Exchange(cfg, path, message);
      ShownInFullIff(message, keyLen, valLen);
    }
  }

  // ---------- The address ----------

  /** The values of a text item on its first `n` pages, joined. */
  function DisplayedItem(key: string, text: string, keyLen: uint16, valLen: uint16, n: nat): string
    decreases n
  {
    if n == 0 then ""
    else DisplayedItem(key, text, keyLen, valLen, n - 1) + TextItem(key, text, keyLen, valLen, n - 1).value
  }

  lemma {:induction false} DisplayedItemPages(key: string, text: string, keyLen: uint16, valLen: uint16, n: nat)
    ensures DisplayedItem(key, text, keyLen, valLen, n) ==
            TextPages(text, PageChars(valLen), PageCount(|text|, PageChars(valLen)), n)
  {
    if n > 0 {
      DisplayedItemPages(key, text, keyLen, valLen, n - 1);
    }
  }

  /** The pages of the address item are the whole address on every display with room for a character. */
  lemma AddressShownIff(device: Device, pk: seq<byte>, keyLen: uint16, valLen: uint16)
    ensures var text := AddressOf(device, pk);
            var count := TextItem("Address", text, keyLen, valLen, 0).pageCount;
            DisplayedItem("Address", text, keyLen, valLen, count) == text <==> valLen >= 2
  {
    var text := AddressOf(device, pk);
    AddressPrintable(device, pk);
    DisplayedItemPages("Address", text, keyLen, valLen, PageCount(|text|, PageChars(valLen)));
    AllTextPagesShowEverything(text, PageChars(valLen));
  }
}
