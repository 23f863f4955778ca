/** The parsed view of the transaction buffer and the items shown for it. A C pointer into one of the two buffer tiers
    is a reference to the array together with a 16-bit length. */
module TxView {
  import opened Bytes
  import opened Buffering
  import opened Paging

  datatype ParserError =
    | ParserOk
    | ParserInitContextEmpty
    | ParserDisplayIdxOutOfRange
    | ParserUnexpectedNumberItems

  datatype ZxError = ZxOk | ZxUnknown | ZxNoData

  const NUM_ITEMS := 2

  function ErrorText(err: ParserError): string {
    match err
    case ParserOk => "No error"
    case ParserInitContextEmpty => "Initialized empty context"
    case ParserDisplayIdxOutOfRange => "display index out of range"
    case ParserUnexpectedNumberItems => "Unrecognized error code"
  }

  /** `snprintf` of a fixed string into `outLen` characters, terminator included. */
  function Print(text: string, outLen: uint16): string {
    if outLen == 0 then "" else text[..Min(|text|, outLen - 1)]
  }

  datatype Item = Item(key: string, value: string, pageCount: nat)

  /** What item `index` shows for a message: the fixed warning, then the message itself, page by page. */
  function ItemFor(message: seq<byte>, index: nat, outKeyLen: uint16, outValLen: uint16, pageIdx: nat): Item
    requires index < NUM_ITEMS
  {
    if index == 0 then Item(Print("Blind", outKeyLen), Print("Signing", outValLen), 1)
    else
      var perPage := PageBytes(outValLen);
      var count := PageCount(|message|, perPage);
      Item(Print("Txn", outKeyLen), Page(message, perPage, count, pageIdx), count)
  }

  /** An item that pages a text. */
  function TextItem(key: string, text: string, outKeyLen: uint16, outValLen: uint16, pageIdx: nat): Item {
    var count := PageCount(|text|, PageChars(outValLen));
    Item(Print(key, outKeyLen), TextPage(text, PageChars(outValLen), count, pageIdx), count)
  }

  /** Every item fits the output buffers, terminators included. The first item is the warning, on every display wide
      enough for it. */
  lemma ItemsFit(message: seq<byte>, index: nat, outKeyLen: uint16, outValLen: uint16, pageIdx: nat)
    requires index < NUM_ITEMS
    ensures var item := ItemFor(message, index, outKeyLen, outValLen, pageIdx);
            && |item.key| <= PageChars(outKeyLen) && |item.value| <= PageChars(outValLen)
            && (index == 0 && outKeyLen > 5 ==> item.key == "Blind")
            && (index == 0 && outValLen > 7 ==> item.value == "Signing" && item.pageCount == 1)
            && (index == 1 && outKeyLen > 3 ==> item.key == "Txn")
  {
    if outValLen > 0 {
      PageRoom(outValLen);
    }
    SliceFits(message, PageBytes(outValLen), pageIdx);
  }

  class View {
    // parser_context_t
    var buffer: array?<byte>
    var bufferLen: uint16
    var offset: uint16
    // parser_tx_t
    var ptr: array?<byte>
    var len: uint16

    /** The pointed-at memory covers the recorded length. */
    ghost predicate Valid()
      reads this
    {
      if ptr == null then len == 0 else len <= ptr.Length
    }

    /** The bytes the view points at, in the memory as it is now. */
    function Shown(): seq<byte>
      requires Valid()
      reads this, ptr
    {
      if ptr == null then [] else ptr[..len]
    }

    constructor ()
      ensures Valid() && ptr == null && Shown() == []
    {
      buffer, bufferLen, offset := null, 0, 0;
      ptr, len := null, 0;
    }

    method InitContext(data: array<byte>, size: uint16) returns (err: ParserError)
      modifies this`buffer, this`bufferLen, this`offset
      ensures offset == 0
      ensures err == if size == 0 then ParserInitContextEmpty else ParserOk
      ensures if size == 0 then buffer == null && bufferLen == 0 else buffer == data && bufferLen == size
    {
      offset, buffer, bufferLen := 0, null, 0;
      if size == 0 {
        return ParserInitContextEmpty;
      }
      buffer, bufferLen := data, size;
      return ParserOk;
    }

    /** The length arrives as `size_t` and is narrowed to 16 bits twice. */
    method Parse(data: array<byte>, dataLen: nat) returns (err: ParserError)
      requires Valid() && dataLen <= data.Length
      modifies this
      ensures Valid()
      ensures err == if ToUint16(dataLen) == 0 then ParserInitContextEmpty else ParserOk
      ensures if ToUint16(dataLen) == 0 then ptr == old(ptr) && len == old(len)
              else ptr == data && len == ToUint16(dataLen)
    {
      err := InitContext(data, ToUint16(dataLen));
      if err != ParserOk {
        return;
      }
      ptr, len := data, ToUint16(dataLen);
    }

    /** One displayed item, with the display index as the unsigned byte the parser receives. */
    method GetItem(displayIdx: byte, outKeyLen: uint16, outValLen: uint16, pageIdx: byte)
      returns (err: ParserError, item: Item)
      requires Valid()
      ensures err == if displayIdx < NUM_ITEMS then ParserOk else ParserDisplayIdxOutOfRange
      ensures err == ParserOk ==> item == ItemFor(Shown(), displayIdx, outKeyLen, outValLen, pageIdx)
    {
      item := Item("", "", 1);
      if displayIdx >= NUM_ITEMS {
        return ParserDisplayIdxOutOfRange, item;
      }
      item := Item(Print("?", outKeyLen), Print(" ", outValLen), 1);
      if displayIdx == 0 {
        item := Item(Print("Blind", outKeyLen), Print("Signing", outValLen), 1);
      } else {
        var perPage := PageBytes(outValLen);
        var shown := Shown();
        var count := PageCount(|shown|, perPage);
        item := Item(Print("Txn", outKeyLen), Page(shown, perPage, count, pageIdx), count);
      }
      return ParserOk, item;
    }

    /** Every announced item can be fetched. */
    method Validate() returns (err: ParserError)
      requires Valid()
      ensures err == ParserOk
    {
      for idx := 0 to NUM_ITEMS {
        var e, _ := GetItem(idx, 40, 40, 0);
        if e != ParserOk {
          return e;
        }
      }
      return ParserOk;
    }

    /** `tx_parse`: clear the view, point it at the transaction buffer, check the items. */
    method TxParse(tx: Buffer) returns (err: ParserError)
      requires Valid() && tx.Valid()
      modifies this
      ensures Valid()
      ensures err == if tx.Content() == [] then ParserInitContextEmpty else ParserOk
      ensures Shown() == tx.Content()
      ensures ptr == null || ptr == tx.ram || ptr == tx.flash
    {
      ptr, len := null, 0;
      if tx.ramInUse {
        err := Parse(tx.ram, tx.ramPos);
      } else {
        err := Parse(tx.flash, tx.flashPos);
      }
      if err != ParserOk {
        return;
      }
      err := Validate();
    }

    /** `tx_getItem`, whose display index is a signed byte. */
    method TxGetItem(displayIdx: int, outKeyLen: uint16, outValLen: uint16, pageIdx: byte)
      returns (err: ZxError, item: Item)
      requires Valid() && -128 <= displayIdx < 128
      ensures err == if 0 <= displayIdx < NUM_ITEMS then ZxOk else ZxNoData
      ensures err == ZxOk ==> item == ItemFor(Shown(), displayIdx, outKeyLen, outValLen, pageIdx)
    {
      if displayIdx > NUM_ITEMS {
        return ZxNoData, Item("", "", 0);
      }
      var e, i := GetItem(displayIdx % 256, outKeyLen, outValLen, pageIdx);
      item := i;
      if e == ParserDisplayIdxOutOfRange {
        return ZxNoData, item;
      }
      return ZxOk, item;
    }
  }
}
