/** The transaction buffer: RAM first, flash once a chunk no longer fits. The buffering library itself is not part
    of the modelled sources; its two-tier, all-or-nothing append is written out here as an assumption. */
module Buffering {
  import opened Bytes

  datatype Target = NanoS | NanoXFamily

  function RamSize(target: Target): nat {
    if target.NanoS? then 256 else 8192
  }

  function FlashSize(target: Target): (n: nat)
    ensures RamSize(target) <= n < 0x1_0000
  {
    if target.NanoS? then 8192 else 16384
  }

  /** The simple form: a byte string of bounded length that takes a chunk whole or not at all. */
  function Appended(content: seq<byte>, chunk: seq<byte>, limit: nat): seq<byte> {
    if |content| + |chunk| <= limit then content + chunk else content
  }

  function AppendAll(content: seq<byte>, chunks: seq<seq<byte>>, limit: nat): seq<byte>
    decreases |chunks|
  {
    if chunks == [] then content else AppendAll(Appended(content, chunks[0], limit), chunks[1..], limit)
  }

  function Concat(chunks: seq<seq<byte>>): seq<byte> {
    if chunks == [] then [] else chunks[0] + Concat(chunks[1..])
  }

  /** Whatever the chunk boundaries, a message is kept whole exactly when its total length is within the limit. */
  lemma {:induction false} KeptWholeIff(content: seq<byte>, chunks: seq<seq<byte>>, limit: nat)
    requires |content| <= limit
    ensures |AppendAll(content, chunks, limit)| <= limit
    ensures AppendAll(content, chunks, limit) == content + Concat(chunks) <==>
            |content| + |Concat(chunks)| <= limit
    decreases |chunks|
  {
    if chunks == [] {
      assert content + [] == content;
    } else {
      var next := Appended(content, chunks[0], limit);
      KeptWholeIff(next, chunks[1..], limit);
      if |content| + |chunks[0]| <= limit {
        assert next + Concat(chunks[1..]) == content + Concat(chunks);
      } else {
        var kept := AppendAll(next, chunks[1..], limit);
        assert |kept| <= limit < |content + Concat(chunks)|;
      }
    }
  }

  class Buffer {
    const target: Target
    const ram: array<byte>
    const flash: array<byte>
    var ramInUse: bool
    var ramPos: nat
    var flashPos: nat

    ghost predicate Valid()
      reads this
    {
      && ram != flash
      && ram.Length == RamSize(target)
      && flash.Length == FlashSize(target)
      && ramPos <= ram.Length
      && flashPos <= flash.Length
      && (ramInUse ==> flashPos == 0)
    }

    /** The bytes that `buffering_get_buffer` points at. */
    function Content(): (r: seq<byte>)
      requires Valid()
      reads this, ram, flash
      ensures |r| <= FlashSize(target)
    {
      if ramInUse then ram[..ramPos] else flash[..flashPos]
    }

    /** Static storage: neither tier is in use before the first initialisation. */
    constructor (target: Target)
      ensures Valid() && fresh(ram) && fresh(flash) && this.target == target
      ensures Content() == []
    {
      this.target := target;
      ram := new byte[RamSize(target)](_ => 0);
      flash := new byte[FlashSize(target)](_ => 0);
      ramInUse, ramPos, flashPos := false, 0, 0;
    }

    /** `tx_initialize` then `tx_reset`: RAM in use, both tiers empty. */
    method Reset()
      requires Valid()
      modifies this
      ensures Valid() && Content() == [] && ramInUse
    {
      ramPos, ramInUse := 0, true;
      flashPos := 0;
    }

    /** Switches to flash and carries over what RAM holds. */
    method Migrate()
      requires Valid() && ramInUse
      modifies this`ramInUse, this`flashPos, flash
      ensures Valid() && !ramInUse && Content() == old(Content())
    {
      ramInUse := false;
      if ramPos > 0 {
        Copy(ram, 0, flash, flashPos, ramPos);
        flashPos := flashPos + ramPos;
      }
    }

    /** Appends a chunk and returns how many bytes were taken. */
    method Append(data: array<byte>, offset: nat, length: nat) returns (added: nat)
      requires Valid() && offset + length <= data.Length && data != ram && data != flash
      modifies this, ram, flash
      ensures Valid()
      ensures var chunk := old(data[offset..offset + length]);
              && Content() == Appended(old(Content()), chunk, FlashSize(target))
              && added == if |old(Content())| + length <= FlashSize(target) then length else 0
      ensures data[..] == old(data[..])
    {
      if ramInUse {
        if length <= ram.Length - ramPos {
          Copy(data, offset, ram, ramPos, length);
          ramPos := ramPos + length;
          return length;
        }
        Migrate();
      }
      if length <= flash.Length - flashPos {
        Copy(data, offset, flash, flashPos, length);
        flashPos := flashPos + length;
        return length;
      }
      return 0;
    }
  }

  /** `memcpy` between two different arrays. */
  method Copy(src: array<byte>, from: nat, dst: array<byte>, to: nat, length: nat)
    requires src != dst && from + length <= src.Length && to + length <= dst.Length
    modifies dst
    ensures dst[..] == old(dst[..to] + src[from..from + length] + dst[to + length..])
  {
    forall i | 0 <= i < length {
      dst[to + i] := src[from + i];
    }
  }
}
