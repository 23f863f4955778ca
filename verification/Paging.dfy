/** Paging of a text, and of a byte string as hexadecimal text. The formatting library is not part of the modelled
    sources; its paging is written out here as an assumption: pages of as many characters, or whole bytes, as fit before
    the terminator, the last one possibly shorter, and a page count that is stored in one byte. */
module Paging {
  import opened Bytes

  function HexDigit(n: nat): char
    requires n < 16
  {
    "0123456789abcdef"[n]
  }

  /** Two digits per byte, high nibble first. */
  function Hex(data: seq<byte>): (r: string)
    ensures |r| == 2 * |data|
  {
    seq(2 * |data|, i requires 0 <= i < 2 * |data| => HexDigitAt(data, i))
  }

  function HexDigitAt(data: seq<byte>, i: nat): char
    requires i < 2 * |data|
  {
    HexDigit(if i % 2 == 0 then data[i / 2] / 16 else data[i / 2] % 16)
  }

  /** Whole bytes per page for an output buffer of `outLen` characters, terminator included. */
  function PageBytes(outLen: uint16): nat {
    if outLen == 0 then 0 else (outLen - 1) / 2
  }

  /** Characters per page for the same buffer. */
  function PageChars(outLen: uint16): nat {
    if outLen == 0 then 0 else outLen - 1
  }

  function PageTotal(length: nat, perPage: nat): nat
    requires perPage > 0
  {
    (length + perPage - 1) / perPage
  }

  /** A page uses all the room before the terminator that whole bytes, or characters, can use. */
  lemma PageRoom(outLen: uint16)
    requires outLen > 0
    ensures 2 * PageBytes(outLen) <= outLen - 1 < 2 * PageBytes(outLen) + 2 && PageChars(outLen) == outLen - 1
  {
  }

  lemma SliceFits<T>(data: seq<T>, perPage: nat, index: nat)
    ensures |Slice(data, perPage, index)| <= perPage
  {
  }

  /** The page count as the `uint8_t` out-parameter reports it. */
  function PageCount(length: nat, perPage: nat): (r: nat)
    ensures r < 256
  {
    if perPage == 0 then 0 else PageTotal(length, perPage) % 256
  }

  function Min(a: nat, b: nat): nat {
    if a < b then a else b
  }

  /** One page, empty beyond the announced count. */
  function Page(data: seq<byte>, perPage: nat, count: nat, index: nat): string {
    if index < count then Hex(Slice(data, perPage, index)) else ""
  }

  /** Where page `index` starts, not beyond the end of the data. */
  function Offset(length: nat, perPage: nat, index: nat): (r: nat)
    ensures r <= length
    decreases index
  {
    if index == 0 then 0 else Min(Offset(length, perPage, index - 1) + perPage, length)
  }

  function Slice<T>(data: seq<T>, perPage: nat, index: nat): seq<T> {
    data[Offset(|data|, perPage, index)..Offset(|data|, perPage, index + 1)]
  }

  /** The first `n` slices, joined. */
  function Slices<T>(data: seq<T>, perPage: nat, n: nat): seq<T>
    decreases n
  {
    if n == 0 then [] else Slices(data, perPage, n - 1) + Slice(data, perPage, n - 1)
  }

  lemma {:induction false} SlicesArePrefix<T>(data: seq<T>, perPage: nat, n: nat)
    ensures Slices(data, perPage, n) == data[..Offset(|data|, perPage, n)]
  {
    if n > 0 {
      SlicesArePrefix(data, perPage, n - 1);
    }
  }

  /** The text of the first `n` of `count` pages. */
  function Pages(data: seq<byte>, perPage: nat, count: nat, n: nat): string
    decreases n
  {
    if n == 0 then "" else Pages(data, perPage, count, n - 1) + Page(data, perPage, count, n - 1)
  }

  /** The value of a hexadecimal digit, by the order of the character code. */
  function DigitValue(c: char): int {
    if '0' <= c <= '9' then c as int - '0' as int
    else if 'a' <= c <= 'f' then c as int - 'a' as int + 10
    else -1
  }

  lemma DigitReadsBack(n: nat)
    requires n < 16
    ensures DigitValue(HexDigit(n)) == n
  {
  }

  /** Each pair of digits is the byte at its place. */
  lemma HexReadsBack(data: seq<byte>, i: nat)
    requires i < |data|
    ensures 16 * DigitValue(Hex(data)[2 * i]) + DigitValue(Hex(data)[2 * i + 1]) == data[i]
  {
    DigitReadsBack(data[i] / 16);
    DigitReadsBack(data[i] % 16);
    assert (2 * i + 1) / 2 == i && (2 * i + 1) % 2 == 1;
  }

  /** The hexadecimal text determines the bytes. */
  lemma HexDetermines(a: seq<byte>, b: seq<byte>)
    ensures Hex(a) == Hex(b) <==> a == b
  {
    if Hex(a) == Hex(b) {
      assert |a| == |b|;
      forall i | 0 <= i < |a|
        ensures a[i] == b[i]
      {
        HexReadsBack(a, i);
        HexReadsBack(b, i);
      }
    }
  }

  lemma HexConcat(a: seq<byte>, b: seq<byte>)
    ensures Hex(a + b) == Hex(a) + Hex(b)
  {
    forall i | 0 <= i < 2 * |a + b|
      ensures Hex(a + b)[i] == (Hex(a) + Hex(b))[i]
    {
      if i >= 2 * |a| {
        assert i / 2 - |a| == (i - 2 * |a|) / 2;
        assert (a + b)[i / 2] == b[(i - 2 * |a|) / 2];
      } else {
        assert (a + b)[i / 2] == a[i / 2];
      }
    }
  }

  lemma {:induction false} PagesAreHex(data: seq<byte>, perPage: nat, count: nat, n: nat)
    requires n <= count
    ensures Pages(data, perPage, count, n) == Hex(Slices(data, perPage, n))
  {
    if n > 0 {
      PagesAreHex(data, perPage, count, n - 1);
      HexConcat(Slices(data, perPage, n - 1), Slice(data, perPage, n - 1));
    }
  }

  lemma {:induction false} OffsetIsProduct(length: nat, perPage: nat, index: nat)
    ensures Offset(length, perPage, index) == Min(index * perPage, length)
  {
    if index > 0 {
      OffsetIsProduct(length, perPage, index - 1);
      assert index * perPage == (index - 1) * perPage + perPage;
    }
  }

  /** Paging through everything the page count announces shows the whole byte string exactly when it fits in 255
      pages: from the 256th page on, the count wraps and the tail is never shown. */
  lemma AllPagesShowEverything(data: seq<byte>, perPage: nat)
    ensures var count := PageCount(|data|, perPage);
            Pages(data, perPage, count, count) == Hex(data) <==> |data| <= 255 * perPage
  {
    var count := PageCount(|data|, perPage);
    PagesAreHex(data, perPage, count, count);
    SlicesArePrefix(data, perPage, count);
    OffsetIsProduct(|data|, perPage, count);
    CountCoversIff(|data|, perPage);
    assert data[..|data|] == data;
  }

  /** The announced pages reach the end of the data exactly when the count did not wrap. */
  lemma CountCoversIff(length: nat, perPage: nat)
    ensures PageCount(length, perPage) * perPage >= length <==> length <= 255 * perPage
  {
    if perPage > 0 {
      WrappedCountCovers(length, perPage);
    }
  }

  lemma WrappedCountCovers(length: nat, perPage: nat)
    requires perPage > 0
    ensures PageCount(length, perPage) * perPage >= length <==> length <= 255 * perPage
  {
    var total, count := PageTotal(length, perPage), PageCount(length, perPage);
    TotalBounds(length, perPage);
    if length <= 255 * perPage {
      TotalAtMost(length, perPage, 255);
    } else {
      TotalAtLeast(length, perPage, 255);
      ProductMonotone(count, 255, perPage);
    }
  }

  lemma TotalBounds(length: nat, perPage: nat)
    requires perPage > 0
    ensures var total := PageTotal(length, perPage); total * perPage - perPage < length || length == 0
    ensures length <= PageTotal(length, perPage) * perPage
  {
    var n := length + perPage - 1;
    assert n == n / perPage * perPage + n % perPage;
  }

  lemma ProductMonotone(a: nat, b: nat, k: nat)
    requires a <= b
    ensures a * k <= b * k
  {
  }

  lemma TotalAtMost(length: nat, perPage: nat, k: nat)
    requires perPage > 0 && length <= k * perPage
    ensures PageTotal(length, perPage) <= k
  {
    TotalBounds(length, perPage);
    var total := PageTotal(length, perPage);
    assert (k + 1) * perPage == k * perPage + perPage;
    if total > k {
      ProductMonotone(k + 1, total, perPage);
    }
  }

  lemma TotalAtLeast(length: nat, perPage: nat, k: nat)
    requires perPage > 0 && length > k * perPage
    ensures PageTotal(length, perPage) > k
  {
    TotalBounds(length, perPage);
    var total := PageTotal(length, perPage);
    if total <= k {
      ProductMonotone(total, k, perPage);
    }
  }

  // ---------- Plain text ----------

  function TextPage(text: string, perPage: nat, count: nat, index: nat): string {
    if index < count then Slice(text, perPage, index) else ""
  }

  /** The first `n` of `count` pages of a text. */
  function TextPages(text: string, perPage: nat, count: nat, n: nat): string
    decreases n
  {
    if n == 0 then "" else TextPages(text, perPage, count, n - 1) + TextPage(text, perPage, count, n - 1)
  }

  lemma {:induction false} TextPagesAreSlices(text: string, perPage: nat, count: nat, n: nat)
    requires n <= count
    ensures TextPages(text, perPage, count, n) == Slices(text, perPage, n)
  {
    if n > 0 {
      TextPagesAreSlices(text, perPage, count, n - 1);
    }
  }

  /** The announced pages of a text are the whole text exactly when it fits in 255 of them. */
  lemma AllTextPagesShowEverything(text: string, perPage: nat)
    ensures var count := PageCount(|text|, perPage);
            TextPages(text, perPage, count, count) == text <==> |text| <= 255 * perPage
  {
    var count := PageCount(|text|, perPage);
    TextPagesAreSlices(text, perPage, count, count);
    SlicesArePrefix(text, perPage, count);
    OffsetIsProduct(|text|, perPage, count);
    CountCoversIff(|text|, perPage);
  }
}
