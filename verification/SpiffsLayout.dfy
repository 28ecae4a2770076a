/** Where SPIFFS puts things: pages in the flash, and data pages in the pages of an object index. */
module SpiffsLayout {
  import opened Arith

  /** SPIFFS_PADDR_TO_PAGE */
  function PageOf(addr: nat, size: nat): nat
    requires size > 0
  {
    addr / size
  }

  /** SPIFFS_PADDR_TO_PAGE_OFFSET */
  function OffsetOf(addr: nat, size: nat): (r: nat)
    requires size > 0
    ensures r < size
  {
    addr % size
  }

  /** SPIFFS_OBJ_IX_ENTRY_SPAN_IX: which page of the object index a data page is in. */
  function IxSpan(dataSpix: nat, hdrIxLen: nat, ixLen: nat): nat
    requires ixLen > 0
  {
    if dataSpix < hdrIxLen then 0 else 1 + (dataSpix - hdrIxLen) / ixLen
  }

  lemma IxSpanMonotone(a: nat, b: nat, hdrIxLen: nat, ixLen: nat)
    requires a <= b && ixLen > 0
    ensures IxSpan(a, hdrIxLen, ixLen) <= IxSpan(b, hdrIxLen, ixLen)
  {
    if hdrIxLen <= a {
      DivMonotone(a - hdrIxLen, b - hdrIxLen, ixLen);
    }
  }

  /** SPIFFS_OBJ_IX_ENTRY: the entry of a data page in its page of the object index. */
  function IxEntry(dataSpix: nat, hdrIxLen: nat, ixLen: nat): (r: nat)
    requires ixLen > 0
    ensures r < if IxSpan(dataSpix, hdrIxLen, ixLen) == 0 then hdrIxLen else ixLen
  {
    if dataSpix < hdrIxLen then dataSpix else (dataSpix - hdrIxLen) % ixLen
  }

  /** Page and entry of the object index determine the data page. */
  lemma IxPlaceUnique(a: nat, b: nat, hdrIxLen: nat, ixLen: nat)
    requires ixLen > 0 && IxSpan(a, hdrIxLen, ixLen) == IxSpan(b, hdrIxLen, ixLen)
    requires IxEntry(a, hdrIxLen, ixLen) == IxEntry(b, hdrIxLen, ixLen)
    ensures a == b
  {
    if hdrIxLen <= a && hdrIxLen <= b {
      var q, r := (a - hdrIxLen) / ixLen, (a - hdrIxLen) % ixLen;
      assert a - hdrIxLen == q * ixLen + r;
      assert b - hdrIxLen == q * ixLen + r;
    }
  }
}
