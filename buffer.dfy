/** The page frame of the buffer layer: a fixed 4096-byte buffer together with
    the page identity, the pin count and the dirty flag. */
module Buffer {
  import opened Ints

  type PageId = u32

  /** Identifier 0 is reserved and never names a real page. */
  const INVALID_PAGE_ID: PageId := 0
  const BUSTUBX_PAGE_SIZE: nat := 4096

  /** The value of a page, field by field: what a copy of a `Page` holds. */
  datatype PageState = PageState(pageId: PageId, data: seq<u8>, pinCount: u32, isDirty: bool)

  /** A page buffer of zero bytes. */
  function ZeroData(): (d: seq<u8>)
    ensures |d| == BUSTUBX_PAGE_SIZE
    ensures forall i :: 0 <= i < |d| ==> d[i] == 0
  {
    seq(BUSTUBX_PAGE_SIZE, _ => 0)
  }

  /** The state of a freshly made page with identity `id`: zeroed content,
      no pins, clean. */
  function Initial(id: PageId): PageState
  {
    PageState(id, ZeroData(), 0, false)
  }

  class Page {
    var pageId: PageId
    var data: array<u8>
    var pinCount: u32
    var isDirty: bool

    /** The buffer always holds exactly one page's worth of bytes. */
    ghost predicate Valid()
      reads this
    {
      data.Length == BUSTUBX_PAGE_SIZE
    }

    ghost function State(): PageState
      reads this, data
    {
      PageState(pageId, data[..], pinCount, isDirty)
    }

    /** `Page::new`: a page with the given identity and nothing else set. */
    constructor New(pageId: PageId)
      ensures Valid() && fresh(data)
      ensures State() == Initial(pageId)
    {
      this.pageId := pageId;
      data := new u8[BUSTUBX_PAGE_SIZE](_ => 0);
      pinCount := 0;
      isDirty := false;
    }

    /** `Page::empty`: a new page carrying the invalid identifier. */
    constructor Empty()
      ensures Valid() && fresh(data)
      ensures State() == Initial(INVALID_PAGE_ID)
      ensures pageId == 0
    {
      pageId := INVALID_PAGE_ID;
      data := new u8[BUSTUBX_PAGE_SIZE](_ => 0);
      pinCount := 0;
      isDirty := false;
    }

    /** `destroy`: overwrites every field in place so the page is, field for
        field, an empty page. Zero is written literally for the identifier;
        it is the invalid identifier. The result does not depend on the old
        state, so destroying twice is destroying once (see DestroyTwice). */
    method Destroy()
      requires Valid()
      modifies this, data
      ensures Valid() && data == old(data)
      ensures State() == Initial(INVALID_PAGE_ID)
    {
      pageId := 0;
      forall i | 0 <= i < data.Length {
        data[i] := 0;
      }
      pinCount := 0;
      isDirty := false;
    }

    /** `replace`: copies all four fields of `other` into this page; the
        buffer is copied byte for byte into this page's own array. `other`
        is left as it was, even when it is this page or shares its array. */
    method Replace(other: Page)
      requires Valid() && other.Valid()
      modifies this, data
      ensures Valid() && data == old(data)
      ensures State() == old(other.State())
      ensures other.State() == old(other.State())
    {
      pageId := other.pageId;
      forall i | 0 <= i < data.Length {
        data[i] := other.data[i];
      }
      pinCount := other.pinCount;
      isDirty := other.isDirty;
    }
  }

  /** Destroying a page a second time leaves the state the first left. */
  method DestroyTwice(p: Page) returns (ghost once: PageState)
    requires p.Valid()
    modifies p, p.data
    ensures p.Valid() && once == Initial(INVALID_PAGE_ID)
    ensures p.State() == once
  {
    p.Destroy();
    once := p.State();
    p.Destroy();
  }
}
