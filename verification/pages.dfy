/**
 * Paginated scans of the job store. A scan is the sequence of responses the
 * store returns; each holds its items (an absent `Items` is an empty list) and,
 * when more remain, the key to resume from.
 */
module Pages {
  import opened Options
  import opened Json

  datatype Page = Page(items: seq<Item>, lastEvaluatedKey: Option<Item>)

  /**
   * The items a caller collects by requesting page after page while the last
   * response carries a `LastEvaluatedKey`. Should the store stop answering
   * before a key-less page, the collection stops there too.
   */
  function ScanItems(pages: seq<Page>): seq<Item>
    decreases |pages|
  {
    if |pages| == 0 then []
    else pages[0].items + (if pages[0].lastEvaluatedKey.Some? then ScanItems(pages[1..]) else [])
  }

  /** A complete scan: every response but the last carries a key, and the last carries none. */
  predicate WellFormed(pages: seq<Page>) {
    |pages| > 0
    && pages[|pages| - 1].lastEvaluatedKey.None?
    && forall i :: 0 <= i < |pages| - 1 ==> pages[i].lastEvaluatedKey.Some?
  }

  /** All items of all pages, in page order. */
  function Concat(pages: seq<Page>): seq<Item>
    decreases |pages|
  {
    if |pages| == 0 then [] else pages[0].items + Concat(pages[1..])
  }

  /** On a complete scan the collected items are exactly all pages' items in order. */
  lemma {:induction false} ScanItemsConcat(pages: seq<Page>)
    requires WellFormed(pages)
    ensures ScanItems(pages) == Concat(pages)
    decreases |pages|
  {
    if |pages| > 1 {
      assert WellFormed(pages[1..]) by {
        forall i | 0 <= i < |pages[1..]| - 1 ensures pages[1..][i].lastEvaluatedKey.Some? {
          assert pages[1..][i] == pages[i + 1];
        }
      }
      ScanItemsConcat(pages[1..]);
    }
  }

  /** Pages after the first key-less one are never requested. */
  lemma {:induction false} ScanItemsStops(pages: seq<Page>, i: nat)
    requires i < |pages| && pages[i].lastEvaluatedKey.None?
    ensures ScanItems(pages) == ScanItems(pages[..i + 1])
    decreases i
  {
    if i > 0 && pages[0].lastEvaluatedKey.Some? {
      assert pages[..i + 1][1..] == pages[1..][..i];
      ScanItemsStops(pages[1..], i - 1);
    }
  }

  /** What the source's loop leaves to collect after response `i`. */
  function Remaining(pages: seq<Page>, i: nat): seq<Item>
    requires i < |pages|
  {
    if pages[i].lastEvaluatedKey.Some? then ScanItems(pages[i + 1..]) else []
  }

  /** The source's pagination loop: start from the first response, extend while a key is returned. */
  method Scan(pages: seq<Page>) returns (items: seq<Item>)
    ensures items == ScanItems(pages)
  {
    if |pages| == 0 {
      return [];
    }
    items := pages[0].items;
    var i := 0;
    while pages[i].lastEvaluatedKey.Some? && i + 1 < |pages|
      invariant 0 <= i < |pages|
      invariant items + Remaining(pages, i) == ScanItems(pages)
      decreases |pages| - i
    {
      assert pages[i + 1..][1..] == pages[i + 2..];
      i := i + 1;
      items := items + pages[i].items;
    }
  }
}
