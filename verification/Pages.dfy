/**
 The encoded form of a directory page: entries end to end, each beginning with the distance to
 the next, and zero in the last.
 */
module Pages {
  import opened Bytes
  import opened Wrappers
  import opened Buffers
  import Listing
  import Utf16

  /** An entry encoded by itself; its first four bytes are the link, still unset. */
  type Item = b: seq<byte> | |b| >= 8 witness [0, 0, 0, 0, 0, 0, 0, 0]

  function Total(items: seq<Item>): nat {
    if items == [] then 0 else Total(items[..|items| - 1]) + |items[|items| - 1]|
  }

  function Linked(item: Item, next: nat): (r: seq<byte>)
    requires next < 0x1_0000_0000
    ensures |r| == |item|
  {
    PutLE32(next) + item[4..]
  }

  lemma {:induction false} TotalPrefix(items: seq<Item>, k: nat)
    requires k < |items|
    ensures Total(items[..k]) + |items[k]| == Total(items[..k + 1]) <= Total(items)
  {
    assert items[..k + 1][..k] == items[..k];
    if k + 1 == |items| {
      assert items[..k + 1] == items;
    } else {
      var init := items[..|items| - 1];
      TotalPrefix(init, k);
      assert init[..k] == items[..k] && init[..k + 1] == items[..k + 1];
    }
  }

  /** The link of entry `k`: the distance to the next, zero in the last. */
  function LinkOf(items: seq<Item>, k: nat): (n: nat)
    requires k < |items| && Total(items) < 0x1_0000_0000
    ensures n < 0x1_0000_0000
  {
    TotalPrefix(items, k);
    if k + 1 == |items| then 0 else |items[k]|
  }

  /** The first `k` entries of the page, each linked to the one after it. */
  function PageBytes(items: seq<Item>, k: nat): (r: seq<byte>)
    requires k <= |items| && Total(items) < 0x1_0000_0000
    ensures |r| == Total(items[..k])
  {
    if k == 0 then []
    else
      TotalPrefix(items, k - 1);
      PageBytes(items, k - 1) + Linked(items[k - 1], LinkOf(items, k - 1))
  }

  /** The response's `Encode`: fills the buffer with the linked page. */
  method Encode(items: seq<Item>, pkt: array<byte>)
    requires pkt.Length == Total(items) < 0x1_0000_0000
    modifies pkt
    ensures pkt[..] == PageBytes(items, |items|)
  {
    hide Overlay;
    var off := 0;
    OverlayNothing(pkt[..], 0);
    for n := 0 to |items|
      invariant off == Total(items[..n]) <= pkt.Length
      invariant pkt[..] == Overlay(old(pkt[..]), 0, PageBytes(items, n))
    {
      TotalPrefix(items, n);
      var next := if n != |items| - 1 then |items[n]| else 0;
      ghost var done := PageBytes(items, n);
      OverlayJoin(old(pkt[..]), 0, done, items[n]);
      Copy(pkt, off, items[n]);
      Copy(pkt, off, PutLE32(next));
      OverlayHead(old(pkt[..]), done, items[n], PutLE32(next));
      off := off + |items[n]|;
    }
    assert items[..|items|] == items;
    OverlayAll(old(pkt[..]), PageBytes(items, |items|));
  }

  /** A put over the start of the last write replaces that part of it. */
  lemma OverlayHead(buf: seq<byte>, done: seq<byte>, item: seq<byte>, head: seq<byte>)
    requires |done| + |item| <= |buf| && |head| <= |item|
    ensures Overlay(Overlay(buf, 0, done + item), |done|, head) ==
            Overlay(buf, 0, done + (head + item[|head|..]))
  {}

  /** A client's walk: entry starts from `off`, following links until a zero. */
  function Walk(buf: seq<byte>, off: nat): seq<nat>
    decreases |buf| - off
  {
    if off + 4 > |buf| then []
    else
      var next := GetLE32(buf[off..off + 4]);
      [off] + if next == 0 then [] else Walk(buf, off + next)
  }

  /** Where the entries from `k` on start. */
  function Starts(items: seq<Item>, k: nat): seq<nat>
    requires k <= |items|
    decreases |items| - k
  {
    if k == |items| then [] else [Total(items[..k])] + Starts(items, k + 1)
  }

  lemma {:induction false} PageAt(items: seq<Item>, n: nat, k: nat)
    requires k < n <= |items| && Total(items) < 0x1_0000_0000
    ensures Total(items[..k]) + |items[k]| <= |PageBytes(items, n)|
    ensures PageBytes(items, n)[Total(items[..k])..Total(items[..k]) + |items[k]|] ==
            Linked(items[k], LinkOf(items, k))
  {
    hide Linked;
    hide Total;
    TotalPrefix(items, k);
    TotalPrefix(items, n - 1);
    var lo, hi := Total(items[..k]), Total(items[..k]) + |items[k]|;
    if k < n - 1 {
      PageAt(items, n - 1, k);
      assert PageBytes(items, n)[lo..hi] == PageBytes(items, n - 1)[lo..hi];
    }
  }

  lemma LinkAt(items: seq<Item>, k: nat)
    requires k < |items| && Total(items) < 0x1_0000_0000
    ensures var page, lo := PageBytes(items, |items|), Total(items[..k]);
            lo + 4 <= |page| && GetLE32(page[lo..lo + 4]) == LinkOf(items, k)
  {
    var page, lo := PageBytes(items, |items|), Total(items[..k]);
    PageAt(items, |items|, k);
    assert page[lo..lo + 4] == page[lo..lo + |items[k]|][..4] == PutLE32(LinkOf(items, k));
    LE32RoundTrip(LinkOf(items, k));
  }

  /** Walking the links of an encoded page visits exactly the entry starts, and ends at a zero
      link in the last entry. */
  lemma {:induction false} WalkVisitsEntries(items: seq<Item>, k: nat)
    requires k < |items| && Total(items) < 0x1_0000_0000
    ensures Walk(PageBytes(items, |items|), Total(items[..k])) == Starts(items, k)
    decreases |items| - k
  {
    hide PageBytes;
    hide GetLE32;
    hide Total;
    LinkAt(items, k);
    TotalPrefix(items, k);
    if k + 1 < |items| {
      WalkVisitsEntries(items, k + 1);
    }
  }

  /** And the bytes between consecutive starts are the entries themselves, links set. */
  lemma WalkRecoversEntries(items: seq<Item>, k: nat)
    requires k < |items| && Total(items) < 0x1_0000_0000
    ensures Total(items[..k]) + |items[k]| <= |PageBytes(items, |items|)|
    ensures PageBytes(items, |items|)[Total(items[..k]) + 4..Total(items[..k]) + |items[k]|] == items[k][4..]
  {
    PageAt(items, |items|, k);
    var page, lo := PageBytes(items, |items|), Total(items[..k]);
    assert page[lo + 4..lo + |items[k]|] == page[lo..lo + |items[k]|][4..];
  }

  /** When every entry encodes to its computed size, the page is as long as the pager computed. */
  lemma {:induction false} PageLength(c: Listing.InfoClass, es: seq<Listing.Entry>, items: seq<Item>)
    requires |items| == |es| && forall k :: 0 <= k < |es| ==> |items[k]| == Listing.ItemSize(c, es[k])
    ensures Total(items) == Listing.PageSize(c, es)
  {
    if es != [] {
      PageLength(c, es[..|es| - 1], items[..|items| - 1]);
    }
  }

  // ----- The names on a page -----

  /** Where an entry keeps the length of its name. */
  function NameLengthAt(c: Listing.InfoClass): (at: nat)
    ensures 4 <= at && at + 4 <= Listing.FixedPart(c)
  {
    match c
    case Names => 8
    case PosixInfo => 128
    case _ => 60
  }

  /** An entry: its fixed part with the length of the name in its field, the name, and zeros up to the
      computed size. */
  function EntryBytes(c: Listing.InfoClass, head: seq<byte>, e: Listing.Entry): (item: Item)
    requires |head| == Listing.FixedPart(c) && |Utf16.EncodeBytes(e.name)| < 0x1_0000_0000
    ensures |item| == Listing.ItemSize(c, e)
  {
    var name := Utf16.EncodeBytes(e.name);
    Listing.ItemFits(c, e);
    Overlay(head, NameLengthAt(c), PutLE32(|name|)) + name + Zeros(Listing.ItemSize(c, e) - |head| - |name|)
  }

  /** The name a client reads from the entry that starts at `off`. */
  function NameAt(c: Listing.InfoClass, buf: seq<byte>, off: nat): Option<Utf16.Text> {
    var at := off + NameLengthAt(c);
    if at + 4 > |buf| then None
    else
      var from, n := off + Listing.FixedPart(c), GetLE32(buf[at..at + 4]);
      if from + n > |buf| then None else Some(Utf16.DecodeBytes(buf[from..from + n]))
  }

  lemma EntryHolds(c: Listing.InfoClass, head: seq<byte>, e: Listing.Entry)
    requires |head| == Listing.FixedPart(c) && |Utf16.EncodeBytes(e.name)| < 0x1_0000_0000
    ensures var item, at, name := EntryBytes(c, head, e), NameLengthAt(c), Utf16.EncodeBytes(e.name);
            && item[at..at + 4] == PutLE32(|name|)
            && |head| + |name| <= |item| && item[|head|..|head| + |name|] == name
  {
    hide Utf16.EncodeBytes;
    hide Listing.ItemSize;
    hide PutLE32;
  }

  lemma SliceFrom(buf: seq<byte>, lo: nat, hi: nat, item: seq<byte>, from: nat, to: nat)
    requires lo <= hi <= |buf| && |item| == hi - lo && 4 <= from <= to <= |item|
    requires buf[lo + 4..hi] == item[4..]
    ensures buf[lo + from..lo + to] == item[from..to]
  {
    var x, y := buf[lo + from..lo + to], item[from..to];
    forall k | 0 <= k < to - from
      ensures x[k] == y[k]
    {
      assert buf[lo + 4..hi][from + k - 4] == item[4..][from + k - 4];
    }
  }

  lemma EntryReads(c: Listing.InfoClass, page: seq<byte>, lo: nat, head: seq<byte>, e: Listing.Entry, item: Item)
    requires |head| == Listing.FixedPart(c) && |Utf16.EncodeBytes(e.name)| < 0x1_0000_0000
    requires item == EntryBytes(c, head, e) && lo + |item| <= |page| && page[lo + 4..lo + |item|] == item[4..]
    requires e.name != [] && e.name[|e.name| - 1] != 0
    ensures NameAt(c, page, lo) == Some(e.name)
  {
    hide Utf16.EncodeBytes;
    hide Utf16.DecodeBytes;
    hide EntryBytes;
    hide PutLE32;
    hide GetLE32;
    hide Listing.FixedPart;
    hide Listing.ItemSize;
    hide NameLengthAt;
    var at, fixed, n := NameLengthAt(c), Listing.FixedPart(c), |Utf16.EncodeBytes(e.name)|;
    EntryHolds(c, head, e);
    SliceFrom(page, lo, lo + |item|, item, at, at + 4);
    SliceFrom(page, lo, lo + |item|, item, fixed, fixed + n);
    LE32RoundTrip(n);
    Utf16.RoundTripIff(e.name);
  }

  /** A page of entries reads back: at the start of entry `k` a client finds its name. */
  lemma NameReadsBack(c: Listing.InfoClass, heads: seq<seq<byte>>, es: seq<Listing.Entry>, items: seq<Item>, k: nat)
    requires |heads| == |es| == |items| && k < |es| && Total(items) < 0x1_0000_0000
    requires forall j :: 0 <= j < |es| ==> |heads[j]| == Listing.FixedPart(c)
    requires forall j :: 0 <= j < |es| ==> |Utf16.EncodeBytes(es[j].name)| < 0x1_0000_0000
    requires forall j :: 0 <= j < |es| ==> items[j] == EntryBytes(c, heads[j], es[j])
    requires es[k].name != [] && es[k].name[|es[k].name| - 1] != 0
    ensures NameAt(c, PageBytes(items, |items|), Total(items[..k])) == Some(es[k].name)
  {
    hide Utf16.EncodeBytes;
    hide EntryBytes;
    hide PageBytes;
    hide NameAt;
    hide Total;
    hide Listing.FixedPart;
    hide Listing.ItemSize;
    WalkRecoversEntries(items, k);
    EntryReads(c, PageBytes(items, |items|), Total(items[..k]), heads[k], es[k], items[k]);
  }

  lemma {:induction false} StartAt(items: seq<Item>, i: nat, k: nat)
    requires i <= k < |items|
    ensures |Starts(items, i)| == |items| - i && Starts(items, i)[k - i] == Total(items[..k])
    decreases |items| - i
  {
    hide Total;
    if i + 1 < |items| {
      StartAt(items, i + 1, if i < k then k else i + 1);
    }
  }

  /** So a client that follows the links finds the names of the entries on the page, in order. */
  lemma WalkReadsNames(c: Listing.InfoClass, heads: seq<seq<byte>>, es: seq<Listing.Entry>, items: seq<Item>, k: nat)
    requires |heads| == |es| == |items| && k < |es| && Total(items) < 0x1_0000_0000
    requires forall j :: 0 <= j < |es| ==> |heads[j]| == Listing.FixedPart(c)
    requires forall j :: 0 <= j < |es| ==> |Utf16.EncodeBytes(es[j].name)| < 0x1_0000_0000
    requires forall j :: 0 <= j < |es| ==> items[j] == EntryBytes(c, heads[j], es[j])
    requires es[k].name != [] && es[k].name[|es[k].name| - 1] != 0
    ensures var page := PageBytes(items, |items|);
            && |page| == Listing.PageSize(c, es) && |Walk(page, 0)| == |es|
            && NameAt(c, page, Walk(page, 0)[k]) == Some(es[k].name)
  {
    hide Utf16.EncodeBytes;
    hide NameAt;
    hide Walk;
    WalkVisitsEntries(items, 0);
    assert items[..0] == [] && items[..|items|] == items;
    StartAt(items, 0, k);
    NameReadsBack(c, heads, es, items, k);
    PageLength(c, es, items);
  }
}
