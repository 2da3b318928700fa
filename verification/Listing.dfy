/**
 Directory enumeration: a chunked stream that starts with "." and "..", and a pager that keeps
 what did not fit for the next query. Entries carry a name and whether their attributes could
 still be read; the wildcard match is passed in.
 */
module Listing {
  import opened Bytes
  import opened Wrappers
  import Utf16

  datatype Entry = Entry(name: Utf16.Text, readable: bool)

  datatype InfoClass =
    | BothDirectory | Names | IdBothDirectory | Directory | FullDirectory | IdFullDirectory
    | IdAllExtdBothDirectory | PosixInfo

  datatype Status = Success | NoMoreFiles | BufferTooSmall | NoSuchFile | AccessDenied

  datatype Chunk = Entries(entries: seq<Entry>) | Eof | ReadError

  type Pattern = Utf16.Text -> bool

  function Min(a: nat, b: nat): nat {
    if a < b then a else b
  }

  const DOT := Entry([0x2E], true)
  const DOTDOT := Entry([0x2E, 0x2E], true)
  const READ_BATCH := 128

  /** Bytes before the name in each information class; a POSIX entry holds two three-part SIDs. */
  function FixedPart(c: InfoClass): nat {
    match c
    case BothDirectory => 94
    case Names => 12
    case IdBothDirectory => 104
    case Directory => 64
    case FullDirectory => 68
    case IdFullDirectory => 80
    case IdAllExtdBothDirectory => 122
    case PosixInfo => 8 + 80 + 20 + 20 + 4
  }

  /** The encoded size of an entry, a multiple of eight. */
  function ItemSize(c: InfoClass, e: Entry): (n: nat)
    ensures n > 0 && n % 8 == 0
  {
    Align(FixedPart(c) + |Utf16.EncodeBytes(e.name)|, 8)
  }

  /** It holds the fixed part and the name, with less than eight bytes behind them. */
  lemma ItemFits(c: InfoClass, e: Entry)
    ensures var n := FixedPart(c) + |Utf16.EncodeBytes(e.name)|;
            n <= ItemSize(c, e) < n + 8
  {}

  function PageSize(c: InfoClass, items: seq<Entry>): nat {
    if items == [] then 0 else PageSize(c, items[..|items| - 1]) + ItemSize(c, items[|items| - 1])
  }

  /** The entries the pattern selects, in order. */
  function Matching(m: Pattern, es: seq<Entry>): seq<Entry> {
    if es == [] then []
    else (if m(es[0].name) then [es[0]] else []) + Matching(m, es[1..])
  }

  lemma {:induction false} MatchingConcat(m: Pattern, es: seq<Entry>, fs: seq<Entry>)
    ensures Matching(m, es + fs) == Matching(m, es) + Matching(m, fs)
  {
    if es == [] {
      assert es + fs == fs;
    } else {
      assert (es + fs)[1..] == es[1..] + fs;
      MatchingConcat(m, es[1..], fs);
      var first := if m(es[0].name) then [es[0]] else [];
      assert Matching(m, es + fs) == first + (Matching(m, es[1..]) + Matching(m, fs));
      assert Matching(m, es) == first + Matching(m, es[1..]);
    }
  }

  ghost predicate AllReadable(es: seq<Entry>) {
    forall i :: 0 <= i < |es| ==> es[i].readable
  }

  lemma NoneReadable()
    ensures AllReadable([])
  {}

  lemma ReadableConcat(es: seq<Entry>, fs: seq<Entry>)
    ensures AllReadable(es + fs) <==> AllReadable(es) && AllReadable(fs)
  {
    var all := es + fs;
    if AllReadable(all) {
      assert forall i :: 0 <= i < |es| ==> es[i] == all[i];
      assert forall i :: 0 <= i < |fs| ==> fs[i] == all[|es| + i];
    }
  }

  /** One query's reply, seen from outside: `due` and `rest` are the matching entries not yet
      returned when the query starts and ends, in the order they would be. Nothing is lost or
      repeated, the page fits, and each status means what it says. */
  ghost predicate Reply(c: InfoClass, max: nat, single: bool, due: seq<Entry>,
                        status: Status, items: seq<Entry>, rest: seq<Entry>) {
    && due == items + rest
    && PageSize(c, items) <= max
    && (items != [] <==> status.Success?)
    && (single && status.Success? ==> |items| == 1)
    && (status.BufferTooSmall? ==> max == 0 || (due != [] && ItemSize(c, due[0]) > max))
    && (status.NoMoreFiles? ==> due == [])
    && !status.NoSuchFile? && !status.AccessDenied?
  }

  function Insert(es: seq<Entry>, at: nat, gone: seq<Entry>): seq<Entry>
    requires at <= |es|
  {
    es[..at] + gone + es[at..]
  }

  /** A query answered with ACCESS_DENIED: the page is empty, and `gone` is cut out of what was due. */
  ghost predicate Denial(due: seq<Entry>, items: seq<Entry>, rest: seq<Entry>, gone: seq<Entry>) {
    items == [] && exists at :: 0 <= at <= |rest| && due == Insert(rest, at, gone)
  }

  ghost predicate Answer(c: InfoClass, q: Query, due: seq<Entry>, status: Status, items: seq<Entry>,
                         rest: seq<Entry>, gone: seq<Entry>) {
    if status.AccessDenied? then Denial(due, items, rest, gone)
    else gone == [] && Reply(c, q.max, q.single, due, status, items, rest)
  }

  datatype Query = Query(max: nat, single: bool)

  /** A run of queries: `dues[i]` is what is due when query `i` starts, `gones[i]` what it loses. */
  ghost predicate Answers(c: InfoClass, queries: seq<Query>, dues: seq<seq<Entry>>, gones: seq<seq<Entry>>,
                          statuses: seq<Status>, pages: seq<seq<Entry>>) {
    && |statuses| == |pages| == |gones| == |queries| && |dues| == |queries| + 1
    && forall i :: 0 <= i < |queries| ==>
         Answer(c, queries[i], dues[i], statuses[i], pages[i], dues[i + 1], gones[i])
  }

  function Flatten(pages: seq<seq<Entry>>): seq<Entry> {
    if pages == [] then [] else Flatten(pages[..|pages| - 1]) + pages[|pages| - 1]
  }

  /** `at` says where each entry of `es` stands in `all`, in order and never twice. */
  ghost predicate Embeds(at: seq<nat>, es: seq<Entry>, all: seq<Entry>) {
    && |at| == |es|
    && (forall i :: 0 <= i < |at| ==> at[i] < |all| && es[i] == all[at[i]])
    && (forall i, j :: 0 <= i < j < |at| ==> at[i] < at[j])
  }

  /** Cutting entries out leaves the others in their order. */
  lemma CutEmbeds(front: seq<Entry>, rest: seq<Entry>, at: nat, gone: seq<Entry>, f: seq<nat>, all: seq<Entry>)
    returns (g: seq<nat>)
    requires at <= |rest| && Embeds(f, front + Insert(rest, at, gone), all)
    ensures Embeds(g, front + rest, all)
  {
    var k := |front| + at;
    g := f[..k] + f[k + |gone|..];
    var es, fs := front + rest, front + Insert(rest, at, gone);
    forall i | 0 <= i < |g|
      ensures g[i] < |all| && es[i] == all[g[i]]
    {
      if i < k {
        assert es[i] == fs[i];
      } else {
        assert es[i] == fs[i + |gone|];
      }
    }
  }

  lemma CutCounts(front: seq<Entry>, rest: seq<Entry>, at: nat, gone: seq<Entry>)
    requires at <= |rest|
    ensures multiset(front + Insert(rest, at, gone)) == multiset(front + rest) + multiset(gone)
  {
    assert rest[..at] + rest[at..] == rest;
  }

  /** Over any run of queries, what has been returned followed by what is still due stands in its
      order in what was due at the start, and with what was lost makes it up exactly. */
  lemma {:induction false} PagesConserve(c: InfoClass, queries: seq<Query>, dues: seq<seq<Entry>>,
                                         gones: seq<seq<Entry>>, statuses: seq<Status>, pages: seq<seq<Entry>>,
                                         k: nat)
    returns (at: seq<nat>)
    requires Answers(c, queries, dues, gones, statuses, pages) && k <= |queries|
    ensures Embeds(at, Flatten(pages[..k]) + dues[k], dues[0])
    ensures multiset(dues[0]) == multiset(Flatten(pages[..k]) + dues[k]) + multiset(Flatten(gones[..k]))
  {
    hide Answer;
    hide Flatten;
    FlattenPrefix(pages, k);
    FlattenPrefix(gones, k);
    hide Embeds;
    if k == 0 {
      assert [] + dues[0] == dues[0];
      at := Identity(dues[0]);
    } else {
      var before := PagesConserve(c, queries, dues, gones, statuses, pages, k - 1);
      assert Answer(c, queries[k - 1], dues[k - 1], statuses[k - 1], pages[k - 1], dues[k], gones[k - 1]);
      var front, lost := Flatten(pages[..k - 1]), Flatten(gones[..k - 1]);
      at := OneMorePage(c, queries[k - 1], front, dues[k - 1], statuses[k - 1], pages[k - 1], dues[k], gones[k - 1],
                        before, dues[0]);
      OneMoreLoss(dues[0], front + dues[k - 1], front + pages[k - 1] + dues[k], lost, gones[k - 1]);
    }
  }

  lemma Identity(es: seq<Entry>) returns (at: seq<nat>)
    ensures Embeds(at, es, es)
  {
    at := seq(|es|, i requires 0 <= i => i);
  }

  lemma OneMoreLoss(all: seq<Entry>, before: seq<Entry>, after: seq<Entry>, lost: seq<Entry>, gone: seq<Entry>)
    requires multiset(all) == multiset(before) + multiset(lost)
    requires multiset(before) == multiset(after) + multiset(gone)
    ensures multiset(all) == multiset(after) + multiset(lost + gone)
  {}

  /** While no query is denied, what has been returned followed by what is still due is what was due. */
  lemma {:induction false} UndeniedConserve(c: InfoClass, queries: seq<Query>, dues: seq<seq<Entry>>,
                                            gones: seq<seq<Entry>>, statuses: seq<Status>, pages: seq<seq<Entry>>,
                                            k: nat)
    requires Answers(c, queries, dues, gones, statuses, pages) && k <= |queries|
    requires forall i :: 0 <= i < k ==> !statuses[i].AccessDenied?
    ensures Flatten(pages[..k]) + dues[k] == dues[0]
  {
    hide Flatten;
    hide Reply;
    FlattenPrefix(pages, k);
    if k == 0 {
      assert [] + dues[0] == dues[0];
    } else {
      UndeniedConserve(c, queries, dues, gones, statuses, pages, k - 1);
      assert Answer(c, queries[k - 1], dues[k - 1], statuses[k - 1], pages[k - 1], dues[k], gones[k - 1]);
      ReplyConserves(c, queries[k - 1].max, queries[k - 1].single, dues[k - 1], statuses[k - 1], pages[k - 1], dues[k]);
      assert Flatten(pages[..k - 1]) + pages[k - 1] + dues[k] == Flatten(pages[..k - 1]) + dues[k - 1];
    }
  }

  lemma FlattenPrefix(pages: seq<seq<Entry>>, k: nat)
    requires k <= |pages|
    ensures Flatten(pages[..k]) == if k == 0 then [] else Flatten(pages[..k - 1]) + pages[k - 1]
  {
    if k > 0 {
      assert pages[..k][..k - 1] == pages[..k - 1];
    }
  }

  lemma OneMorePage(c: InfoClass, q: Query, front: seq<Entry>, due: seq<Entry>, status: Status, items: seq<Entry>,
                    rest: seq<Entry>, gone: seq<Entry>, before: seq<nat>, all: seq<Entry>)
    returns (at: seq<nat>)
    requires Answer(c, q, due, status, items, rest, gone) && Embeds(before, front + due, all)
    ensures Embeds(at, front + items + rest, all)
    ensures multiset(front + due) == multiset(front + items + rest) + multiset(gone)
  {
    hide Embeds;
    hide Reply;
    if status.AccessDenied? {
      hide Insert;
      var cut :| 0 <= cut <= |rest| && due == Insert(rest, cut, gone);
      CutCounts(front, rest, cut, gone);
      at := CutEmbeds(front, rest, cut, gone, before, all);
      assert front + items == front;
    } else {
      ReplyConserves(c, q.max, q.single, due, status, items, rest);
      assert front + items + rest == front + due;
      at := before;
    }
  }

  lemma ReplyConserves(c: InfoClass, max: nat, single: bool, due: seq<Entry>, status: Status, items: seq<Entry>,
                       rest: seq<Entry>)
    requires Reply(c, max, single, due, status, items, rest)
    ensures due == items + rest
  {}

  /** Once a query finds no more files, every entry that was due was returned or lost, once. */
  lemma EnumerationComplete(c: InfoClass, queries: seq<Query>, dues: seq<seq<Entry>>, gones: seq<seq<Entry>>,
                            statuses: seq<Status>, pages: seq<seq<Entry>>, k: nat)
    requires Answers(c, queries, dues, gones, statuses, pages) && k < |queries| && statuses[k].NoMoreFiles?
    ensures multiset(dues[0]) == multiset(Flatten(pages[..k])) + multiset(Flatten(gones[..k]))
    ensures (forall i :: 0 <= i < k ==> !statuses[i].AccessDenied?) ==> Flatten(pages[..k]) == dues[0]
  {
    var at := PagesConserve(c, queries, dues, gones, statuses, pages, k);
    assert Answer(c, queries[k], dues[k], statuses[k], pages[k], dues[k + 1], gones[k]);
    assert Flatten(pages[..k]) + dues[k] == Flatten(pages[..k]);
    if forall i :: 0 <= i < k ==> !statuses[i].AccessDenied? {
      UndeniedConserve(c, queries, dues, gones, statuses, pages, k);
    }
  }

  function Denials(statuses: seq<Status>): nat {
    if statuses == [] then 0
    else Denials(statuses[..|statuses| - 1]) + if statuses[|statuses| - 1].AccessDenied? then 1 else 0
  }

  lemma {:induction false} DenialsGrow(statuses: seq<Status>, k: nat)
    requires k <= |statuses|
    ensures Denials(statuses[..k]) <= Denials(statuses)
  {
    if k < |statuses| {
      var init := statuses[..|statuses| - 1];
      DenialsGrow(init, k);
      assert init[..k] == statuses[..k];
    } else {
      assert statuses[..k] == statuses;
    }
  }

  /** A query that returns a page leaves less due. */
  lemma {:induction false} DuesShrink(c: InfoClass, queries: seq<Query>, dues: seq<seq<Entry>>,
                                      gones: seq<seq<Entry>>, statuses: seq<Status>, pages: seq<seq<Entry>>, k: nat)
    requires Answers(c, queries, dues, gones, statuses, pages) && k <= |queries|
    requires forall i :: 0 <= i < k ==> statuses[i].Success? || statuses[i].AccessDenied?
    ensures |dues[k]| + k <= |dues[0]| + Denials(statuses[..k])
  {
    if k > 0 {
      DuesShrink(c, queries, dues, gones, statuses, pages, k - 1);
      assert statuses[..k][..k - 1] == statuses[..k - 1];
      assert Answer(c, queries[k - 1], dues[k - 1], statuses[k - 1], pages[k - 1], dues[k], gones[k - 1]);
    }
  }

  lemma DueFits(c: InfoClass, at: seq<nat>, front: seq<Entry>, due: seq<Entry>, all: seq<Entry>, max: nat)
    requires Embeds(at, front + due, all) && forall j :: 0 <= j < |all| ==> ItemSize(c, all[j]) <= max
    ensures due != [] ==> ItemSize(c, due[0]) <= max
  {
    if due != [] {
      assert (front + due)[|front|] == due[0];
    }
  }

  /** When every buffer holds any one entry, each query that is not denied makes progress or ends the
      enumeration, so one query more than there are entries and denials reaches the end. */
  lemma EnumerationEnds(c: InfoClass, queries: seq<Query>, dues: seq<seq<Entry>>, gones: seq<seq<Entry>>,
                        statuses: seq<Status>, pages: seq<seq<Entry>>)
    returns (k: nat)
    requires Answers(c, queries, dues, gones, statuses, pages) && |queries| > |dues[0]| + Denials(statuses)
    requires forall i :: 0 <= i < |queries| ==> queries[i].max > 0
    requires forall i, j :: 0 <= i < |queries| && 0 <= j < |dues[0]| ==> ItemSize(c, dues[0][j]) <= queries[i].max
    ensures k < |queries| && statuses[k].NoMoreFiles?
    ensures multiset(dues[0]) == multiset(Flatten(pages[..k])) + multiset(Flatten(gones[..k]))
  {
    hide ItemSize;
    hide PageSize;
    hide Denial;
    k := 0;
    while k < |queries| && (statuses[k].Success? || statuses[k].AccessDenied?)
      invariant k <= |queries| && forall i :: 0 <= i < k ==> statuses[i].Success? || statuses[i].AccessDenied?
    {
      k := k + 1;
    }
    DuesShrink(c, queries, dues, gones, statuses, pages, k);
    DenialsGrow(statuses, k);
    var at := PagesConserve(c, queries, dues, gones, statuses, pages, k);
    var front := Flatten(pages[..k]);
    hide Embeds;
    assert Answer(c, queries[k], dues[k], statuses[k], pages[k], dues[k + 1], gones[k]);
    DueFits(c, at, front, dues[k], dues[0], queries[k].max);
    EnumerationComplete(c, queries, dues, gones, statuses, pages, k);
  }

  /** What adding entries to a page leaves: a tail of them, with the matching ones on the page or
      still to come, in order; it stops only after adding one or when the next one does not fit. */
  ghost predicate Appended(m: Pattern, c: InfoClass, max: nat, single: bool, items: seq<Entry>, entries: seq<Entry>,
                           out: seq<Entry>, left: seq<Entry>, stopped: bool, full: bool) {
    && PageSize(c, out) <= max
    && items <= out
    && (exists i :: 0 <= i <= |entries| && left == entries[i..])
    && out[|items|..] + Matching(m, left) == Matching(m, entries)
    && (!stopped ==> left == [] && !full)
    && (stopped && !full ==> |out| > |items|)
    && (full ==> Matching(m, left) != [] && PageSize(c, out) + ItemSize(c, Matching(m, left)[0]) > max)
    && (single && items == [] ==> |out| <= 1)
    && (!single && Matching(m, left) != [] ==> PageSize(c, out) + ItemSize(c, Matching(m, left)[0]) > max)
  }

  /** A page filled from the entries at hand: they come first, in order, and without `single` it is the
      longest run of them that fits. */
  ghost predicate Filled(c: InfoClass, max: nat, single: bool, batch: seq<Entry>, items: seq<Entry>) {
    && items <= batch && PageSize(c, items) <= max
    && (items != [] && single ==> |items| == 1)
    && (items != [] && !single ==> items == batch || PageSize(c, items) + ItemSize(c, batch[|items|]) > max)
  }

  /** No longer run fits. */
  lemma {:induction false} FilledIsLongest(c: InfoClass, max: nat, batch: seq<Entry>, items: seq<Entry>, k: nat)
    requires Filled(c, max, false, batch, items) && items != [] && |items| < k <= |batch|
    ensures PageSize(c, batch[..k]) > max
  {
    hide ItemSize;
    hide PageSize;
    assert batch[..k] == batch[..k - 1] + [batch[k - 1]];
    PageSizeSnoc(c, batch[..k - 1], batch[k - 1]);
    if k - 1 == |items| {
      assert batch[..k - 1] == items;
    } else {
      FilledIsLongest(c, max, batch, items, k - 1);
    }
  }

  /** A page filled from `entries`, with `tail` still behind them. */
  lemma PageReply(m: Pattern, c: InfoClass, max: nat, single: bool, entries: seq<Entry>, tail: seq<Entry>,
                  out: seq<Entry>, left: seq<Entry>, stopped: bool, full: bool)
    requires Appended(m, c, max, single, [], entries, out, left, stopped, full)
    ensures out != [] ==> Reply(c, max, single, Matching(m, entries + tail), Success, out, Matching(m, left + tail))
    ensures out == [] && full ==>
              Reply(c, max, single, Matching(m, entries + tail), BufferTooSmall, out, Matching(m, left + tail))
    ensures out == [] && !full ==> !stopped && left == [] && Matching(m, entries + tail) == Matching(m, tail)
  {
    hide Matching;
    MatchingConcat(m, entries, tail);
    MatchingConcat(m, left, tail);
    MatchingNone(m);
    assert out[0..] == out;
    PageOfNone(c);
    assert out + Matching(m, left) == Matching(m, entries);
    assert Matching(m, entries + tail) == out + (Matching(m, left) + Matching(m, tail));
  }

  lemma PageFilled(m: Pattern, c: InfoClass, max: nat, single: bool, entries: seq<Entry>,
                   out: seq<Entry>, left: seq<Entry>, stopped: bool, full: bool)
    requires Appended(m, c, max, single, [], entries, out, left, stopped, full)
    ensures Filled(c, max, single, Matching(m, entries), out)
  {
    hide Matching;
    hide PageSize;
    hide ItemSize;
    assert out[0..] == out;
    assert out + Matching(m, left) == Matching(m, entries);
  }

  /** An empty buffer, and an empty directory. */
  lemma EmptyReply(c: InfoClass, max: nat, single: bool, due: seq<Entry>)
    ensures max == 0 ==> Reply(c, max, single, due, BufferTooSmall, [], due)
    ensures due == [] ==> Reply(c, max, single, due, NoMoreFiles, [], due)
  {
    PageOfNone(c);
    assert [] + due == due;
  }

  lemma EmptyPageFilled(c: InfoClass, max: nat, single: bool, batch: seq<Entry>)
    ensures Filled(c, max, single, batch, [])
  {}

  lemma MatchingNext(m: Pattern, es: seq<Entry>, i: nat)
    requires i < |es|
    ensures Matching(m, es[i..]) == (if m(es[i].name) then [es[i]] else []) + Matching(m, es[i + 1..])
  {
    assert es[i..][1..] == es[i + 1..];
  }

  lemma PageSizeSnoc(c: InfoClass, items: seq<Entry>, e: Entry)
    ensures PageSize(c, items + [e]) == PageSize(c, items) + ItemSize(c, e)
  {
    assert (items + [e])[..|items|] == items;
  }

  /** The appending loop, with the entries it leaves. */
  method TakeEntries(items: seq<Entry>, entries: seq<Entry>, m: Pattern, c: InfoClass, max: nat, single: bool)
    returns (out: seq<Entry>, left: seq<Entry>, stopped: bool, full: bool)
    requires PageSize(c, items) <= max
    ensures Appended(m, c, max, single, items, entries, out, left, stopped, full)
  {
    hide Matching;
    hide PageSize;
    hide ItemSize;
    out := items;
    assert entries[0..] == entries;
    for i := 0 to |entries|
      invariant PageSize(c, out) <= max && items <= out
      invariant out[|items|..] + Matching(m, entries[i..]) == Matching(m, entries)
      invariant single ==> out == items
    {
      MatchingNext(m, entries, i);
      var d := entries[i];
      if m(d.name) {
        if ItemSize(c, d) > max || PageSize(c, out) + ItemSize(c, d) > max {
          return out, entries[i..], true, true;
        }
        PageSizeSnoc(c, out, d);
        out := out + [d];
        if single || PageSize(c, out) >= max {
          return out, entries[i + 1..], true, false;
        }
      }
    }
    MatchingNone(m);
    assert [] == entries[|entries|..];
    return out, [], false, false;
  }

  lemma MatchingNone(m: Pattern)
    ensures Matching(m, []) == []
  {}

  /** Attributes of a chunk's entries, or the error of the first that has none. */
  method StatEntries(entries: seq<Entry>) returns (r: Option<seq<Entry>>)
    ensures r == if AllReadable(entries) then Some(entries) else None
  {
    var results: seq<Entry> := [];
    for i := 0 to |entries|
      invariant results == entries[..i] && AllReadable(entries[..i])
    {
      if !entries[i].readable {
        return None;
      }
      results := results + [entries[i]];
    }
    assert entries[..|entries|] == entries;
    return Some(results);
  }

  // ----- Chunks that cannot be read -----

  /** "." and ".." stand before the first chunk. */
  function Dots(due: bool): seq<Entry> {
    if due then [DOT, DOTDOT] else []
  }

  function Chunked(src: seq<Entry>, n: nat): (c: seq<Entry>)
    ensures |c| <= |src| && |c| <= n && (n > 0 && |src| > 0 ==> |c| > 0)
  {
    src[..Min(n, |src|)]
  }

  /** The loop stops at its next chunk: there is none, it cannot be read, or it has a match. */
  ghost predicate Stops(m: Pattern, dots: bool, src: seq<Entry>, n: nat) {
    var chunk := Chunked(src, n);
    Dots(dots) + chunk == [] || !AllReadable(chunk) || Matching(m, Dots(dots) + chunk) != []
  }

  /** How many entries the reading loop takes in chunks of `n`, all readable and without a match,
      before the chunk it stops at. */
  ghost function Passed(m: Pattern, dots: bool, src: seq<Entry>, n: nat): (p: nat)
    requires n > 0
    ensures p <= |src|
    decreases |src|, dots
  {
    if Stops(m, dots, src, n) then 0
    else |Chunked(src, n)| + Passed(m, false, src[|Chunked(src, n)|..], n)
  }

  /** The chunk the loop stops at. */
  ghost function StopChunk(m: Pattern, dots: bool, src: seq<Entry>, n: nat): (c: seq<Entry>)
    requires n > 0
    ensures Passed(m, dots, src, n) + |c| <= |src| && |c| <= n
  {
    Chunked(src[Passed(m, dots, src, n)..], n)
  }

  /** The loop stops at a chunk with an entry whose attributes cannot be read. */
  ghost predicate Blocked(m: Pattern, dots: bool, src: seq<Entry>, n: nat)
    requires n > 0
  {
    !AllReadable(StopChunk(m, dots, src, n))
  }

  /** What a page is filled from there: that chunk, behind "." and ".." when it is the first. */
  ghost function AtHand(m: Pattern, dots: bool, src: seq<Entry>, n: nat): seq<Entry>
    requires n > 0
  {
    Dots(dots && Passed(m, dots, src, n) == 0) + StopChunk(m, dots, src, n)
  }

  /** What the loop leaves unread there: the whole chunk is consumed. */
  ghost function Beyond(m: Pattern, dots: bool, src: seq<Entry>, n: nat): seq<Entry>
    requires n > 0
  {
    src[Passed(m, dots, src, n) + |StopChunk(m, dots, src, n)|..]
  }

  lemma DropTwice(src: seq<Entry>, k: nat, p: nat)
    requires k + p <= |src|
    ensures src[k..][p..] == src[k + p..]
  {}

  lemma TakeTwo(src: seq<Entry>, k: nat, p: nat)
    requires k + p <= |src|
    ensures src[..k + p] == src[..k] + src[k..][..p]
  {}

  lemma ChunkIsPrefix(src: seq<Entry>, n: nat)
    ensures Chunked(src, n) == src[..|Chunked(src, n)|]
  {}

  lemma PassedStep(m: Pattern, dots: bool, src: seq<Entry>, n: nat)
    requires n > 0 && !Stops(m, dots, src, n)
    ensures Passed(m, dots, src, n) == |Chunked(src, n)| + Passed(m, false, src[|Chunked(src, n)|..], n)
  {
    hide Stops;
    hide Chunked;
  }

  lemma PassedNone(m: Pattern, dots: bool, src: seq<Entry>, n: nat)
    requires n > 0 && Stops(m, dots, src, n)
    ensures Passed(m, dots, src, n) == 0
  {
    hide Stops;
    hide Chunked;
  }

  lemma PassOne(m: Pattern, dots: bool, src: seq<Entry>, n: nat)
    requires n > 0 && !Stops(m, dots, src, n)
    ensures var rest := src[|Chunked(src, n)|..];
            && Passed(m, dots, src, n) == |Chunked(src, n)| + Passed(m, false, rest, n)
            && StopChunk(m, dots, src, n) == StopChunk(m, false, rest, n)
            && Beyond(m, dots, src, n) == Beyond(m, false, rest, n)
  {
    hide Stops;
    hide Chunked;
    hide Passed;
    PassedStep(m, dots, src, n);
    var k := |Chunked(src, n)|;
    var p := Passed(m, false, src[k..], n);
    DropTwice(src, k, p);
    DropTwice(src, k, p + |StopChunk(m, false, src[k..], n)|);
  }

  lemma PassedChunk(m: Pattern, dots: bool, src: seq<Entry>, n: nat)
    requires !Stops(m, dots, src, n)
    ensures AllReadable(Chunked(src, n)) && Matching(m, Chunked(src, n)) == []
    ensures dots ==> Matching(m, Dots(true)) == []
  {
    hide Matching;
    hide Chunked;
    hide AllReadable;
    MatchingConcat(m, Dots(dots), Chunked(src, n));
  }

  /** What the loop has passed is readable and has no match. */
  lemma {:induction false} PassedOver(m: Pattern, dots: bool, src: seq<Entry>, n: nat)
    requires n > 0
    ensures Matching(m, src[..Passed(m, dots, src, n)]) == [] && AllReadable(src[..Passed(m, dots, src, n)])
    ensures dots && Passed(m, dots, src, n) > 0 ==> Matching(m, Dots(true)) == []
    decreases |src|, dots
  {
    hide Matching;
    hide Chunked;
    hide Stops;
    hide AllReadable;
    hide Passed;
    if Stops(m, dots, src, n) {
      PassedNone(m, dots, src, n);
      MatchingNone(m);
      NoneReadable();
      assert src[..0] == [];
    } else {
      var chunk := Chunked(src, n);
      var rest := src[|chunk|..];
      Shrinks(dots, src, n, m);
      PassedOver(m, false, rest, n);
      var p := Passed(m, false, rest, n);
      PassedStep(m, dots, src, n);
      PassedChunk(m, dots, src, n);
      ChunkIsPrefix(src, n);
      TakeTwo(src, |chunk|, p);
      MatchingConcat(m, chunk, rest[..p]);
      ReadableConcat(chunk, rest[..p]);
    }
  }

  /** A passed chunk leaves less. */
  lemma Shrinks(dots: bool, src: seq<Entry>, n: nat, m: Pattern)
    requires n > 0 && !Stops(m, dots, src, n)
    ensures |Chunked(src, n)| > 0 || dots
  {}

  /** Everything consumed up to the chunk the loop stops at, and with it, is readable exactly when the
      loop is not blocked. */
  lemma ConsumedReadable(m: Pattern, dots: bool, src: seq<Entry>, n: nat)
    requires n > 0
    ensures var k := Passed(m, dots, src, n) + |StopChunk(m, dots, src, n)|;
            AllReadable(src[..k]) <==> !Blocked(m, dots, src, n)
  {
    hide Matching;
    hide Chunked;
    hide AllReadable;
    hide Passed;
    PassedOver(m, dots, src, n);
    var p, stop := Passed(m, dots, src, n), StopChunk(m, dots, src, n);
    ChunkIsPrefix(src[p..], n);
    TakeTwo(src, p, |stop|);
    ReadableConcat(src[..p], stop);
  }

  /** A blocked loop loses the matching entries of one chunk, and "." and ".." with it unless they
      stand before it. */
  lemma BlockedDue(m: Pattern, dots: bool, src: seq<Entry>, n: nat)
    requires n > 0 && Blocked(m, dots, src, n)
    ensures var lost, beyond := StopChunk(m, dots, src, n), Beyond(m, dots, src, n);
            var still := Dots(dots && Passed(m, dots, src, n) == 0);
            && src == src[..Passed(m, dots, src, n)] + lost + beyond
            && 0 < |lost| <= n
            && Matching(m, still + beyond) == Matching(m, still) + Matching(m, beyond)
            && Matching(m, Dots(dots) + src) == Matching(m, still) + Matching(m, lost) + Matching(m, beyond)
  {
    hide Matching;
    hide Passed;
    hide Chunked;
    NoneReadable();
    var p := Passed(m, dots, src, n);
    var lost, beyond, still := StopChunk(m, dots, src, n), Beyond(m, dots, src, n), Dots(dots && p == 0);
    ChunkIsPrefix(src[p..], n);
    TakeTwo(src, p, |lost|);
    assert src == src[..p] + (lost + beyond);
    PassedOver(m, dots, src, n);
    MatchingNone(m);
    MatchingConcat(m, Dots(dots), src);
    MatchingConcat(m, src[..p], lost + beyond);
    MatchingConcat(m, lost, beyond);
    MatchingConcat(m, still, beyond);
    assert Matching(m, Dots(dots)) == Matching(m, still);
  }

  function ReadSize(single: bool): (n: nat)
    ensures n > 0
  {
    if single then 1 else READ_BATCH
  }

  /** What a request asks for: entries matching a pattern, or one name, with whether it is there. */
  datatype Search = Wildcard(m: Pattern) | Plain(name: Utf16.Text, there: bool)

  class DirHandle {
    /** The directory's own entries, as the system lists them. */
    const all: seq<Entry>

    // The stream: `unread` is what the system still has to return.
    var dirPos: nat
    var unread: seq<Entry>

    /** Entries read but not returned. */
    var pending: seq<Entry>

    /** The plain name last returned. */
    var answered: Option<Utf16.Text>

    constructor (all: seq<Entry>)
      ensures this.all == all && dirPos == 0 && unread == all && pending == [] && answered == None
    {
      this.all, dirPos, unread, pending, answered := all, 0, all, [], None;
    }

    /** What the stream still yields. */
    function Rest(): seq<Entry>
      reads this
    {
      Dots(dirPos == 0) + unread
    }

    function Remaining(): seq<Entry>
      reads this
    {
      pending + Rest()
    }

    /** The system's entries a read will see, and whether "." and ".." come before them. */
    function Source(restart: bool): seq<Entry>
      reads this
    {
      if restart then all else unread
    }

    predicate DotsDue(restart: bool)
      reads this
    {
      restart || dirPos == 0
    }

    function Ahead(restart: bool): seq<Entry>
      reads this
    {
      Dots(DotsDue(restart)) + Source(restart)
    }

    /** Everything a query may still return. */
    function Upcoming(restart: bool): seq<Entry>
      reads this
    {
      if restart then Ahead(true) else Remaining()
    }

    /** One chunk of at most `maxEntries` directory entries, after "." and ".." the first time.
        A chunk is returned whole exactly when every entry in it could be read; otherwise it is
        consumed and lost. */
    method ReadDir(restart: bool, maxEntries: nat) returns (r: Chunk)
      requires maxEntries > 0
      modifies this`dirPos, this`unread
      ensures unread == old(Source(restart)[|Chunked(Source(restart), maxEntries)|..])
      ensures r.Eof? <==> old(Ahead(restart)) == []
      ensures r.Eof? ==> Rest() == []
      ensures r.ReadError? <==> !AllReadable(old(Chunked(Source(restart), maxEntries)))
      ensures r.ReadError? ==> (dirPos == 0 <==> old(DotsDue(restart)))
      ensures r.Entries? ==>
                dirPos != 0 && r.entries == old(Dots(DotsDue(restart)) + Chunked(Source(restart), maxEntries))
    {
      hide AllReadable;
      if restart {
        unread := all;
        dirPos := 0;
      }
      var n := Min(maxEntries, |unread|);
      var entries := unread[..n];
      unread := unread[n..];
      if |entries| == 0 && dirPos != 0 {
        NoneReadable();
        return Eof;
      }
      var stats := StatEntries(entries);
      if stats.None? {
        return ReadError;
      }
      var results := Dots(dirPos == 0) + stats.value;
      dirPos := 1;
      return Entries(results);
    }

    /** Adds matching entries while they fit; what is left when it stops becomes pending. */
    method AppendDirectoryEntries(items: seq<Entry>, entries: seq<Entry>, m: Pattern, c: InfoClass,
                                  max: nat, single: bool)
      returns (out: seq<Entry>, stopped: bool, full: bool)
      requires PageSize(c, items) <= max
      modifies this`pending
      ensures old(pending) <= pending
      ensures Appended(m, c, max, single, items, entries, out, pending[|old(pending)|..], stopped, full)
    {
      var left;
      out, left, stopped, full := TakeEntries(items, entries, m, c, max, single);
      pending := pending + left;
      assert pending[|old(pending)|..] == left;
    }

    /** One round of the reading loop: a chunk, and what it puts on the page. The source's last
        exit, NO_SUCH_FILE, is never taken: a chunk that stops the page has either added an entry
        or met one that does not fit. */
    method ReadRound(m: Pattern, c: InfoClass, single: bool, max: nat, restart: bool)
      returns (done: bool, status: Status, items: seq<Entry>)
      requires pending == []
      modifies this`dirPos, this`unread, this`pending
      ensures unread == old(Source(restart)[|Chunked(Source(restart), ReadSize(single))|..])
      ensures done <==> old(Stops(m, DotsDue(restart), Source(restart), ReadSize(single)))
      ensures if !AllReadable(old(Chunked(Source(restart), ReadSize(single)))) then
                && status.AccessDenied? && items == [] && pending == []
                && (dirPos == 0 <==> old(DotsDue(restart)))
              else if done then
                && Reply(c, max, single, old(Matching(m, Ahead(restart))), status, items, Matching(m, Remaining()))
                && dirPos != 0
                && Filled(c, max, single,
                          old(Matching(m, Dots(DotsDue(restart)) + Chunked(Source(restart), ReadSize(single)))), items)
              else items == [] && pending == [] && dirPos != 0
      ensures PageSize(c, items) <= max && !status.NoSuchFile?
    {
      hide Matching;
      hide PageSize;
      hide ItemSize;
      hide AllReadable;
      hide Filled;
      hide Reply;
      PageOfNone(c);
      MatchingNone(m);
      ghost var chunk, dots := Chunked(Source(restart), ReadSize(single)), Dots(DotsDue(restart));
      ghost var beyond := Source(restart)[|chunk|..];
      assert Ahead(restart) == dots + chunk + beyond;
      var r := ReadDir(restart, ReadSize(single));
      match r {
        case Eof =>
          EmptyPageFilled(c, max, single, Matching(m, dots + chunk));
          EmptyReply(c, max, single, Matching(m, Remaining()));
          return true, NoMoreFiles, [];
        case ReadError => return true, AccessDenied, [];
        case Entries(entries) =>
          var stopped, full;
          items, stopped, full := AppendDirectoryEntries([], entries, m, c, max, single);
          assert pending[0..] == pending && Rest() == beyond;
          PageReply(m, c, max, single, entries, beyond, items, pending, stopped, full);
          PageFilled(m, c, max, single, entries, items, pending, stopped, full);
          done := |items| != 0 || full;
          status := if |items| != 0 then Success else BufferTooSmall;
      }
    }

    /** Rounds until one ends the query: a reply, or exactly when an unreadable chunk blocks the loop,
        a denial that loses that chunk. */
    method ReadPage(m: Pattern, c: InfoClass, single: bool, max: nat, restart: bool)
      returns (status: Status, items: seq<Entry>)
      requires pending == []
      modifies this`dirPos, this`unread, this`pending
      ensures |unread| <= old(|Source(restart)|)
      ensures var dots, src, n := old(DotsDue(restart)), old(Source(restart)), ReadSize(single);
              && unread == Beyond(m, dots, src, n)
              && (dirPos == 0 <==> Blocked(m, dots, src, n) && dots && Passed(m, dots, src, n) == 0)
              && Filled(c, max, single, Matching(m, AtHand(m, dots, src, n)), items)
              && if Blocked(m, dots, src, n) then status.AccessDenied? && items == [] && pending == []
                 else Reply(c, max, single, old(Matching(m, Ahead(restart))), status, items, Matching(m, Remaining()))
      ensures PageSize(c, items) <= max && !status.NoSuchFile?
    {
      hide Matching;
      hide PageSize;
      hide ItemSize;
      hide AllReadable;
      hide Reply;
      hide Passed;
      hide StopChunk;
      hide Beyond;
      hide Chunked;
      hide Stops;
      hide OnTheWay;
      hide AtHand;
      hide Filled;
      var restartRead, done := restart, false;
      ghost var dots, src, n := DotsDue(restart), Source(restart), ReadSize(single);
      ghost var passed: nat := 0;
      SetOut(m, dots, src, n);
      while true
        invariant pending == [] && |Source(restartRead)| <= |src|
        invariant OnTheWay(m, dots, src, n, DotsDue(restartRead), Source(restartRead), passed)
        invariant old(Matching(m, Ahead(restart))) == Matching(m, Ahead(restartRead))
        decreases |Ahead(restartRead)|
      {
        ghost var d, s := DotsDue(restartRead), Source(restartRead);
        if Stops(m, d, s, n) {
          Arrive(m, dots, src, n, d, s, passed);
          EmptyPageFilled(c, max, single, Matching(m, AtHand(m, dots, src, n)));
        } else {
          Proceed(m, dots, src, n, d, s, passed);
          PassesHere(m, d, s, n);
          PassedChunk(m, d, s, n);
          Shrinks(d, s, n, m);
        }
        done, status, items := ReadRound(m, c, single, max, restartRead);
        restartRead := false;
        if done {
          return;
        }
        passed := passed + |Chunked(s, n)|;
        assert Dots(false) + unread == unread;
      }
    }

    /** A wildcard query: the pending entries first, and the stream only when they put nothing on
        the page. */
    method QueryDirectoryWildcard(m: Pattern, c: InfoClass, single: bool, max: nat, restart: bool)
      returns (status: Status, items: seq<Entry>)
      requires restart ==> pending == []
      modifies this`dirPos, this`unread, this`pending
      ensures |unread| <= old(|Source(restart)|)
      ensures var dots, src, n := old(DotsDue(restart)), old(Source(restart)), ReadSize(single);
              && (old(Matching(m, pending)) == [] ==>
                    && unread == Beyond(m, dots, src, n)
                    && (dirPos == 0 <==> Blocked(m, dots, src, n) && dots && Passed(m, dots, src, n) == 0))
              && (old(Matching(m, pending)) != [] ==> unread == old(unread) && dirPos == old(dirPos))
              && Filled(c, max, single, if old(Matching(m, pending)) != [] then old(Matching(m, pending))
                                        else Matching(m, AtHand(m, dots, src, n)), items)
              && if old(Matching(m, pending)) == [] && Blocked(m, dots, src, n) then
                   status.AccessDenied? && items == [] && pending == []
                 else
                   Reply(c, max, single, old(Matching(m, Upcoming(restart))), status, items, Matching(m, Remaining()))
      ensures PageSize(c, items) <= max && !status.NoSuchFile?
    {
      hide Matching;
      hide PageSize;
      hide ItemSize;
      hide AllReadable;
      hide Blocked;
      hide Beyond;
      hide Passed;
      hide AtHand;
      hide Filled;
      PageOfNone(c);
      MatchingNone(m);
      if |pending| > 0 {
        var saved := pending;
        pending := [];
        var stopped, full;
        items, stopped, full := AppendDirectoryEntries([], saved, m, c, max, single);
        assert pending[0..] == pending;
        PageReply(m, c, max, single, saved, Rest(), items, pending, stopped, full);
        PageFilled(m, c, max, single, saved, items, pending, stopped, full);
        if |items| != 0 {
          return Success, items;
        }
        if full {
          return BufferTooSmall, items;
        }
      }
      assert [] + Rest() == Rest();
      status, items := ReadPage(m, c, single, max, restart);
    }

    /** Looks one name up; a second request for the name just returned finds no more. */
    method QueryDirectoryName(name: Utf16.Text, there: bool, c: InfoClass, max: nat)
      returns (status: Status, items: seq<Entry>)
      modifies this`answered
      ensures status.NoMoreFiles? <==> old(answered) == Some(name)
      ensures status.NoSuchFile? <==> old(answered) != Some(name) && !there
      ensures status.Success? <==>
                old(answered) != Some(name) && there && ItemSize(c, Entry(name, true)) <= max
      ensures items == if status.Success? then [Entry(name, true)] else []
      ensures answered == if status.Success? then Some(name) else old(answered)
      ensures !status.AccessDenied? && PageSize(c, items) <= max
    {
      hide ItemSize;
      PageOfNone(c);
      PageSizeSnoc(c, [], Entry(name, true));
      assert [] + [Entry(name, true)] == [Entry(name, true)];
      if answered == Some(name) {
        return NoMoreFiles, [];
      }
      if !there {
        return NoSuchFile, [];
      }
      if ItemSize(c, Entry(name, true)) > max {
        return BufferTooSmall, [];
      }
      answered := Some(name);
      return Success, [Entry(name, true)];
    }

    /** A QUERY_DIRECTORY request. A restart forgets pending entries at once, but only the reading loop
        rewinds the stream, and neither an empty buffer nor a plain name reaches it. */
    method QueryDirectory(search: Search, c: InfoClass, single: bool, max: nat, restart: bool)
      returns (status: Status, items: seq<Entry>)
      modifies this`dirPos, this`unread, this`pending, this`answered
      ensures Reads(search, max) ==>
                |unread| <= old(|Source(restart)|) &&
                var m, dots, src, n := search.m, old(DotsDue(restart)), old(Source(restart)), ReadSize(single);
                var loops := restart || old(Matching(m, pending)) == [];
                && (loops ==>
                      && unread == Beyond(m, dots, src, n)
                      && (dirPos == 0 <==> Blocked(m, dots, src, n) && dots && Passed(m, dots, src, n) == 0))
                && (!loops ==> unread == old(unread) && dirPos == old(dirPos))
                && (status.AccessDenied? <==> loops && Blocked(m, dots, src, n))
                && Filled(c, max, single, if loops then Matching(m, AtHand(m, dots, src, n))
                                          else old(Matching(m, pending)), items)
                && if loops && Blocked(m, dots, src, n) then status.AccessDenied? && items == [] && pending == []
                   else
                   Reply(c, max, single, old(Matching(m, Upcoming(restart))), status, items, Matching(m, Remaining()))
      ensures !Reads(search, max) ==>
                && !status.AccessDenied? && dirPos == old(dirPos) && unread == old(unread)
                && pending == if restart then [] else old(pending)
      ensures max == 0 ==> status.BufferTooSmall? && items == []
      ensures PageSize(c, items) <= max && (items != [] <==> status.Success?)
      ensures status.NoSuchFile? <==>
                max > 0 && search.Plain? && !search.there && (restart || old(answered) != Some(search.name))
    {
      hide Matching;
      hide Blocked;
      hide Beyond;
      hide Passed;
      hide PageSize;
      hide AtHand;
      hide Filled;
      PageOfNone(c);
      if restart {
        pending := [];
        answered := None;
      }
      if max == 0 {
        return BufferTooSmall, [];
      }
      match search {
        case Plain(name, there) =>
          status, items := QueryDirectoryName(name, there, c, max);
        case Wildcard(m) =>
          MatchingNone(m);
          status, items := QueryDirectoryWildcard(m, c, single, max, restart);
      }
    }

    /** What a restarted request leaves due, for the pattern it asks for or any other. When it reads, the
        whole stream is due again, less its page, unless a chunk is lost; when it does not, exactly the
        matching pending entries are gone. */
    method Restart(search: Search, ghost m: Pattern, c: InfoClass, single: bool, max: nat)
      returns (status: Status, items: seq<Entry>)
      requires search.Wildcard? ==> search.m == m
      modifies this`dirPos, this`unread, this`pending, this`answered
      ensures Reads(search, max) && !status.AccessDenied? ==>
                items + Matching(m, Remaining()) == Matching(m, [DOT, DOTDOT] + all)
      ensures !Reads(search, max) ==>
                old(Matching(m, Remaining())) == old(Matching(m, pending)) + Matching(m, Remaining())
      ensures !Reads(search, max) ==>
                (Matching(m, Remaining()) == old(Matching(m, Remaining())) <==> old(Matching(m, pending)) == [])
    {
      hide Matching;
      hide Blocked;
      hide Beyond;
      hide Passed;
      MatchingConcat(m, pending, Rest());
      assert |Matching(m, pending + Rest())| == |Matching(m, pending)| + |Matching(m, Rest())|;
      status, items := QueryDirectory(search, c, single, max, true);
      assert !Reads(search, max) ==> Remaining() == Rest();
    }

    /** Any sequence of wildcard queries with one pattern and no restart. Whether one is denied depends
        only on what is consumed: a readable directory is never denied. */
    method Enumerate(m: Pattern, c: InfoClass, queries: seq<Query>)
      returns (statuses: seq<Status>, pages: seq<seq<Entry>>,
               ghost dues: seq<seq<Entry>>, ghost gones: seq<seq<Entry>>)
      modifies this`dirPos, this`unread, this`pending, this`answered
      ensures Answers(c, queries, dues, gones, statuses, pages)
      ensures dues[0] == old(Matching(m, Remaining())) && dues[|queries|] == Matching(m, Remaining())
      ensures forall i :: 0 <= i < |gones| ==> |gones[i]| <= ReadSize(queries[i].single)
      ensures Denials(statuses) + |unread| <= old(|unread|)
      ensures var k := old(|unread|) - |unread|;
              unread == old(unread)[k..] && (Denials(statuses) == 0 <==> AllReadable(old(unread)[..k]))
    {
      hide Matching;
      hide Answer;
      hide Answers;
      hide AllReadable;
      NoneReadable();
      statuses, pages, dues, gones := [], [], [Matching(m, Remaining())], [];
      NoAnswers(c, dues);
      assert queries[..0] == [];
      for i := 0 to |queries|
        invariant |dues| == i + 1 && |gones| == |statuses| == i
        invariant dues[0] == old(Matching(m, Remaining())) && dues[i] == Matching(m, Remaining())
        invariant Answers(c, queries[..i], dues, gones, statuses, pages)
        invariant forall j :: 0 <= j < i ==> |gones[j]| <= ReadSize(queries[j].single)
        invariant Denials(statuses) + |unread| <= old(|unread|)
        invariant unread == old(unread)[old(|unread|) - |unread|..]
        invariant Denials(statuses) == 0 <==> AllReadable(old(unread)[..old(|unread|) - |unread|])
      {
        var status, items;
        ghost var gone;
        ghost var before := unread;
        status, items, gone := AnswerOne(m, c, queries[i]);
        OneMoreAnswer(c, queries[..i], dues, gones, statuses, pages, queries[i], status, items,
                      Matching(m, Remaining()), gone);
        assert queries[..i] + [queries[i]] == queries[..i + 1];
        ConsumedMore(old(unread), before, unread);
        statuses, pages := statuses + [status], pages + [items];
        dues, gones := dues + [Matching(m, Remaining())], gones + [gone];
      }
      assert queries[..|queries|] == queries;
      AnswersCount(c, queries, dues, gones, statuses, pages);
    }

    /** One such query, and what it loses. */
    method AnswerOne(m: Pattern, c: InfoClass, q: Query)
      returns (status: Status, items: seq<Entry>, ghost gone: seq<Entry>)
      modifies this`dirPos, this`unread, this`pending, this`answered
      ensures Answer(c, q, old(Matching(m, Remaining())), status, items, Matching(m, Remaining()), gone)
      ensures |gone| <= ReadSize(q.single)
      ensures |unread| + (if status.AccessDenied? then 1 else 0) <= old(|unread|)
      ensures unread == old(unread)[old(|unread|) - |unread|..]
      ensures !status.AccessDenied? <==> AllReadable(old(unread)[..old(|unread|) - |unread|])
    {
      hide Matching;
      hide Passed;
      hide StopChunk;
      hide Beyond;
      hide PageSize;
      hide ItemSize;
      hide AllReadable;
      hide Blocked;
      hide Filled;
      hide AtHand;
      hide Reply;
      hide Denial;
      hide Dots;
      ghost var dots, src, n, due := DotsDue(false), unread, ReadSize(q.single), Matching(m, Remaining());
      ghost var none := Matching(m, pending);
      MatchingConcat(m, pending, Rest());
      BeyondCounts(m, dots, src, n);
      ConsumedReadable(m, dots, src, n);
      status, items := QueryDirectory(Wildcard(m), c, q.single, q.max, false);
      gone := [];
      NoneReadable();
      assert src[0..] == src && src[..0] == [];
      if q.max == 0 {
        EmptyReply(c, 0, q.single, due);
      } else if status.AccessDenied? {
        gone := Matching(m, StopChunk(m, dots, src, n));
        MatchingShrinks(m, StopChunk(m, dots, src, n));
        assert none + Matching(m, Dots(dots) + src) == Matching(m, Dots(dots) + src);
        assert Remaining() == Dots(dirPos == 0) + unread;
        DenialDue(m, dots, src, n);
      }
    }
  }

  /** A blocked loop, as a denial. */
  lemma DenialDue(m: Pattern, dots: bool, src: seq<Entry>, n: nat)
    requires n > 0 && Blocked(m, dots, src, n)
    ensures var still := Dots(dots && Passed(m, dots, src, n) == 0);
            Denial(Matching(m, Dots(dots) + src), [], Matching(m, still + Beyond(m, dots, src, n)),
                   Matching(m, StopChunk(m, dots, src, n)))
    ensures |StopChunk(m, dots, src, n)| > 0
  {
    hide Matching;
    hide Passed;
    hide StopChunk;
    hide Beyond;
    BlockedDue(m, dots, src, n);
    var still := Dots(dots && Passed(m, dots, src, n) == 0);
    var at, rest := |Matching(m, still)|, Matching(m, still + Beyond(m, dots, src, n));
    assert Insert(rest, at, Matching(m, StopChunk(m, dots, src, n))) == Matching(m, Dots(dots) + src);
  }

  lemma BeyondCounts(m: Pattern, dots: bool, src: seq<Entry>, n: nat)
    requires n > 0
    ensures |Beyond(m, dots, src, n)| == |src| - Passed(m, dots, src, n) - |StopChunk(m, dots, src, n)|
    ensures Beyond(m, dots, src, n) == src[|src| - |Beyond(m, dots, src, n)|..]
  {
    hide Passed;
    hide StopChunk;
  }

  /** The stream is consumed from the front. */
  lemma ConsumedMore(all: seq<Entry>, before: seq<Entry>, after: seq<Entry>)
    requires |after| <= |before| <= |all| && before == all[|all| - |before|..]
    requires after == before[|before| - |after|..]
    ensures after == all[|all| - |after|..]
    ensures AllReadable(all[..|all| - |after|]) <==>
              AllReadable(all[..|all| - |before|]) && AllReadable(before[..|before| - |after|])
  {
    hide AllReadable;
    var k, p := |all| - |before|, |before| - |after|;
    DropTwice(all, k, p);
    TakeTwo(all, k, p);
    ReadableConcat(all[..k], before[..p]);
  }

  lemma NoAnswers(c: InfoClass, dues: seq<seq<Entry>>)
    requires |dues| == 1
    ensures Answers(c, [], dues, [], [], [])
  {}

  lemma AnswersCount(c: InfoClass, queries: seq<Query>, dues: seq<seq<Entry>>, gones: seq<seq<Entry>>,
                     statuses: seq<Status>, pages: seq<seq<Entry>>)
    requires Answers(c, queries, dues, gones, statuses, pages)
    ensures |statuses| == |pages| == |gones| == |queries| && |dues| == |queries| + 1
  {}

  lemma OneMoreAnswer(c: InfoClass, queries: seq<Query>, dues: seq<seq<Entry>>, gones: seq<seq<Entry>>,
                      statuses: seq<Status>, pages: seq<seq<Entry>>, q: Query, status: Status,
                      items: seq<Entry>, rest: seq<Entry>, gone: seq<Entry>)
    requires Answers(c, queries, dues, gones, statuses, pages)
    requires Answer(c, q, dues[|queries|], status, items, rest, gone)
    ensures Answers(c, queries + [q], dues + [rest], gones + [gone], statuses + [status], pages + [items])
    ensures Denials(statuses + [status]) == Denials(statuses) + if status.AccessDenied? then 1 else 0
  {
    hide Answer;
    assert (statuses + [status])[..|statuses|] == statuses;
  }

  /** The request reaches the reading loop or the pending entries. */
  predicate Reads(search: Search, max: nat) {
    search.Wildcard? && max > 0
  }

  lemma {:induction false} MatchingShrinks(m: Pattern, es: seq<Entry>)
    ensures |Matching(m, es)| <= |es|
  {
    if es != [] {
      MatchingShrinks(m, es[1..]);
    }
  }

  lemma StopsHere(m: Pattern, dots: bool, src: seq<Entry>, n: nat)
    requires n > 0 && Stops(m, dots, src, n)
    ensures Passed(m, dots, src, n) == 0 && StopChunk(m, dots, src, n) == Chunked(src, n)
    ensures Beyond(m, dots, src, n) == src[|Chunked(src, n)|..]
  {
    hide Stops;
    hide Chunked;
    hide Passed;
    PassedNone(m, dots, src, n);
    assert src[0..] == src;
  }

  /** After `passed` entries the loop still has to stop where it had to at first. */
  ghost predicate OnTheWay(m: Pattern, dots: bool, src: seq<Entry>, n: nat, d: bool, s: seq<Entry>, passed: nat)
    requires n > 0
  {
    && passed + |s| == |src|
    && Passed(m, dots, src, n) == passed + Passed(m, d, s, n)
    && StopChunk(m, dots, src, n) == StopChunk(m, d, s, n)
    && Beyond(m, dots, src, n) == Beyond(m, d, s, n)
    && (d ==> dots && passed == 0)
    && (dots && passed == 0 && |src| > 0 ==> d)
    && (dots && !d ==> Matching(m, Dots(true)) == [])
  }

  lemma SetOut(m: Pattern, dots: bool, src: seq<Entry>, n: nat)
    requires n > 0
    ensures OnTheWay(m, dots, src, n, dots, src, 0)
  {
    hide Passed;
    hide StopChunk;
    hide Beyond;
  }

  lemma Proceed(m: Pattern, dots: bool, src: seq<Entry>, n: nat, d: bool, s: seq<Entry>, passed: nat)
    requires n > 0 && OnTheWay(m, dots, src, n, d, s, passed) && !Stops(m, d, s, n)
    ensures OnTheWay(m, dots, src, n, false, s[|Chunked(s, n)|..], passed + |Chunked(s, n)|)
  {
    hide Stops;
    hide Passed;
    hide StopChunk;
    hide Beyond;
    hide Chunked;
    hide Matching;
    PassOne(m, d, s, n);
    PassedChunk(m, d, s, n);
  }

  lemma Arrive(m: Pattern, dots: bool, src: seq<Entry>, n: nat, d: bool, s: seq<Entry>, passed: nat)
    requires n > 0 && OnTheWay(m, dots, src, n, d, s, passed) && Stops(m, d, s, n)
    ensures StopChunk(m, dots, src, n) == Chunked(s, n) && Beyond(m, dots, src, n) == s[|Chunked(s, n)|..]
    ensures Blocked(m, dots, src, n) <==> !AllReadable(Chunked(s, n))
    ensures Blocked(m, dots, src, n) ==> (d <==> dots && Passed(m, dots, src, n) == 0)
    ensures Matching(m, AtHand(m, dots, src, n)) == Matching(m, Dots(d) + Chunked(s, n))
  {
    hide Stops;
    hide Passed;
    hide StopChunk;
    hide Beyond;
    hide Matching;
    StopsHere(m, d, s, n);
    MatchingConcat(m, Dots(true), Chunked(s, n));
    assert Dots(false) + Chunked(s, n) == Chunked(s, n);
    assert [] + Matching(m, Chunked(s, n)) == Matching(m, Chunked(s, n));
  }

  lemma PassesHere(m: Pattern, dots: bool, src: seq<Entry>, n: nat)
    requires n > 0 && !Stops(m, dots, src, n)
    ensures Matching(m, Dots(dots) + src) == Matching(m, src[|Chunked(src, n)|..])
  {
    hide Matching;
    hide Chunked;
    hide AllReadable;
    var chunk := Chunked(src, n);
    var rest := src[|chunk|..];
    ChunkIsPrefix(src, n);
    assert Dots(dots) + src == Dots(dots) + chunk + rest;
    MatchingConcat(m, Dots(dots) + chunk, rest);
  }

  lemma PageOfNone(c: InfoClass)
    ensures PageSize(c, []) == 0
  {}

  /** A readable directory of at most 128 entries with a buffer that holds all its matching ones is
      listed, dots first, in one reply. */
  method ListAtOnce(all: seq<Entry>, m: Pattern, c: InfoClass, max: nat) returns (status: Status, page: seq<Entry>)
    requires |all| <= 128 && AllReadable(all)
    requires 0 < PageSize(c, Matching(m, [DOT, DOTDOT] + all)) <= max
    ensures status.Success? && page == Matching(m, [DOT, DOTDOT] + all)
  {
    hide Matching;
    hide PageSize;
    hide ItemSize;
    hide Passed;
    PageOfNone(c);
    var d := new DirHandle(all);
    ghost var due := Matching(m, [DOT, DOTDOT] + all);
    assert Chunked(all, 128) == all && d.Remaining() == [DOT, DOTDOT] + all;
    assert Stops(m, true, all, 128);
    StopsHere(m, true, all, 128);
    MatchingNone(m);
    status, page := d.QueryDirectory(Wildcard(m), c, false, max, false);
    assert AtHand(m, true, all, 128) == [DOT, DOTDOT] + all;
    WholePage(c, max, due, status, page, Matching(m, d.Remaining()));
  }

  /** What fits whole is returned whole. */
  lemma WholePage(c: InfoClass, max: nat, due: seq<Entry>, status: Status, page: seq<Entry>, rest: seq<Entry>)
    requires due != [] && PageSize(c, due) <= max && max > 0
    requires Reply(c, max, false, due, status, page, rest) && Filled(c, max, false, due, page)
    ensures status.Success? && page == due
  {
    hide ItemSize;
    hide PageSize;
    PageOfNone(c);
    PageSizePrefix(c, due, 1);
    PageSizeSnoc(c, [], due[0]);
    assert due[..1] == [] + [due[0]];
    assert due[..|due|] == due;
    if page != [] && page != due {
      FilledIsLongest(c, max, due, page, |due|);
    }
  }

  lemma {:induction false} PageSizePrefix(c: InfoClass, items: seq<Entry>, k: nat)
    requires k <= |items|
    ensures PageSize(c, items[..k]) <= PageSize(c, items)
  {
    if k < |items| {
      PageSizePrefix(c, items[..|items| - 1], k);
      assert items[..|items| - 1][..k] == items[..k];
    } else {
      assert items[..k] == items;
    }
  }

  // ----- What a client can miss -----

  const GOOD := Entry([0x61], true)
  const BAD := Entry([0x62], false)

  /** A directory whose second entry cannot be read: the query is denied, and the first entry, which
      could be, is not due any more; only "." and ".." still are. */
  method LoseReadable(max: nat) returns (d: DirHandle, status: Status)
    requires max > 0
    ensures fresh(d) && d.all == [GOOD, BAD] && GOOD.readable
    ensures status.AccessDenied? && d.Remaining() == [DOT, DOTDOT]
  {
    d := new DirHandle([GOOD, BAD]);
    var m: Pattern := _ => true;
    MatchingNone(m);
    var items;
    assert !AllReadable(Chunked([GOOD, BAD], READ_BATCH)) by {
      assert Chunked([GOOD, BAD], READ_BATCH)[1] == BAD;
    }
    assert Stops(m, true, [GOOD, BAD], READ_BATCH);
    StopsHere(m, true, [GOOD, BAD], READ_BATCH);
    status, items := d.QueryDirectory(Wildcard(m), BothDirectory, false, max, false);
  }

  /** One entry of a small directory is returned, which leaves the others pending; a restart with an
      empty buffer then leaves nothing due, neither the rest of the scan nor the scan anew. */
  method ForgetPending(max: nat) returns (d: DirHandle, first: Status, page: seq<Entry>, second: Status)
    requires max >= ItemSize(BothDirectory, DOT)
    ensures fresh(d) && d.all == [GOOD]
    ensures first.Success? && page == [DOT] && second.BufferTooSmall? && d.Remaining() == []
  {
    hide ItemSize;
    hide PageSize;
    hide Filled;
    hide AtHand;
    d := new DirHandle([GOOD]);
    var m: Pattern := _ => true;
    assert Matching(m, [DOT, DOTDOT, GOOD]) == [DOT] + Matching(m, [DOTDOT, GOOD]) by {
      assert [DOT, DOTDOT, GOOD][1..] == [DOTDOT, GOOD];
    }
    assert Dots(true) + Chunked([GOOD], 1) == [DOT, DOTDOT, GOOD] == d.Remaining();
    StopsHere(m, true, [GOOD], 1);
    MatchingNone(m);
    hide Matching;
    hide Passed;
    assert AllReadable(Chunked([GOOD], 1));
    first, page := d.QueryDirectory(Wildcard(m), BothDirectory, true, max, false);
    assert page + Matching(m, d.Remaining()) == [DOT] + Matching(m, [DOTDOT, GOOD]);
    assert (page + Matching(m, d.Remaining()))[0] == DOT;
    var none;
    second, none := d.QueryDirectory(Wildcard(m), BothDirectory, true, 0, true);
  }
}
