/**
 * `ListPagination`: splits a list of (line, height) entries into pages of
 * at most `max` content lines, then serves pages by 1-based number.
 */
module Pagination {
  import opened Wrappers

  /** One entry: a text line and the number of content lines it takes. */
  datatype Entry<T> = Entry(line: T, height: int)

  type Page<T> = seq<Entry<T>>

  datatype PageError = DoesNotExist(page: int) | TooHigh(page: int)

  /** The content lines a run of entries takes. */
  function Height<T>(s: seq<Entry<T>>): int {
    if |s| == 0 then 0 else Height(s[..|s| - 1]) + s[|s| - 1].height
  }

  function Flatten<T>(pages: seq<Page<T>>): seq<Entry<T>> {
    if |pages| == 0 then [] else Flatten(pages[..|pages| - 1]) + pages[|pages| - 1]
  }

  /** The texts of a page: what the source keeps for it. */
  function Texts<T>(page: Page<T>): (r: seq<T>)
    ensures |r| == |page| && forall i :: 0 <= i < |page| ==> r[i] == page[i].line
  {
    seq(|page|, i requires 0 <= i < |page| => page[i].line)
  }

  /**
   * Within the limit: either the page fits in `max` lines, or every entry
   * but its last takes no lines (a page is never closed while empty).
   */
  predicate Fits<T>(page: Page<T>, max: int) {
    |page| > 0 && (Height(page) <= max || Height(page[..|page| - 1]) == 0)
  }

  /** The constructor closes `page` before `next`: it has lines and `next` would overflow it. */
  predicate Breaks<T>(page: Page<T>, next: Entry<T>, max: int) {
    Height(page) != 0 && Height(page) + next.height > max
  }

  /** No entry of `page` after the first would have closed the page before it. */
  predicate NoInnerBreak<T>(page: Page<T>, max: int) {
    forall j :: 0 < j < |page| ==> !Breaks(page[..j], page[j], max)
  }

  /** What holds of the pages closed so far and the open page, for a positive limit. */
  ghost predicate Greedy<T>(pages: seq<Page<T>>, current: Page<T>, max: int) {
    && (forall k :: 0 <= k < |pages| ==> |pages[k]| > 0)
    && (forall k :: 0 <= k < |pages| ==> Fits(pages[k], max) && NoInnerBreak(pages[k], max))
    && (|current| > 0 ==> Fits(current, max))
    && NoInnerBreak(current, max)
    && (forall k :: 0 <= k < |pages| - 1 ==> Breaks(pages[k], pages[k + 1][0], max))
    && (0 < |pages| ==> 0 < |current| && Breaks(pages[|pages| - 1], current[0], max))
  }

  /** The loop state of the constructor after the first `i` entries. */
  ghost predicate SplitInv<T>(entries: seq<Entry<T>>, max: int, i: int, pages: seq<Page<T>>, current: Page<T>, lines: int) {
    && 0 <= i <= |entries|
    && Flatten(pages) + current == entries[..i]
    && lines == Height(current)
    && (forall k :: 0 <= k < |pages| ==> |pages[k]| > 0)
    && (max <= 0 ==> pages == [] && current == entries[..i])
    && (max > 0 ==> Greedy(pages, current, max))
  }

  /** Closing the open page before an entry that breaks it. */
  lemma GreedyClose<T>(pages: seq<Page<T>>, current: Page<T>, e: Entry<T>, max: int)
    requires max > 0 && Greedy(pages, current, max) && Breaks(current, e, max)
    ensures Greedy(pages + [current], [e], max)
  {
    assert |current| > 0;
    var q := pages + [current];
    assert forall k :: 0 <= k < |pages| ==> q[k] == pages[k];
    assert Height([e][..0]) == 0;
  }

  /** Adding an entry that does not break the open page. */
  lemma GreedyExtend<T>(pages: seq<Page<T>>, current: Page<T>, e: Entry<T>, max: int)
    requires max > 0 && Greedy(pages, current, max) && (|current| == 0 || !Breaks(current, e, max))
    ensures Greedy(pages, current + [e], max)
  {
    HeightSnoc(current, e);
    NoInnerBreakSnoc(current, e, max);
    if 0 < |pages| {
      assert (current + [e])[0] == current[0];
    }
  }

  /** One iteration of the constructor's loop keeps `SplitInv`. */
  lemma SplitStep<T>(entries: seq<Entry<T>>, max: int, i: int, pages: seq<Page<T>>, current: Page<T>, lines: int)
    requires SplitInv(entries, max, i, pages, current, lines) && i < |entries|
    ensures var e := entries[i];
      if max > 0 && e.height + lines > max && lines != 0
      then SplitInv(entries, max, i + 1, pages + [current], [e], e.height)
      else SplitInv(entries, max, i + 1, pages, current + [e], lines + e.height)
  {
    var e := entries[i];
    assert entries[..i + 1] == entries[..i] + [e];
    if max > 0 && e.height + lines > max && lines != 0 {
      FlattenSnoc(pages, current);
      GreedyClose(pages, current, e, max);
      assert Height([e]) == Height([e][..0]) + e.height;
    } else {
      HeightSnoc(current, e);
      if max > 0 {
        GreedyExtend(pages, current, e, max);
      }
    }
  }

  /**
   * `pages` are non-empty and hold a prefix of `entries` in order; what
   * they leave out takes no lines.
   */
  ghost predicate Covers<T>(entries: seq<Entry<T>>, pages: seq<Page<T>>) {
    && (forall k :: 0 <= k < |pages| ==> |pages[k]| > 0)
    && |Flatten(pages)| <= |entries| && Flatten(pages) == entries[..|Flatten(pages)|]
    && Height(entries[|Flatten(pages)|..]) <= 0
  }

  /**
   * The greedy rule for a positive limit: every page fits; each page was
   * closed because the next entry (the next page's first, or the first of
   * the dropped tail) broke it; and no entry inside a page or the dropped
   * tail broke the entries before it.
   */
  ghost predicate GreedyPages<T>(entries: seq<Entry<T>>, pages: seq<Page<T>>, max: int)
    requires Covers(entries, pages)
  {
    && (forall k :: 0 <= k < |pages| ==> Fits(pages[k], max) && NoInnerBreak(pages[k], max))
    && (forall k :: 0 <= k < |pages| - 1 ==> Breaks(pages[k], pages[k + 1][0], max))
    && (0 < |pages| && |Flatten(pages)| < |entries| ==> Breaks(pages[|pages| - 1], entries[|Flatten(pages)|], max))
    && NoInnerBreak(entries[|Flatten(pages)|..], max)
    && (0 < |pages| && |Flatten(pages)| == |entries| ==> Height(pages[|pages| - 1]) > 0)
  }

  /**
   * The constructor's page split. A page is closed before an entry only
   * when a positive limit is set, the entry would overflow it, and the page
   * already has lines; the last page is kept only if it has lines.
   */
  method BuildPages<T>(entries: seq<Entry<T>>, max: int) returns (pages: seq<Page<T>>)
    ensures Covers(entries, pages)
    ensures max <= 0 ==> pages == if Height(entries) > 0 then [entries] else []
    ensures max > 0 ==> GreedyPages(entries, pages, max)
  {
    pages := [];
    var current: Page<T> := [];
    var currentLines := 0;
    for i := 0 to |entries|
      invariant SplitInv(entries, max, i, pages, current, currentLines)
    {
      SplitStep(entries, max, i, pages, current, currentLines);
      var e := entries[i];
      if max > 0 && e.height + currentLines > max && currentLines != 0 {
        currentLines := 0;
        pages := pages + [current];
        current := [];
      }
      currentLines := currentLines + e.height;
      current := current + [e];
    }
    if currentLines > 0 {
      SplitKeep(entries, max, pages, current, currentLines);
      pages := pages + [current];
    } else {
      SplitDrop(entries, max, pages, current, currentLines);
    }
  }

  /** After the loop, an open page with lines is kept as the last page. */
  lemma SplitKeep<T>(entries: seq<Entry<T>>, max: int, pages: seq<Page<T>>, current: Page<T>, lines: int)
    requires SplitInv(entries, max, |entries|, pages, current, lines) && lines > 0
    ensures Covers(entries, pages + [current])
    ensures max <= 0 ==> pages + [current] == if Height(entries) > 0 then [entries] else []
    ensures max > 0 ==> GreedyPages(entries, pages + [current], max)
  {
    var r := pages + [current];
    assert entries[..|entries|] == entries;
    FlattenSnoc(pages, current);
    assert |current| > 0;
    assert Flatten(r) == entries;
    assert entries[|Flatten(r)|..] == [];
    assert forall k :: 0 <= k < |pages| ==> r[k] == pages[k];
    if max <= 0 {
      assert Flatten<T>([]) == [];
    } else {
      KeepGreedy(entries, max, pages, current);
    }
  }

  lemma KeepGreedy<T>(entries: seq<Entry<T>>, max: int, pages: seq<Page<T>>, current: Page<T>)
    requires max > 0 && Greedy(pages, current, max) && |current| > 0 && Height(current) > 0
    requires Covers(entries, pages + [current]) && Flatten(pages + [current]) == entries
    ensures GreedyPages(entries, pages + [current], max)
  {
    var r := pages + [current];
    assert forall k :: 0 <= k < |pages| ==> r[k] == pages[k];
    assert r[|r| - 1] == current;
    assert entries[|Flatten(r)|..] == [];
  }

  /** After the loop, an open page without lines is dropped. */
  lemma SplitDrop<T>(entries: seq<Entry<T>>, max: int, pages: seq<Page<T>>, current: Page<T>, lines: int)
    requires SplitInv(entries, max, |entries|, pages, current, lines) && lines <= 0
    ensures Covers(entries, pages)
    ensures max <= 0 ==> pages == if Height(entries) > 0 then [entries] else []
    ensures max > 0 ==> GreedyPages(entries, pages, max)
  {
    assert entries[..|entries|] == entries;
    assert entries[|Flatten(pages)|..] == current;
    if max <= 0 {
      assert Flatten<T>([]) == [];
    }
  }

  lemma {:induction false} FlattenCons<T>(pages: seq<Page<T>>)
    requires |pages| > 0
    ensures Flatten(pages) == pages[0] + Flatten(pages[1..])
    decreases |pages|
  {
    if |pages| > 1 {
      var init := pages[..|pages| - 1];
      FlattenCons(init);
      assert init[1..] == pages[1..][..|pages[1..]| - 1];
    } else {
      assert Flatten(pages[..0]) == [];
    }
  }

  /** What the contract says about the first page: the entries up to the first break. */
  lemma FirstPage<T>(entries: seq<Entry<T>>, pages: seq<Page<T>>, max: int)
    requires Covers(entries, pages) && GreedyPages(entries, pages, max) && |pages| > 0
    ensures 0 < |pages[0]| <= |entries| && pages[0] == entries[..|pages[0]|] && NoInnerBreak(pages[0], max)
    ensures |pages[0]| < |entries| ==> Breaks(pages[0], entries[|pages[0]|], max)
    ensures |pages[0]| == |entries| ==> |pages| == 1 && Height(pages[0]) > 0
  {
    var b := pages[0];
    FlattenCons(pages);
    var f := Flatten(pages);
    assert f[..|b|] == b;
    if |pages| > 1 {
      FlattenCons(pages[1..]);
      assert pages[1..][0] == pages[1];
      assert f[|b|] == pages[1][0];
    } else {
      assert pages[1..] == [];
      assert f == b;
    }
  }

  /** After its first page, a split satisfying the contract is one for the remaining entries. */
  lemma RestPages<T>(entries: seq<Entry<T>>, pages: seq<Page<T>>, max: int)
    requires Covers(entries, pages) && GreedyPages(entries, pages, max) && |pages| > 0
    ensures |pages[0]| <= |entries|
    ensures Covers(entries[|pages[0]|..], pages[1..]) && GreedyPages(entries[|pages[0]|..], pages[1..], max)
  {
    var n := |pages[0]|;
    FlattenCons(pages);
    var rest, tail := entries[n..], pages[1..];
    var f := Flatten(pages);
    assert Flatten(tail) == f[n..];
    assert Flatten(tail) == rest[..|Flatten(tail)|];
    assert rest[|Flatten(tail)|..] == entries[|f|..];
    assert forall k :: 0 <= k < |tail| ==> tail[k] == pages[k + 1];
  }

  /** A non-empty split satisfying the contract exists only if the entries have lines or a break. */
  lemma PagesNeedLinesOrBreak<T>(entries: seq<Entry<T>>, max: int, p: seq<Page<T>>)
    requires Covers(entries, p) && GreedyPages(entries, p, max) && |p| > 0
    ensures Height(entries) > 0 || !NoInnerBreak(entries, max)
  {
    FirstPage(entries, p, max);
    var n := |p[0]|;
    if n < |entries| {
      assert entries[..n] == p[0];
    } else {
      assert entries[..n] == entries;
    }
  }

  /** Two first pages that each run to the first break of the entries are the same. */
  lemma SameFirstBreak<T>(entries: seq<Entry<T>>, max: int, a: Page<T>, b: Page<T>)
    requires 0 < |a| <= |entries| && a == entries[..|a|] && NoInnerBreak(a, max)
    requires 0 < |b| <= |entries| && b == entries[..|b|] && NoInnerBreak(b, max)
    requires |a| < |entries| ==> Breaks(a, entries[|a|], max)
    requires |b| < |entries| ==> Breaks(b, entries[|b|], max)
    ensures a == b
  {
    if |a| < |b| {
      PrefixAt(entries, b, |a|);
      assert false;
    } else if |b| < |a| {
      PrefixAt(entries, a, |b|);
      assert false;
    }
  }

  lemma PrefixAt<T>(entries: seq<Entry<T>>, b: Page<T>, n: int)
    requires |b| <= |entries| && b == entries[..|b|] && 0 <= n < |b|
    ensures b[..n] == entries[..n] && b[n] == entries[n]
  {
  }

  /** Two splits satisfying the contract start with the same page. */
  lemma FirstPagesAgree<T>(entries: seq<Entry<T>>, max: int, p1: seq<Page<T>>, p2: seq<Page<T>>)
    requires Covers(entries, p1) && GreedyPages(entries, p1, max) && |p1| > 0
    requires Covers(entries, p2) && GreedyPages(entries, p2, max) && |p2| > 0
    ensures p1[0] == p2[0]
  {
    FirstPage(entries, p1, max);
    FirstPage(entries, p2, max);
    SameFirstBreak(entries, max, p1[0], p2[0]);
  }

  /**
   * The contract determines the split: two page lists that both cover the
   * entries and follow the greedy rule are the same list.
   */
  lemma {:induction false} GreedyUnique<T>(entries: seq<Entry<T>>, max: int, p1: seq<Page<T>>, p2: seq<Page<T>>)
    requires Covers(entries, p1) && GreedyPages(entries, p1, max)
    requires Covers(entries, p2) && GreedyPages(entries, p2, max)
    ensures p1 == p2
    decreases |p1| + |p2|
  {
    if |p1| == 0 || |p2| == 0 {
      assert Flatten<T>([]) == [] && entries[0..] == entries;
      if |p1| > 0 {
        PagesNeedLinesOrBreak(entries, max, p1);
      } else if |p2| > 0 {
        PagesNeedLinesOrBreak(entries, max, p2);
      }
    } else {
      FirstPagesAgree(entries, max, p1, p2);
      RestPages(entries, p1, max);
      RestPages(entries, p2, max);
      GreedyUnique(entries[|p1[0]|..], max, p1[1..], p2[1..]);
      assert p1 == [p1[0]] + p1[1..] && p2 == [p2[0]] + p2[1..];
    }
  }

  /** Appending an entry that does not overflow a page with lines keeps the page free of inner breaks. */
  lemma NoInnerBreakSnoc<T>(page: Page<T>, e: Entry<T>, max: int)
    requires NoInnerBreak(page, max) && (|page| == 0 || !Breaks(page, e, max))
    ensures NoInnerBreak(page + [e], max)
  {
    var q := page + [e];
    forall j | 0 < j < |q|
      ensures !Breaks(q[..j], q[j], max)
    {
      if j < |page| {
        assert q[..j] == page[..j];
      } else {
        assert q[..j] == page;
      }
    }
  }

  lemma FlattenSnoc<T>(pages: seq<Page<T>>, page: Page<T>)
    ensures Flatten(pages + [page]) == Flatten(pages) + page
  {
    assert (pages + [page])[..|pages|] == pages;
  }

  lemma HeightSnoc<T>(s: seq<Entry<T>>, e: Entry<T>)
    ensures Height(s + [e]) == Height(s) + e.height
    ensures (s + [e])[..|s|] == s
  {
    assert (s + [e])[..|s|] == s;
  }

  /** A built pagination: the pages the constructor produced. */
  datatype ListPagination<T> = ListPagination(pages: seq<Page<T>>)

  /** `getLines(page)`: pages are numbered from 1; anything else is an error. */
  function GetLines<T>(p: ListPagination<T>, page: int): (r: Result<seq<T>, PageError>)
    ensures r.Ok? <==> 1 <= page <= |p.pages|
    ensures page < 1 ==> r == Err(DoesNotExist(page))
    ensures page > |p.pages| && page >= 1 ==> r == Err(TooHigh(page))
    ensures r.Ok? ==> r.value == Texts(p.pages[page - 1])
  {
    if page < 1 then Err(DoesNotExist(page))
    else if page > |p.pages| then Err(TooHigh(page))
    else Ok(Texts(p.pages[page - 1]))
  }

  predicate HasPrevious<T>(p: ListPagination<T>, page: int) { page > 1 }

  predicate HasNext<T>(p: ListPagination<T>, page: int) { page < |p.pages| }

  function TotalPages<T>(p: ListPagination<T>): nat { |p.pages| }

  /** From an existing page, there is a previous (next) page exactly when that page can be fetched. */
  lemma NavigationAgreesWithGetLines<T>(p: ListPagination<T>, page: int)
    requires GetLines(p, page).Ok?
    ensures HasPrevious(p, page) <==> GetLines(p, page - 1).Ok?
    ensures HasNext(p, page) <==> GetLines(p, page + 1).Ok?
    ensures GetLines(p, TotalPages(p) + 1).Err?
  {
  }

  lemma {:induction false} PositiveHeight<T>(s: seq<Entry<T>>)
    requires |s| > 0 && forall i :: 0 <= i < |s| ==> s[i].height > 0
    ensures Height(s) > 0
    decreases |s|
  {
    if |s| > 1 {
      PositiveHeight(s[..|s| - 1]);
    }
  }

  /**
   * Why `PositiveHeights` asks for positive heights, not non-negative ones:
   * an entry of height 0 opens a page without giving it lines, so the next
   * entry joins it however tall it is. Heights [0, 10] with max 5 make one
   * page of height 10 holding both entries, and the constructor's contract
   * admits no other split.
   */
  lemma ZeroHeightJoinsTallEntry<T>(a: Entry<T>, b: Entry<T>, pages: seq<Page<T>>)
    requires a.height == 0 && b.height == 10
    requires Covers([a, b], pages) && GreedyPages([a, b], pages, 5)
    ensures pages == [[a, b]] && Height(pages[0]) == 10 > 5
  {
    ZeroHeightPage(a, b);
    GreedyUnique([a, b], 5, pages, [[a, b]]);
  }

  /** The single page [a, b] follows the greedy rule for heights [0, 10] and max 5. */
  lemma ZeroHeightPage<T>(a: Entry<T>, b: Entry<T>)
    requires a.height == 0 && b.height == 10
    ensures Height([a, b]) == 10
    ensures Covers([a, b], [[a, b]]) && GreedyPages([a, b], [[a, b]], 5)
  {
    var entries := [a, b];
    assert Height([a]) == 0 by { assert [a][..0] == []; }
    assert [a, b][..1] == [a];
    assert Height([a, b]) == 10;
    assert Flatten([[a, b]]) == entries by { assert [[a, b]][..0] == []; }
    assert entries[..2] == entries && entries[2..] == [];
    assert NoInnerBreak(entries, 5);
  }

  /**
   * With every height positive, the pages are the entries in order, cut
   * into pieces, and every page within the limit holds a single entry.
   */
  lemma PositiveHeights<T>(entries: seq<Entry<T>>, max: int, pages: seq<Page<T>>)
    requires forall i :: 0 <= i < |entries| ==> entries[i].height > 0
    requires Covers(entries, pages)
    requires forall k :: 0 <= k < |pages| ==> Fits(pages[k], max)
    ensures Flatten(pages) == entries
    ensures forall k :: 0 <= k < |pages| ==> Height(pages[k]) <= max || |pages[k]| == 1
  {
    var rest := entries[|Flatten(pages)|..];
    if |rest| > 0 {
      PositiveHeight(rest);
    }
    assert entries[..|entries|] == entries;
    forall k | 0 <= k < |pages|
      ensures Height(pages[k]) <= max || |pages[k]| == 1
    {
      var page := pages[k];
      if Height(page) > max && |page| > 1 {
        assert forall i :: 0 <= i < |page| ==> page[i] in Flatten(pages) by {
          FlattenContains(pages, k);
        }
        PositiveHeight(page[..|page| - 1]);
      }
    }
  }

  lemma {:induction false} FlattenContains<T>(pages: seq<Page<T>>, k: int)
    requires 0 <= k < |pages|
    ensures forall i :: 0 <= i < |pages[k]| ==> pages[k][i] in Flatten(pages)
    decreases |pages|
  {
    if k < |pages| - 1 {
      FlattenContains(pages[..|pages| - 1], k);
    }
  }
}
