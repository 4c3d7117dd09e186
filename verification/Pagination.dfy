/**
 * Pages of a list, pages of an iterable that is never turned into a list, and pages of text.
 * The lazy form refines the list form, and following pages rebuilds what was paged.
 */
module Pagination {
  import opened Wrappers

  datatype Page<T> = Page(items: seq<T>, total: nat, offset: nat, limit: nat, hasMore: bool)

  /** How far past the page the lazy form counts. */
  const COUNT_AHEAD := 10_000

  function Min(a: int, b: int): int {
    if a < b then a else b
  }

  /** A Python slice `s[lo : hi]` with non-negative bounds. */
  function Slice<T>(s: seq<T>, lo: nat, hi: nat): seq<T>
    requires lo <= hi
  {
    s[Min(lo, |s|)..Min(hi, |s|)]
  }

  // ---- Lists ---------------------------------------------------------------------------------

  function Paginate<T>(items: seq<T>, offset: int, limit: int): Page<T> {
    var lo, size := Max(0, offset), Max(1, limit);
    Page(Slice(items, lo, lo + size), |items|, lo, size, lo + size < |items|)
  }

  /** The page holds the items of its range that exist, in order, and nothing else. */
  lemma PageHoldsItsRange<T>(items: seq<T>, offset: int, limit: int)
    ensures var p := Paginate(items, offset, limit);
            && |p.items| == (if |items| <= p.offset then 0
                             else if |items| <= p.offset + p.limit then |items| - p.offset else p.limit)
            && (forall k | 0 <= k < |p.items| :: p.items[k] == items[p.offset + k])
            && p.total == |items|
            && p.offset == (if offset < 0 then 0 else offset) && p.limit == (if limit < 1 then 1 else limit)
            && (p.hasMore <==> p.offset + p.limit < |items|)
            && (p.hasMore ==> |p.items| == p.limit)
  {
  }

  // ---- Iterables -------------------------------------------------------------------------------

  /** The list page with its total cut off at what the lazy form is willing to count. */
  function LazyPage<T>(items: seq<T>, offset: int, limit: int): Page<T> {
    var p := Paginate(items, offset, limit);
    p.(total := Min(|items|, p.offset + p.limit + COUNT_AHEAD))
  }

  /**
   * `paginate_iter`: two loops over one iterator, `next` being the position it has reached.
   * It takes from the iterator exactly the elements it reports as the total.
   */
  method PaginateIter<T>(items: seq<T>, offset: int, limit: int) returns (page: Page<T>, next: nat)
    ensures page == LazyPage(items, offset, limit)
    ensures next == page.total
    ensures page.offset == (if offset < 0 then 0 else offset) && page.limit == (if limit < 1 then 1 else limit)
    ensures |items| <= page.offset + page.limit + 10_000 ==> next == |items|
    ensures |items| > page.offset + page.limit + 10_000 ==> next == page.offset + page.limit + 10_000
  {
    var lo, size := Max(0, offset), Max(1, limit);
    var result: seq<T> := [];
    var total := 0;
    next := 0;

    while next < |items|
      invariant next == total <= |items|
      invariant total <= lo ==> result == []
      invariant total > lo ==> result == items[lo..total]
      invariant |result| < size
    {
      var item := items[next];
      next := next + 1;
      if total >= lo {
        result := result + [item];
        total := total + 1;
        assert result == items[lo..total];
        if |result| >= size {
          break;
        }
        continue;
      }
      total := total + 1;
    }

    assert result == Slice(items, lo, lo + size);
    var hasMore := false;
    var broke := false;
    while next < |items|
      invariant next == total <= |items|
      invariant total <= Max(lo + size, lo + size + COUNT_AHEAD - 1)
      invariant result == Slice(items, lo, lo + size)
      invariant !broke
    {
      next := next + 1;
      total := total + 1;
      if total - lo - size >= COUNT_AHEAD {
        hasMore := true;
        broke := true;
        break;
      }
    }
    if !broke {
      hasMore := lo + size < total;
    }
    page := Page(result, total, lo, size, hasMore);
  }

  /** Items beyond the look-ahead cannot change the page, nor how much is consumed. */
  lemma LookaheadIsBounded<T>(items: seq<T>, more: seq<T>, offset: int, limit: int)
    requires |items| >= (if offset < 0 then 0 else offset) + (if limit < 1 then 1 else limit) + 10_000
    ensures LazyPage(items + more, offset, limit) == LazyPage(items, offset, limit)
  {
  }

  /** Only the total can differ from the list form, and only downwards, when items are left over. */
  lemma LazyRefinesList<T>(items: seq<T>, offset: int, limit: int)
    ensures var lazy, list := LazyPage(items, offset, limit), Paginate(items, offset, limit);
            && lazy.items == list.items && lazy.hasMore == list.hasMore
            && lazy.offset == list.offset && lazy.limit == list.limit
            && (lazy.total != list.total <==> |items| > lazy.offset + lazy.limit + 10_000)
            && (lazy.total != list.total ==>
                  lazy.hasMore && list.total > lazy.total == lazy.offset + lazy.limit + 10_000)
            && lazy.hasMore == (lazy.offset + lazy.limit < lazy.total)
  {
  }

  // ---- Following pages ----------------------------------------------------------------------------

  function AskPage<T>(items: seq<T>, offset: int, limit: int, lazily: bool): Page<T> {
    if lazily then LazyPage(items, offset, limit) else Paginate(items, offset, limit)
  }

  /** Ask for page after page, moving the offset on by the limit, until no more are promised. */
  function FollowPages<T>(items: seq<T>, offset: int, limit: int, lazily: bool): seq<T>
    decreases Max(0, |items| - offset)
  {
    var p := AskPage(items, offset, limit, lazily);
    if p.hasMore then p.items + FollowPages(items, p.offset + p.limit, p.limit, lazily) else p.items
  }

  /** How many requests that takes. */
  function Requests<T>(items: seq<T>, offset: int, limit: int, lazily: bool): nat
    decreases Max(0, |items| - offset)
  {
    var p := AskPage(items, offset, limit, lazily);
    1 + if p.hasMore then Requests(items, p.offset + p.limit, p.limit, lazily) else 0
  }

  /** The list from an offset on. */
  function From<T>(items: seq<T>, offset: int): seq<T> {
    items[Min(Max(0, offset), |items|)..]
  }

  lemma AskedRange<T>(items: seq<T>, offset: int, limit: int, lazily: bool)
    ensures var p := AskPage(items, offset, limit, lazily);
            && p.offset == (if offset < 0 then 0 else offset) && p.limit == (if limit < 1 then 1 else limit)
            && (p.hasMore <==> p.offset + p.limit < |items|)
            && p.items == Slice(items, p.offset, p.offset + p.limit)
  {
  }

  lemma FollowOnce<T>(items: seq<T>, offset: int, limit: int, lazily: bool, p: Page<T>)
    requires p == AskPage(items, offset, limit, lazily)
    ensures FollowPages(items, offset, limit, lazily)
         == if p.hasMore then p.items + FollowPages(items, p.offset + p.limit, p.limit, lazily) else p.items
  {
  }

  lemma Glue<T>(whole: seq<T>, page: seq<T>, rest: seq<T>, items: seq<T>, lo: nat, hi: nat)
    requires lo <= hi <= |items| && whole == page + rest && page == items[lo..hi] && rest == items[hi..]
    ensures whole == items[lo..]
  {
  }

  /** The pages, one after the other, are the list from the first offset on. */
  lemma {:induction false} PagesRebuildTheList<T>(items: seq<T>, offset: int, limit: int, lazily: bool)
    ensures FollowPages(items, offset, limit, lazily)
         == items[if offset < 0 then 0 else if offset < |items| then offset else |items|..]
    decreases Max(0, |items| - offset)
  {
    var p := AskPage(items, offset, limit, lazily);
    AskedRange(items, offset, limit, lazily);
    FollowOnce(items, offset, limit, lazily, p);
    if p.hasMore {
      var next := p.offset + p.limit;
      PagesRebuildTheList(items, next, p.limit, lazily);
      Glue(FollowPages(items, offset, limit, lazily), p.items, FollowPages(items, next, p.limit, lazily),
           items, p.offset, next);
    }
  }

  /** `n` requests of `size` are what `rest` items need, an empty rest needing one. */
  predicate Suffices(n: nat, size: nat, rest: int) {
    (n - 1) * size <= Max(0, rest - 1) && rest <= n * size
  }

  lemma OneMoreSuffices(n: nat, size: nat, rest: int)
    requires Suffices(n, size, rest) && rest > 0
    ensures Suffices(n + 1, size, rest + size)
  {
    assert n * size == (n - 1) * size + size && (n + 1) * size == n * size + size;
  }

  /** The requests by numbers alone: those for the range of `size` items at `lo`, and those after it. */
  function RequestsFor(length: nat, lo: nat, size: nat): nat
    requires size > 0
    decreases if lo < length then length - lo else 0
  {
    1 + if lo + size < length then RequestsFor(length, lo + size, size) else 0
  }

  lemma {:induction false} RequestsByNumbers<T>(items: seq<T>, offset: int, limit: int, lazily: bool)
    ensures Requests(items, offset, limit, lazily) == RequestsFor(|items|, Max(0, offset), Max(1, limit))
    decreases Max(0, |items| - offset)
  {
    var p := AskPage(items, offset, limit, lazily);
    AskedRange(items, offset, limit, lazily);
    if p.hasMore {
      RequestsByNumbers(items, p.offset + p.limit, p.limit, lazily);
    }
  }

  lemma {:induction false} NumbersSuffice(length: nat, lo: nat, size: nat)
    requires size > 0
    ensures Suffices(RequestsFor(length, lo, size), size, length - lo)
    decreases if lo < length then length - lo else 0
  {
    if lo + size < length {
      NumbersSuffice(length, lo + size, size);
      OneMoreSuffices(RequestsFor(length, lo + size, size), size, length - lo - size);
    }
  }

  /** As many requests as the remaining items need, and no more. */
  lemma RequestCount<T>(items: seq<T>, offset: int, limit: int, lazily: bool)
    ensures var n, size := Requests(items, offset, limit, lazily), if limit < 1 then 1 else limit;
            var rest := |items| - if offset < 0 then 0 else offset;
            && (n - 1) * size <= (if rest > 0 then rest - 1 else 0)
            && rest <= n * size
  {
    RequestsByNumbers(items, offset, limit, lazily);
    NumbersSuffice(|items|, Max(0, offset), Max(1, limit));
  }

  // ---- Lines of text ---------------------------------------------------------------------------------

  /** A page of pseudocode (its note is derived from the other fields). */
  datatype LinePage = LinePage(
    text: string, lineCount: nat, startLine: nat, maxLines: nat, hasMore: bool, nextLine: Option<nat>)

  /** `"\n".join(lines)`. */
  function Join(lines: seq<string>): string {
    if lines == [] then ""
    else if |lines| == 1 then lines[0]
    else lines[0] + "\n" + Join(lines[1..])
  }

  function PageLines(lines: seq<string>, startLine: int, maxLines: int): LinePage {
    var start, size := Max(0, startLine), Max(1, maxLines);
    var page := Slice(lines, start, start + size);
    var hasMore := start + |page| < |lines|;
    LinePage(Join(page), |lines|, start, size, hasMore, if hasMore then Some(start + |page|) else None)
  }

  /** `next_line` is given exactly when lines remain, and it is the first line not shown. */
  lemma NextLineIsFirstUnseen(lines: seq<string>, startLine: int, maxLines: int)
    ensures var p := PageLines(lines, startLine, maxLines);
            && p.startLine == (if startLine < 0 then 0 else startLine)
            && p.maxLines == (if maxLines < 1 then 1 else maxLines) && p.lineCount == |lines|
            && p.hasMore == p.nextLine.Some? == (p.startLine + p.maxLines < |lines|)
            && (p.nextLine.Some? ==>
                  p.nextLine.value == p.startLine + p.maxLines < |lines|
                  && p.text == Join(lines[p.startLine..p.nextLine.value]))
            && (p.nextLine.None? ==> p.text == if p.startLine < |lines| then Join(lines[p.startLine..]) else "")
  {
    assert Slice(lines, 0, |lines|) == lines;
  }

  /** Ask for `next_line` until there is none, and put the texts one under the other. */
  function FollowLines(lines: seq<string>, startLine: int, maxLines: int): string
    decreases Max(0, |lines| - startLine)
  {
    var p := PageLines(lines, startLine, maxLines);
    if p.nextLine.None? then p.text
    else p.text + "\n" + FollowLines(lines, p.nextLine.value, p.maxLines)
  }

  /** A joined text has every line in its place, with one newline between one line and the next. */
  lemma {:induction false} JoinHoldsLines(lines: seq<string>, k: nat)
    requires k < |lines|
    ensures Join(lines) == (if k == 0 then "" else Join(lines[..k]) + "\n") + lines[k]
                           + (if k + 1 == |lines| then "" else "\n" + Join(lines[k + 1..]))
  {
    if k > 0 {
      JoinSplits(lines[..k], lines[k..]);
      assert lines == lines[..k] + lines[k..];
    }
    if k + 1 < |lines| {
      assert lines[k..][1..] == lines[k + 1..];
    }
    assert lines[k..][0] == lines[k];
    if k == 0 {
      assert lines[0..] == lines;
    }
  }

  lemma {:induction false} JoinSplits(a: seq<string>, b: seq<string>)
    requires a != [] && b != []
    ensures Join(a + b) == Join(a) + "\n" + Join(b)
  {
    assert (a + b)[1..] == a[1..] + b;
    if |a| > 1 {
      JoinSplits(a[1..], b);
    }
  }

  /** Following `next_line` from the top gives back the whole text. */
  lemma {:induction false} LinesRebuildTheText(lines: seq<string>, startLine: int, maxLines: int)
    ensures FollowLines(lines, startLine, maxLines) == Join(From(lines, startLine))
    decreases Max(0, |lines| - startLine)
  {
    var p := PageLines(lines, startLine, maxLines);
    NextLineIsFirstUnseen(lines, startLine, maxLines);
    if p.nextLine.Some? {
      var next := p.nextLine.value;
      LinesRebuildTheText(lines, next, p.maxLines);
      JoinSplits(lines[p.startLine..next], lines[next..]);
      assert lines[p.startLine..] == lines[p.startLine..next] + lines[next..];
    }
  }
}
