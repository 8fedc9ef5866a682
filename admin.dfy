/** The listing endpoint of the admin page (`handleGetIPs`: search, then one
    page of the snapshot) and the two page helpers of its script
    (`buildPages`, `gotoPage`). */
module Admin {
  import opened Wrappers
  import opened PhpText
  import opened LocalStore

  function Min(a: int, b: int): int {
    if a <= b then a else b
  }

  function Max(a: int, b: int): int {
    if a >= b then a else b
  }

  // ---------------------------------------------------------------- search

  /** ASCII lower case, the folding `stripos` compares under. */
  function Lower(c: char): char {
    if 'A' <= c <= 'Z' then (c as int + 32) as char else c
  }

  function LowerAll(s: string): (r: string)
    ensures |r| == |s| && forall i :: 0 <= i < |s| ==> r[i] == Lower(s[i])
  {
    seq(|s|, i requires 0 <= i < |s| => Lower(s[i]))
  }

  /** `stripos($hay, $needle) !== false`: the needle occurs somewhere,
      ignoring ASCII case. */
  predicate ContainsCI(hay: string, needle: string) {
    exists i :: 0 <= i && i + |needle| <= |hay| && MatchesAt(hay, needle, i)
  }

  /** The needle occurs at position `i` of the haystack, ignoring ASCII case. */
  predicate MatchesAt(hay: string, needle: string, i: int)
    requires 0 <= i && i + |needle| <= |hay|
  {
    LowerAll(hay[i..i + |needle|]) == LowerAll(needle)
  }

  /** The callback of `array_filter`: the address or the description holds the needle. */
  predicate Keeps(e: Entry, needle: string) {
    ContainsCI(e.ip, needle) || ContainsCI(e.description, needle)
  }

  /** `array_filter` followed by positional slicing: the kept entries in their order. */
  function Filter(s: seq<Entry>, needle: string): (r: seq<Entry>)
    ensures |r| <= |s|
    decreases |s|
  {
    if s == [] then [] else (if Keeps(s[0], needle) then [s[0]] else []) + Filter(s[1..], needle)
  }

  /** The filter works entry by entry: it distributes over concatenation. */
  lemma {:induction false} FilterAppend(a: seq<Entry>, b: seq<Entry>, needle: string)
    ensures Filter(a + b, needle) == Filter(a, needle) + Filter(b, needle)
    decreases |a|
  {
    if a != [] {
      assert (a + b)[1..] == a[1..] + b;
      FilterAppend(a[1..], b, needle);
    } else {
      assert a + b == b;
    }
  }

  /** The filter keeps exactly the entries that hold the needle. */
  lemma {:induction false} FilterMembers(s: seq<Entry>, needle: string, e: Entry)
    ensures e in Filter(s, needle) <==> e in s && Keeps(e, needle)
    decreases |s|
  {
    if s != [] {
      FilterMembers(s[1..], needle, e);
      assert e in s <==> e == s[0] || e in s[1..];
    }
  }

  /** Every string contains the empty needle, so filtering by it keeps all. */
  lemma {:induction false} FilterEmptyNeedle(s: seq<Entry>)
    ensures Filter(s, "") == s
    decreases |s|
  {
    if s != [] {
      assert MatchesAt(s[0].ip, "", 0);
      FilterEmptyNeedle(s[1..]);
    }
  }

  /** `trim($_POST['search'] ?? '')`, then the filter unless the needle is
      `empty()` (the string "0" counts as empty). */
  function Searched(entries: seq<Entry>, search: Option<string>): seq<Entry> {
    var needle := Trim(if search.Some? then search.value else "");
    if needle == "" || needle == "0" then entries else Filter(entries, needle)
  }

  // ------------------------------------------------------------ pagination

  /** `ceil($total / $perPage)` for a non-zero divisor. */
  function CeilDiv(total: nat, perPage: int): (r: int)
    requires perPage != 0
    ensures perPage > 0 ==> r >= 0 && (r - 1) * perPage < total <= r * perPage
  {
    if perPage > 0 then (total + perPage - 1) / perPage else -(total / -perPage)
  }

  /** `array_slice($a, $offset, $length)` on a list: a negative offset counts
      from the end, a negative length stops that many before the end. */
  function ArraySlice<T>(a: seq<T>, offset: int, length: int): (r: seq<T>)
    ensures |r| <= |a|
    ensures 0 <= offset && 0 <= length ==>
      r == a[Min(offset, |a|)..Min(offset + length, |a|)]
  {
    var from := if offset < 0 then Max(0, |a| + offset) else Min(offset, |a|);
    var to := if length < 0 then |a| + length else Min(from + length, |a|);
    if to <= from then [] else a[from..to]
  }

  datatype Pagination = Pagination(
    currentPage: int, perPage: int, total: nat, totalPages: int, hasPrev: bool, hasNext: bool)

  datatype Listing = Listing(ips: seq<Entry>, pagination: Pagination)

  /** `intval($_POST['per_page'] ?? 10)`. */
  function PageSize(perPage: Option<string>): int {
    if perPage.Some? then StringIntCast(perPage.value) else 10
  }

  /** `intval($_POST['page'] ?? 1)`. */
  function RequestedPage(page: Option<string>): int {
    if page.Some? then StringIntCast(page.value) else 1
  }

  /** One page of the filtered list: the page count is the ceiling
      quotient, the requested page is clamped into it and the slice starts
      at (page - 1) * size. A page size of 0 divides by zero. */
  function Paginate(ips: seq<Entry>, requested: int, size: int): Result<Listing> {
    if size == 0 then Threw(Error("Division by zero"))
    else
      var totalPages := CeilDiv(|ips|, size);
      var current := Max(1, Min(requested, totalPages));
      var start := (current - 1) * size;
      Ok(Listing(ArraySlice(ips, start, size),
                 Pagination(current, size, |ips|, totalPages, current > 1, current < totalPages)))
  }

  /** `handleGetIPs` on the snapshot and the posted fields. The division by
      zero is an `Error`, which the handler's `catch (Exception)` does not
      catch. */
  function GetIPs(entries: seq<Entry>, search: Option<string>, page: Option<string>, perPage: Option<string>): Result<Listing> {
    Paginate(Searched(entries, search), RequestedPage(page), PageSize(perPage))
  }

  /** With a positive page size: the total is the list's length, the page
      count its ceiling quotient, the page is clamped into [1, max(1, pages)]
      and kept when it is a page, and the slice is the run starting at
      (page - 1) * size, at most `size` long. */
  lemma PaginateShape(ips: seq<Entry>, requested: int, size: int)
    requires size >= 1
    ensures var r := Paginate(ips, requested, size);
      r.Ok? &&
      var p := r.value.pagination;
      && p.total == |ips| && p.perPage == size && p.totalPages == CeilDiv(|ips|, size)
      && (p.totalPages - 1) * size < |ips| <= p.totalPages * size
      && 1 <= p.currentPage <= Max(1, p.totalPages)
      && (1 <= requested <= p.totalPages ==> p.currentPage == requested)
      && |r.value.ips| <= size
      && var start := (p.currentPage - 1) * size;
      && 0 <= start
      && r.value.ips == ips[Min(start, |ips|)..Min(start + size, |ips|)]
      && (p.hasPrev <==> p.currentPage > 1)
      && (p.hasNext <==> p.currentPage < p.totalPages)
  {
    var pages := CeilDiv(|ips|, size);
    var current := Max(1, Min(requested, pages));
    var start := (current - 1) * size;
    PageArithmetic(|ips|, size, requested);
    var r := Paginate(ips, requested, size);
    assert r == Ok(Listing(ArraySlice(ips, start, size),
                   Pagination(current, size, |ips|, pages, current > 1, current < pages)));
    assert ArraySlice(ips, start, size) == ips[Min(start, |ips|)..Min(start + size, |ips|)];
  }

  /** The integer facts behind one page: the clamped page starts at a
      non-negative offset and ends `size` later. */
  lemma PageArithmetic(total: nat, size: int, requested: int)
    requires size >= 1
    ensures var current := Max(1, Min(requested, CeilDiv(total, size)));
      0 <= (current - 1) * size && (current - 1) * size + size == current * size
  {
    var current := Max(1, Min(requested, CeilDiv(total, size)));
    assert current - 1 >= 0;
  }

  /** A page size of 0 is a division by zero. */
  lemma ZeroPageSize(entries: seq<Entry>, search: Option<string>, page: Option<string>, perPage: Option<string>)
    requires PageSize(perPage) == 0
    ensures GetIPs(entries, search, page, perPage) == Threw(Error("Division by zero"))
  {
  }

  lemma DivMod(k: nat, size: nat)
    requires size >= 1
    ensures (k / size) * size + k % size == k && 0 <= k % size < size
  {
  }

  /** Every filtered entry is shown: entry k is at position k % size of the
      page k / size + 1, when that page number is posted. */
  lemma EveryEntryOnItsPage(entries: seq<Entry>, search: Option<string>, perPage: Option<string>, k: nat)
    requires PageSize(perPage) >= 1 && k < |Searched(entries, search)|
    ensures var size := PageSize(perPage);
      var r := GetIPs(entries, search, Some(IntToString(k / size + 1)), perPage);
      r.Ok? && r.value.pagination.currentPage == k / size + 1 &&
      k % size < |r.value.ips| && r.value.ips[k % size] == Searched(entries, search)[k]
  {
    var size := PageSize(perPage);
    IntToStringRoundTrip(k / size + 1);
    assert RequestedPage(Some(IntToString(k / size + 1))) == k / size + 1;
    EntryOnPage(Searched(entries, search), size, k);
  }

  /** Entry k of a list lies at position k % size of page k / size + 1. */
  lemma EntryOnPage(ips: seq<Entry>, size: int, k: nat)
    requires size >= 1 && k < |ips|
    ensures var r := Paginate(ips, k / size + 1, size);
      r.Ok? && r.value.pagination.currentPage == k / size + 1 &&
      k % size < |r.value.ips| && r.value.ips[k % size] == ips[k]
  {
    DivMod(k, size);
    EntryPageNumber(ips, size, k);
    EntryPageSlice(ips, size, k);
    SliceIndex(ips, k - k % size, size, k % size);
  }

  /** The page number k / size + 1 is one of the pages, so it is kept. */
  lemma EntryPageNumber(ips: seq<Entry>, size: int, k: nat)
    requires size >= 1 && k < |ips|
    ensures var r := Paginate(ips, k / size + 1, size);
      r.Ok? && r.value.pagination.currentPage == k / size + 1
  {
    QuotientBelowPages(|ips|, size, k);
    PaginateShape(ips, k / size + 1, size);
  }

  /** The page k / size + 1 starts at k - k % size. */
  lemma EntryPageSlice(ips: seq<Entry>, size: int, k: nat)
    requires size >= 1 && k < |ips|
    requires Paginate(ips, k / size + 1, size).Ok?
    requires Paginate(ips, k / size + 1, size).value.pagination.currentPage == k / size + 1
    ensures Paginate(ips, k / size + 1, size).value.ips
      == ips[Min(k - k % size, |ips|)..Min(k - k % size + size, |ips|)]
  {
    DivMod(k, size);
    PaginateShape(ips, k / size + 1, size);
    assert (k / size + 1 - 1) * size == k - k % size;
  }

  /** Position `rest` of a slice that starts at `start` is `start + rest`. */
  lemma SliceIndex(ips: seq<Entry>, start: int, size: int, rest: int)
    requires 0 <= start && 0 <= rest < size && start + rest < |ips|
    ensures var page := ips[Min(start, |ips|)..Min(start + size, |ips|)];
      rest < |page| && page[rest] == ips[start + rest]
  {
  }

  /** A position below the total lies on one of the pages. */
  lemma QuotientBelowPages(total: nat, size: int, k: nat)
    requires size >= 1 && k < total
    ensures k / size < CeilDiv(total, size)
  {
    var q := k / size;
    var pages := CeilDiv(total, size);
    DivMod(k, size);
    if q >= pages {
      MulMono(pages, q, size);
    }
  }

  lemma MulMono(a: int, b: int, c: nat)
    requires a <= b
    ensures a * c <= b * c
  {
  }

  // ------------------------------------------------------------ page window

  /** `Array.from({length: hi - lo + 1}, (_, i) => lo + i)`: a negative
      length gives the empty array. */
  function Range(lo: int, hi: int): (r: seq<int>)
    ensures |r| == if hi < lo then 0 else hi - lo + 1
    ensures forall i :: 0 <= i < |r| ==> r[i] == lo + i
  {
    if hi < lo then [] else seq(hi - lo + 1, i => lo + i)
  }

  /** `buildPages(current, total, max)`: a window of page numbers around
      `current`, shifted left when it would run past `total`. */
  function BuildPages(current: int, total: int, max: int): seq<int> {
    var half := max / 2;
    var start := Max(1, current - half);
    var end := Min(total, start + max - 1);
    var first := if end - start + 1 < max then Max(1, end - max + 1) else start;
    Range(first, end)
  }

  /** The window is a run of consecutive pages inside [1, total], exactly
      min(max, total) long, and holds `current` whenever it is a page. */
  lemma BuildPagesWindow(current: int, total: int, max: int)
    requires max >= 1 && total >= 0
    ensures var r := BuildPages(current, total, max);
      && |r| == Min(max, total)
      && (forall i :: 0 <= i < |r| ==> r[i] == r[0] + i)
      && (|r| > 0 ==> 1 <= r[0] && r[|r| - 1] <= total)
      && (1 <= current <= total ==> current in r)
  {
    var r := BuildPages(current, total, max);
    var half := max / 2;
    var start := Max(1, current - half);
    var end := Min(total, start + max - 1);
    var first := if end - start + 1 < max then Max(1, end - max + 1) else start;
    assert half <= max - 1;
    assert r == Range(first, end);
    if 1 <= current <= total {
      assert first <= current <= end;
      assert r[current - first] == current;
    }
  }

  // --------------------------------------------------------------- gotoPage

  /** The page `gotoPage(p)` settles on: `p` clamped into
      [1, state.totalPages || 1]. */
  function GotoTarget(p: int, totalPages: int): (t: int)
    ensures t >= 1
    ensures totalPages >= 1 ==> t <= totalPages
    ensures 1 <= p <= Max(1, totalPages) && totalPages >= 0 ==> t == p
  {
    var total := if totalPages == 0 then 1 else totalPages;
    Max(1, Min(p, total))
  }

  /** Going to the page one has just gone to changes nothing. */
  lemma GotoIdempotent(p: int, totalPages: int)
    ensures GotoTarget(GotoTarget(p, totalPages), totalPages) == GotoTarget(p, totalPages)
  {
  }

  /** The part of the page script's `state` that `gotoPage` reads and
      writes; `refreshes` counts the calls of `refresh()`, whose request and
      rendering are not modelled. */
  class Pager {
    var page: int
    var totalPages: int
    var refreshes: nat

    constructor (page: int, totalPages: int)
      ensures this.page == page && this.totalPages == totalPages && refreshes == 0
    {
      this.page := page;
      this.totalPages := totalPages;
      refreshes := 0;
    }

    /** `gotoPage(p)`: nothing happens when the clamped target is the
        current page; otherwise the page moves there and refreshes. */
    method GotoPage(p: int)
      modifies this
      ensures totalPages == old(totalPages)
      ensures page == GotoTarget(p, totalPages)
      ensures refreshes == old(refreshes) + (if GotoTarget(p, totalPages) == old(page) then 0 else 1)
    {
      var total := if totalPages == 0 then 1 else totalPages;
      var target := Max(1, Min(p, total));
      if target == page {
        return;
      }
      page := target;
      refreshes := refreshes + 1;
    }
  }
}
