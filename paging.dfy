/** Spring Data's `Page` as the repositories return it for a `PageRequest.of(page, size)`:
    one slice of the query's rows, the number of rows the query matched, and the number of
    pages of `size` rows those fill. */
module Paging {

  datatype Page<T> = Page(content: seq<T>, totalElements: nat, totalPages: nat)

  function Min(a: int, b: int): int { if a <= b then a else b }

  /** The number of pages of `size` rows that `n` rows fill, `ceil(n / size)`. */
  function CeilDiv(n: nat, size: nat): (q: nat)
    requires size >= 1
    ensures q * size >= n
    ensures q == 0 || (q - 1) * size < n
  {
    var q := (n + size - 1) / size;
    var r := (n + size - 1) % size;
    assert n + size - 1 == q * size + r && 0 <= r < size;
    assert (q - 1) * size == q * size - size;
    q
  }

  /** Page number `page` (counting from 0) of the rows `s`, with `size` rows per page.
      `PageRequest.of` refuses a size below one, so that is what callers must supply. */
  function PageOf<T>(s: seq<T>, page: nat, size: nat): (p: Page<T>)
    requires size >= 1
    ensures p.totalElements == |s|
    ensures p.totalPages * size >= |s| && (p.totalPages == 0 || (p.totalPages - 1) * size < |s|)
    ensures page * size < |s| ==> p.content == s[page * size .. Min(|s|, page * size + size)]
    ensures |p.content| == if page * size < |s| then Min(size, |s| - page * size) else 0
    ensures forall i :: 0 <= i < |p.content| ==> p.content[i] in s
  {
    var start := page * size;
    var content := if start < |s| then s[start .. Min(|s|, start + size)] else [];
    Page(content, |s|, CeilDiv(|s|, size))
  }

  /** Row `i` of a page is row `page * size + i` of the query. */
  lemma PageRows<T>(s: seq<T>, page: nat, size: nat)
    requires size >= 1
    ensures var c := PageOf(s, page, size).content;
            forall i :: 0 <= i < |c| ==> page * size + i < |s| && c[i] == s[page * size + i]
  {
  }

  /** Two rows fit on one page of ten. */
  lemma FirstPageOfTwo<T>(x: T, y: T, size: nat)
    requires size >= 2
    ensures PageOf([x, y], 0, size).content == [x, y]
  {
    assert [x, y][0..2] == [x, y];
  }

  /** The rows of pages 0 up to (not including) `n`, one page after the other. */
  function Pages<T>(s: seq<T>, n: nat, size: nat): seq<T>
    requires size >= 1
  {
    if n == 0 then [] else Pages(s, n - 1, size) + PageOf(s, n - 1, size).content
  }

  /** The first `n` pages hold exactly the first `n * size` rows, in order. */
  lemma {:induction false} PagesArePrefix<T>(s: seq<T>, n: nat, size: nat)
    requires size >= 1
    ensures Pages(s, n, size) == s[..Min(|s|, n * size)]
  {
    if n > 0 {
      PagesArePrefix(s, n - 1, size);
      var start := (n - 1) * size;
      MulStep(n - 1, size);
      if start < |s| {
        assert s[..start] + s[start..Min(|s|, n * size)] == s[..Min(|s|, n * size)];
      } else {
        assert Min(|s|, start) == |s| == Min(|s|, n * size);
      }
    }
  }

  /** Reading every page reports every row exactly once, in order: paging loses and repeats nothing. */
  lemma PagesReassemble<T>(s: seq<T>, size: nat)
    requires size >= 1
    ensures Pages(s, PageOf(s, 0, size).totalPages, size) == s
  {
    var n := PageOf(s, 0, size).totalPages;
    PagesArePrefix(s, n, size);
    assert s[..|s|] == s;
  }

  /** Every page before the last is full. */
  lemma FullPagesBeforeLast<T>(s: seq<T>, page: nat, size: nat)
    requires size >= 1
    requires page + 1 < PageOf(s, 0, size).totalPages
    ensures |PageOf(s, page, size).content| == size
  {
    var n := PageOf(s, 0, size).totalPages;
    assert (n - 1) * size < |s|;
    assert (page + 1) * size <= (n - 1) * size by {
      assert page + 1 <= n - 1;
      MulMonotone(page + 1, n - 1, size);
    }
  }

  lemma MulStep(k: int, m: int)
    ensures k * m + m == (k + 1) * m
  {
  }

  lemma MulMonotone(a: nat, b: nat, c: nat)
    requires a <= b
    ensures a * c <= b * c
  {
  }
}
