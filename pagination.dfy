/** `paginate_questions`: a 1-indexed page of ten formatted records, cut out of
    an ordered selection with Python's slice semantics. */
module Pagination {
  import opened Entities

  /** `QUESTIONS_PER_SHELF` */
  const QuestionsPerShelf := 10

  /** `request.args.get("page", 1, type=int)`: the query argument as an integer,
      `None` when it is absent or does not parse, which falls back to page 1. */
  function PageNumber(arg: Option<int>): int {
    match arg
    case Some(p) => p
    case None => 1
  }

  function Min(a: int, b: int): int { if a <= b then a else b }

  function Max(a: int, b: int): int { if a <= b then b else a }

  /** How Python normalises one bound of `s[lo:hi]` for a sequence of length n:
      a negative bound counts from the end, then the bound is cut to 0..n. */
  function SliceBound(i: int, n: nat): (b: nat)
    ensures b <= n
  {
    if i < 0 then (if i + n < 0 then 0 else i + n)
    else if i > n then n
    else i
  }

  /** Python's `s[lo:hi]`: empty when the normalised bounds cross. */
  function PySlice<T>(s: seq<T>, lo: int, hi: int): (r: seq<T>)
    ensures |r| <= |s|
    ensures 0 <= lo <= hi <= |s| ==> r == s[lo..hi]
    ensures 0 <= hi <= lo ==> r == []
  {
    var a := SliceBound(lo, |s|);
    var b := SliceBound(hi, |s|);
    s[a..Max(a, b)]
  }

  /** A negative start no further back than the length counts from the end. */
  lemma PySliceNegativeStart<T>(s: seq<T>, lo: int, hi: int)
    requires -|s| <= lo < 0
    ensures PySlice(s, lo, hi) == PySlice(s, lo + |s|, hi)
  {
  }

  /** A start further back than the length is cut to the start of the sequence. */
  lemma PySliceStartBeforeBeginning<T>(s: seq<T>, lo: int, hi: int)
    requires lo < -|s|
    ensures PySlice(s, lo, hi) == PySlice(s, 0, hi)
  {
  }

  /** An end past the length is cut to the length. */
  lemma PySliceEndPastLength<T>(s: seq<T>, lo: int, hi: int)
    requires hi >= |s|
    ensures PySlice(s, lo, hi) == PySlice(s, lo, |s|)
  {
  }

  /** A negative end no further back than the length counts from the end. */
  lemma PySliceNegativeEnd<T>(s: seq<T>, lo: int, hi: int)
    requires -|s| <= hi < 0
    ensures PySlice(s, lo, hi) == PySlice(s, lo, hi + |s|)
  {
  }

  /** A slice whose bounds are `hi - lo` apart never holds more than `hi - lo` elements. */
  lemma PySliceLength<T>(s: seq<T>, lo: int, hi: int)
    requires lo <= hi
    ensures |PySlice(s, lo, hi)| <= hi - lo
  {
  }

  function Paginate(selection: seq<Question>, page: int): (r: seq<Record>)
    ensures |r| <= QuestionsPerShelf
  {
    var start := (page - 1) * QuestionsPerShelf;
    var end := start + QuestionsPerShelf;
    var questions := FormatAll(selection);
    PySliceLength(questions, start, end);
    PySlice(questions, start, end)
  }

  /** For a page of 1 or more, the page is the formatted selection from index
      (page-1)*10 up to min(page*10, n), in the selection's order. */
  lemma PageOfSelection(selection: seq<Question>, page: int)
    requires page >= 1
    ensures var n := |selection|;
            Paginate(selection, page)
            == FormatAll(selection)[Min((page - 1) * QuestionsPerShelf, n) .. Min(page * QuestionsPerShelf, n)]
  {
  }

  /** For a page of 1 or more, the page is empty exactly when it starts at or past the end. */
  lemma PageEmptyIff(selection: seq<Question>, page: int)
    requires page >= 1
    ensures Paginate(selection, page) == [] <==> (page - 1) * QuestionsPerShelf >= |selection|
  {
    PageOfSelection(selection, page);
  }

  /** A full page is returned for every page that ends inside the selection. */
  lemma FullPage(selection: seq<Question>, page: int)
    requires page >= 1 && page * QuestionsPerShelf <= |selection|
    ensures |Paginate(selection, page)| == QuestionsPerShelf
  {
    PageOfSelection(selection, page);
  }

  /** An absent or unparsable page argument gives the first ten records. */
  lemma DefaultPageIsFirst(selection: seq<Question>)
    ensures Paginate(selection, PageNumber(None))
            == FormatAll(selection)[..Min(QuestionsPerShelf, |selection|)]
  {
    PageOfSelection(selection, 1);
  }

  /** Page 0 slices `[-10:0]`, which is always empty. */
  lemma PageZeroIsEmpty(selection: seq<Question>)
    ensures Paginate(selection, 0) == []
  {
  }

  /** A negative page counts from the end, as Python's negative indices do:
      page -1 of a selection of at least 20 rows is rows n-20 up to n-10. */
  lemma PageMinusOne(selection: seq<Question>)
    requires |selection| >= 2 * QuestionsPerShelf
    ensures var n := |selection|;
            Paginate(selection, -1) == FormatAll(selection)[n - 2 * QuestionsPerShelf .. n - QuestionsPerShelf]
  {
  }

  /** Each record of a page is the format of a row of the selection. */
  lemma PageFrom(selection: seq<Question>, page: int, x: Record)
    requires x in Paginate(selection, page)
    ensures exists q :: q in selection && Format(q) == x
  {
    var start := (page - 1) * QuestionsPerShelf;
    var n := |selection|;
    var a := SliceBound(start, n);
    var b := Max(a, SliceBound(start + QuestionsPerShelf, n));
    FormatAllSlice(selection, a, b);
    FormatAllFrom(selection[a..b], x);
    var q :| q in selection[a..b] && Format(q) == x;
    assert q in selection;
  }

  /** A page of an id-ordered selection is itself in id order. */
  lemma PageOrdered(selection: seq<Question>, page: int)
    requires IdOrdered(selection)
    ensures RecordsIdOrdered(Paginate(selection, page))
  {
    FormatAllOrdered(selection);
  }

  /** Pages 1 through k, concatenated. */
  function Pages(selection: seq<Question>, k: nat): seq<Record> {
    if k == 0 then [] else Pages(selection, k - 1) + Paginate(selection, k)
  }

  /** Pages 1 through k are the first min(10k, n) formatted rows. */
  lemma {:induction false} PagesArePrefix(selection: seq<Question>, k: nat)
    ensures Pages(selection, k) == FormatAll(selection)[..Min(k * QuestionsPerShelf, |selection|)]
  {
    if k > 0 {
      PagesArePrefix(selection, k - 1);
      PageOfSelection(selection, k);
      var all := FormatAll(selection);
      var m := Min((k - 1) * QuestionsPerShelf, |selection|);
      var e := Min(k * QuestionsPerShelf, |selection|);
      assert all[..m] + all[m..e] == all[..e];
    }
  }

  /** Pages 1 through ceil(n/10), concatenated, give back the whole formatted selection. */
  lemma AllPagesCoverSelection(selection: seq<Question>)
    ensures Pages(selection, (|selection| + QuestionsPerShelf - 1) / QuestionsPerShelf) == FormatAll(selection)
  {
    var n := |selection|;
    var k := (n + QuestionsPerShelf - 1) / QuestionsPerShelf;
    var rem := (n + QuestionsPerShelf - 1) % QuestionsPerShelf;
    assert n + QuestionsPerShelf - 1 == k * QuestionsPerShelf + rem && rem < QuestionsPerShelf;
    assert Min(k * QuestionsPerShelf, n) == n;
    PagesArePrefix(selection, k);
  }
}
