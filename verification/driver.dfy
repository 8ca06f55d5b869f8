/** `write_csv` (download.py lines 51-100): request result pages 1, 2, ... below `end_page`,
    stop at the first page that is missing, has no `items`, or reports `endIndex >= totalItems`,
    and process every item of every other page.

    The network is abstracted as the sequence of answers the server gives: page `p` is answered
    by `responses[p - 1]`, `None` stands for a failed download, and a page past the end of the
    sequence is a failed download too. The loop is written for any item processor; `WriteCsv`
    runs it with `ProcessItem` on the OCR directory. */
module Driver {
  import opened Wrappers
  import opened Exceptions
  import opened Items
  import opened Sequences

  /** Line 11: the `end_page` passed by `main`; pages 1 to 99 may be requested. */
  const MaxPages: int := 100

  /** A decoded JSON answer; `None` marks a key the object lacks. */
  datatype PageData = PageData(items: Option<seq<Item>>, endIndex: Option<int>, totalItems: Option<int>)

  /** What `download_data(url, page)` returns. */
  function Response(responses: seq<Option<PageData>>, page: int): Option<PageData> {
    if 1 <= page <= |responses| then responses[page - 1] else None
  }

  /** The condition on line 82 holds: the loop breaks before touching this page's items. */
  predicate Breaks(resp: Option<PageData>) {
    || resp.None?
    || resp.value.items.None?
    || (&& resp.value.endIndex.Some? && resp.value.totalItems.Some?
        && resp.value.endIndex.value >= resp.value.totalItems.value)
  }

  /** Evaluating the condition on line 82 raises `KeyError`: the page has `items` but lacks
      `endIndex` or `totalItems`. */
  predicate Malformed(resp: Option<PageData>) {
    resp.Some? && resp.value.items.Some? && (resp.value.endIndex.None? || resp.value.totalItems.None?)
  }

  /** How line 82 judges one answer, in Python's evaluation order. `final` records whether the
      page reports `endIndex >= totalItems`. */
  datatype Verdict = Break | Raise(crash: Crash) | Continue(items: seq<Item>, final: bool)

  function Inspect(resp: Option<PageData>): (v: Verdict)
    ensures v.Break? || (v.Continue? && v.final) <==> Breaks(resp)
    ensures v.Raise? <==> Malformed(resp)
    ensures v.Raise? ==> v.crash == MissingKey(if resp.value.endIndex.None? then "endIndex" else "totalItems")
    ensures v.Continue? ==> resp.Some? && resp.value.items == Some(v.items)
  {
    match resp
    case None => Break
    case Some(d) =>
      if d.items.None? then Break
      else if d.endIndex.None? then Raise(MissingKey("endIndex"))
      else if d.totalItems.None? then Raise(MissingKey("totalItems"))
      else Continue(d.items.value, d.endIndex.value >= d.totalItems.value)
  }

  /** The items that carry OCR text, in order. */
  function OcrItems(items: seq<Item>): (r: seq<Item>)
    ensures |r| <= |items|
    ensures forall k :: 0 <= k < |r| ==> r[k].ocr.Some?
  {
    if items == [] then []
    else if items[0].ocr.Some? then [items[0]] + OcrItems(items[1..])
    else OcrItems(items[1..])
  }

  /** Every item with OCR text is kept, as often as it occurs, and no other item is. */
  lemma {:induction false} OcrItemsCounts(items: seq<Item>)
    ensures forall x :: multiset(OcrItems(items))[x] == if x.ocr.Some? then multiset(items)[x] else 0
  {
    if items != [] {
      OcrItemsCounts(items[1..]);
      assert items == [items[0]] + items[1..];
    }
  }

  /** The kept items stay in the order of the page. */
  lemma {:induction false} OcrItemsSubsequence(items: seq<Item>)
    ensures IsSubsequence(OcrItems(items), items)
  {
    if items != [] {
      OcrItemsSubsequence(items[1..]);
      var rest := OcrItems(items[1..]);
      if items[0].ocr.Some? {
        assert ([items[0]] + rest)[1..] == rest;
      } else {
        SubsequenceDropFirst(rest, items);
      }
    }
  }

  /** What one item contributes to `OcrItems`. */
  function OcrHead(item: Item): seq<Item> {
    if item.ocr.Some? then [item] else []
  }

  lemma OcrItemsCons(item: Item, rest: seq<Item>)
    ensures OcrItems([item] + rest) == OcrHead(item) + OcrItems(rest)
  {
    assert ([item] + rest)[0] == item;
    assert ([item] + rest)[1..] == rest;
  }

  lemma {:induction false} OcrItemsConcat(a: seq<Item>, b: seq<Item>)
    ensures OcrItems(a + b) == OcrItems(a) + OcrItems(b)
  {
    if a == [] {
      assert a + b == b;
    } else {
      var x, t := a[0], a[1..];
      assert a == [x] + t;
      assert a + b == [x] + (t + b);
      OcrItemsCons(x, t + b);
      OcrItemsCons(x, t);
      OcrItemsConcat(t, b);
      assert OcrHead(x) + (OcrItems(t) + OcrItems(b)) == (OcrHead(x) + OcrItems(t)) + OcrItems(b);
    }
  }

  /** `process_item` with its output directory fixed. */
  type Processor = Item -> ItemOutcome

  /** The processor does nothing exactly for the items without OCR text (line 25). */
  ghost predicate SkipsTextless(process: Processor) {
    forall item :: process(item).Skipped? <==> item.ocr.None?
  }

  /** What processing the items of one page produced. */
  datatype Batch = Batch(files: seq<FileWrite>, rows: seq<Row>, counter: nat, crash: Option<Crash>)

  /** Line 91: what an item adds to `text_counter` once `process_item` has returned. */
  function Increment(item: Item): nat {
    if item.ocr.Some? then 1 else 0
  }

  /** Lines 86-91: process the items in order, counting those with OCR text, until one raises. */
  function ProcessItems(items: seq<Item>, process: Processor): (b: Batch)
    ensures |b.rows| <= |b.files| <= |b.rows| + 1
    ensures b.crash.None? ==> |b.files| == |b.rows|
    ensures b.crash.None? ==> b.counter == |OcrItems(items)|
  {
    if items == [] then Batch([], [], 0, None)
    else
      match process(items[0])
      case Failed(partial, crash) =>
        Batch(if partial.Some? then [partial.value] else [], [], 0, Some(crash))
      case Skipped =>
        var rest := ProcessItems(items[1..], process);
        Batch(rest.files, rest.rows, Increment(items[0]) + rest.counter, rest.crash)
      case Written(file, row) =>
        var rest := ProcessItems(items[1..], process);
        Batch([file] + rest.files, [row] + rest.rows, Increment(items[0]) + rest.counter, rest.crash)
  }

  /** No item of the sequence makes the processor raise. */
  predicate NoneFail(items: seq<Item>, process: Processor) {
    items == [] || (!process(items[0]).Failed? && NoneFail(items[1..], process))
  }

  lemma {:induction false} NoneFailConcat(a: seq<Item>, b: seq<Item>, process: Processor)
    ensures NoneFail(a + b, process) <==> NoneFail(a, process) && NoneFail(b, process)
  {
    if a == [] {
      assert a + b == b;
    } else {
      assert (a + b)[1..] == a[1..] + b;
      NoneFailConcat(a[1..], b, process);
    }
  }

  /** The batch raised exactly when one of its items does. */
  lemma {:induction false} ProcessItemsCrash(items: seq<Item>, process: Processor)
    ensures ProcessItems(items, process).crash.None? <==> NoneFail(items, process)
  {
    if items != [] {
      ProcessItemsCrash(items[1..], process);
    }
  }

  /** Processing `items[k]` writes `files[k]` and appends `rows[k]`, for every `k`. */
  predicate WritesInOrder(process: Processor, items: seq<Item>, files: seq<FileWrite>, rows: seq<Row>) {
    && |files| == |rows| == |items|
    && forall k :: 0 <= k < |rows| ==> process(items[k]) == Written(files[k], rows[k])
  }

  lemma WritesInOrderConcat(process: Processor, a: seq<Item>, fa: seq<FileWrite>, ra: seq<Row>,
                            b: seq<Item>, fb: seq<FileWrite>, rb: seq<Row>)
    requires WritesInOrder(process, a, fa, ra) && WritesInOrder(process, b, fb, rb)
    ensures WritesInOrder(process, a + b, fa + fb, ra + rb)
  {
    forall k | 0 <= k < |ra + rb|
      ensures process((a + b)[k]) == Written((fa + fb)[k], (ra + rb)[k])
    {
      if k >= |ra| {
        var j := k - |ra|;
        assert (a + b)[k] == b[j] && (fa + fb)[k] == fb[j] && (ra + rb)[k] == rb[j];
      }
    }
  }

  /** Without an exception, a processor that skips exactly the textless items yields one file
      and one row per item with OCR text, in the order of the items, each being what processing
      that item writes. */
  lemma {:induction false} ProcessItemsRows(items: seq<Item>, process: Processor)
    requires SkipsTextless(process)
    requires ProcessItems(items, process).crash.None?
    ensures var b := ProcessItems(items, process); WritesInOrder(process, OcrItems(items), b.files, b.rows)
  {
    if items != [] {
      var b := ProcessItems(items, process);
      var rest := ProcessItems(items[1..], process);
      var out := process(items[0]);
      ProcessItemsRows(items[1..], process);
      var ocr := OcrItems(items);
      var ocrRest := OcrItems(items[1..]);
      if out.Written? {
        assert ocr == [items[0]] + ocrRest;
        assert b.files == [out.file] + rest.files && b.rows == [out.row] + rest.rows;
        forall k | 0 <= k < |b.rows|
          ensures process(ocr[k]) == Written(b.files[k], b.rows[k])
        {
          if k > 0 {
            assert ocr[k] == ocrRest[k - 1];
          }
        }
      } else {
        assert out.Skipped?;
        assert ocr == ocrRest;
        assert b == rest;
      }
    }
  }

  /** How a run ended: a page made the loop break, every page below `end_page` was processed,
      or an exception escaped. */
  datatype Ending = Exhausted(page: int) | PageLimit | Crashed(crash: Crash)

  /** The observable result of a run: the pages requested in order, the OCR files written, the
      data rows appended after the header, the returned `text_counter`, and how it ended. */
  datatype Run = Run(requested: seq<int>, files: seq<FileWrite>, rows: seq<Row>, counter: nat, ending: Ending)

  /** Lines 77-97 from page `page` on. */
  function RunFrom(page: int, endPage: int, responses: seq<Option<PageData>>, process: Processor): (r: Run)
    requires page >= 1
    ensures |r.rows| <= |r.files|
    ensures !r.ending.Crashed? ==> |r.files| == |r.rows|
    ensures forall k :: 0 <= k < |r.requested| ==> r.requested[k] == page + k
    ensures |r.requested| <= if page < endPage then endPage - page else 0
    ensures forall k :: 0 <= k < |r.requested| - 1 ==> !Breaks(Response(responses, r.requested[k]))
    ensures forall k :: 0 <= k < |r.requested| - 1 ==> !Malformed(Response(responses, r.requested[k]))
    ensures r.ending.Exhausted? ==>
      && |r.requested| > 0
      && r.ending.page == page + |r.requested| - 1
      && Breaks(Response(responses, r.ending.page))
    ensures r.ending.PageLimit? ==>
      && |r.requested| == (if page < endPage then endPage - page else 0)
      && forall k :: 0 <= k < |r.requested| ==> !Breaks(Response(responses, r.requested[k]))
    decreases endPage - page
  {
    if page >= endPage then Run([], [], [], 0, PageLimit)
    else
      match Inspect(Response(responses, page))
      case Break => Run([page], [], [], 0, Exhausted(page))
      case Raise(crash) => Run([page], [], [], 0, Crashed(crash))
      case Continue(items, final) =>
        if final then Run([page], [], [], 0, Exhausted(page))
        else
          var b := ProcessItems(items, process);
          if b.crash.Some? then Run([page], b.files, b.rows, b.counter, Crashed(b.crash.value))
          else
            var rest := RunFrom(page + 1, endPage, responses, process);
            Run([page] + rest.requested, b.files + rest.files, b.rows + rest.rows,
                b.counter + rest.counter, rest.ending)
  }

  /** The items the loop reaches from page `page` on, judged from the answers alone: those of
      every page before the first one that breaks the loop or raises, below `endPage`. */
  function Processed(page: int, endPage: int, responses: seq<Option<PageData>>): seq<Item>
    decreases endPage - page
  {
    if page >= endPage then []
    else
      var resp := Response(responses, page);
      if Breaks(resp) || Malformed(resp) then [] else resp.value.items.value + Processed(page + 1, endPage, responses)
  }

  /** The first answer from page `page` on that stops the loop is one on which line 82 raises. */
  predicate EndsMalformed(page: int, endPage: int, responses: seq<Option<PageData>>)
    decreases endPage - page
  {
    if page >= endPage then false
    else
      var resp := Response(responses, page);
      if Breaks(resp) then false else Malformed(resp) || EndsMalformed(page + 1, endPage, responses)
  }

  /** One step of the loop on a page it processes: where the run ends. */
  lemma RunStep(page: int, endPage: int, responses: seq<Option<PageData>>, process: Processor)
    requires 1 <= page < endPage
    requires !Breaks(Response(responses, page)) && !Malformed(Response(responses, page))
    ensures var items := Response(responses, page).value.items.value;
      var b := ProcessItems(items, process);
      var r := RunFrom(page, endPage, responses, process);
      var rest := RunFrom(page + 1, endPage, responses, process);
      && Processed(page, endPage, responses) == items + Processed(page + 1, endPage, responses)
      && EndsMalformed(page, endPage, responses) == EndsMalformed(page + 1, endPage, responses)
      && (b.crash.Some? ==> r.ending == Crashed(b.crash.value))
      && (b.crash.None? ==> r.ending == rest.ending)
  {
    assert Inspect(Response(responses, page)).Continue?;
  }

  /** One step of the loop on a page whose items all process: what the run writes and counts. */
  lemma RunStepOutput(page: int, endPage: int, responses: seq<Option<PageData>>, process: Processor)
    requires 1 <= page < endPage
    requires !Breaks(Response(responses, page)) && !Malformed(Response(responses, page))
    requires ProcessItems(Response(responses, page).value.items.value, process).crash.None?
    ensures var b := ProcessItems(Response(responses, page).value.items.value, process);
      var r := RunFrom(page, endPage, responses, process);
      var rest := RunFrom(page + 1, endPage, responses, process);
      && r.files == b.files + rest.files && r.rows == b.rows + rest.rows
      && r.counter == b.counter + rest.counter
  {
    assert Inspect(Response(responses, page)).Continue?;
  }

  /** A run that stops at page `page` processes nothing there, and raises exactly when line 82
      raises on that page. */
  lemma RunStop(page: int, endPage: int, responses: seq<Option<PageData>>, process: Processor)
    requires page >= 1
    requires page >= endPage || Breaks(Response(responses, page)) || Malformed(Response(responses, page))
    ensures Processed(page, endPage, responses) == []
    ensures RunFrom(page, endPage, responses, process).ending.Crashed? <==> EndsMalformed(page, endPage, responses)
    ensures CrashLaw(page, endPage, responses, process)
  {
    assert NoneFail([], process);
    if page < endPage {
      var resp := Response(responses, page);
      assert Breaks(resp) ==> Inspect(resp).Break? || Inspect(resp).Continue?;
      assert !Breaks(resp) ==> Inspect(resp).Raise?;
    }
  }

  /** Whether a run from `page` raises: exactly when line 82 raises on the page where the loop
      stops, or one of the items before that page makes the processor raise. */
  predicate CrashLaw(page: int, endPage: int, responses: seq<Option<PageData>>, process: Processor)
    requires page >= 1
  {
    (!RunFrom(page, endPage, responses, process).ending.Crashed?)
      <==> !EndsMalformed(page, endPage, responses) && NoneFail(Processed(page, endPage, responses), process)
  }

  /** The crash law carries over from the next page to a page the loop processes. */
  lemma CrashLawStep(page: int, endPage: int, responses: seq<Option<PageData>>, process: Processor)
    requires 1 <= page < endPage
    requires !Breaks(Response(responses, page)) && !Malformed(Response(responses, page))
    requires CrashLaw(page + 1, endPage, responses, process)
    ensures CrashLaw(page, endPage, responses, process)
  {
    var items, later := Response(responses, page).value.items.value, Processed(page + 1, endPage, responses);
    var r, rest := RunFrom(page, endPage, responses, process), RunFrom(page + 1, endPage, responses, process);
    var clean := NoneFail(items, process);
    RunStep(page, endPage, responses, process);
    ProcessItemsCrash(items, process);
    NoneFailConcat(items, later, process);
    assert NoneFail(Processed(page, endPage, responses), process) <==> clean && NoneFail(later, process);
    assert !r.ending.Crashed? <==> clean && !rest.ending.Crashed?;
  }

  /** A run raises exactly when line 82 raises on the page where the loop would stop, or one of
      the items before that page makes the processor raise. */
  lemma {:induction false} RunCrash(page: int, endPage: int, responses: seq<Option<PageData>>, process: Processor)
    requires page >= 1
    ensures !RunFrom(page, endPage, responses, process).ending.Crashed?
      <==> !EndsMalformed(page, endPage, responses) && NoneFail(Processed(page, endPage, responses), process)
    decreases endPage - page
  {
    var resp := Response(responses, page);
    if page >= endPage || Breaks(resp) || Malformed(resp) {
      RunStop(page, endPage, responses, process);
    } else {
      RunCrash(page + 1, endPage, responses, process);
      CrashLawStep(page, endPage, responses, process);
    }
    assert CrashLaw(page, endPage, responses, process);
  }

  /** What a run from `page` that did not raise writes and counts: `text_counter` is the number
      of items with OCR text on the processed pages, and processing each of them in turn writes
      the next file and row. */
  predicate RowsLaw(page: int, endPage: int, responses: seq<Option<PageData>>, process: Processor)
    requires page >= 1
  {
    var r := RunFrom(page, endPage, responses, process);
    var ocr := OcrItems(Processed(page, endPage, responses));
    r.counter == |ocr| && WritesInOrder(process, ocr, r.files, r.rows)
  }

  /** The rows law carries over from the next page to a page the loop processes. */
  lemma RowsLawStep(page: int, endPage: int, responses: seq<Option<PageData>>, process: Processor)
    requires 1 <= page < endPage
    requires !Breaks(Response(responses, page)) && !Malformed(Response(responses, page))
    requires SkipsTextless(process)
    requires !RunFrom(page, endPage, responses, process).ending.Crashed?
    requires RowsLaw(page + 1, endPage, responses, process)
    ensures RowsLaw(page, endPage, responses, process)
  {
    var items, later := Response(responses, page).value.items.value, Processed(page + 1, endPage, responses);
    var rest := RunFrom(page + 1, endPage, responses, process);
    var b := ProcessItems(items, process);
    RunStep(page, endPage, responses, process);
    ProcessItemsRows(items, process);
    RunStepOutput(page, endPage, responses, process);
    OcrItemsConcat(items, later);
    WritesInOrderConcat(process, OcrItems(items), b.files, b.rows, OcrItems(later), rest.files, rest.rows);
  }

  /** `text_counter` counts the items with OCR text on the pages processed before the loop
      stopped; the data rows and files are exactly what processing those items writes, in order. */
  lemma {:induction false} RunRows(page: int, endPage: int, responses: seq<Option<PageData>>, process: Processor)
    requires page >= 1
    requires SkipsTextless(process)
    requires !RunFrom(page, endPage, responses, process).ending.Crashed?
    ensures var r := RunFrom(page, endPage, responses, process);
      var ocr := OcrItems(Processed(page, endPage, responses));
      r.counter == |ocr| && WritesInOrder(process, ocr, r.files, r.rows)
    decreases endPage - page
  {
    var resp := Response(responses, page);
    if page >= endPage || Breaks(resp) || Malformed(resp) {
      RunStop(page, endPage, responses, process);
      assert page < endPage ==> Inspect(resp).Break? || Inspect(resp).Continue?;
    } else {
      RunStep(page, endPage, responses, process);
      RunRows(page + 1, endPage, responses, process);
      RowsLawStep(page, endPage, responses, process);
    }
    assert RowsLaw(page, endPage, responses, process);
  }

  /** Lines 62-100: the whole loop, from page 1, writing OCR files into `dir`. */
  function WriteCsv(endPage: int, responses: seq<Option<PageData>>, dir: string): Run {
    RunFrom(1, endPage, responses, item => ProcessItem(item, dir))
  }

  /** The CSV written by a run: the header row, then the data rows. */
  function CsvTable(r: Run): seq<seq<string>> {
    [Header] + seq(|r.rows|, k requires 0 <= k < |r.rows| => Cells(r.rows[k]))
  }

  /** With `process_item` as the processor, "no item fails" means no item `Raises`. */
  lemma {:induction false} NoneFailRaises(items: seq<Item>, dir: string)
    ensures NoneFail(items, item => ProcessItem(item, dir)) <==> forall k :: 0 <= k < |items| ==> !Raises(items[k])
  {
    if items != [] {
      ItemFailure(items[0], dir);
      NoneFailRaises(items[1..], dir);
      assert forall k :: 1 <= k < |items| ==> items[k] == items[1..][k - 1];
    }
  }

  /** `process_item` skips exactly the items without `ocr_eng`. */
  lemma ProcessItemSkipsTextless(dir: string)
    ensures SkipsTextless(item => ProcessItem(item, dir))
  {
  }

  /** A run raises exactly when line 82 raises on the page where the loop would stop, or an
      item on a page before it has OCR text and either an id the regexes do not match or an
      empty place list. */
  lemma WriteCsvCrash(endPage: int, responses: seq<Option<PageData>>, dir: string)
    ensures var items := Processed(1, endPage, responses);
      !WriteCsv(endPage, responses, dir).ending.Crashed?
      <==> !EndsMalformed(1, endPage, responses) && forall k :: 0 <= k < |items| ==> !Raises(items[k])
  {
    RunCrash(1, endPage, responses, item => ProcessItem(item, dir));
    NoneFailRaises(Processed(1, endPage, responses), dir);
  }

  /** In a run that does not raise, `text_counter` is the number of items with OCR text on the
      pages processed before the loop stopped, and each of them, in order, gives exactly one
      file holding its OCR text and one row naming that file and ending in its page URL; items
      without OCR text give nothing. */
  lemma WriteCsvRows(endPage: int, responses: seq<Option<PageData>>, dir: string)
    requires !WriteCsv(endPage, responses, dir).ending.Crashed?
    ensures var r := WriteCsv(endPage, responses, dir);
      var ocr := OcrItems(Processed(1, endPage, responses));
      && r.counter == |r.rows| == |r.files| == |ocr|
      && forall k :: 0 <= k < |r.rows| ==> ProcessItem(ocr[k], dir) == Written(r.files[k], r.rows[k])
  {
    ProcessItemSkipsTextless(dir);
    RunRows(1, endPage, responses, item => ProcessItem(item, dir));
  }

  /** What each written pair holds: the item's OCR text in the file, the file's path in the row,
      and the item's page URL in the row's last cell. */
  lemma WriteCsvContents(endPage: int, responses: seq<Option<PageData>>, dir: string)
    requires !WriteCsv(endPage, responses, dir).ending.Crashed?
    ensures var r := WriteCsv(endPage, responses, dir);
      var ocr := OcrItems(Processed(1, endPage, responses));
      && r.counter == |r.rows| == |r.files| == |ocr|
      && forall k :: 0 <= k < |r.rows| ==>
           && r.files[k].text == ocr[k].ocr.value
           && r.rows[k].file == r.files[k].path
           && Cells(r.rows[k])[|Header| - 1] == Host + ocr[k].id
  {
    WriteCsvRows(endPage, responses, dir);
    var r := WriteCsv(endPage, responses, dir);
    var ocr := OcrItems(Processed(1, endPage, responses));
    forall k | 0 <= k < |r.rows|
      ensures && r.files[k].text == ocr[k].ocr.value
              && r.rows[k].file == r.files[k].path
              && Cells(r.rows[k])[|Header| - 1] == Host + ocr[k].id
    {
      var out := ProcessItem(ocr[k], dir);
      assert out == Written(r.files[k], r.rows[k]);
    }
  }

  /** The table of a run whose k-th row carries the page URL of `items[k]`. */
  lemma TableOfRows(r: Run, items: seq<Item>)
    requires |r.rows| == |items|
    requires forall k :: 0 <= k < |r.rows| ==> Cells(r.rows[k])[|Header| - 1] == Host + items[k].id
    ensures |CsvTable(r)| == 1 + |items| && CsvTable(r)[0] == Header
    ensures forall k :: 1 <= k < |CsvTable(r)| ==> CsvTable(r)[k][|Header| - 1] == Host + items[k - 1].id
  {
    var data := seq(|r.rows|, k requires 0 <= k < |r.rows| => Cells(r.rows[k]));
    var t := CsvTable(r);
    assert t == [Header] + data;
    forall k | 1 <= k < |t| ensures t[k][|Header| - 1] == Host + items[k - 1].id {
      assert t[k] == data[k - 1] == Cells(r.rows[k - 1]);
    }
  }

  /** A run that does not raise writes the header row and then exactly `text_counter` data
      rows, the k-th ending in the page URL of the k-th item with OCR text. */
  lemma CsvRowPerText(endPage: int, responses: seq<Option<PageData>>, dir: string)
    requires !WriteCsv(endPage, responses, dir).ending.Crashed?
    ensures var r := WriteCsv(endPage, responses, dir);
      var ocr := OcrItems(Processed(1, endPage, responses));
      && |CsvTable(r)| == 1 + r.counter
      && r.counter == |ocr|
      && CsvTable(r)[0] == Header
      && forall k :: 1 <= k < |CsvTable(r)| ==> CsvTable(r)[k][|Header| - 1] == Host + ocr[k - 1].id
  {
    WriteCsvContents(endPage, responses, dir);
    TableOfRows(WriteCsv(endPage, responses, dir), OcrItems(Processed(1, endPage, responses)));
  }

  /** `main` passes `MAX_PAGES = 100`: the run asks for pages 1, 2, ... in order and for at
      most 99 of them. */
  lemma RequestedPages(responses: seq<Option<PageData>>, dir: string)
    ensures var r := WriteCsv(MaxPages, responses, dir);
      && |r.requested| <= 99
      && forall k :: 0 <= k < |r.requested| ==> r.requested[k] == k + 1
  {
  }

  /** The items of an answer, or none when the download failed or `items` is missing. */
  function PageItems(resp: Option<PageData>): seq<Item> {
    if resp.Some? && resp.value.items.Some? then resp.value.items.value else []
  }

  /** The items of a sequence of answers, page after page. */
  function AllItems(pages: seq<Option<PageData>>): seq<Item> {
    if pages == [] then [] else PageItems(pages[0]) + AllItems(pages[1..])
  }

  /** An answer of a complete result set: all keys present, and `endIndex >= totalItems`
      exactly on the final page, as the archive reports it. */
  predicate ResultPage(resp: Option<PageData>, final: bool) {
    && resp.Some? && resp.value.items.Some?
    && resp.value.endIndex.Some? && resp.value.totalItems.Some?
    && (resp.value.endIndex.value >= resp.value.totalItems.value <==> final)
  }

  /** The server answers every page of a result set, the last one in `responses` being final. */
  predicate IsResultSet(responses: seq<Option<PageData>>) {
    |responses| > 0 && forall k :: 0 <= k < |responses| ==> ResultPage(responses[k], k == |responses| - 1)
  }

  lemma AllItemsStep(pages: seq<Option<PageData>>, i: int, j: int)
    requires 0 <= i < j <= |pages|
    ensures AllItems(pages[i..j]) == PageItems(pages[i]) + AllItems(pages[i + 1..j])
  {
    assert pages[i..j][1..] == pages[i + 1..j];
  }

  /** On a result set that fits below `endPage`, the loop as written reaches the items of every
      page except the final one. */
  lemma {:induction false} ProcessedResultSet(page: int, endPage: int, responses: seq<Option<PageData>>)
    requires IsResultSet(responses) && |responses| < endPage
    requires 1 <= page <= |responses|
    ensures Processed(page, endPage, responses) == AllItems(responses[page - 1..|responses| - 1])
    ensures !EndsMalformed(page, endPage, responses)
    decreases |responses| - page
  {
    var n := |responses|;
    assert ResultPage(responses[page - 1], page == n);
    if page < n {
      AllItemsStep(responses, page - 1, n - 1);
      ProcessedResultSet(page + 1, endPage, responses);
    }
  }

  /** The loop as written never processes the final page of a complete result set: it breaks
      on `endIndex >= totalItems` before looking at that page's items. */
  lemma FinalPageDropped(endPage: int, responses: seq<Option<PageData>>, dir: string)
    requires IsResultSet(responses) && |responses| < endPage
    requires !WriteCsv(endPage, responses, dir).ending.Crashed?
    ensures var r := WriteCsv(endPage, responses, dir);
      && r.ending == Exhausted(|responses|)
      && r.counter == |OcrItems(AllItems(responses[..|responses| - 1]))|
  {
    ProcessedResultSet(1, endPage, responses);
    WriteCsvContents(endPage, responses, dir);
    assert responses[0..|responses| - 1] == responses[..|responses| - 1];
    var n := |responses|;
    var r := WriteCsv(endPage, responses, dir);
    assert Breaks(Response(responses, n)) by {
      assert ResultPage(responses[n - 1], true);
    }
    assert n <= |r.requested| ==> r.requested[n - 1] == n;
  }

  /** A search with a single result page, whose one item carries OCR text, writes no file and
      no data row and returns 0: the loop as written drops that page. */
  lemma SinglePageSearchDownloadsNothing(item: Item, dir: string)
    requires item.ocr.Some?
    ensures var responses := [Some(PageData(Some([item]), Some(1), Some(1)))];
      var r := WriteCsv(MaxPages, responses, dir);
      && OcrItems(AllItems(responses)) == [item]
      && r.counter == 0 && r.rows == [] && r.files == [] && r.ending == Exhausted(1)
  {
    var responses := [Some(PageData(Some([item]), Some(1), Some(1)))];
    assert AllItems(responses) == [item] by {
      assert AllItems(responses[1..]) == [];
    }
    assert OcrItems([item]) == [item];
  }

  /** Corrected loop: a page reporting `endIndex >= totalItems` is the last one, but its items
      are processed before the loop stops. */
  function RunFromIntended(page: int, endPage: int, responses: seq<Option<PageData>>, process: Processor): (r: Run)
    requires page >= 1
    ensures |r.rows| <= |r.files|
    ensures !r.ending.Crashed? ==> |r.files| == |r.rows|
    ensures forall k :: 0 <= k < |r.requested| ==> r.requested[k] == page + k
    ensures |r.requested| <= if page < endPage then endPage - page else 0
    decreases endPage - page
  {
    if page >= endPage then Run([], [], [], 0, PageLimit)
    else
      match Inspect(Response(responses, page))
      case Break => Run([page], [], [], 0, Exhausted(page))
      case Raise(crash) => Run([page], [], [], 0, Crashed(crash))
      case Continue(items, final) =>
        var b := ProcessItems(items, process);
        if b.crash.Some? then Run([page], b.files, b.rows, b.counter, Crashed(b.crash.value))
        else if final then Run([page], b.files, b.rows, b.counter, Exhausted(page))
        else
          var rest := RunFromIntended(page + 1, endPage, responses, process);
          Run([page] + rest.requested, b.files + rest.files, b.rows + rest.rows,
              b.counter + rest.counter, rest.ending)
  }

  /** The corrected `write_csv`. */
  function WriteCsvIntended(endPage: int, responses: seq<Option<PageData>>, dir: string): Run {
    RunFromIntended(1, endPage, responses, item => ProcessItem(item, dir))
  }

  /** The items from page `page` to the end of a result set: those of that page, then the rest. */
  lemma ResultSetSuffix(page: int, responses: seq<Option<PageData>>)
    requires IsResultSet(responses) && 1 <= page <= |responses|
    ensures AllItems(responses[page - 1..]) == responses[page - 1].value.items.value + AllItems(responses[page..])
  {
    var n := |responses|;
    assert ResultPage(responses[page - 1], page == n);
    AllItemsStep(responses, page - 1, n);
    assert responses[page - 1..] == responses[page - 1..n];
    assert responses[page..] == responses[page..n];
  }

  /** On a complete result set whose items do not make the processor raise, the corrected loop
      ends by exhausting the final page. */
  lemma {:induction false} IntendedEnding(page: int, endPage: int, responses: seq<Option<PageData>>, process: Processor)
    requires IsResultSet(responses) && |responses| < endPage
    requires 1 <= page <= |responses|
    requires NoneFail(AllItems(responses[page - 1..]), process)
    ensures RunFromIntended(page, endPage, responses, process).ending == Exhausted(|responses|)
    decreases |responses| - page
  {
    var n := |responses|;
    assert ResultPage(responses[page - 1], page == n);
    var items := responses[page - 1].value.items.value;
    ResultSetSuffix(page, responses);
    NoneFailConcat(items, AllItems(responses[page..]), process);
    ProcessItemsCrash(items, process);
    IntendedStep(page, endPage, responses, process);
    if page < n {
      IntendedEnding(page + 1, endPage, responses, process);
    }
  }

  /** ... and processes every page, the final one included. */
  lemma {:induction false} IntendedRows(page: int, endPage: int, responses: seq<Option<PageData>>, process: Processor)
    requires IsResultSet(responses) && |responses| < endPage
    requires 1 <= page <= |responses|
    requires SkipsTextless(process)
    requires NoneFail(AllItems(responses[page - 1..]), process)
    ensures var r := RunFromIntended(page, endPage, responses, process);
      var ocr := OcrItems(AllItems(responses[page - 1..]));
      && r.counter == |r.rows| == |r.files| == |ocr|
      && forall k :: 0 <= k < |r.rows| ==> process(ocr[k]) == Written(r.files[k], r.rows[k])
    decreases |responses| - page
  {
    var n := |responses|;
    assert ResultPage(responses[page - 1], page == n);
    var items := responses[page - 1].value.items.value;
    var later := AllItems(responses[page..]);
    ResultSetSuffix(page, responses);
    NoneFailConcat(items, later, process);
    ProcessItemsCrash(items, process);
    ProcessItemsRows(items, process);
    IntendedStep(page, endPage, responses, process);
    if page < n {
      IntendedRows(page + 1, endPage, responses, process);
      IntendedEnding(page + 1, endPage, responses, process);
      OcrItemsConcat(items, later);
    } else {
      assert responses[page..] == [];
      assert items + later == items;
    }
  }

  /** One step of the corrected loop on a page with all keys present. */
  lemma IntendedStep(page: int, endPage: int, responses: seq<Option<PageData>>, process: Processor)
    requires 1 <= page < endPage
    requires ResultPage(Response(responses, page), false) || ResultPage(Response(responses, page), true)
    ensures var resp := Response(responses, page).value;
      var items := resp.items.value;
      var final := resp.endIndex.value >= resp.totalItems.value;
      var b := ProcessItems(items, process);
      var r := RunFromIntended(page, endPage, responses, process);
      var rest := RunFromIntended(page + 1, endPage, responses, process);
      && (b.crash.Some? ==> r.ending == Crashed(b.crash.value))
      && (b.crash.None? && final ==> r == Run([page], b.files, b.rows, b.counter, Exhausted(page)))
      && (b.crash.None? && !final ==>
            && r.ending == rest.ending && r.files == b.files + rest.files && r.rows == b.rows + rest.rows
            && r.counter == b.counter + rest.counter)
  {
    assert Inspect(Response(responses, page)).Continue?;
  }

  /** The corrected loop reads every page. On a complete result set that fits below `endPage`
      and whose OCR items all have well-formed ids and non-empty place lists, it writes one file
      and one row for every item with OCR text on every page, the final page included. */
  lemma EveryPageRead(endPage: int, responses: seq<Option<PageData>>, dir: string)
    requires IsResultSet(responses) && |responses| < endPage
    requires forall k :: 0 <= k < |AllItems(responses)| ==> !Raises(AllItems(responses)[k])
    ensures var r := WriteCsvIntended(endPage, responses, dir);
      var ocr := OcrItems(AllItems(responses));
      && r.ending == Exhausted(|responses|)
      && r.counter == |r.rows| == |r.files| == |ocr|
      && forall k :: 0 <= k < |r.rows| ==> ProcessItem(ocr[k], dir) == Written(r.files[k], r.rows[k])
  {
    NoneFailRaises(AllItems(responses), dir);
    ProcessItemSkipsTextless(dir);
    assert responses[0..] == responses;
    IntendedEnding(1, endPage, responses, item => ProcessItem(item, dir));
    IntendedRows(1, endPage, responses, item => ProcessItem(item, dir));
  }
}
