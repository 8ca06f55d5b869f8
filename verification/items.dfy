/** `process_item` (download.py lines 24-49): one search-result item becomes an OCR text file
    and one metadata row, or nothing when the item carries no OCR text. */
module Items {
  import opened Wrappers
  import opened Exceptions
  import opened FileNames
  import opened IdFields
  import opened Paths

  /** The archive host every page URL is prefixed with. */
  const Host: string := "https://chroniclingamerica.loc.gov"

  /** One item of a result page. `None` for `city`, `county` and `state` means the key is absent;
      `None` for `ocr` means the item has no `ocr_eng` key. */
  datatype Item = Item(
    id: string,
    title: string,
    date: string,
    edition: string,
    page: string,
    sequence: string,
    city: Option<seq<string>>,
    county: Option<seq<string>>,
    state: Option<seq<string>>,
    ocr: Option<string>)

  /** A text file the run writes: its path and its whole content. */
  datatype FileWrite = FileWrite(path: string, text: string)

  /** One data row of `metadata.csv`. */
  datatype Row = Row(
    file: string,
    title: string,
    date: string,
    edition: string,
    page: string,
    sequence: string,
    city: string,
    county: string,
    state: string,
    pageUrl: string)

  /** The header row written once at the top of `metadata.csv`. */
  const Header: seq<string> :=
    ["file", "title", "date", "edition", "page", "sequence", "city", "county", "state", "page_url"]

  /** The cells of a data row, in header order. */
  function Cells(r: Row): seq<string> {
    [r.file, r.title, r.date, r.edition, r.page, r.sequence, r.city, r.county, r.state, r.pageUrl]
  }

  /** What processing one item does: nothing; one file and one row; or an exception, possibly
      after the OCR file was already written. */
  datatype ItemOutcome =
    | Skipped
    | Written(file: FileWrite, row: Row)
    | Failed(partial: Option<FileWrite>, crash: Crash)

  /** Line 48: `p.get(key, [''])[0]`. */
  function FirstOrEmpty(value: Option<seq<string>>, key: string): (r: Result<string, Crash>)
    ensures value.None? ==> r == Success("")
    ensures value.Some? && value.value == [] ==> r == Failure(EmptyList(key))
    ensures value.Some? && value.value != [] ==> r == Success(value.value[0])
  {
    var list := match value case Some(v) => v case None => [""];
    if list == [] then Failure(EmptyList(key)) else Success(list[0])
  }

  /** A place key is present with an empty list, which makes line 48 raise. */
  predicate HasEmptyPlace(item: Item) {
    item.city == Some([]) || item.county == Some([]) || item.state == Some([])
  }

  /** Line 49: the page URL of an id. */
  function PageUrl(id: string): (r: string)
    ensures |r| == |Host| + |id| && r[..|Host|] == Host && r[|Host|..] == id
  {
    Host + id
  }

  /** Both regex searches of lines 26-27 find something in the id. */
  predicate HasIdFields(id: string) {
    EditionOf(id).Some? && SequenceOf(id).Some?
  }

  /** Processing the item raises: it has OCR text, and the id lacks an edition or sequence or a
      place key holds an empty list. */
  predicate Raises(item: Item) {
    item.ocr.Some? && (!HasIdFields(item.id) || HasEmptyPlace(item))
  }

  /** Lines 24-49: process one item into the directory `dir`. */
  function ProcessItem(item: Item, dir: string): (out: ItemOutcome)
    ensures out.Skipped? <==> item.ocr.None?
    ensures out.Written? ==>
      && out.file.text == item.ocr.value
      && out.row.file == out.file.path
      && Cells(out.row)[|Header| - 1] == Host + item.id
  {
    if item.ocr.None? then Skipped
    else
      match EditionOf(item.id)
      case None => Failed(None, NoMatch(EditionOpen + "(.*)" + EditionClose))
      case Some(edition) =>
        match SequenceOf(item.id)
        case None => Failed(None, NoMatch(SequenceOpen + "(.*)" + SequenceClose))
        case Some(sequence) =>
          var path := JoinPath(dir, FileName(item.date, item.title, edition, sequence));
          var file := FileWrite(path, item.ocr.value);
          match FirstOrEmpty(item.city, "city")
          case Failure(e) => Failed(Some(file), e)
          case Success(city) =>
            match FirstOrEmpty(item.county, "county")
            case Failure(e) => Failed(Some(file), e)
            case Success(county) =>
              match FirstOrEmpty(item.state, "state")
              case Failure(e) => Failed(Some(file), e)
              case Success(state) =>
                Written(file, Row(path, item.title, item.date, item.edition, item.page, item.sequence,
                                  city, county, state, PageUrl(item.id)))
  }

  /** Processing raises exactly for the items `Raises` describes. A failed regex search raises
      `AttributeError` before anything is written; otherwise an empty place list raises
      `IndexError` after the OCR file has been written. */
  lemma ItemFailure(item: Item, dir: string)
    ensures ProcessItem(item, dir).Failed? <==> Raises(item)
    ensures ProcessItem(item, dir).Failed? ==>
      (ProcessItem(item, dir).partial.Some? <==> HasIdFields(item.id))
    ensures ProcessItem(item, dir).Failed? ==>
      if HasIdFields(item.id) then ProcessItem(item, dir).crash.EmptyList?
      else ProcessItem(item, dir).crash.NoMatch?
  {
    if item.ocr.Some? && HasIdFields(item.id) {
      var city := FirstOrEmpty(item.city, "city");
      var county := FirstOrEmpty(item.county, "county");
      var state := FirstOrEmpty(item.state, "state");
      assert HasEmptyPlace(item) <==> city.Failure? || county.Failure? || state.Failure?;
    }
  }

  /** A written item's row copies the item's own fields, takes each place from the first list
      element (empty when the key is absent), and names the file the OCR text went to. */
  lemma WrittenRow(item: Item, dir: string)
    requires ProcessItem(item, dir).Written?
    ensures var out := ProcessItem(item, dir);
      && out.file.path == JoinPath(dir, FileName(item.date, item.title, EditionOf(item.id).value, SequenceOf(item.id).value))
      && out.row.title == item.title && out.row.date == item.date
      && out.row.edition == item.edition && out.row.page == item.page && out.row.sequence == item.sequence
      && FirstOrEmpty(item.city, "city") == Success(out.row.city)
      && FirstOrEmpty(item.county, "county") == Success(out.row.county)
      && FirstOrEmpty(item.state, "state") == Success(out.row.state)
  {
  }

  /** The file an item is written to lies directly in `dir` and is named after the sanitized
      date, title, edition and sequence joined by underscores. */
  lemma WrittenPath(item: Item, dir: string)
    requires dir != [] && dir[|dir| - 1] != '/'
    requires ProcessItem(item, dir).Written?
    ensures ProcessItem(item, dir).file.path
         == dir + "/" + (Stem(item.date) + "_" + Stem(item.title) + "_"
            + Stem(EditionOf(item.id).value) + "_" + Stem(SequenceOf(item.id).value) + ".txt")
  {
    WrittenRow(item, dir);
    var out := ProcessItem(item, dir);
    var e := EditionOf(item.id).value;
    var s := SequenceOf(item.id).value;
    FileNameParts(item.date, item.title, e, s);
    var name := FileName(item.date, item.title, e, s);
    assert IsWordChar(name[..|name| - 4][0]);
    assert name[0] != '/';
    assert out.file.path == JoinPath(dir, name) == dir + "/" + name;
  }
}
