/** The string handling around the search URL: the request URL of a page (line 17), the year
    that names the output directory (lines 137-152), and the summary written to
    `searchterms.txt` (lines 101-131). */
module Query {
  import opened Wrappers
  import opened Exceptions
  import opened Strings
  import opened Paths

  /** The fixed parameters appended to the search URL before the page number. */
  const RequestSuffix: string := "&rows=10&format=json&page="

  /** Line 17: the URL requested for page `page` of the search `url`. */
  function RequestUrl(url: string, page: nat): (r: string)
    ensures |r| > |url| + |RequestSuffix|
    ensures r[..|url| + |RequestSuffix|] == url + RequestSuffix
    ensures AllDigits(r[|url| + |RequestSuffix|..])
    ensures DigitsValue(r[|url| + |RequestSuffix|..]) == page
    ensures |r| > |url| + |RequestSuffix| + 1 ==> r[|url| + |RequestSuffix|] != '0'
  {
    var r := url + RequestSuffix + NatToString(page);
    assert r[|url| + |RequestSuffix|..] == NatToString(page);
    r
  }

  const YearKey: string := "date1="

  /** `date1=` followed by four ASCII digits starts at position `k` of `url`. */
  predicate YearAt(url: string, k: int) {
    0 <= k && k + |YearKey| + 4 <= |url| && url[k..k + |YearKey|] == YearKey
    && AllDigits(url[k + |YearKey|..k + |YearKey| + 4])
  }

  /** The first position at or after `k` where `YearAt` holds. */
  function FindYear(url: string, k: nat): (r: Option<nat>)
    ensures r.Some? ==> k <= r.value && YearAt(url, r.value)
    ensures r.Some? ==> forall j :: k <= j < r.value ==> !YearAt(url, j)
    ensures r.None? ==> forall j :: k <= j ==> !YearAt(url, j)
    decreases |url| - k
  {
    if k + |YearKey| + 4 > |url| then None
    else if YearAt(url, k) then Some(k)
    else FindYear(url, k + 1)
  }

  /** Line 137: `re.search(r'date1=(\d{4})', url).group(1)`, `None` when nothing matches. */
  function ExtractYear(url: string): (r: Option<string>)
    ensures r.None? <==> forall k :: !YearAt(url, k)
    ensures r.Some? ==> |r.value| == 4 && AllDigits(r.value)
    ensures r.Some? ==> exists k :: && YearAt(url, k) && r.value == url[k + |YearKey|..k + |YearKey| + 4]
                                    && forall j :: 0 <= j < k ==> !YearAt(url, j)
  {
    match FindYear(url, 0)
    case None => None
    case Some(k) => Some(url[k + |YearKey|..k + |YearKey| + 4])
  }

  /** The year of a URL whose first `date1=` with four digits after it is the one written. */
  lemma YearOfUrl(before: string, year: string, after: string)
    requires |year| == 4 && AllDigits(year)
    requires forall j :: 0 <= j < |before| ==> !YearAt(before + YearKey + year + after, j)
    ensures ExtractYear(before + YearKey + year + after) == Some(year)
  {
    var url := before + YearKey + year + after;
    var k := |before|;
    assert url[k..k + |YearKey|] == YearKey;
    assert url[k + |YearKey|..k + |YearKey| + 4] == year;
    assert YearAt(url, k);
    var r := ExtractYear(url);
    var k' :| YearAt(url, k') && r.value == url[k' + |YearKey|..k' + |YearKey| + 4]
              && forall j :: 0 <= j < k' ==> !YearAt(url, j);
    assert k' == k;
  }

  /** The files and directories of one download (lines 145-152). */
  datatype Layout = Layout(yearDir: string, ocrDir: string, csvPath: string, searchtermsPath: string)

  /** Lines 137-152: `None` where the program prints "Year not found in URL." and stops. */
  function Plan(url: string): (r: Option<Layout>)
    ensures r.None? <==> ExtractYear(url).None?
    ensures r.Some? ==>
      && r.value.yearDir == ExtractYear(url).value
      && r.value.ocrDir == r.value.yearDir + "/ocr_texts"
      && r.value.csvPath == r.value.yearDir + "/metadata.csv"
      && r.value.searchtermsPath == r.value.yearDir + "/searchterms.txt"
  {
    match ExtractYear(url)
    case None => None
    case Some(year) =>
      assert IsDigit(year[|year| - 1]);
      Some(Layout(year, JoinPath(year, "ocr_texts"), JoinPath(year, "metadata.csv"), JoinPath(year, "searchterms.txt")))
  }

  /** The heading line of the search terms, spelled as the program spells it. */
  const Heading: string := "Seach Terms:\n"

  /** Each term on a line of its own (lines 130-131). */
  function TermLines(terms: seq<string>): string {
    if terms == [] then "" else terms[0] + "\n" + TermLines(terms[1..])
  }

  /** A split yields a single part exactly when the separator does not occur. */
  lemma SplitSingle(s: string, sep: char)
    ensures |Split(s, sep)| == 1 <==> sep !in s
  {
    var parts := Split(s, sep);
    if |parts| > 1 {
      assert Join(parts, sep) == parts[0] + [sep] + Join(parts[1..], sep);
      assert (parts[0] + [sep] + Join(parts[1..], sep))[|parts[0]|] == sep;
    } else {
      SplitSeparatorFree(s, sep);
    }
  }

  /** Lines 123-131: the search-terms section; `IndexError` when the part before the first `&`
      has no `?`. */
  function SearchTerms(url: string): (r: Result<string, Crash>)
    ensures r.Failure? <==> '?' !in Split(url, '&')[0]
    ensures r.Failure? ==> r.error == NoQueryMark
  {
    var components := Split(url, '&');
    var query := Split(components[0], '?');
    SplitSingle(components[0], '?');
    if |query| < 2 then Failure(NoQueryMark)
    else Success(Heading + query[1] + "\n" + TermLines(components[1..]))
  }

  /** The URL `base?t0&t1&...&tn` split on `&`. */
  lemma QuerySplit(base: string, terms: seq<string>)
    requires '?' !in base && '&' !in base
    requires |terms| > 0
    requires forall k :: 0 <= k < |terms| ==> '&' !in terms[k]
    ensures Split(base + "?" + Join(terms, '&'), '&') == [base + "?" + terms[0]] + terms[1..]
  {
    var components := [base + "?" + terms[0]] + terms[1..];
    JoinPrepend(base + "?", terms, '&');
    assert forall k :: 0 <= k < |components| ==> '&' !in components[k];
    SplitJoin(components, '&');
  }

  /** For a URL `base?t0&t1&...&tn` the section lists `t0` under the heading and then every
      later term on its own line. */
  lemma SearchTermsOfQuery(base: string, terms: seq<string>)
    requires '?' !in base && '&' !in base
    requires |terms| > 0 && '?' !in terms[0]
    requires forall k :: 0 <= k < |terms| ==> '&' !in terms[k]
    ensures SearchTerms(base + "?" + Join(terms, '&')) == Success(Heading + terms[0] + "\n" + TermLines(terms[1..]))
  {
    var url := base + "?" + Join(terms, '&');
    QuerySplit(base, terms);
    var first := base + "?" + terms[0];
    assert Join([base, terms[0]], '?') == first;
    SplitJoin([base, terms[0]], '?');
    assert Split(url, '&')[0] == first;
    assert Split(url, '&')[1..] == terms[1..];
  }

  /** Lines 113-115 up to the OCR count; `timestamp` stands for `datetime.now()`. */
  function ResultsLead(timestamp: string, totalItems: int): string {
    "Downloaded: " + timestamp + "\n\n" + "Num of results: " + IntToString(totalItems) + " newspaper pages\U{2014}"
  }

  /** Lines 116-118 after the OCR count. */
  function InfoTail(url: string): string {
    " of those pages had OCR files.\n\n" + "Search URL: " + url + "\n\n"
    + "Search results in JSON: " + url + "&format=json\n\n"
  }

  /** Lines 113-119: the download information. */
  function DownloadInfo(timestamp: string, totalItems: int, url: string, counter: nat): string {
    ResultsLead(timestamp, totalItems) + NatToString(counter) + InfoTail(url)
  }

  /** What `write_searchterms` leaves in the file, and the exception it raises, if any. */
  datatype Summary = Summary(text: string, crash: Option<Crash>)

  /** Lines 101-131: the download information is written first; the search terms follow unless
      the URL has no `?` before its first `&`, in which case the function raises after the first
      write. */
  function WriteSearchterms(timestamp: string, totalItems: int, url: string, counter: nat): (r: Summary)
    ensures |DownloadInfo(timestamp, totalItems, url, counter)| <= |r.text|
    ensures r.text[..|DownloadInfo(timestamp, totalItems, url, counter)|] == DownloadInfo(timestamp, totalItems, url, counter)
    ensures r.crash.Some? <==> '?' !in Split(url, '&')[0]
    ensures r.crash.None? ==>
      r.text == DownloadInfo(timestamp, totalItems, url, counter) + SearchTerms(url).value
  {
    var info := DownloadInfo(timestamp, totalItems, url, counter);
    match SearchTerms(url)
    case Failure(e) => Summary(info, Some(e))
    case Success(terms) =>
      assert (info + terms)[..|info|] == info;
      Summary(info + terms, None)
  }

  /** The OCR count can be read back from the download information, which heads the file: the
      digits right after the result count denote `text_counter`, and a space ends them. */
  lemma CounterReadBack(timestamp: string, totalItems: int, url: string, counter: nat)
    ensures var pre := ResultsLead(timestamp, totalItems);
      var info := DownloadInfo(timestamp, totalItems, url, counter);
      var n := |NatToString(counter)|;
      && |pre| + n < |info|
      && AllDigits(info[|pre|..|pre| + n])
      && DigitsValue(info[|pre|..|pre| + n]) == counter
      && info[|pre| + n] == ' '
  {
    var pre := ResultsLead(timestamp, totalItems);
    var digits := NatToString(counter);
    var tail := InfoTail(url);
    assert tail[0] == ' ';
    assert (pre + digits + tail)[|pre|..|pre| + |digits|] == digits;
    assert (pre + digits + tail)[|pre| + |digits|] == tail[0];
  }
}
