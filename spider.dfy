/** The per-title body of fetchIMDBMovies: find the title's page from the
    search results, read each field from its selector's matches, and
    normalise it; and the loop over all titles that writes one record per
    title until the first exception. */
module Spider {
  import opened Results
  import opened JavaStrings
  import opened Normalizers
  import opened Selectors

  /** The XPath expressions the spider evaluates, one per field. */
  datatype Selector =
    | Title         // the hero title
    | YearDuration  // the <li> items of the line under the title
    | Rating        // the aggregate rating score
    | Description   // the plot text
    | Budget        // the box-office budget
    | Gross         // the cumulative worldwide gross
    | Directors     // the list of principal credits
    | Cast          // the actor links
    | Characters    // the character links
    | Genres        // the genre chips
    | Countries     // the countries of origin

  /** A parsed page, seen through the spider's selectors: the matches of each
      expression, in document order. */
  type Page = Selector -> seq<Node>

  /** The JSON object written for a title. */
  datatype MovieRecord = MovieRecord(
    url: string,
    title: string,
    year: string,
    duration: string,
    ratingValue: string,
    description: string,
    budget: string,
    gross: string,
    directors: seq<string>,
    cast: seq<string>,
    characters: seq<string>,
    genres: seq<string>,
    countries: seq<string>)

  const SiteRoot: string := "https://www.imdb.com"

  /** The title's page: the site root followed by the first search result's
      href, where a missing result or attribute (Java's null) reads "null". */
  function DetailUrl(search: seq<Node>): (r: string)
    ensures HasPrefix(r, SiteRoot)
    ensures |search| > 0 && "href" in search[0].attributes ==> r == SiteRoot + search[0].attributes["href"]
    ensures !(|search| > 0 && "href" in search[0].attributes) ==> r == SiteRoot + "null"
  {
    match Attribute(XPathEval(search, 0), "href")
    case Some(href) => SiteRoot + href
    case None => SiteRoot + "null"
  }

  /** formatText applied to the text of each node, in order. */
  function FormattedTexts(nodes: seq<Node>): (r: seq<string>)
    ensures |r| == |nodes|
    ensures forall i :: 0 <= i < |r| ==> r[i] == FormatText(nodes[i].text)
  {
    if |nodes| == 0 then [] else [FormatText(nodes[0].text)] + FormattedTexts(nodes[1..])
  }

  /** The text of the first match, or of the sentinel when nothing matched. */
  function FirstText(page: Page, s: Selector): (r: string)
    ensures |page(s)| > 0 ==> r == page(s)[0].text
    ensures |page(s)| == 0 ==> r == []
  {
    XPathEval(page(s), 0).text
  }

  /** The record the spider builds from a title page fetched from url: the
      year is the first item of the year/duration line and the duration its
      last; reading an item of an empty line throws, and so does a duration
      formatDuration cannot read. */
  function Assemble(url: string, page: Page): (r: Result<MovieRecord>)
    ensures r == Err(ArrayIndex) <==> |page(YearDuration)| == 0
    ensures r.Err? ==> r.error == ArrayIndex || r.error == NumberFormat
    ensures r.Ok? ==> r.value.url == url && r.value.year == page(YearDuration)[0].text
    ensures r.Ok? ==> IsNumeral(r.value.duration)
    ensures r.Ok? ==> |r.value.cast| == |page(Cast)| && |r.value.characters| == |page(Characters)|
    ensures r.Ok? ==> |r.value.genres| == |page(Genres)| && |r.value.countries| == |page(Countries)|
  {
    var items := page(YearDuration);
    if |items| == 0 then Err(ArrayIndex)
    else match FormatDuration(items[|items| - 1].text)
      case Err(e) => Err(e)
      case Ok(duration) => Ok(Fields(url, page, items[0].text, duration))
  }

  /** The record's fields once the year and the duration are read. */
  function Fields(url: string, page: Page, year: string, duration: string): MovieRecord {
    MovieRecord(
      url,
      FormatText(FirstText(page, Title)),
      year,
      duration,
      FirstText(page, Rating),
      FormatText(FirstText(page, Description)),
      FormatBudgetGross(FirstText(page, Budget)),
      FormatBudgetGross(FirstText(page, Gross)),
      FormattedTexts(XPathEval(page(Directors), 0).listItems),
      FormattedTexts(page(Cast)),
      FormattedTexts(page(Characters)),
      FormattedTexts(page(Genres)),
      FormattedTexts(page(Countries)))
  }

  /** The loop body that fills a JSON array: formatText of each node's text
      appended in turn. */
  method AddTexts(nodes: seq<Node>) returns (texts: seq<string>)
    ensures texts == FormattedTexts(nodes)
  {
    texts := [];
    var i := 0;
    while i < |nodes|
      invariant 0 <= i <= |nodes|
      invariant |texts| == i
      invariant forall k :: 0 <= k < i ==> texts[k] == FormatText(nodes[k].text)
    {
      texts := texts + [FormatText(nodes[i].text)];
      i := i + 1;
    }
  }

  /** Lines 151-208: the fields read and added one after another. */
  method BuildRecord(url: string, page: Page) returns (r: Result<MovieRecord>)
    ensures r == Assemble(url, page)
  {
    var title := FormatText(XPathEval(page(Title), 0).text);
    var items := CumulativeXPathEval(page(YearDuration));
    if items.Length == 0 {
      return Err(ArrayIndex);
    }
    var year := items[0].text;
    var formatted := FormatDuration(items[items.Length - 1].text);
    if formatted.Err? {
      return Err(formatted.error);
    }
    var duration := formatted.value;
    var ratingValue := XPathEval(page(Rating), 0).text;
    var description := FormatText(XPathEval(page(Description), 0).text);
    var budget := FormatBudgetGross(XPathEval(page(Budget), 0).text);
    var gross := FormatBudgetGross(XPathEval(page(Gross), 0).text);
    var directors := AddTexts(XPathEval(page(Directors), 0).listItems);
    var castNodes := CumulativeXPathEval(page(Cast));
    var cast := AddTexts(castNodes[..]);
    var characterNodes := CumulativeXPathEval(page(Characters));
    var characters := AddTexts(characterNodes[..]);
    var genreNodes := CumulativeXPathEval(page(Genres));
    var genres := AddTexts(genreNodes[..]);
    var countryNodes := CumulativeXPathEval(page(Countries));
    var countries := AddTexts(countryNodes[..]);
    r := Ok(MovieRecord(url, title, year, duration, ratingValue, description, budget, gross,
                        directors, cast, characters, genres, countries));
  }

  /** A record is built exactly when the year/duration line has an item and
      its last item is a duration formatDuration reads; an empty line throws
      ArrayIndexOutOfBoundsException. */
  lemma AssembleFails(url: string, page: Page)
    ensures Assemble(url, page).Err? <==>
      |page(YearDuration)| == 0 || FormatDuration(page(YearDuration)[|page(YearDuration)| - 1].text).Err?
    ensures |page(YearDuration)| == 0 ==> Assemble(url, page) == Err(ArrayIndex)
  {
  }

  /** The year is the first item and the duration the last: with three items
      the duration comes from the third. */
  lemma AssembleThreeItems(url: string, page: Page, a: Node, b: Node, c: Node)
    requires page(YearDuration) == [a, b, c]
    requires FormatDuration(c.text).Ok?
    ensures Assemble(url, page).Ok?
    ensures Assemble(url, page).value.year == a.text
    ensures Assemble(url, page).value.duration == FormatDuration(c.text).value
  {
  }

  /** With a single item, the year and the duration are read from it alike. */
  lemma AssembleOneItem(url: string, page: Page, a: Node)
    requires page(YearDuration) == [a]
    requires FormatDuration(a.text).Ok?
    ensures Assemble(url, page).Ok?
    ensures Assemble(url, page).value.year == a.text
    ensures Assemble(url, page).value.duration == FormatDuration(a.text).value
  {
  }

  /** Each single-valued field is the text of its selector's first match
      (or of the sentinel) through its normaliser, and the duration is read
      from the last item of the year/duration line, however many it has. */
  lemma AssembleSingleFields(url: string, page: Page)
    requires Assemble(url, page).Ok?
    ensures var r := Assemble(url, page).value;
      var items := page(YearDuration);
      |items| > 0 && FormatDuration(items[|items| - 1].text).Ok? &&
      r.duration == FormatDuration(items[|items| - 1].text).value
    ensures var r := Assemble(url, page).value;
      r.title == FormatText(FirstText(page, Title)) &&
      r.ratingValue == FirstText(page, Rating) &&
      r.description == FormatText(FirstText(page, Description))
    ensures var r := Assemble(url, page).value;
      r.budget == FormatBudgetGross(FirstText(page, Budget)) &&
      r.gross == FormatBudgetGross(FirstText(page, Gross))
  {
  }

  /** Every list field follows its matches one for one, in order, each text
      through formatText; the directors are the `<li>` items under the first
      credit list, and there are none when no credit list matched. */
  lemma AssembleLists(url: string, page: Page)
    requires Assemble(url, page).Ok?
    ensures var r := Assemble(url, page).value;
      |r.cast| == |page(Cast)| && |r.characters| == |page(Characters)| &&
      |r.genres| == |page(Genres)| && |r.countries| == |page(Countries)| &&
      (forall i :: 0 <= i < |r.cast| ==> r.cast[i] == FormatText(page(Cast)[i].text)) &&
      (forall i :: 0 <= i < |r.characters| ==> r.characters[i] == FormatText(page(Characters)[i].text)) &&
      (forall i :: 0 <= i < |r.genres| ==> r.genres[i] == FormatText(page(Genres)[i].text)) &&
      (forall i :: 0 <= i < |r.countries| ==> r.countries[i] == FormatText(page(Countries)[i].text))
    ensures var r := Assemble(url, page).value;
      |page(Directors)| == 0 ==> r.directors == []
    ensures var r := Assemble(url, page).value;
      |page(Directors)| > 0 ==> r.directors == FormattedTexts(page(Directors)[0].listItems)
  {
  }

  /** A single-valued field whose selector matched nothing is the empty
      string. */
  lemma AssembleMissingFields(url: string, page: Page)
    requires Assemble(url, page).Ok?
    ensures var r := Assemble(url, page).value;
      (|page(Title)| == 0 ==> r.title == []) &&
      (|page(Rating)| == 0 ==> r.ratingValue == []) &&
      (|page(Description)| == 0 ==> r.description == []) &&
      (|page(Budget)| == 0 ==> r.budget == []) &&
      (|page(Gross)| == 0 ==> r.gross == [])
  {
    FormatTextUnchanged([]);
    BudgetGrossEmpty([]);
  }

  /** Whether two pages have the same matches for every selector but s. */
  predicate SameExcept(p: Page, q: Page, s: Selector) {
    forall t :: t != s ==> p(t) == q(t)
  }

  /** The record with the fields read through selector s reset. */
  function Blank(r: MovieRecord, s: Selector): MovieRecord {
    match s
    case Title => r.(title := [])
    case YearDuration => r.(year := [], duration := [])
    case Rating => r.(ratingValue := [])
    case Description => r.(description := [])
    case Budget => r.(budget := [])
    case Gross => r.(gross := [])
    case Directors => r.(directors := [])
    case Cast => r.(cast := [])
    case Characters => r.(characters := [])
    case Genres => r.(genres := [])
    case Countries => r.(countries := [])
  }

  /** Each field depends on its own selector only: pages that differ in one
      selector other than the year/duration line give records that differ in
      that selector's fields at most. */
  lemma AssembleFieldsIndependent(url: string, p: Page, q: Page, s: Selector)
    requires SameExcept(p, q, s) && s != YearDuration
    ensures Assemble(url, p).Ok? <==> Assemble(url, q).Ok?
    ensures Assemble(url, p).Ok? ==> Blank(Assemble(url, p).value, s) == Blank(Assemble(url, q).value, s)
  {
    var items := p(YearDuration);
    assert items == q(YearDuration);
    if |items| > 0 && FormatDuration(items[|items| - 1].text).Ok? {
      FieldsIndependent(url, p, q, s, items[0].text, FormatDuration(items[|items| - 1].text).value);
    }
  }

  lemma FieldsIndependent(url: string, p: Page, q: Page, s: Selector, year: string, duration: string)
    requires SameExcept(p, q, s)
    ensures Blank(Fields(url, p, year, duration), s) == Blank(Fields(url, q, year, duration), s)
  {
    var a, b := Fields(url, p, year, duration), Fields(url, q, year, duration);
    SingleFieldsIndependent(p, q, s);
    ListFieldsIndependent(p, q, s);
    assert s != Title ==> a.title == b.title;
    assert s != Rating ==> a.ratingValue == b.ratingValue;
    assert s != Description ==> a.description == b.description;
    assert s != Budget ==> a.budget == b.budget;
    assert s != Gross ==> a.gross == b.gross;
    assert s != Directors ==> a.directors == b.directors;
    assert s != Cast ==> a.cast == b.cast;
    assert s != Characters ==> a.characters == b.characters;
    assert s != Genres ==> a.genres == b.genres;
    assert s != Countries ==> a.countries == b.countries;
  }

  lemma SingleFieldsIndependent(p: Page, q: Page, s: Selector)
    requires SameExcept(p, q, s)
    ensures s != Title ==> FirstText(p, Title) == FirstText(q, Title)
    ensures s != Rating ==> FirstText(p, Rating) == FirstText(q, Rating)
    ensures s != Description ==> FirstText(p, Description) == FirstText(q, Description)
    ensures s != Budget ==> FirstText(p, Budget) == FirstText(q, Budget)
    ensures s != Gross ==> FirstText(p, Gross) == FirstText(q, Gross)
  {
    assert s != Title ==> p(Title) == q(Title);
    assert s != Rating ==> p(Rating) == q(Rating);
    assert s != Description ==> p(Description) == q(Description);
    assert s != Budget ==> p(Budget) == q(Budget);
    assert s != Gross ==> p(Gross) == q(Gross);
  }

  lemma ListFieldsIndependent(p: Page, q: Page, s: Selector)
    requires SameExcept(p, q, s)
    ensures s != Directors ==> p(Directors) == q(Directors)
    ensures s != Cast ==> p(Cast) == q(Cast)
    ensures s != Characters ==> p(Characters) == q(Characters)
    ensures s != Genres ==> p(Genres) == q(Genres)
    ensures s != Countries ==> p(Countries) == q(Countries)
  {
  }

  /** What happens to one title: its search page (None when the request
      failed), the link followed from it, and the record read from the title
      page fetched there (None when that request failed). */
  function TitleOutcome(search: Option<seq<Node>>, fetch: string -> Option<Page>): (r: Result<MovieRecord>)
    ensures search.None? ==> r == Err(Transport)
    ensures r.Ok? ==> search.Some? && r.value.url == DetailUrl(search.value) && HasPrefix(r.value.url, SiteRoot)
    ensures r.Err? ==> r.error != SubstringRange
  {
    match search
    case None => Err(Transport)
    case Some(results) =>
      var url := DetailUrl(results);
      match fetch(url)
      case None => Err(Transport)
      case Some(page) => Assemble(url, page)
  }

  /** A title without search results is read from the "null" page. */
  lemma TitleWithoutResults(fetch: string -> Option<Page>)
    ensures TitleOutcome(Some([]), fetch) ==
      match fetch("https://www.imdb.comnull")
      case None => Err(Transport)
      case Some(page) => Assemble("https://www.imdb.comnull", page)
    ensures TitleOutcome(Some([]), fetch).Ok? ==> TitleOutcome(Some([]), fetch).value.url == "https://www.imdb.comnull"
  {
    assert DetailUrl([]) == SiteRoot + "null" == "https://www.imdb.comnull";
  }

  /** The loop of fetchIMDBMovies over the titles, in list order: the count
      goes up before each title, the record of title number count is written
      to file count.json (written[count - 1] here), and the first exception
      ends the loop and the call. */
  method FetchIMDBMovies(searches: seq<Option<seq<Node>>>, fetch: string -> Option<Page>)
    returns (written: seq<MovieRecord>, failure: Option<Failure>)
    ensures |written| <= |searches|
    ensures failure.None? ==> |written| == |searches|
    ensures forall i :: 0 <= i < |written| ==> TitleOutcome(searches[i], fetch) == Ok(written[i])
    ensures failure.Some? ==> |written| < |searches| && TitleOutcome(searches[|written|], fetch) == Err(failure.value)
  {
    written := [];
    failure := None;
    var count := 0;
    while count < |searches|
      invariant count == |written| <= |searches|
      invariant forall i :: 0 <= i < count ==> TitleOutcome(searches[i], fetch) == Ok(written[i])
    {
      count := count + 1;
      var outcome := FetchTitle(searches[count - 1], fetch);
      if outcome.Err? {
        failure := Some(outcome.error);
        return;
      }
      RecordWritten(searches, fetch, written, outcome.value);
      written := written + [outcome.value];
    }
  }

  /** The records written so far stay in step with the titles after one more
      successful title. */
  lemma RecordWritten(searches: seq<Option<seq<Node>>>, fetch: string -> Option<Page>,
                      written: seq<MovieRecord>, record: MovieRecord)
    requires |written| < |searches|
    requires forall i :: 0 <= i < |written| ==> TitleOutcome(searches[i], fetch) == Ok(written[i])
    requires TitleOutcome(searches[|written|], fetch) == Ok(record)
    ensures forall i :: 0 <= i <= |written| ==> TitleOutcome(searches[i], fetch) == Ok((written + [record])[i])
  {
  }

  /** Lines 135-208 for one title: request the search page, follow the first
      result, request the title page and build its record. */
  method FetchTitle(search: Option<seq<Node>>, fetch: string -> Option<Page>) returns (r: Result<MovieRecord>)
    ensures r == TitleOutcome(search, fetch)
  {
    if search.None? {
      return Err(Transport);
    }
    var url := DetailUrl(search.value);
    var page := fetch(url);
    if page.None? {
      return Err(Transport);
    }
    r := BuildRecord(url, page.value);
  }
}
