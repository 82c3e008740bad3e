/** Step 5 of `NewsCrew.run`: the translated entries are split by category and
    laid out as HTML table rows, each section under its own header row, inside
    a fixed page. The markup is copied verbatim; titles, summaries and urls are
    pasted in without escaping. */
module Assembly {
  import opened Digest

  /** The fixed markup the page is built from. */
  datatype Markup = Markup(
    techHeader: string,     // the header row of the technology section
    uxHeader: string,       // the header row of the UX design section
    blockOpen: string,      // an article row, up to its url
    blockAfterUrl: string,  // between the url and the title
    blockAfterTitle: string,// between the title and the summary
    blockClose: string,     // after the summary
    pageOpen: string,       // the page before the body rows
    pageClose: string)      // the page after the body rows

  /** The start of every row, up to the cell's padding value. */
  const RowOpen: string := "<tr><td style=\"padding: "

  /** The markup of `NewsCrew.run`, verbatim. */
  const SourceMarkup: Markup := Markup(
    RowOpen + "10px 0;" + "\"><h2 style=\"color: #363737; border-bottom: 2px solid #363737; padding-bottom: 5px;\">Notícias de Tecnologia</h2></td></tr>",
    RowOpen + "20px 0 10px 0;" + "\"><h2 style=\"color: #363737; border-bottom: 2px solid #363737; padding-bottom: 5px;\">Notícias de UX Design</h2></td></tr>",
    RowOpen + "15px 0;" + " border-bottom: 1px solid #eeeeee;\"><a href=\"",
    "\" style=\"text-decoration: none;\"><h3 style=\"font-family: Arial, sans-serif; font-size: 24px; font-weight: bold; color: #363737; margin-bottom: 5px;\">",
    "</h3></a><p style=\"font-size: 16px; color: #555555; line-height: 1.5; margin-top: 5px;\">",
    "</p></td></tr>",
    "\n        <html><head><style>body { font-family: Arial, sans-serif; }</style></head><body>\n"
    + "        <table width=\"100%\" border=\"0\" cellspacing=\"0\" cellpadding=\"0\"><tr><td align=\"center\">\n"
    + "        <table width=\"40%\" border=\"0\" cellspacing=\"0\" cellpadding=\"20\" style=\"max-width: 600px; min-width: 400px; border-collapse: collapse;\">\n"
    + "            <tr><td align=\"center\" style=\"padding: 20px 0;\"><h1 style=\"font-size: 28px; color: #363737;\">Seu Resumo Semanal sobre Design e Tecnologia</h1></td></tr>\n"
    + "            ",
    "\n        </table></td></tr></table></body></html>\n        ")

  /** The two header rows differ from each other, and each differs from the
      start of an article row at some position. */
  predicate HeadersDistinct(m: Markup) {
    && m.techHeader != m.uxHeader
    && (exists i :: 0 <= i < |m.blockOpen| && i < |m.techHeader| && m.blockOpen[i] != m.techHeader[i])
    && (exists i :: 0 <= i < |m.blockOpen| && i < |m.uxHeader| && m.blockOpen[i] != m.uxHeader[i])
  }

  /** The source's header rows are told apart by their padding values. */
  lemma SourceHeadersDistinct()
    ensures HeadersDistinct(SourceMarkup)
  {
    var m := SourceMarkup;
    var n := |RowOpen|;
    assert m.blockOpen[n + 1] == '5' && m.techHeader[n + 1] == '0';
    assert m.blockOpen[n] == '1' && m.uxHeader[n] == '2';
    assert m.techHeader[n] == '1';
  }

  /** The row of one article: a link to its url around its title, then its summary. */
  function Block(m: Markup, e: Entry): string {
    m.blockOpen + e.url + m.blockAfterUrl + e.title + m.blockAfterTitle + e.summary + m.blockClose
  }

  /** The rows of several articles, in order. */
  function Blocks(m: Markup, entries: seq<Entry>): (r: seq<string>)
    ensures |r| == |entries|
    ensures forall k :: 0 <= k < |entries| ==> r[k] == Block(m, entries[k])
  {
    seq(|entries|, k requires 0 <= k < |entries| => Block(m, entries[k]))
  }

  /** The list comprehension keeping the entries of one category, in order. */
  function OfCategory(entries: seq<Entry>, c: Category): (r: seq<Entry>)
  {
    if entries == [] then []
    else if entries[0].category == c then [entries[0]] + OfCategory(entries[1..], c)
    else OfCategory(entries[1..], c)
  }

  /** Filtering by category keeps exactly the entries of that category. */
  lemma {:induction false} OfCategoryMembers(entries: seq<Entry>, c: Category)
    ensures forall e :: e in OfCategory(entries, c) <==> e in entries && e.category == c
  {
    if entries != [] {
      OfCategoryMembers(entries[1..], c);
      assert entries == [entries[0]] + entries[1..];
    }
  }

  /** Filtering by category commutes with concatenation, so the relative order
      of the kept entries is the order of the input. */
  lemma {:induction false} OfCategoryAppend(entries: seq<Entry>, more: seq<Entry>, c: Category)
    ensures OfCategory(entries + more, c) == OfCategory(entries, c) + OfCategory(more, c)
  {
    if entries != [] {
      OfCategoryAppend(entries[1..], more, c);
      assert (entries + more)[1..] == entries[1..] + more;
    } else {
      assert entries + more == more;
    }
  }

  /** The two categories split the entries between them. */
  lemma {:induction false} PartitionSizes(entries: seq<Entry>)
    ensures |OfCategory(entries, Tech)| + |OfCategory(entries, Ux)| == |entries|
  {
    if entries != [] {
      PartitionSizes(entries[1..]);
    }
  }

  /** Python's `list.insert(i, x)` at a position within the list. */
  function Insert(parts: seq<string>, i: nat, x: string): (r: seq<string>)
    requires i <= |parts|
    ensures |r| == |parts| + 1 && r[i] == x
    ensures r[..i] + r[i + 1..] == parts
    ensures multiset(r) == multiset(parts) + multiset{x}
    ensures forall k :: 0 <= k < i ==> r[k] == parts[k]
    ensures forall k :: i <= k < |parts| ==> r[k + 1] == parts[k]
  {
    var r := parts[..i] + [x] + parts[i..];
    assert r[..i] == parts[..i] && r[i + 1..] == parts[i..];
    assert parts == parts[..i] + parts[i..];
    r
  }

  /** Python's `"".join(parts)`. */
  function Concat(parts: seq<string>): string {
    if parts == [] then "" else parts[0] + Concat(parts[1..])
  }

  /** Concatenation of rows distributes over joining row lists. */
  lemma {:induction false} ConcatAppend(a: seq<string>, b: seq<string>)
    ensures Concat(a + b) == Concat(a) + Concat(b)
  {
    if a != [] {
      ConcatAppend(a[1..], b);
      assert (a + b)[1..] == a[1..] + b;
    } else {
      assert a + b == b;
    }
  }

  /** `html_body_parts` once every row is in: the tech rows, the UX header inserted
      at index `len(tech)` when there are UX entries, then the UX rows. */
  function BodyParts(m: Markup, entries: seq<Entry>): seq<string> {
    var tech := OfCategory(entries, Tech);
    var ux := OfCategory(entries, Ux);
    var parts := Blocks(m, tech);
    var parts := if ux != [] then Insert(parts, |tech|, m.uxHeader) else parts;
    parts + Blocks(m, ux)
  }

  /** `newsletter_html_body`: the joined rows, with the tech header prepended
      when there are tech entries. */
  function Body(m: Markup, entries: seq<Entry>): string {
    var body := Concat(BodyParts(m, entries));
    if OfCategory(entries, Tech) != [] then m.techHeader + body else body
  }

  /** `html_content`: the body inside the page. */
  function Page(m: Markup, entries: seq<Entry>): string {
    m.pageOpen + Body(m, entries) + m.pageClose
  }

  /** The intended layout: the tech header when there are tech entries, the tech
      rows, the UX header when there are UX entries, the UX rows. */
  function Layout(m: Markup, entries: seq<Entry>): seq<string> {
    var tech := OfCategory(entries, Tech);
    var ux := OfCategory(entries, Ux);
    (if tech != [] then [m.techHeader] else []) + Blocks(m, tech)
    + (if ux != [] then [m.uxHeader] else []) + Blocks(m, ux)
  }

  /** The assembly steps on rows of any kind: inserting the second header at the
      end of the first group and prepending the first header to the joined text
      give the join of header, group, header, group. */
  lemma InsertThenPrepend(first: seq<string>, second: seq<string>, firstHeader: string, secondHeader: string,
                          hasFirst: bool, hasSecond: bool)
    ensures var parts := (if hasSecond then Insert(first, |first|, secondHeader) else first) + second;
      (if hasFirst then firstHeader + Concat(parts) else Concat(parts))
      == Concat((if hasFirst then [firstHeader] else []) + first + (if hasSecond then [secondHeader] else []) + second)
  {
    var secondHead := if hasSecond then [secondHeader] else [];
    var parts := (if hasSecond then Insert(first, |first|, secondHeader) else first) + second;
    assert parts == first + secondHead + second;
    if hasFirst {
      ConcatAppend([firstHeader], first + secondHead + second);
      assert [firstHeader] + first + secondHead + second == [firstHeader] + (first + secondHead + second);
    } else {
      assert [] + first + secondHead + second == first + secondHead + second;
    }
  }

  /** Inserting the UX header at index `len(tech)` and prepending the tech header
      at the end produce exactly the intended layout. */
  lemma BodyIsLayout(m: Markup, entries: seq<Entry>)
    ensures Body(m, entries) == Concat(Layout(m, entries))
  {
    var tech := OfCategory(entries, Tech);
    var ux := OfCategory(entries, Ux);
    InsertThenPrepend(Blocks(m, tech), Blocks(m, ux), m.techHeader, m.uxHeader, tech != [], ux != []);
  }

  /** No article row can be taken for a header row. */
  lemma BlockIsNotHeader(m: Markup, e: Entry)
    requires HeadersDistinct(m)
    ensures Block(m, e) != m.techHeader && Block(m, e) != m.uxHeader
  {
    var i :| 0 <= i < |m.blockOpen| && i < |m.techHeader| && m.blockOpen[i] != m.techHeader[i];
    var j :| 0 <= j < |m.blockOpen| && j < |m.uxHeader| && m.blockOpen[j] != m.uxHeader[j];
    assert Block(m, e)[i] == m.blockOpen[i];
    assert Block(m, e)[j] == m.blockOpen[j];
  }

  /** The rows of a category's entries are article rows, never header rows. */
  lemma RowsAreNotHeaders(m: Markup, entries: seq<Entry>)
    requires HeadersDistinct(m)
    ensures m.techHeader !in Blocks(m, entries) && m.uxHeader !in Blocks(m, entries)
  {
    forall k | 0 <= k < |entries|
      ensures Blocks(m, entries)[k] != m.techHeader && Blocks(m, entries)[k] != m.uxHeader
    {
      BlockIsNotHeader(m, entries[k]);
    }
  }

  /** The layout has a header exactly for each section that has entries. */
  lemma LayoutHeaders(m: Markup, entries: seq<Entry>)
    requires HeadersDistinct(m)
    ensures m.techHeader in Layout(m, entries) <==> exists e :: e in entries && e.category == Tech
    ensures m.uxHeader in Layout(m, entries) <==> exists e :: e in entries && e.category == Ux
  {
    var tech := OfCategory(entries, Tech);
    var ux := OfCategory(entries, Ux);
    OfCategoryMembers(entries, Tech);
    OfCategoryMembers(entries, Ux);
    RowsAreNotHeaders(m, tech);
    RowsAreNotHeaders(m, ux);
    if tech != [] {
      assert tech[0] in tech;
    }
    if ux != [] {
      assert ux[0] in ux;
    }
  }

  /** Besides its headers the layout holds one article row per entry. */
  lemma LayoutSize(m: Markup, entries: seq<Entry>)
    ensures |Layout(m, entries)| == |entries|
              + (if OfCategory(entries, Tech) != [] then 1 else 0)
              + (if OfCategory(entries, Ux) != [] then 1 else 0)
  {
    PartitionSizes(entries);
  }

  /** Every row of the layout that is not a header is the row of one of the entries. */
  lemma LayoutRows(m: Markup, entries: seq<Entry>)
    ensures forall row :: row in Layout(m, entries) && row != m.techHeader && row != m.uxHeader
              ==> exists e :: e in entries && row == Block(m, e)
  {
    var tech := OfCategory(entries, Tech);
    var ux := OfCategory(entries, Ux);
    OfCategoryMembers(entries, Tech);
    OfCategoryMembers(entries, Ux);
    forall row | row in Layout(m, entries) && row != m.techHeader && row != m.uxHeader
      ensures exists e :: e in entries && row == Block(m, e)
    {
      if row in Blocks(m, tech) {
        var j :| 0 <= j < |tech| && Blocks(m, tech)[j] == row;
        assert tech[j] in tech;
      } else {
        assert row in Blocks(m, ux);
        var j :| 0 <= j < |ux| && Blocks(m, ux)[j] == row;
        assert ux[j] in ux;
      }
    }
  }
}
