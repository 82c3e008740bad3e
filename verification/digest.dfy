/** The records that flow through the newsletter pipeline. */
module Digest {

  /** One object of the JSON list the search tool answers with, as key/value pairs. */
  type Article = map<string, string>

  /** The run reads `article['title']` and `article['url']` outside any `try`,
      so every discovered article must carry both keys. */
  predicate HasFields(a: Article) {
    "title" in a && "url" in a
  }

  /** Every article of the list carries a title and a url. */
  predicate AllHaveFields(articles: seq<Article>) {
    forall k :: 0 <= k < |articles| ==> HasFields(articles[k])
  }

  /** The two newsletter sections, the `"tech"` and `"ux"` category strings. */
  datatype Category = Tech | Ux

  /** A summarised article: the dictionary built for each kept article. */
  datatype Entry = Entry(title: string, summary: string, url: string, category: Category)
}
