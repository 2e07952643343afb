/** The journal registry and per-journal dispatch: the `Article` and
    `JournalConfig` records, `JOURNAL_CONFIGS`, `PARSER_MAP` and
    `parse_journal` (main.py:26-73, 217-233), and the gathering loop of
    `main` (main.py:279-283) without its network fetch. */
module Journals {
  import opened Wrappers
  import opened Times

  /** One article as a journal page lists it; `link` is its identity. */
  datatype Article = Article(
    title: string,
    link: string,
    summary: string,
    published: Option<DateTime>,
    source: string)

  /** A journal: its name, listing page, base address for relative links,
      and keyword lists (configured but read nowhere in the program). */
  datatype JournalConfig = JournalConfig(
    name: string,
    url: string,
    baseUrl: string,
    includeTerms: seq<string>,
    excludeTerms: seq<string>)

  /** `JOURNAL_CONFIGS`, in the order `main` visits them. */
  const JournalConfigs: seq<JournalConfig> := [
    JournalConfig(
      "Cell",
      "https://www.cell.com/cell/newarticles",
      "https://www.cell.com",
      ["research article", "article"],
      ["news", "editorial", "briefing", "ahead of print", "perspective", "pre-proof"]),
    JournalConfig(
      "Nature",
      "https://www.nature.com/nature/research-articles",
      "https://www.nature.com",
      ["research article", "research"],
      ["news & views"]),
    JournalConfig(
      "Science",
      "https://www.science.org/journal/science/research",
      "https://www.science.org",
      ["research article", "research"],
      ["perspective", "books", "policy forum", "letter", "news"])
  ]

  /** The three page parsers `parse_cell`, `parse_nature`, `parse_science`. */
  datatype Parser = CellParser | NatureParser | ScienceParser

  /** `PARSER_MAP`: journal name to page parser. */
  const ParserMap: map<string, Parser> :=
    map["Cell" := CellParser, "Nature" := NatureParser, "Science" := ScienceParser]

  /** What a page parser extracts from a page's HTML for a journal. The
      parsers select article cards with CSS selectors through BeautifulSoup
      and resolve links with `urljoin`; this model takes them as given. */
  type Extractor = (Parser, string, JournalConfig) -> seq<Article>

  /** The filter of main.py:231: title and link both non-empty. */
  predicate IsValid(a: Article) {
    a.title != [] && a.link != []
  }

  /** The list comprehension of main.py:231: the valid articles, in order. */
  function KeepValid(s: seq<Article>): (r: seq<Article>)
    ensures |r| <= |s|
    ensures forall a :: a in r ==> IsValid(a) && a in s
    ensures forall a :: IsValid(a) ==> multiset(r)[a] == multiset(s)[a]
  {
    if s == [] then []
    else
      assert s == [s[0]] + s[1..];
      (if IsValid(s[0]) then [s[0]] else []) + KeepValid(s[1..])
  }

  /** Filtering keeps order: it works piecewise on a concatenation. */
  lemma {:induction false} KeepValidAppend(a: seq<Article>, b: seq<Article>)
    ensures KeepValid(a + b) == KeepValid(a) + KeepValid(b)
  {
    if a == [] {
      assert a + b == b;
    } else {
      assert (a + b)[0] == a[0];
      assert (a + b)[1..] == a[1..] + b;
      KeepValidAppend(a[1..], b);
    }
  }

  /** A list of valid articles passes the filter unchanged. */
  lemma {:induction false} KeepValidKeepsValid(s: seq<Article>)
    requires forall a :: a in s ==> IsValid(a)
    ensures KeepValid(s) == s
  {
    if s != [] {
      assert s[0] in s;
      assert forall a :: a in s[1..] ==> a in s;
      KeepValidKeepsValid(s[1..]);
    }
  }

  /** Filtering twice is filtering once. */
  lemma KeepValidIdempotent(s: seq<Article>)
    ensures KeepValid(KeepValid(s)) == KeepValid(s)
  {
    KeepValidKeepsValid(KeepValid(s));
  }

  /** `parse_journal`: no parser for the name gives no articles; otherwise
      the parser's valid articles, in the parser's order. */
  function ParseJournal(extract: Extractor, html: string, config: JournalConfig): (r: seq<Article>)
    ensures config.name !in ParserMap ==> r == []
    ensures forall a :: a in r ==> IsValid(a)
    ensures config.name in ParserMap ==>
      forall a :: IsValid(a) ==>
        multiset(r)[a] == multiset(extract(ParserMap[config.name], html, config))[a]
  {
    if config.name in ParserMap then KeepValid(extract(ParserMap[config.name], html, config))
    else []
  }

  /** Every configured journal has a parser, and no name is configured twice. */
  lemma ConfiguredJournalsHaveParsers()
    ensures forall i :: 0 <= i < |JournalConfigs| ==> JournalConfigs[i].name in ParserMap
    ensures forall i, j :: 0 <= i < j < |JournalConfigs| ==> JournalConfigs[i].name != JournalConfigs[j].name
  {
  }

  /** The loop of `main` without the fetch: `pages[i]` is the HTML fetched
      for `configs[i]`, and the journals' article lists are concatenated in
      configuration order. */
  function Gather(extract: Extractor, pages: seq<string>, configs: seq<JournalConfig>): (r: seq<Article>)
    requires |pages| == |configs|
    ensures forall a :: a in r ==> IsValid(a)
    ensures configs == [] ==> r == []
  {
    if configs == [] then []
    else ParseJournal(extract, pages[0], configs[0]) + Gather(extract, pages[1..], configs[1..])
  }

  /** Each journal's articles appear in the gathered list as one contiguous
      block, after the blocks of the journals before it. */
  lemma {:induction false} GatherAppend(extract: Extractor, pages: seq<string>, configs: seq<JournalConfig>, k: nat)
    requires |pages| == |configs| && k <= |configs|
    ensures Gather(extract, pages, configs) ==
      Gather(extract, pages[..k], configs[..k]) + Gather(extract, pages[k..], configs[k..])
  {
    if k > 0 {
      GatherAppend(extract, pages[1..], configs[1..], k - 1);
      assert pages[1..][..k - 1] == pages[..k][1..];
      assert configs[1..][..k - 1] == configs[..k][1..];
      assert pages[1..][k - 1..] == pages[k..];
      assert configs[1..][k - 1..] == configs[k..];
    } else {
      assert pages[..0] == [] && configs[..0] == [];
      assert pages[0..] == pages && configs[0..] == configs;
    }
  }
}
