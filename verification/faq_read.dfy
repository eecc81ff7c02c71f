/** The public read path, `getAllFaq`: published records projected onto
    one language, behind a read-through cache keyed by language. */
module FaqRead {
  import opened Wrappers
  import opened FaqTypes

  /** One entry of the public listing. */
  datatype Item = Item(id: string, question: string, answer: string, category: Option<string>)

  /** The cache: key to the stored listing. Expiry is not modelled. */
  type Cache = map<string, seq<Item>>

  /** The listing returned and the cache left behind by one read. */
  datatype Listing = Listing(faqs: seq<Item>, cache: Cache)

  /** The `lang` query parameter, with a missing or empty value read as
      English. */
  function RequestedLanguage(lang: Option<string>): (l: string)
    ensures l != ""
    ensures lang.Some? && lang.value != "" ==> l == lang.value
    ensures lang.None? || lang.value == "" ==> l == "en"
  {
    if lang.Some? && lang.value != "" then lang.value else "en"
  }

  /** The cache key of a language's listing. */
  function CacheKey(lang: string): (k: string)
    ensures |k| == |lang| + 5 && k[..5] == "faqs:" && k[5..] == lang
  {
    "faqs:" + lang
  }

  /** Distinct languages never share a cache entry. */
  lemma CacheKeyInjective(l1: string, l2: string)
    ensures CacheKey(l1) == CacheKey(l2) ==> l1 == l2
  {
    if CacheKey(l1) == CacheKey(l2) {
      assert l1 == CacheKey(l1)[5..];
      assert l2 == CacheKey(l2)[5..];
    }
  }

  /** A record is listed for `lang` when it is published and its
      translations are a map holding `lang`. There is no fallback to
      another language. */
  predicate Visible(r: FaqRecord, lang: string)
  {
    r.status == Published && r.translations.Some? && lang in r.translations.value
  }

  /** The listing entry of a visible record. */
  function ItemOf(r: FaqRecord, lang: string): (it: Item)
    requires Visible(r, lang)
    ensures it.id == r.id && it.category == r.category
    ensures Translation(it.question, it.answer) == r.translations.value[lang]
  {
    var t := r.translations.value[lang];
    Item(r.id, t.question, t.answer, r.category)
  }

  /** The published records projected onto `lang`, dropping those without
      it, in store order. */
  function Project(records: seq<FaqRecord>, lang: string): (items: seq<Item>)
    ensures |items| <= |records|
    ensures items == [] <==> forall j :: 0 <= j < |records| ==> !Visible(records[j], lang)
    ensures |items| == |records| <==> forall j :: 0 <= j < |records| ==> Visible(records[j], lang)
  {
    if |records| == 0 then []
    else if Visible(records[0], lang) then [ItemOf(records[0], lang)] + Project(records[1..], lang)
    else Project(records[1..], lang)
  }

  /** `w` lists the store positions the listing was taken from: each one a
      visible record whose entry is the listing's entry at the same place,
      in strictly increasing order, and every visible record among them. */
  ghost predicate ListedFrom(records: seq<FaqRecord>, lang: string, w: seq<nat>)
  {
    && Sources(records, lang, Project(records, lang), w)
    && Increasing(w)
    && Complete(records, lang, w)
  }

  /** Each entry of `items` comes from the visible record at its position. */
  ghost predicate Sources(records: seq<FaqRecord>, lang: string, items: seq<Item>, w: seq<nat>)
  {
    && |w| == |items|
    && forall i :: 0 <= i < |w| ==>
         w[i] < |records| && Visible(records[w[i]], lang) && items[i] == ItemOf(records[w[i]], lang)
  }

  ghost predicate Increasing(w: seq<nat>)
  {
    forall i, j :: 0 <= i < j < |w| ==> w[i] < w[j]
  }

  /** Every visible record is listed. */
  ghost predicate Complete(records: seq<FaqRecord>, lang: string, w: seq<nat>)
  {
    forall j :: 0 <= j < |records| && Visible(records[j], lang) ==> j in w
  }

  /** The positions behind the listing: the listing holds each visible
      record once, in store order, and nothing else. */
  function Positions(records: seq<FaqRecord>, lang: string): (w: seq<nat>)
    ensures ListedFrom(records, lang, w)
    decreases |records|
  {
    if |records| == 0 then []
    else
      var rest := Positions(records[1..], lang);
      var w := if Visible(records[0], lang) then [0] + Shift(rest) else Shift(rest);
      ProjectStep(records, lang);
      SourcesStep(records, lang, Project(records, lang), Project(records[1..], lang), rest, w);
      IncreasingStep(records, lang, rest, w);
      CompleteStep(records, lang, rest, w);
      w
  }

  /** Every position moved one place on. */
  function Shift(w: seq<nat>): (r: seq<nat>)
    ensures |r| == |w|
    ensures forall i :: 0 <= i < |w| ==> r[i] == w[i] + 1
  {
    seq(|w|, i requires 0 <= i < |w| => w[i] + 1)
  }

  /** One unfolding of the projection. */
  lemma ProjectStep(records: seq<FaqRecord>, lang: string)
    requires |records| > 0
    ensures Project(records, lang)
         == (if Visible(records[0], lang) then [ItemOf(records[0], lang)] else [])
            + Project(records[1..], lang)
  {
  }

  lemma SourcesStep(records: seq<FaqRecord>, lang: string, items: seq<Item>, tailItems: seq<Item>,
                    rest: seq<nat>, w: seq<nat>)
    requires |records| > 0
    requires Sources(records[1..], lang, tailItems, rest)
    requires w == if Visible(records[0], lang) then [0] + Shift(rest) else Shift(rest)
    requires items == (if Visible(records[0], lang) then [ItemOf(records[0], lang)] else []) + tailItems
    ensures Sources(records, lang, items, w)
  {
    var d := if Visible(records[0], lang) then 1 else 0;
    forall i | 0 <= i < |w|
      ensures w[i] < |records| && Visible(records[w[i]], lang) && items[i] == ItemOf(records[w[i]], lang)
    {
      if i >= d {
        assert w[i] == rest[i - d] + 1;
        assert records[1..][rest[i - d]] == records[w[i]];
        assert items[i] == tailItems[i - d];
      }
    }
  }

  lemma IncreasingStep(records: seq<FaqRecord>, lang: string, rest: seq<nat>, w: seq<nat>)
    requires |records| > 0
    requires Increasing(rest)
    requires w == if Visible(records[0], lang) then [0] + Shift(rest) else Shift(rest)
    ensures Increasing(w)
  {
  }

  lemma CompleteStep(records: seq<FaqRecord>, lang: string, rest: seq<nat>, w: seq<nat>)
    requires |records| > 0
    requires Complete(records[1..], lang, rest)
    requires w == if Visible(records[0], lang) then [0] + Shift(rest) else Shift(rest)
    ensures Complete(records, lang, w)
  {
  }

  /** `getAllFaq`: a cached listing is returned as it is; otherwise the
      listing is computed from the store and cached under its key. */
  function GetAllFaq(store: FaqStore, cache: Cache, lang: Option<string>): (r: Listing)
    ensures var key := CacheKey(RequestedLanguage(lang));
      && (key in cache ==> r == Listing(cache[key], cache))
      && (key !in cache ==> r.faqs == Project(store, RequestedLanguage(lang))
                            && r.cache == cache[key := r.faqs])
  {
    var key := CacheKey(RequestedLanguage(lang));
    if key in cache then Listing(cache[key], cache)
    else
      var faqs := Project(store, RequestedLanguage(lang));
      Listing(faqs, cache[key := faqs])
  }

  /** A cache hit does not look at the store: any two stores give the same
      answer. */
  lemma CacheHitIgnoresStore(s1: FaqStore, s2: FaqStore, cache: Cache, lang: Option<string>)
    requires CacheKey(RequestedLanguage(lang)) in cache
    ensures GetAllFaq(s1, cache, lang) == GetAllFaq(s2, cache, lang)
  {
  }

  /** After a read, the same language reads the same listing from any
      later store, even an emptied one, until the entry expires. */
  lemma StaleReadAfterWrite(store: FaqStore, later: FaqStore, cache: Cache, lang: Option<string>)
    ensures var first := GetAllFaq(store, cache, lang);
      GetAllFaq(later, first.cache, lang) == Listing(first.faqs, first.cache)
  {
  }

  /** A read only fills its own language's entry: another language's read
      returns what it would have returned before. */
  lemma ReadsIndependent(store: FaqStore, cache: Cache, l1: Option<string>, l2: Option<string>)
    requires RequestedLanguage(l1) != RequestedLanguage(l2)
    ensures var c1 := GetAllFaq(store, cache, l1).cache;
      && (forall k :: k in cache && k != CacheKey(RequestedLanguage(l1)) ==> k in c1 && c1[k] == cache[k])
      && GetAllFaq(store, c1, l2).faqs == GetAllFaq(store, cache, l2).faqs
  {
    CacheKeyInjective(RequestedLanguage(l1), RequestedLanguage(l2));
  }

  /** One published record with English and Spanish text: the default
      language lists its English text, `es` its Spanish text, and after the
      store is emptied the cached English listing is still served. */
  lemma ListingScenario(id: string)
    ensures var r := FaqRecord(id, "en", Published,
                               Some(map["en" := Translation("English Q", "English A"),
                                        "es" := Translation("Spanish Q", "Spanish A")]),
                               Some("general"), ["en", "es"], None);
      var first := GetAllFaq([r], map[], None);
      && first.faqs == [Item(id, "English Q", "English A", Some("general"))]
      && GetAllFaq([r], map[], Some("es")).faqs == [Item(id, "Spanish Q", "Spanish A", Some("general"))]
      && GetAllFaq([], first.cache, Some("en")).faqs == first.faqs
  {
    var r := FaqRecord(id, "en", Published,
                       Some(map["en" := Translation("English Q", "English A"),
                                "es" := Translation("Spanish Q", "Spanish A")]),
                       Some("general"), ["en", "es"], None);
    assert Visible(r, "en") && Visible(r, "es");
    assert [r][1..] == [];
    assert Project([r], "en") == [Item(id, "English Q", "English A", Some("general"))];
    assert Project([r], "es") == [Item(id, "Spanish Q", "Spanish A", Some("general"))];
    assert RequestedLanguage(Some("en")) == RequestedLanguage(None) == "en";
  }
}
