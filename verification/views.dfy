/**
 * The article pages: creating, editing and deleting an article, the
 * article list with its search, the detail page's authorship flag and the
 * "my articles" page. Rendering, redirects and messages are not modelled;
 * each write returns the key of the row it produced or why it refused.
 */
module Views {
  import opened Text
  import opened Models
  import opened Forms

  /** Why a page refused a request: no visible article (a 404), or an invalid form. */
  datatype ViewError = NotFound | Invalid(error: FormError)

  // ---------------------------------------------------------------------
  // Queries

  /** `is_author` on the detail page: the user is one of the article's publishers. */
  predicate IsAuthor(a: Article, user: UserId) {
    user in a.publishers
  }

  /**
   * `filter(publishers=user)`: the articles the user publishes. The edit
   * and delete pages look articles up only here, and the "my articles"
   * page lists exactly these (each once).
   */
  function AuthoredBy(articles: map<ArticleId, Article>, user: UserId): (r: set<ArticleId>)
    ensures r <= articles.Keys
  {
    set id | id in articles && IsAuthor(articles[id], user)
  }

  /** The "my articles" page and the detail page agree on who is an author. */
  lemma AuthoredByIsAuthor(articles: map<ArticleId, Article>, user: UserId, id: ArticleId)
    requires id in articles
    ensures id in AuthoredBy(articles, user) <==> IsAuthor(articles[id], user)
  {
  }

  /** `topic__name__iexact=category`, skipped when no category is given. */
  predicate MatchesCategory(a: Article, topics: map<TopicId, string>, category: string) {
    category == [] || (a.topic in topics && IExact(topics[a.topic], category))
  }

  /** A publisher of `a` whose first or last name contains `query`, ignoring case. */
  predicate PublisherMatches(a: Article, redactors: map<UserId, Redactor>, query: string) {
    exists p :: p in a.publishers && p in redactors
      && (IContains(redactors[p].firstName, query) || IContains(redactors[p].lastName, query))
  }

  /** A keyword of `a` whose name contains `query`, ignoring case. */
  predicate KeywordMatches(a: Article, registry: map<KeywordId, string>, query: string) {
    exists k :: k in a.keywords && k in registry && IContains(registry[k], query)
  }

  /**
   * The search of the list page, skipped when no query is given: the
   * title, a publisher's name or a keyword name contains the query.
   */
  predicate MatchesQuery(a: Article, redactors: map<UserId, Redactor>, registry: map<KeywordId, string>, query: string) {
    query == [] || IContains(a.title, query) || PublisherMatches(a, redactors, query) || KeywordMatches(a, registry, query)
  }

  /** `NewspaperListView.get_queryset`: the articles the list page shows, each once. */
  function ListFilter(articles: map<ArticleId, Article>, topics: map<TopicId, string>,
                      redactors: map<UserId, Redactor>, registry: map<KeywordId, string>,
                      category: string, query: string): (r: set<ArticleId>)
    ensures r <= articles.Keys
  {
    set id | id in articles && MatchesCategory(articles[id], topics, category)
                            && MatchesQuery(articles[id], redactors, registry, query)
  }

  /** With neither a category nor a query, every article is listed. */
  lemma ListFilterUnfiltered(articles: map<ArticleId, Article>, topics: map<TopicId, string>,
                             redactors: map<UserId, Redactor>, registry: map<KeywordId, string>)
    ensures ListFilter(articles, topics, redactors, registry, [], []) == articles.Keys
  {
  }

  /** Category and query filter independently: the list is the intersection. */
  lemma ListFilterIntersection(articles: map<ArticleId, Article>, topics: map<TopicId, string>,
                               redactors: map<UserId, Redactor>, registry: map<KeywordId, string>,
                               category: string, query: string)
    ensures ListFilter(articles, topics, redactors, registry, category, query)
         == ListFilter(articles, topics, redactors, registry, category, [])
          * ListFilter(articles, topics, redactors, registry, [], query)
  {
  }

  /** An article with no publishers and no keywords is found by its title alone. */
  lemma TitleSearch(a: Article, redactors: map<UserId, Redactor>, registry: map<KeywordId, string>, query: string)
    requires a.publishers == {} && a.keywords == {} && query != []
    ensures MatchesQuery(a, redactors, registry, query) <==> IContains(a.title, query)
  {
  }

  /** "Tech" occurs in "Tech News", ignoring case. */
  lemma TechInTechNews()
    ensures IContains("Tech News", "Tech")
  {
    assert Lower("Tech") == "tech";
    assert Lower("Tech News") == "tech news";
    assert "tech" <= "tech news";
  }

  /** "Tech" does not occur in "Art News", ignoring case. */
  lemma TechNotInArtNews()
    ensures !IContains("Art News", "Tech")
  {
    var w := "art news";
    assert Lower("Tech") == "tech";
    assert Lower("Art News") == w;
    forall i: nat ensures !OccursAt(w, "tech", i) {
      if i + 4 <= |w| {
        assert w[i..i + 4][0] == w[i] && w[i..i + 4][1] == w[i + 1];
      }
    }
    ContainsIff(w, "tech");
  }

  /**
   * The list page ignores the case of the category and of the query:
   * lower-casing either one, or both, lists the same articles.
   */
  lemma ListFilterIgnoresCase(articles: map<ArticleId, Article>, topics: map<TopicId, string>,
                              redactors: map<UserId, Redactor>, registry: map<KeywordId, string>,
                              category: string, query: string)
    ensures ListFilter(articles, topics, redactors, registry, category, query)
         == ListFilter(articles, topics, redactors, registry, Lower(category), query)
    ensures ListFilter(articles, topics, redactors, registry, category, query)
         == ListFilter(articles, topics, redactors, registry, category, Lower(query))
    ensures ListFilter(articles, topics, redactors, registry, category, query)
         == ListFilter(articles, topics, redactors, registry, Lower(category), Lower(query))
  {
    LowerIdempotent(category);
    LowerIdempotent(query);
  }

  /**
   * The list test: of "Tech News" and "Art News", searching for "Tech"
   * lists only the first.
   */
  lemma ListFilterExample(topic: TopicId)
    ensures ListFilter(map[0 := Article("Tech News", "Tech content", topic, {}, {}),
                           1 := Article("Art News", "Art content", topic, {}, {})],
                       map[], map[], map[], [], "Tech") == {0}
  {
    var articles := map[0 := Article("Tech News", "Tech content", topic, {}, {}),
                         1 := Article("Art News", "Art content", topic, {}, {})];
    var listed := ListFilter(articles, map[], map[], map[], [], "Tech");
    assert 0 in listed by {
      TechInTechNews();
      TitleSearch(articles[0], map[], map[], "Tech");
    }
    assert 1 !in listed by {
      TechNotInArtNews();
      TitleSearch(articles[1], map[], map[], "Tech");
    }
    assert articles.Keys == {0, 1};
  }

  // ---------------------------------------------------------------------
  // Keyword invariants of the registry

  /** Every registered keyword name is one the form could have produced. */
  predicate RegistryClean(registry: map<KeywordId, string>) {
    forall n :: n in registry.Values ==> IsCleanKeyword(n)
  }

  /**
   * The keyword listing of registered rows `ids` names each of them once
   * per name, is empty only for no rows, and holds clean names when the
   * registry does.
   */
  lemma ListingNames(registry: map<KeywordId, string>, ids: set<KeywordId>, bound: nat)
    requires ids <= registry.Keys && forall k :: k in registry ==> k < bound
    ensures Elems(KeywordListing(registry, ids, bound)) == NamesOf(registry, ids)
    ensures KeywordListing(registry, ids, bound) == [] <==> ids == {}
    ensures RegistryClean(registry) ==> forall n :: n in KeywordListing(registry, ids, bound) ==> IsCleanKeyword(n)
  {
    var listing := KeywordListing(registry, ids, bound);
    if ids != {} {
      var k :| k in ids;
      assert k in registry && k < bound && registry[k] == registry[k];
      assert registry[k] in listing;
    }
    if listing != [] {
      assert listing[0] in listing;
      var k :| k in ids && k in registry && k < bound && registry[k] == listing[0];
    }
    forall n | n in listing ensures n in registry.Values {
      var k :| k in ids && k in registry && k < bound && registry[k] == n;
    }
  }

  /**
   * Editing an article and leaving its keyword text as the form showed it
   * names exactly the keywords the article already had, all of them
   * already registered. The text needs no trimming, and is blank only for
   * an article without keywords.
   */
  lemma UnchangedKeywordText(registry: map<KeywordId, string>, ids: set<KeywordId>, bound: nat)
    requires Injective(registry) && RegistryClean(registry)
    requires ids <= registry.Keys && forall k :: k in registry ==> k < bound
    ensures var text := KeywordText(KeywordListing(registry, ids, bound));
      && Strip(text) == text
      && (AllSpace(text) <==> ids == {})
      && Elems(CleanKeywords(text)) <= registry.Values
      && IdsNamed(registry, Elems(CleanKeywords(text))) == ids
  {
    var listing := KeywordListing(registry, ids, bound);
    ListingNames(registry, ids, bound);
    KeywordRoundTrip(listing);
    KeywordTextStripped(listing);
    IdsNamedNamesOf(registry, ids);
  }

  /**
   * A registry grown by clean names stays clean.
   */
  lemma RegistryCleanGrown(before: map<KeywordId, string>, after: map<KeywordId, string>, names: seq<string>)
    requires RegistryClean(before) && Grown(before, after, Elems(names))
    requires forall n :: n in names ==> IsCleanKeyword(n)
    ensures RegistryClean(after)
  {
  }

  /**
   * Saving the edit form with its keyword text unchanged registers no
   * keyword and links exactly the rows the article had.
   */
  lemma UnchangedKeywordTextKept(before: map<KeywordId, string>, after: map<KeywordId, string>,
                                 ids: set<KeywordId>, bound: nat)
    requires Injective(before) && RegistryClean(before)
    requires ids <= before.Keys && forall k :: k in before ==> k < bound
    requires Grown(before, after, Elems(CleanKeywords(Strip(KeywordText(KeywordListing(before, ids, bound))))))
    ensures after == before
    ensures IdsNamed(after, Elems(CleanKeywords(Strip(KeywordText(KeywordListing(before, ids, bound)))))) == ids
  {
    UnchangedKeywordText(before, ids, bound);
  }

  // ---------------------------------------------------------------------
  // Writes

  /**
   * One get-or-create on `names[i]`, which returned row `k`, extends what
   * the first `i` names did: the rows they name gain `k`, and the registry
   * has grown by one more name.
   */
  lemma RegistryStep(r0: map<KeywordId, string>, before: map<KeywordId, string>, after: map<KeywordId, string>,
                     names: seq<string>, i: nat, k: KeywordId)
    requires i < |names| && Grown(r0, before, Elems(names[..i]))
    requires Injective(after) && k in after && after[k] == names[i]
    requires names[i] in before.Values ==> after == before
    requires names[i] !in before.Values ==> k !in before && after == before[k := names[i]]
    ensures IdsNamed(after, Elems(names[..i + 1])) == IdsNamed(before, Elems(names[..i])) + {k}
    ensures Grown(r0, after, Elems(names[..i + 1]))
  {
    assert Elems(names[..i + 1]) == Elems(names[..i]) + {names[i]} by {
      assert names[..i + 1] == names[..i] + [names[i]];
    }
    IdsNamedStep(before, after, Elems(names[..i]), names[i], k);
    GrownStep(r0, before, after, Elems(names[..i]), names[i], k);
  }

  /**
   * `[Keyword.objects.get_or_create(name=n)[0] for n in names]`: the rows
   * named by `names`, registering the names that are new.
   */
  method GetOrCreateKeywords(store: Store, names: seq<string>) returns (linked: set<KeywordId>)
    requires store.Valid()
    modifies store
    ensures store.Valid()
    ensures linked == IdsNamed(store.keywords, Elems(names))
    ensures Grown(old(store.keywords), store.keywords, Elems(names))
    ensures store.articles == old(store.articles) && store.nextArticleId == old(store.nextArticleId)
    ensures store.topics == old(store.topics) && store.redactors == old(store.redactors)
  {
    linked := {};
    assert Elems(names[..0]) == {};
    for i := 0 to |names|
      invariant store.Valid()
      invariant linked == IdsNamed(store.keywords, Elems(names[..i]))
      invariant Grown(old(store.keywords), store.keywords, Elems(names[..i]))
      invariant store.articles == old(store.articles) && store.nextArticleId == old(store.nextArticleId)
      invariant store.topics == old(store.topics) && store.redactors == old(store.redactors)
    {
      ghost var before := store.keywords;
      var k := store.GetOrCreateKeyword(names[i]);
      RegistryStep(old(store.keywords), before, store.keywords, names, i, k);
      linked := linked + {k};
    }
    assert names[..|names|] == names;
  }

  /**
   * `NewspaperCreateView.form_valid`: inserts the article, gets or
   * creates a keyword row per cleaned name and links them, then sets the
   * publishers. No other article changes; keyword rows are only added.
   */
  method CreateFormValid(store: Store, cleaned: Cleaned) returns (id: ArticleId)
    requires store.Valid()
    modifies store
    ensures store.Valid()
    ensures id !in old(store.articles)
    ensures store.articles == old(store.articles)[id := Article(cleaned.title, cleaned.content, cleaned.topic,
              Elems(cleaned.publishers), IdsNamed(store.keywords, Elems(cleaned.keywords)))]
    ensures Grown(old(store.keywords), store.keywords, Elems(cleaned.keywords))
    ensures store.topics == old(store.topics) && store.redactors == old(store.redactors)
  {
    id := store.InsertArticle(cleaned.title, cleaned.content, cleaned.topic);
    if cleaned.keywords != [] {
      var linked := GetOrCreateKeywords(store, cleaned.keywords);
      store.AddKeywords(id, linked);
      assert store.articles[id].keywords == linked;
    } else {
      assert IdsNamed(store.keywords, Elems(cleaned.keywords)) == {};
    }
    store.SetPublishers(id, Elems(cleaned.publishers));
  }

  /**
   * One pass of the loop of `NewspaperUpdateView.form_valid`: gets or
   * creates the row named `name` and links it to article `id`.
   */
  method LinkKeyword(store: Store, id: ArticleId, name: string) returns (k: KeywordId)
    requires store.Valid() && id in store.articles
    modifies store
    ensures store.Valid()
    ensures k in store.keywords && store.keywords[k] == name
    ensures name in old(store.keywords.Values) ==> store.keywords == old(store.keywords)
    ensures name !in old(store.keywords.Values) ==> k !in old(store.keywords) && store.keywords == old(store.keywords)[k := name]
    ensures id in store.articles && store.articles == old(store.articles)[id := store.articles[id]]
    ensures store.articles[id] == old(store.articles[id]).(keywords := old(store.articles[id]).keywords + {k})
    ensures store.nextArticleId == old(store.nextArticleId)
    ensures store.topics == old(store.topics) && store.redactors == old(store.redactors)
  {
    k := store.GetOrCreateKeyword(name);
    store.AddKeywords(id, {k});
  }

  /**
   * The loop of `NewspaperUpdateView.form_valid`: for each cleaned name,
   * get or create its row and link it to article `id`.
   */
  method LinkKeywords(store: Store, id: ArticleId, names: seq<string>)
    requires store.Valid() && id in store.articles
    modifies store
    ensures store.Valid()
    ensures store.articles == old(store.articles)[id := old(store.articles[id]).(
              keywords := old(store.articles[id]).keywords + IdsNamed(store.keywords, Elems(names)))]
    ensures Grown(old(store.keywords), store.keywords, Elems(names))
    ensures store.nextArticleId == old(store.nextArticleId)
    ensures store.topics == old(store.topics) && store.redactors == old(store.redactors)
  {
    ghost var a := store.articles[id];
    ghost var linked: set<KeywordId> := {};
    assert Elems(names[..0]) == {};
    assert a.(keywords := a.keywords + {}) == a;
    for i := 0 to |names|
      invariant store.Valid()
      invariant linked == IdsNamed(store.keywords, Elems(names[..i]))
      invariant id in store.articles && store.articles == old(store.articles)[id := store.articles[id]]
      invariant store.articles[id] == a.(keywords := a.keywords + linked)
      invariant Grown(old(store.keywords), store.keywords, Elems(names[..i]))
      invariant store.nextArticleId == old(store.nextArticleId)
      invariant store.topics == old(store.topics) && store.redactors == old(store.redactors)
    {
      ghost var before := store.keywords;
      ghost var current := store.articles[id];
      var k := LinkKeyword(store, id, names[i]);
      RegistryStep(old(store.keywords), before, store.keywords, names, i, k);
      UpdateTwice(old(store.articles), id, current, store.articles[id]);
      UnionRegroup(a.keywords, linked, {k});
      linked := linked + {k};
    }
    assert names[..|names|] == names;
  }

  /**
   * `NewspaperUpdateView.form_valid`: inserts a new article from the
   * form, links its keywords, sets the publishers, then deletes the edited
   * article. The new article's keywords are exactly the submitted ones:
   * nothing is carried over from the edited article.
   */
  method UpdateFormValid(store: Store, pk: ArticleId, cleaned: Cleaned) returns (id: ArticleId)
    requires store.Valid() && pk in store.articles
    modifies store
    ensures store.Valid()
    ensures id !in old(store.articles) && pk !in store.articles
    ensures store.articles == (old(store.articles) - {pk})[id := Article(cleaned.title, cleaned.content, cleaned.topic,
              Elems(cleaned.publishers), IdsNamed(store.keywords, Elems(cleaned.keywords)))]
    ensures Grown(old(store.keywords), store.keywords, Elems(cleaned.keywords))
    ensures store.topics == old(store.topics) && store.redactors == old(store.redactors)
  {
    id := store.InsertArticle(cleaned.title, cleaned.content, cleaned.topic);
    LinkKeywords(store, id, cleaned.keywords);
    store.SetPublishers(id, Elems(cleaned.publishers));
    ghost var created := store.articles[id];
    assert created == Article(cleaned.title, cleaned.content, cleaned.topic,
      Elems(cleaned.publishers), IdsNamed(store.keywords, Elems(cleaned.keywords)));
    assert store.articles == old(store.articles)[id := created];
    store.DeleteArticle(pk);
    assert old(store.articles)[id := created] - {pk} == (old(store.articles) - {pk})[id := created];
  }

  /**
   * Every field of the article form passes the framework's own checks:
   * the three text fields, a topic that exists and registered publishers.
   */
  predicate FieldsPass(topics: map<TopicId, string>, redactors: map<UserId, Redactor>, data: NewspaperData) {
    && CleanCharField("title", data.title, Some(TitleMaxLength)).Ok?
    && CleanCharField("content", data.content, None).Ok?
    && data.topic.Some? && data.topic.value in topics
    && (forall p :: p in data.publishers ==> p in redactors)
    && CleanCharField("keywords", data.keywords, None).Ok?
  }

  /** A new article passes: every field, and a title no stored article has. */
  predicate CreateAccepted(articles: map<ArticleId, Article>, topics: map<TopicId, string>,
                           redactors: map<UserId, Redactor>, data: NewspaperData) {
    FieldsPass(topics, redactors, data) && !TitleTaken(articles, Strip(data.title))
  }

  /**
   * An edit of stored article `pk` passes: every field, and a title that
   * is the article's own or that no stored article has.
   */
  predicate UpdateAccepted(articles: map<ArticleId, Article>, topics: map<TopicId, string>,
                           redactors: map<UserId, Redactor>, pk: ArticleId, data: NewspaperData) {
    && pk in articles
    && FieldsPass(topics, redactors, data)
    && (Strip(data.title) == articles[pk].title || !TitleTaken(articles, Strip(data.title)))
  }

  /** The create page's form accepts exactly what `CreateAccepted` describes. */
  lemma NewFormAccepts(form: NewspaperForm, articles: map<ArticleId, Article>, topics: map<TopicId, string>,
                       redactors: map<UserId, Redactor>, data: NewspaperData)
    requires form.instanceTitle == []
    ensures form.Accepts(data, articles, topics.Keys, redactors.Keys) <==> CreateAccepted(articles, topics, redactors, data)
  {
  }

  /** The edit page's form accepts exactly what `UpdateAccepted` describes. */
  lemma EditFormAccepts(form: NewspaperForm, articles: map<ArticleId, Article>, topics: map<TopicId, string>,
                        redactors: map<UserId, Redactor>, pk: ArticleId, data: NewspaperData)
    requires pk in articles && form.instanceTitle == articles[pk].title
    ensures form.Accepts(data, articles, topics.Keys, redactors.Keys) <==> UpdateAccepted(articles, topics, redactors, pk, data)
  {
  }

  /**
   * A POST to the create page by `user`: the form is cleaned and, when
   * valid, the article is stored with the user among its publishers.
   * A title any stored article already has is refused; titles that were
   * unique stay unique.
   */
  method CreateArticle(store: Store, user: UserId, data: NewspaperData) returns (r: Result<ArticleId, FormError>)
    requires store.Valid()
    modifies store
    ensures store.Valid()
    ensures store.topics == old(store.topics) && store.redactors == old(store.redactors)
    ensures r.Ok? <==> CreateAccepted(old(store.articles), old(store.topics), old(store.redactors), data)
    ensures r.Err? ==> store.articles == old(store.articles) && store.keywords == old(store.keywords)
    ensures CleanCharField("title", data.title, Some(TitleMaxLength)).Ok? && TitleTaken(old(store.articles), Strip(data.title))
      ==> r == Err(FieldError("title", DuplicateTitleMessage))
    ensures r.Ok? ==> r.value !in old(store.articles) && r.value in store.articles
    ensures r.Ok? ==> store.articles == old(store.articles)[r.value := store.articles[r.value]]
    ensures r.Ok? ==> store.articles[r.value] == Article(Strip(data.title), Strip(data.content), data.topic.value,
      Elems(data.publishers) + {user}, IdsNamed(store.keywords, Elems(CleanKeywords(Strip(data.keywords)))))
    ensures r.Ok? ==> Grown(old(store.keywords), store.keywords, Elems(CleanKeywords(Strip(data.keywords))))
    ensures r.Ok? ==> NamesOf(store.keywords, store.articles[r.value].keywords) == Elems(CleanKeywords(Strip(data.keywords)))
    ensures r.Ok? ==> r.value in AuthoredBy(store.articles, user)
    ensures TitlesUnique(old(store.articles)) ==> TitlesUnique(store.articles)
    ensures RegistryClean(old(store.keywords)) ==> RegistryClean(store.keywords)
  {
    var form := new NewspaperForm(Some(user), None, store, map[]);
    var cleaned := form.FullClean(data, store.articles, store.topics.Keys, store.redactors.Keys);
    NewFormAccepts(form, store.articles, store.topics, store.redactors, data);
    if cleaned.Err? {
      return Err(cleaned.error);
    }
    ghost var before := store.articles;
    ghost var registry := store.keywords;
    var id := CreateFormValid(store, cleaned.value);
    NamesOfIdsNamed(store.keywords, Elems(cleaned.value.keywords));
    if RegistryClean(registry) {
      RegistryCleanGrown(registry, store.keywords, cleaned.value.keywords);
    }
    if TitlesUnique(before) {
      TitlesUniqueInsert(before, id, store.articles[id]);
    }
    r := Ok(id);
  }

  /**
   * A POST to the edit page of article `pk` by `user`. Only an article the
   * user publishes is found; a valid form replaces it by a new article
   * carrying exactly the submitted keywords, with the user among its
   * publishers. Keeping the article's own title is never refused.
   */
  method UpdateArticle(store: Store, user: UserId, pk: ArticleId, data: NewspaperData)
    returns (r: Result<ArticleId, ViewError>)
    requires store.Valid()
    modifies store
    ensures store.Valid()
    ensures store.topics == old(store.topics) && store.redactors == old(store.redactors)
    ensures r.Ok? <==> (pk in AuthoredBy(old(store.articles), user)
      && UpdateAccepted(old(store.articles), old(store.topics), old(store.redactors), pk, data))
    ensures pk !in AuthoredBy(old(store.articles), user) ==> r == Err(NotFound)
    ensures r.Err? ==> store.articles == old(store.articles) && store.keywords == old(store.keywords)
    ensures pk in AuthoredBy(old(store.articles), user) && Strip(data.title) == old(store.articles[pk].title)
      ==> r != Err(Invalid(FieldError("title", DuplicateTitleMessage)))
    ensures pk in AuthoredBy(old(store.articles), user) && CleanCharField("title", data.title, Some(TitleMaxLength)).Ok?
      && Strip(data.title) != old(store.articles[pk].title) && TitleTaken(old(store.articles), Strip(data.title))
      ==> r == Err(Invalid(FieldError("title", DuplicateTitleMessage)))
    ensures r.Ok? ==> pk in AuthoredBy(old(store.articles), user)
    ensures r.Ok? ==> r.value !in old(store.articles) && pk !in store.articles && r.value in store.articles
    ensures r.Ok? ==> store.articles == (old(store.articles) - {pk})[r.value := store.articles[r.value]]
    ensures r.Ok? ==> Strip(data.title) == old(store.articles[pk].title) || !TitleTaken(old(store.articles), Strip(data.title))
    ensures r.Ok? ==> store.articles[r.value] == Article(Strip(data.title), Strip(data.content), data.topic.value,
      Elems(data.publishers) + {user}, IdsNamed(store.keywords, Elems(CleanKeywords(Strip(data.keywords)))))
    ensures r.Ok? ==> Grown(old(store.keywords), store.keywords, Elems(CleanKeywords(Strip(data.keywords))))
    ensures r.Ok? ==> NamesOf(store.keywords, store.articles[r.value].keywords) == Elems(CleanKeywords(Strip(data.keywords)))
    ensures r.Ok? && RegistryClean(old(store.keywords))
      && data.keywords == KeywordText(KeywordListing(old(store.keywords), old(store.articles[pk].keywords), old(store.nextKeywordId)))
      ==> store.articles[r.value].keywords == old(store.articles[pk].keywords) && store.keywords == old(store.keywords)
    ensures TitlesUnique(old(store.articles)) ==> TitlesUnique(store.articles)
    ensures RegistryClean(old(store.keywords)) ==> RegistryClean(store.keywords)
  {
    if pk !in AuthoredBy(store.articles, user) {
      return Err(NotFound);
    }
    var form := new NewspaperForm(Some(user), Some(pk), store, map[]);
    var cleaned := form.FullClean(data, store.articles, store.topics.Keys, store.redactors.Keys);
    EditFormAccepts(form, store.articles, store.topics, store.redactors, pk, data);
    if cleaned.Err? {
      return Err(Invalid(cleaned.error));
    }
    ghost var before := store.articles;
    ghost var registry := store.keywords;
    ghost var bound := store.nextKeywordId;
    var id := UpdateFormValid(store, pk, cleaned.value);
    NamesOfIdsNamed(store.keywords, Elems(cleaned.value.keywords));
    if RegistryClean(registry) {
      RegistryCleanGrown(registry, store.keywords, cleaned.value.keywords);
      if data.keywords == KeywordText(KeywordListing(registry, before[pk].keywords, bound)) {
        UnchangedKeywordTextKept(registry, store.keywords, before[pk].keywords, bound);
      }
    }
    if TitlesUnique(before) {
      TitlesUniqueReplace(before, pk, id, store.articles[id]);
    }
    r := Ok(id);
  }

  /**
   * A POST to the delete page of article `pk` by `user`: only an article
   * the user publishes is found, and it is removed; keyword rows stay.
   */
  method DeleteArticle(store: Store, user: UserId, pk: ArticleId) returns (r: Result<ArticleId, ViewError>)
    requires store.Valid()
    modifies store
    ensures store.Valid()
    ensures r.Ok? <==> pk in AuthoredBy(old(store.articles), user)
    ensures r.Ok? ==> r.value == pk && store.articles == old(store.articles) - {pk}
    ensures r.Err? ==> r == Err(NotFound) && store.articles == old(store.articles)
    ensures store.keywords == old(store.keywords)
    ensures store.topics == old(store.topics) && store.redactors == old(store.redactors)
  {
    if pk !in AuthoredBy(store.articles, user) {
      return Err(NotFound);
    }
    store.DeleteArticle(pk);
    r := Ok(pk);
  }
}
