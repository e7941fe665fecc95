/**
 * The records of the newspaper agency and the database that holds them:
 * articles ("newspapers") with their topic, publishers and keywords, the
 * keyword registry (unique by name), topics and redactors.
 *
 * Rows are addressed by integer primary keys; a many-to-many link is a set
 * of keys held in the article record.
 */
module Models {

  type ArticleId = nat
  type KeywordId = nat
  type TopicId = nat
  type UserId = nat

  datatype Option<T> = None | Some(value: T)

  datatype Result<T, E> = Ok(value: T) | Err(error: E)

  /**
   * One article. The publication date is set by the database clock on
   * insert and is not part of the model.
   */
  datatype Article = Article(
    title: string,
    content: string,
    topic: TopicId,
    publishers: set<UserId>,
    keywords: set<KeywordId>)

  /** A redactor account, with the fields the forms and the search read. */
  datatype Redactor = Redactor(
    username: string,
    firstName: string,
    lastName: string,
    email: string,
    yearsOfExperience: Option<int>)

  function Elems<T>(s: seq<T>): set<T> {
    set x | x in s
  }

  /** Some stored article already has exactly this title (case-sensitive). */
  predicate TitleTaken(articles: map<ArticleId, Article>, title: string) {
    exists id :: id in articles && articles[id].title == title
  }

  /** No two stored articles share a title. */
  predicate TitlesUnique(articles: map<ArticleId, Article>) {
    forall i, j :: i in articles && j in articles && articles[i].title == articles[j].title ==> i == j
  }

  /** Inserting an article whose title is free keeps titles unique. */
  lemma TitlesUniqueInsert(articles: map<ArticleId, Article>, id: ArticleId, a: Article)
    requires TitlesUnique(articles) && id !in articles && !TitleTaken(articles, a.title)
    ensures TitlesUnique(articles[id := a])
  {
  }

  /**
   * Replacing article `pk` by a new row `id` keeps titles unique when the
   * new title is the replaced article's own or is free.
   */
  lemma TitlesUniqueReplace(articles: map<ArticleId, Article>, pk: ArticleId, id: ArticleId, a: Article)
    requires TitlesUnique(articles) && pk in articles && id !in articles
    requires a.title == articles[pk].title || !TitleTaken(articles, a.title)
    ensures TitlesUnique((articles - {pk})[id := a])
  {
  }

  /** Updating a key twice keeps the second value only. */
  lemma UpdateTwice<K, V>(m: map<K, V>, k: K, x: V, y: V)
    ensures m[k := x][k := y] == m[k := y]
  {
  }

  /** Set union regroups freely. */
  lemma UnionRegroup<T>(a: set<T>, b: set<T>, c: set<T>)
    ensures a + b + c == a + (b + c)
  {
  }

  /** No two keyword rows share a name. */
  predicate Injective(registry: map<KeywordId, string>) {
    forall a, b :: a in registry && b in registry && registry[a] == registry[b] ==> a == b
  }

  /** The names of the keyword rows `ids`. */
  function NamesOf(registry: map<KeywordId, string>, ids: set<KeywordId>): set<string> {
    set k | k in ids && k in registry :: registry[k]
  }

  /** The keyword rows whose names are among `names`. */
  function IdsNamed(registry: map<KeywordId, string>, names: set<string>): set<KeywordId> {
    set k | k in registry && registry[k] in names
  }

  /**
   * In a registry without duplicate names, a set of registered rows is
   * recovered from its names.
   */
  lemma IdsNamedNamesOf(registry: map<KeywordId, string>, ids: set<KeywordId>)
    requires Injective(registry) && ids <= registry.Keys
    ensures IdsNamed(registry, NamesOf(registry, ids)) == ids
  {
    forall k | k in IdsNamed(registry, NamesOf(registry, ids)) ensures k in ids {
      var j :| j in ids && j in registry && registry[j] == registry[k];
    }
  }

  /** The rows named by registered names carry exactly those names. */
  lemma NamesOfIdsNamed(registry: map<KeywordId, string>, names: set<string>)
    requires names <= registry.Values
    ensures NamesOf(registry, IdsNamed(registry, names)) == names
  {
    forall n | n in names ensures n in NamesOf(registry, IdsNamed(registry, names)) {
      var k :| k in registry && registry[k] == n;
      assert k in IdsNamed(registry, names);
    }
  }

  /** Inserting a row under an unused key adds its name to the registered names. */
  lemma ValuesAfterInsert(registry: map<KeywordId, string>, k: KeywordId, name: string)
    requires k !in registry
    ensures registry[k := name].Values == registry.Values + {name}
  {
    var after := registry[k := name];
    forall n | n in after.Values ensures n in registry.Values + {name} {
      var j :| j in after && after[j] == n;
      if j != k { assert registry[j] == n; }
    }
    forall n | n in registry.Values ensures n in after.Values {
      var j :| j in registry && registry[j] == n;
      assert after[j] == n;
    }
    assert name == after[k];
  }

  /**
   * One get-or-create step on `name`, which returned row `k`: the rows named
   * by the names seen so far gain exactly `k`.
   */
  lemma IdsNamedStep(before: map<KeywordId, string>, after: map<KeywordId, string>,
                     seen: set<string>, name: string, k: KeywordId)
    requires Injective(after) && k in after && after[k] == name
    requires after == before || (k !in before && after == before[k := name])
    ensures IdsNamed(after, seen + {name}) == IdsNamed(before, seen) + {k}
  {
    forall x | x in IdsNamed(after, seen + {name}) ensures x in IdsNamed(before, seen) + {k} {
      if after[x] == name {
        assert x == k;
      } else {
        assert x != k && x in before && before[x] == after[x];
      }
    }
    forall x | x in IdsNamed(before, seen) ensures x in IdsNamed(after, seen + {name}) {
      assert x in after && after[x] == before[x];
    }
  }

  /**
   * The registry went from `before` to `after` by get-or-create on
   * `names`: the registered names gained exactly `names`, existing rows
   * kept their keys and names, and nothing changed when every name was
   * already registered.
   */
  predicate Grown(before: map<KeywordId, string>, after: map<KeywordId, string>, names: set<string>) {
    && after.Values == before.Values + names
    && (forall k :: k in before ==> k in after && after[k] == before[k])
    && (names <= before.Values ==> after == before)
  }

  /** Growth composes with one more get-or-create on `name` returning `k`. */
  lemma GrownStep(r0: map<KeywordId, string>, r1: map<KeywordId, string>, r2: map<KeywordId, string>,
                  names: set<string>, name: string, k: KeywordId)
    requires Grown(r0, r1, names)
    requires name in r1.Values ==> r2 == r1
    requires name !in r1.Values ==> k !in r1 && r2 == r1[k := name]
    ensures Grown(r0, r2, names + {name})
  {
    if name !in r1.Values {
      ValuesAfterInsert(r1, k, name);
    }
  }

  /**
   * The names of the rows `ids` below `bound`, in ascending id order: the
   * order in which the model lists an article's keywords (the source asks
   * the database for them without an ordering).
   */
  function KeywordListing(registry: map<KeywordId, string>, ids: set<KeywordId>, bound: nat): (r: seq<string>)
    ensures |r| <= bound
    ensures forall n :: n in r <==> exists k :: k in ids && k in registry && k < bound && registry[k] == n
  {
    if bound == 0 then []
    else
      var k := bound - 1;
      var prefix := KeywordListing(registry, ids, k);
      prefix + (if k in ids && k in registry then [registry[k]] else [])
  }

  /**
   * The database. Article and keyword rows receive fresh, increasing keys;
   * topics and redactors are maintained elsewhere and only read here.
   */
  class Store {
    var articles: map<ArticleId, Article>
    var nextArticleId: ArticleId
    var keywords: map<KeywordId, string>
    var nextKeywordId: KeywordId
    var topics: map<TopicId, string>
    var redactors: map<UserId, Redactor>

    /**
     * Integrity of the tables: keys below the next key to hand out,
     * keyword names unique, every keyword link pointing at a keyword row.
     */
    ghost predicate Valid()
      reads this
    {
      && (forall id :: id in articles ==> id < nextArticleId)
      && (forall k :: k in keywords ==> k < nextKeywordId)
      && Injective(keywords)
      && (forall id :: id in articles ==> articles[id].keywords <= keywords.Keys)
    }

    constructor (topics: map<TopicId, string>, redactors: map<UserId, Redactor>)
      ensures Valid()
      ensures articles == map[] && keywords == map[]
      ensures this.topics == topics && this.redactors == redactors
    {
      articles, nextArticleId := map[], 0;
      keywords, nextKeywordId := map[], 0;
      this.topics, this.redactors := topics, redactors;
    }

    /**
     * `Keyword.objects.get_or_create(name=name)[0]`: the row named `name`,
     * inserted first when there is none.
     */
    method GetOrCreateKeyword(name: string) returns (id: KeywordId)
      requires Valid()
      modifies this
      ensures Valid()
      ensures id in keywords && keywords[id] == name
      ensures name in old(keywords.Values) ==> keywords == old(keywords)
      ensures name !in old(keywords.Values) ==> id !in old(keywords) && keywords == old(keywords)[id := name]
      ensures articles == old(articles) && nextArticleId == old(nextArticleId)
      ensures topics == old(topics) && redactors == old(redactors)
    {
      if name in keywords.Values {
        id :| id in keywords && keywords[id] == name;
      } else {
        id := nextKeywordId;
        keywords := keywords[id := name];
        nextKeywordId := nextKeywordId + 1;
      }
    }

    /**
     * `Newspaper.objects.create(...)` or `save()` of a new row: an article
     * with no publishers and no keywords yet, under a fresh key.
     */
    method InsertArticle(title: string, content: string, topic: TopicId) returns (id: ArticleId)
      requires Valid()
      modifies this
      ensures Valid()
      ensures id !in old(articles)
      ensures articles == old(articles)[id := Article(title, content, topic, {}, {})]
      ensures keywords == old(keywords) && nextKeywordId == old(nextKeywordId)
      ensures topics == old(topics) && redactors == old(redactors)
    {
      id := nextArticleId;
      articles := articles[id := Article(title, content, topic, {}, {})];
      nextArticleId := nextArticleId + 1;
    }

    /** `article.keywords.add(*ks)`: links more keywords, keeping the old links. */
    method AddKeywords(id: ArticleId, ks: set<KeywordId>)
      requires Valid() && id in articles && ks <= keywords.Keys
      modifies this
      ensures Valid()
      ensures articles == old(articles)[id := old(articles[id]).(keywords := old(articles[id]).keywords + ks)]
      ensures keywords == old(keywords) && nextKeywordId == old(nextKeywordId)
      ensures nextArticleId == old(nextArticleId)
      ensures topics == old(topics) && redactors == old(redactors)
    {
      articles := articles[id := articles[id].(keywords := articles[id].keywords + ks)];
    }

    /** `article.publishers.set(ps)`: replaces the publisher links wholesale. */
    method SetPublishers(id: ArticleId, ps: set<UserId>)
      requires Valid() && id in articles
      modifies this
      ensures Valid()
      ensures articles == old(articles)[id := old(articles[id]).(publishers := ps)]
      ensures keywords == old(keywords) && nextKeywordId == old(nextKeywordId)
      ensures nextArticleId == old(nextArticleId)
      ensures topics == old(topics) && redactors == old(redactors)
    {
      articles := articles[id := articles[id].(publishers := ps)];
    }

    /**
     * `article.delete()`: the row and its links go; the keyword rows it
     * linked stay.
     */
    method DeleteArticle(id: ArticleId)
      requires Valid() && id in articles
      modifies this
      ensures Valid()
      ensures articles == old(articles) - {id}
      ensures keywords == old(keywords) && nextKeywordId == old(nextKeywordId)
      ensures nextArticleId == old(nextArticleId)
      ensures topics == old(topics) && redactors == old(redactors)
    {
      articles := articles - {id};
    }
  }
}
