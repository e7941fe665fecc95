/**
 * The article form and the profile form: how submitted text becomes the
 * cleaned values the views store, and which submissions are refused.
 */
module Forms {
  import opened Text
  import opened Models

  /** A validation failure attached to one form field. */
  datatype FormError = FieldError(field: string, message: string)

  const DuplicateTitleMessage := "An article with this title already exists."
  const EmailInUseMessage := "This email address is already in use."
  const RequiredMessage := "This field is required."
  const TitleTooLongMessage := "Ensure this value has at most 120 characters."
  const NullCharacterMessage := "Null characters are not allowed."
  const InvalidChoiceMessage := "Select a valid choice. That choice is not one of the available choices."

  /** The longest title the article table stores. */
  const TitleMaxLength: nat := 120

  /** The separator the edit form puts between an article's keyword names. */
  const KeywordSeparator := ", "

  /** A keyword name as the form produces it: non-empty, trimmed, comma-free. */
  predicate IsCleanKeyword(k: string) {
    k != [] && IsStripped(k) && ',' !in k
  }

  // ---------------------------------------------------------------------
  // Keyword text

  /** One piece, trimmed, or nothing when it is blank. */
  function KeepPiece(p: string): (r: seq<string>)
    ensures |r| <= 1
    ensures forall k :: k in r ==> k != [] && IsStripped(k)
    ensures ',' !in p ==> forall k :: k in r ==> ',' !in k
    ensures r == [] <==> AllSpace(p)
  {
    var s := Strip(p);
    assert ',' !in p ==> ',' !in s by {
      if ',' !in p { StripAvoids(p, ','); }
    }
    if s != [] then [s] else []
  }

  /** Trims every piece and keeps the pieces that are not blank, in order. */
  function KeepNonBlank(pieces: seq<string>): (r: seq<string>)
    ensures |r| <= |pieces|
    ensures forall k :: k in r ==> k != [] && IsStripped(k)
    ensures (forall p :: p in pieces ==> ',' !in p) ==> forall k :: k in r ==> ',' !in k
  {
    if pieces == [] then []
    else KeepPiece(pieces[0]) + KeepNonBlank(pieces[1..])
  }

  /**
   * `NewspaperForm.clean_keywords`: the comma-separated pieces of the
   * keyword text, trimmed, blank ones dropped. Duplicates are kept.
   */
  function CleanKeywords(text: string): (r: seq<string>)
    ensures forall k :: k in r ==> IsCleanKeyword(k)
    ensures |r| <= Count(text, ',') + 1
  {
    SplitPiecesFree(text, ',');
    KeepNonBlank(Split(text, ','))
  }

  /** Keeping works piece by piece: the kept pieces of a concatenation, in order. */
  lemma {:induction false} KeepNonBlankConcat(a: seq<string>, b: seq<string>)
    ensures KeepNonBlank(a + b) == KeepNonBlank(a) + KeepNonBlank(b)
  {
    if a == [] {
      assert a + b == b;
    } else {
      var ab := a + b;
      assert ab[0] == a[0] && ab[1..] == a[1..] + b;
      var head := KeepPiece(a[0]);
      calc {
        KeepNonBlank(ab);
        head + KeepNonBlank(a[1..] + b);
        { KeepNonBlankConcat(a[1..], b); }
        head + (KeepNonBlank(a[1..]) + KeepNonBlank(b));
        { SeqRegroup(head, KeepNonBlank(a[1..]), KeepNonBlank(b)); }
        (head + KeepNonBlank(a[1..])) + KeepNonBlank(b);
        KeepNonBlank(a) + KeepNonBlank(b);
      }
    }
  }

  /** A single piece is kept, trimmed, exactly when it is not blank. */
  lemma KeepNonBlankOne(p: string)
    ensures KeepNonBlank([p]) == if AllSpace(p) then [] else [Strip(p)]
  {
    assert [p][1..] == [];
  }

  /** A whitespace character at the start of the text does not change what is parsed. */
  lemma LeadingSpace(c: char, s: string)
    requires IsSpace(c)
    ensures CleanKeywords([c] + s) == CleanKeywords(s)
  {
    var parts := Split(s, ',');
    var spaced := [[c] + parts[0]] + parts[1..];
    SplitCons(c, s, ',');
    StripLeadingSpace(c, parts[0]);
    assert spaced[0] == [c] + parts[0] && spaced[1..] == parts[1..];
    assert KeepNonBlank(spaced) == KeepPiece([c] + parts[0]) + KeepNonBlank(parts[1..]);
    assert KeepNonBlank(parts) == KeepPiece(parts[0]) + KeepNonBlank(parts[1..]);
  }

  /** The space of the separator ", " is ignored: the case the keyword text relies on. */
  lemma SeparatorSpace(s: string)
    ensures CleanKeywords([' '] + s) == CleanKeywords(s)
  {
    LeadingSpace(' ', s);
  }

  /** A run of whitespace at the start of the text is ignored. */
  lemma {:induction false} LeadingSpaceIgnored(w: string, s: string)
    requires AllSpace(w)
    ensures CleanKeywords(w + s) == CleanKeywords(s)
    decreases |w|
  {
    if w != [] {
      var rest := w[1..];
      assert AllSpace(rest) by {
        forall i | 0 <= i < |rest| ensures IsSpace(rest[i]) {
          assert rest[i] == w[i + 1];
        }
      }
      assert CleanKeywords(w + s) == CleanKeywords(rest + s) by {
        assert w + s == [w[0]] + (rest + s);
        LeadingSpace(w[0], rest + s);
      }
      LeadingSpaceIgnored(rest, s);
    } else {
      assert w + s == s;
    }
  }

  /**
   * The text on either side of a comma is parsed on its own: the keywords
   * before the comma, then those after it, in input order.
   */
  lemma CleanKeywordsAtComma(x: string, y: string)
    ensures CleanKeywords(x + [','] + y) == CleanKeywords(x) + CleanKeywords(y)
  {
    SplitConcat(x, ',', y);
    KeepNonBlankConcat(Split(x, ','), Split(y, ','));
  }

  /** A run of whitespace after any comma of the text is ignored. */
  lemma SpaceAfterComma(x: string, w: string, s: string)
    requires AllSpace(w)
    ensures CleanKeywords(x + [','] + (w + s)) == CleanKeywords(x + [','] + s)
  {
    CleanKeywordsAtComma(x, w + s);
    LeadingSpaceIgnored(w, s);
    CleanKeywordsAtComma(x, s);
  }

  /** An empty piece between two commas in a row contributes no keyword. */
  lemma EmptyPieceDropped(x: string, s: string)
    ensures CleanKeywords(x + [','] + ([','] + s)) == CleanKeywords(x + [','] + s)
  {
    CleanKeywordsAtComma(x, [','] + s);
    LeadingCommaDropped(s);
    CleanKeywordsAtComma(x, s);
  }

  /**
   * The keyword text `NewspaperForm.__init__` shows for an existing
   * article: the names joined with ", ". Names that `clean_keywords`
   * could have produced are parsed back from it unchanged and in order.
   */
  function KeywordText(names: seq<string>): (text: string)
    ensures (forall k :: k in names ==> IsCleanKeyword(k)) ==> CleanKeywords(text) == names
  {
    var t := Join(names, KeywordSeparator);
    assert (forall k :: k in names ==> IsCleanKeyword(k)) ==> CleanKeywords(t) == names by {
      if forall k :: k in names ==> IsCleanKeyword(k) {
        KeywordRoundTrip(names);
      }
    }
    t
  }

  /** Joining at least two names: the first, a comma, a space, the rest. */
  lemma JoinFirst(names: seq<string>)
    requires |names| >= 2
    ensures Join(names, KeywordSeparator) == names[0] + [','] + ([' '] + Join(names[1..], KeywordSeparator))
  {
  }

  /** A clean first name followed by a comma parses to itself, then the rest. */
  lemma {:induction false} CleanKeywordsFirst(n0: string, rest: string)
    requires IsCleanKeyword(n0)
    ensures CleanKeywords(n0 + [','] + rest) == [n0] + CleanKeywords(rest)
  {
    SplitAtSep(n0, ',', rest);
    KeepNonBlankConcat([n0], Split(rest, ','));
    KeepNonBlankOne(n0);
  }

  /** A single clean name parses to itself. */
  lemma {:induction false} CleanKeywordsOne(n0: string)
    requires IsCleanKeyword(n0)
    ensures CleanKeywords(n0) == [n0]
  {
    SplitNoSep(n0, ',');
    KeepNonBlankOne(n0);
  }

  /**
   * The initial keyword text parses back to the same names, in the same
   * order, whenever the names are what `CleanKeywords` produces.
   */
  lemma {:induction false} KeywordRoundTrip(names: seq<string>)
    requires forall k :: k in names ==> IsCleanKeyword(k)
    ensures CleanKeywords(Join(names, KeywordSeparator)) == names
    decreases |names|
  {
    if |names| == 0 {
      assert Split([], ',') == [[]];
      KeepNonBlankOne([]);
    } else if |names| == 1 {
      assert names[0] in names;
      CleanKeywordsOne(names[0]);
    } else {
      var n0, tail := names[0], names[1..];
      assert n0 in names;
      assert forall k :: k in tail ==> k in names;
      var rest := Join(tail, KeywordSeparator);
      calc {
        CleanKeywords(Join(names, KeywordSeparator));
        { JoinFirst(names); }
        CleanKeywords(n0 + [','] + ([' '] + rest));
        { CleanKeywordsFirst(n0, [' '] + rest); }
        [n0] + CleanKeywords([' '] + rest);
        { SeparatorSpace(rest); }
        [n0] + CleanKeywords(rest);
        { KeywordRoundTrip(tail); }
        [n0] + tail;
        names;
      }
    }
  }

  /** The join of names starts with the first name's first character and ends with the last name's last. */
  lemma {:induction false} JoinEnds(names: seq<string>, sep: string)
    requires |names| >= 1 && names[0] != [] && names[|names| - 1] != []
    requires forall k :: k in names ==> k != []
    ensures var t := Join(names, sep);
      |t| > 0 && t[0] == names[0][0] && t[|t| - 1] == names[|names| - 1][|names[|names| - 1]| - 1]
  {
    assert names[0] in names && names[|names| - 1] in names;
    if |names| > 1 {
      assert forall k :: k in names[1..] ==> k in names;
      assert names[1] in names;
      assert names[1..][0] == names[1];
      JoinEnds(names[1..], sep);
    }
  }

  /**
   * The initial keyword text of clean names has no surrounding
   * whitespace, and is blank only when there are no names.
   */
  lemma KeywordTextStripped(names: seq<string>)
    requires forall k :: k in names ==> IsCleanKeyword(k)
    ensures IsStripped(KeywordText(names))
    ensures KeywordText(names) == [] <==> names == []
  {
    if names != [] {
      assert names[0] in names && names[|names| - 1] in names;
      JoinEnds(names, KeywordSeparator);
    }
  }

  /** The example the form tests use: "news, update" gives two keywords. */
  lemma CleanKeywordsExample()
    ensures CleanKeywords("news, update") == ["news", "update"]
  {
    assert IsCleanKeyword("news") && IsCleanKeyword("update");
    assert "news, update" == "news" + [','] + ([' '] + "update");
    CleanKeywordsFirst("news", [' '] + "update");
    SeparatorSpace("update");
    CleanKeywordsOne("update");
  }

  /** An empty piece before a leading comma is dropped. */
  lemma LeadingCommaDropped(s: string)
    ensures CleanKeywords([','] + s) == CleanKeywords(s)
  {
    var parts := Split(s, ',');
    assert ([','] + s)[0] == ',' && ([','] + s)[1..] == s;
    assert Split([','] + s, ',') == [[]] + parts;
    KeepNonBlankConcat([[]], parts);
    KeepNonBlankOne([]);
  }

  /** Repeated names are not merged, and blank pieces are dropped. */
  lemma CleanKeywordsKeepsDuplicates()
    ensures CleanKeywords("ai,, ai") == ["ai", "ai"]
  {
    assert IsCleanKeyword("ai");
    assert "ai,, ai" == "ai" + [','] + ([','] + ([' '] + "ai"));
    CleanKeywordsFirst("ai", [','] + ([' '] + "ai"));
    LeadingCommaDropped([' '] + "ai");
    SeparatorSpace("ai");
    CleanKeywordsOne("ai");
  }

  // ---------------------------------------------------------------------
  // Field-level cleaning done by the form framework before the cleaners

  /**
   * A required text field: the submitted text is trimmed and must not be
   * blank, must fit `maxLength` when there is one, and must not hold a
   * NUL character.
   */
  function CleanCharField(field: string, raw: string, maxLength: Option<nat>): (r: Result<string, FormError>)
    ensures r.Ok? ==> r.value == Strip(raw) && IsStripped(r.value)
    ensures r.Ok? <==> !AllSpace(raw) && (maxLength.None? || |Strip(raw)| <= maxLength.value) && '\0' !in Strip(raw)
    ensures r.Err? ==> r.error.field == field
    ensures AllSpace(raw) ==> r == Err(FieldError(field, RequiredMessage))
  {
    var s := Strip(raw);
    if s == [] then Err(FieldError(field, RequiredMessage))
    else if maxLength.Some? && |s| > maxLength.value then Err(FieldError(field, TitleTooLongMessage))
    else if '\0' in s then Err(FieldError(field, NullCharacterMessage))
    else Ok(s)
  }

  // ---------------------------------------------------------------------
  // The article form

  /** What the article form receives. */
  datatype NewspaperData = NewspaperData(
    title: string,
    content: string,
    topic: Option<TopicId>,
    publishers: seq<UserId>,
    keywords: string)

  /** What the article form hands to the views once every field is clean. */
  datatype Cleaned = Cleaned(
    title: string,
    content: string,
    topic: TopicId,
    publishers: seq<UserId>,
    keywords: seq<string>)

  /**
   * `NewspaperForm`, bound to the acting user and to the article it edits
   * (none for a new article, whose blank instance has the empty title).
   */
  class NewspaperForm {
    const user: Option<UserId>
    const instance: Option<ArticleId>
    const instanceTitle: string
    var initial: map<string, string>

    /**
     * `NewspaperForm.__init__`: remembers the user and, when editing a
     * stored article, fills the keyword field with its keyword names.
     */
    constructor (user: Option<UserId>, instance: Option<ArticleId>, store: Store, initial: map<string, string>)
      requires instance.Some? ==> instance.value in store.articles
      ensures this.user == user && this.instance == instance
      ensures instanceTitle == if instance.Some? then store.articles[instance.value].title else ""
      ensures this.initial == if instance.None? then initial
        else initial["keywords" := KeywordText(KeywordListing(
          store.keywords, store.articles[instance.value].keywords, store.nextKeywordId))]
    {
      this.user := user;
      this.instance := instance;
      if instance.Some? {
        var article := store.articles[instance.value];
        this.instanceTitle := article.title;
        this.initial := initial["keywords" := KeywordText(KeywordListing(
          store.keywords, article.keywords, store.nextKeywordId))];
      } else {
        this.instanceTitle := "";
        this.initial := initial;
      }
    }

    /**
     * `NewspaperForm.clean_title`: keeping the edited article's own title
     * is always accepted; any other title is refused exactly when a stored
     * article already carries it.
     */
    function CleanTitle(title: string, articles: map<ArticleId, Article>): (r: Result<string, FormError>)
      ensures r.Ok? ==> r.value == title
      ensures r.Err? ==> r.error == FieldError("title", DuplicateTitleMessage)
      ensures title == instanceTitle ==> r.Ok?
      ensures title != instanceTitle ==> (r.Err? <==> TitleTaken(articles, title))
    {
      if instanceTitle == title then Ok(title)
      else if TitleTaken(articles, title) then Err(FieldError("title", DuplicateTitleMessage))
      else Ok(title)
    }

    /**
     * `NewspaperForm.clean_publishers`: the chosen publishers, with the
     * acting user appended when missing.
     */
    method CleanPublishers(publishers: seq<UserId>) returns (r: seq<UserId>)
      ensures user.Some? ==> user.value in r
      ensures |publishers| <= |r| <= |publishers| + 1 && r[..|publishers|] == publishers
      ensures forall p :: p in r ==> p in publishers || user == Some(p)
      ensures user.None? || user.value in publishers ==> r == publishers
      ensures Elems(r) == Elems(publishers) + (if user.Some? then {user.value} else {})
    {
      r := publishers;
      if user.Some? && user.value !in r {
        r := r + [user.value];
        assert Elems(r) == Elems(publishers) + {user.value};
      }
    }

    /** Every field of `data` passes: the framework's checks and `clean_title`. */
    predicate Accepts(data: NewspaperData, articles: map<ArticleId, Article>, topics: set<TopicId>, redactors: set<UserId>) {
      && CleanCharField("title", data.title, Some(TitleMaxLength)).Ok?
      && CleanTitle(Strip(data.title), articles).Ok?
      && CleanCharField("content", data.content, None).Ok?
      && data.topic.Some? && data.topic.value in topics
      && (forall p :: p in data.publishers ==> p in redactors)
      && CleanCharField("keywords", data.keywords, None).Ok?
    }

    /**
     * `is_valid()` followed by reading `cleaned_data`: the fields in the
     * form's order (title, content, topic, publishers, keywords), each
     * through its own cleaner; the first failure is reported.
     */
    method FullClean(data: NewspaperData, articles: map<ArticleId, Article>, topics: set<TopicId>, redactors: set<UserId>)
      returns (r: Result<Cleaned, FormError>)
      ensures r.Ok? <==> Accepts(data, articles, topics, redactors)
      ensures r.Ok? ==> && r.value.title == Strip(data.title)
                        && r.value.content == Strip(data.content)
                        && data.topic == Some(r.value.topic)
                        && r.value.keywords == CleanKeywords(Strip(data.keywords))
      ensures r.Ok? ==> r.value.title != [] && |r.value.title| <= TitleMaxLength
      ensures r.Ok? ==> r.value.title == instanceTitle || !TitleTaken(articles, r.value.title)
      ensures r.Ok? && user.Some? ==> user.value in r.value.publishers
      ensures r.Ok? ==> Elems(r.value.publishers) == Elems(data.publishers) + (if user.Some? then {user.value} else {})
      ensures CleanCharField("title", data.title, Some(TitleMaxLength)).Err?
        ==> r == Err(CleanCharField("title", data.title, Some(TitleMaxLength)).error)
      ensures r == Err(FieldError("title", DuplicateTitleMessage))
        <==> CleanCharField("title", data.title, Some(TitleMaxLength)).Ok? && CleanTitle(Strip(data.title), articles).Err?
    {
      var title := CleanCharField("title", data.title, Some(TitleMaxLength));
      if title.Err? { return Err(title.error); }
      var unique := CleanTitle(title.value, articles);
      if unique.Err? { return Err(unique.error); }
      var content := CleanCharField("content", data.content, None);
      if content.Err? { return Err(content.error); }
      if data.topic.None? { return Err(FieldError("topic", RequiredMessage)); }
      if data.topic.value !in topics { return Err(FieldError("topic", InvalidChoiceMessage)); }
      if exists p :: p in data.publishers && p !in redactors {
        return Err(FieldError("publishers", InvalidChoiceMessage));
      }
      var publishers := CleanPublishers(data.publishers);
      var text := CleanCharField("keywords", data.keywords, None);
      if text.Err? { return Err(text.error); }
      r := Ok(Cleaned(title.value, content.value, data.topic.value, publishers, CleanKeywords(text.value)));
    }
  }

  // ---------------------------------------------------------------------
  // The profile form

  /** Each redactor has an e-mail address no other redactor has. */
  predicate EmailsUnique(redactors: map<UserId, Redactor>) {
    forall a, b :: a in redactors && b in redactors && redactors[a].email == redactors[b].email ==> a == b
  }

  /** Some redactor other than `pk` already uses `email`. */
  predicate EmailUsedByOther(pk: UserId, email: string, redactors: map<UserId, Redactor>) {
    exists other :: other in redactors && other != pk && redactors[other].email == email
  }

  /**
   * `RedactorUpdateForm.clean_email` for the profile of redactor `pk`:
   * refused exactly when another redactor has the same address.
   */
  function CleanEmail(pk: UserId, email: string, redactors: map<UserId, Redactor>): (r: Result<string, FormError>)
    ensures r.Ok? ==> r.value == email
    ensures r.Err? ==> r.error == FieldError("email", EmailInUseMessage)
    ensures r.Err? <==> EmailUsedByOther(pk, email, redactors)
  {
    if EmailUsedByOther(pk, email, redactors) then Err(FieldError("email", EmailInUseMessage))
    else Ok(email)
  }

  /** A redactor's own current address never conflicts with itself. */
  lemma OwnEmailAccepted(pk: UserId, redactors: map<UserId, Redactor>)
    requires pk in redactors && EmailsUnique(redactors)
    ensures CleanEmail(pk, redactors[pk].email, redactors) == Ok(redactors[pk].email)
  {
  }

  /**
   * Without unique addresses the profile form can refuse a redactor's own
   * address: the sign-up form collects none, so two redactors who signed up
   * both have the blank address, and neither can then save a blank one.
   */
  lemma SharedEmailRefused(pk: UserId, other: UserId, redactors: map<UserId, Redactor>)
    requires pk in redactors && other in redactors && pk != other
    requires redactors[pk].email == redactors[other].email
    ensures CleanEmail(pk, redactors[pk].email, redactors).Err?
    ensures !EmailsUnique(redactors)
  {
    assert EmailUsedByOther(pk, redactors[pk].email, redactors) by {
      assert other in redactors && other != pk && redactors[other].email == redactors[pk].email;
    }
  }

  /** Two redactors who signed up with the blank address: the first cannot save it. */
  lemma BlankEmailsClash(a: Redactor, b: Redactor)
    requires a.email == "" && b.email == ""
    ensures CleanEmail(1, "", map[1 := a, 2 := b]).Err?
  {
    SharedEmailRefused(1, 2, map[1 := a, 2 := b]);
  }

  /** Saving an address the form accepted keeps addresses unique. */
  lemma AcceptedEmailKeepsUnique(pk: UserId, email: string, redactors: map<UserId, Redactor>)
    requires pk in redactors && EmailsUnique(redactors)
    requires CleanEmail(pk, email, redactors).Ok?
    ensures EmailsUnique(redactors[pk := redactors[pk].(email := email)])
  {
  }
}
