# Newspaper agency: the article-writing rules in Dafny

The newspaper agency is a Django site where redactors (journalists) write
articles ("newspapers"). Each article has a title, a text, a topic, a set of
publishers (the redactors who sign it) and a set of keywords. Keywords live
in a registry where each name appears once. This project models the rules
that decide what may be written and what a write does to the database:

- the article form (`NewspaperForm`):
  - parses the comma-separated keyword text;
  - refuses a title another article already has, except the edited article's own;
  - adds the acting redactor to the publishers;
  - shows an existing article's keywords as `", "`-joined text;
- the profile form's e-mail check (`RedactorUpdateForm.clean_email`);
- the article pages:
  - create: save, get or create each keyword by name, link them, set the publishers;
  - edit: build a new article from the form, link the submitted keywords, set the publishers, delete the edited article;
  - delete;
  - the ownership filters of edit, delete and "my articles", and the `is_author` flag of the detail page;
- the search and category filter of the list page.

The files:

- `text.dfy` (module `Text`): the Python string operations these rules rely on. These are `str.strip`, `str.split`, `str.join` and substring search, plus the case-insensitive comparisons behind the ORM lookups `iexact` and `icontains`.
- `models.dfy` (module `Models`):
  - the records: `Article`, `Redactor`;
  - the `Store` class, which stands for the database. Its article table and keyword registry are maps that its methods update in place. Its `Valid()` invariant holds three facts: every key is below the next key to hand out (so new keys are fresh), keyword names are unique, and keyword links point at rows that exist.
- `forms.dfy` (module `Forms`): the `NewspaperForm` class and its cleaners, the framework's field checks, and the e-mail check.
- `views.dfy` (module `Views`): the page handlers as module-level methods that take the `Store` and modify it, and the list, "my articles" and `is_author` queries as functions.

Modelling choices:

- Text is `seq<char>`. Whitespace is Python's `str.isspace` set.
- Case-insensitive matching uses ASCII lower-casing.
- Query results are sets of keys. The search (`news/views.py:150`) and "my articles" (`news/views.py:220`) call `distinct()`. The other lookups (`news/views.py:85`, `:125`, `:142`) filter on a single user, or on the article's own topic (a category can match several topics, but each article has exactly one), so they cannot return an article twice either.
- An article's keywords are listed in ascending key order. The source reads them from the database without an ordering.
- `news/models.py` names the many-to-many field `publisher` and declares no `Keyword` model. The model uses the vocabulary of `news/forms.py` and `news/views.py` (`publishers`, `keywords`, a keyword registry unique by name), because those are the files that define the behaviour.
- Where the tests expect behaviour the code does not have, the model follows the code:
  - `Topic.name` is not unique (`news/tests/test_models.py:20-24` expects it to be);
  - there is no `Newspaper.clean` (called at `news/tests/test_models.py:61-62`);
  - the create test at `news/tests/test_views.py:58-66` sends no topic. The submitted topic is optional in the model (`NewspaperData.topic`), and a missing one is refused with the required-field error, as the form's required topic field does.

## Model

| member | source | states |
|---|---|---|
| Text.Strip | news/forms.py:52 | `kw.strip()`: the result has no whitespace at either end, is empty exactly when the input is all whitespace, and leaves an already trimmed string unchanged |
| Text.StripMiddle | news/forms.py:52 | the result of `strip()` is a contiguous piece of the input, and everything before and after that piece is whitespace: only surrounding whitespace is removed |
| Text.StripAvoids | news/forms.py:52 | trimming adds no character: one absent from the input is absent from the result |
| Text.Split | news/forms.py:52 | `keywords.split(",")`: one more piece than there are commas |
| Text.SplitPiecesFree | news/forms.py:52 | no piece of a split holds the separator |
| Text.SplitConcat | news/forms.py:52 | splitting a text at a separator character gives the pieces of the text before it followed by the pieces of the text after it |
| Text.JoinSplit | news/forms.py:52 | joining the pieces of a split with the separator gives the original text back: splitting loses nothing |
| Text.SplitAtSep | news/forms.py:52 | the first separator closes the first piece; the rest is split on its own |
| Text.StripLeadingSpace | news/forms.py:52 | one more leading whitespace character does not change the trimmed text |
| Text.Lower | news/views.py:142 | ASCII lower-casing keeps the length, leaves no upper-case ASCII letter, keeps every other character, and maps each upper-case letter to its lower-case one |
| Text.LowerIdempotent | news/views.py:142 | lower-casing twice is the same as lower-casing once |
| Text.IContainsIgnoresCase | news/views.py:146-149 | `icontains` gives the same answer when the text, the query, or both are lower-cased first |
| Text.IExactIgnoresCase | news/views.py:142 | `iexact` gives the same answer when either side, or both, are lower-cased first |
| Text.IContains | news/views.py:146-149 | `icontains`: holds exactly when the lower-cased query occurs at some position of the lower-cased text |
| Text.IExact | news/views.py:142 | `iexact`: the two texts are equal once both are lower-cased |
| Text.Join | news/forms.py:35 | `sep.join(parts)`: no parts give the empty text, and otherwise the text begins with the first part; `JoinSplit` shows that joining undoes `split` |
| Text.ContainsIff | news/views.py:146-149 | the substring test holds exactly when the query occurs at some position |
| Text.ContainsAt | news/views.py:146-149 | an occurrence of the query at any position makes `icontains` hold |
| Text.ContainsWitness | news/views.py:146-149 | whenever `icontains` holds, some position holds the query |
| Forms.KeepNonBlank | news/forms.py:52 | trims and keeps the non-blank pieces: never more items than pieces, each kept item non-empty and trimmed, comma-free when the pieces are |
| Forms.CleanKeywords | news/forms.py:50-53 | `clean_keywords`: every returned keyword is non-empty, equals its own trim and holds no comma; at most one more keyword than there are commas |
| Forms.KeepNonBlankConcat | news/forms.py:52 | the keywords of consecutive pieces come out in input order, piece after piece |
| Forms.LeadingSpace | news/forms.py:52 | any single whitespace character at the start of the text does not change the parsed keywords |
| Forms.LeadingSpaceIgnored | news/forms.py:52 | any run of whitespace at the start of the text does not change the parsed keywords |
| Forms.LeadingCommaDropped | news/forms.py:52 | a comma at the start of the text (an empty first piece) contributes no keyword |
| Forms.CleanKeywordsAtComma | news/forms.py:52 | the text before a comma and the text after it are parsed independently: the keywords before the comma, then those after it, in input order |
| Forms.SpaceAfterComma | news/forms.py:52 | any run of whitespace after any comma of the text does not change the parsed keywords |
| Forms.EmptyPieceDropped | news/forms.py:52 | an empty piece between two consecutive commas anywhere in the text contributes no keyword |
| Forms.CleanKeywordsExample | news/forms.py:50-53 | "news, update" parses to ["news", "update"] |
| Forms.CleanKeywordsKeepsDuplicates | news/forms.py:50-53 | "ai,, ai" parses to ["ai", "ai"]: duplicates are kept, blank pieces dropped |
| Forms.KeywordText | news/forms.py:35-37 | the `", "`-joined keyword text of names that `clean_keywords` could have produced (non-empty, trimmed, comma-free) parses back to exactly those names, in the same order |
| Forms.KeywordRoundTrip | news/forms.py:34-37 | the keyword text the form shows for an article, parsed by `clean_keywords`, gives back exactly the article's names in the same order, whenever the names are non-empty, trimmed and comma-free |
| Forms.JoinEnds | news/forms.py:35-37 | the joined text begins with the first name's first character and ends with the last name's last character |
| Forms.KeywordTextStripped | news/forms.py:35-37 | the keyword text of clean names needs no trimming and is empty only when there are no names |
| Forms.CleanCharField | news/models.py:20-21 | a required text field: trimmed; accepted exactly when not blank, not longer than its maximum (120 for the title) and free of NUL characters; a blank field gets the required-field error; an error names its own field |
| Forms.NewspaperForm.constructor | news/forms.py:30-37 | `__init__`: keeps the acting user and the edited article; for a stored article, sets the initial keyword text to its keyword names joined with ", "; a new article's blank instance has the empty title |
| Forms.NewspaperForm.CleanTitle | news/forms.py:39-48 | `clean_title`: the edited article's own title is always accepted; any other title is refused with "An article with this title already exists." exactly when a stored article has the identical title; an accepted title is returned unchanged |
| Forms.NewspaperForm.CleanPublishers | news/forms.py:55-60 | `clean_publishers`: the acting user is among the result; the input is kept in order as a prefix and at most the user is appended; the result equals the input when the user was already in it; as a set, the input plus the user |
| Forms.NewspaperForm.FullClean | news/forms.py:26-60 | `is_valid()`: succeeds exactly when every field passes (title, title uniqueness, content, a topic that is given and exists, publishers, keywords); the cleaned values are the trimmed fields, the chosen topic, the parsed keywords and the publishers with the user; a duplicate-title error is reported exactly when the title field passes and `clean_title` refuses |
| Forms.CleanEmail | news/forms.py:71-79 | `clean_email`: refused with "This email address is already in use." exactly when a redactor with another key has the same address; otherwise the address is returned unchanged |
| Forms.OwnEmailAccepted | news/forms.py:71-79 | while addresses are unique, a redactor's own current address never conflicts with itself |
| Forms.SharedEmailRefused | news/forms.py:71-79 | when two redactors share an address, the profile form refuses that address for either of them, and addresses are not unique |
| Forms.BlankEmailsClash | news/forms.py:6-9 | two redactors who signed up without an address (the sign-up form collects none) cannot save the blank address on their profile |
| Forms.AcceptedEmailKeepsUnique | news/forms.py:71-79 | saving an accepted address keeps addresses unique among redactors |
| Models.TitlesUniqueInsert | news/forms.py:44-47 | inserting an article whose title no article has keeps titles unique |
| Models.TitlesUniqueReplace | news/forms.py:41-47 | replacing an article by one with its own title or an unused title keeps titles unique |
| Models.IdsNamedNamesOf | news/views.py:101-104 | in a registry unique by name, the rows named by the names of some rows are exactly those rows |
| Models.NamesOfIdsNamed | news/views.py:65-67 | the rows named by registered names carry exactly those names |
| Models.ValuesAfterInsert | news/views.py:103 | registering a new row adds exactly its name to the registered names |
| Models.IdsNamedStep | news/views.py:102-104 | one get-or-create adds exactly its row to the rows named by the names seen so far |
| Models.GrownStep | news/views.py:102-104 | registry growth by get-or-create composes name by name |
| Models.KeywordListing | news/forms.py:35-36 | the names listed for an article are exactly the names of its registered keyword rows |
| Models.Store.constructor | news/models.py:19-28 | an empty database over the given topics and redactors satisfies the table invariant |
| Models.Store.GetOrCreateKeyword | news/views.py:103 | `get_or_create(name=...)`: returns the row with that name; the registry is unchanged when the name exists, otherwise it gains exactly one fresh row; articles are unchanged |
| Models.Store.InsertArticle | news/views.py:94-99 | `objects.create`: a fresh key holds a new article with no publishers and no keywords; nothing else changes |
| Models.Store.AddKeywords | news/views.py:104 | `keywords.add`: the article's links gain the given rows and keep the old ones; nothing else changes |
| Models.Store.SetPublishers | news/views.py:107 | `publishers.set`: the article's publishers become exactly the given set; nothing else changes |
| Models.Store.DeleteArticle | news/views.py:109 | `delete()`: the article row and its links go; keyword rows stay |
| Views.IsAuthor | news/views.py:169 | `is_author`: the user is one of the article's publishers |
| Views.AuthoredBy | news/views.py:219-220 | "my articles": the stored articles the user publishes, each once |
| Views.AuthoredByIsAuthor | news/views.py:169 | an article is among the user's articles exactly when `is_author` holds for it |
| Views.MatchesCategory | news/views.py:141-142 | the category filter: no category keeps every article; otherwise the article's topic name equals the category ignoring case |
| Views.MatchesQuery | news/views.py:144-150 | the search: no query keeps every article; otherwise the title, a publisher's first or last name, or a keyword name contains the query ignoring case |
| Views.ListFilter | news/views.py:134-152 | the list page shows only stored articles, each once |
| Views.ListFilterUnfiltered | news/views.py:141-144 | with neither category nor query, every article is listed |
| Views.ListFilterIntersection | news/views.py:141-150 | the category filter and the search apply independently: the list is their intersection |
| Views.ListFilterIgnoresCase | news/views.py:141-150 | lower-casing the category, the query, or both does not change which articles are listed |
| Views.TitleSearch | news/views.py:144-150 | an article with no publishers and no keywords is found exactly when its title contains the query |
| Views.TechInTechNews | news/views.py:146 | "Tech" occurs in "Tech News" ignoring case |
| Views.TechNotInArtNews | news/views.py:146 | "Tech" occurs nowhere in "Art News" ignoring case |
| Views.ListFilterExample | news/views.py:144-150 | of "Tech News" and "Art News", searching "Tech" lists only the first |
| Views.ListingNames | news/forms.py:35-36 | an article's listed keyword names are the names of its rows, empty only for no rows, and clean when the registry is |
| Views.UnchangedKeywordText | news/forms.py:34-37 | the initial keyword text of a stored article needs no trimming, is blank only without keywords, names only registered keywords, and names exactly the article's keyword rows |
| Views.RegistryCleanGrown | news/views.py:66-67 | registering names that `clean_keywords` produced keeps every registered name clean |
| Views.UnchangedKeywordTextKept | news/views.py:101-104 | saving the edit form with its keyword text unchanged registers nothing and links exactly the rows the article had |
| Views.RegistryStep | news/views.py:102-104 | one get-or-create on the next name extends the rows named and the registry growth of the names before it |
| Views.GetOrCreateKeywords | news/views.py:66 | the list of get-or-create results: the rows named by the names; the registry gains exactly the new names, and existing rows keep their keys and names |
| Views.CreateFormValid | news/views.py:60-74 | create: one fresh article whose publishers are the cleaned publishers and whose keywords are the rows named by the cleaned keywords; no other article changes; the registry only grows, and not at all when every name exists |
| Views.LinkKeyword | news/views.py:103-104 | one pass of the edit loop: get or create the row, then link it to the new article |
| Views.LinkKeywords | news/views.py:101-104 | the edit loop: the new article gains exactly the rows named by the cleaned keywords |
| Views.UpdateFormValid | news/views.py:92-112 | edit: the edited article is gone, and a fresh article carries the form's fields, exactly the submitted keywords (nothing carried over) and the cleaned publishers; no other article changes |
| Views.NewFormAccepts | news/forms.py:39-48 | for a new article the form accepts exactly when every field passes and no stored article has the title |
| Views.EditFormAccepts | news/forms.py:39-48 | for an edited article the form accepts exactly when every field passes and the title is the article's own or no stored article has it |
| Views.CreateArticle | news/views.py:60-74 | create page: succeeds exactly when every field passes and the title is unused; on refusal nothing changes; a valid title already stored is refused with the duplicate-title error; on success, the new article has the trimmed fields, the user among its publishers, keywords named exactly by the parsed names, and is among the user's articles; unique titles and clean keyword names stay so |
| Views.UpdateArticle | news/views.py:83-112 | edit page: succeeds exactly when the user publishes the article and every field passes with a title that is the article's own or unused; an article the user does not publish is not found; keeping the title is never refused as a duplicate, and a valid title another article has is; on success the edited article is replaced as in `UpdateFormValid`; resubmitting the keyword text the form showed keeps the same keyword rows and registers nothing; unique titles and clean keyword names stay so |
| Views.DeleteArticle | news/views.py:123-125 | delete page: succeeds exactly when the user publishes the article, which is then removed; otherwise not found and nothing changes |

## Left out

- Rendering, templates, redirects and flash messages: each page method returns the key it wrote or why it refused.
- Login and logout, registration (`RegisterView`, `RedactorCreationForm`, password hashing), the profile and profile-delete pages, and `UserUpdateView` saving the profile. Only `clean_email` of that form is modelled.
- URL routing, the admin configuration and the migrations: they have no behaviour of their own.
- Pagination and query optimisation (`paginate_by`, `select_related`, `prefetch_related`): they do not change which articles a query returns.
- Transactions, and two requests racing to create the same keyword: the model runs one request at a time.
- `published_date`: it is set from the clock on insert, so `Article` has no such field. The edit page passes the old date to `objects.create`, but the field is `auto_now_add` (`news/models.py:22`), so the database ignores that value and the new article gets the edit's date. The model does not show this.
- Unicode case folding and database collation: `iexact` and `icontains` compare ASCII-lower-cased text.
- Cascade deletion when a redactor is deleted, per-author title uniqueness and unique topic names: no source file defines them.
- The search form (`SearchForm`) itself: the list page reads `category` and `query` as given, and an absent parameter is the empty string.
- Forms.NewspaperForm.FullClean: reports only the first failing field, in the form's field order. Django collects one error per failing field. The error texts for a blank field, an over-long title and an invalid choice are fixed strings; the over-long message does not count characters.
- Forms.NewspaperForm.FullClean: publishers are checked only for being registered redactors. How the choice field orders and deduplicates the selection is taken as given, and duplicates in the submitted list are kept.
- Forms.CleanEmail: the e-mail field's own format check is not modelled; the address is compared as submitted.
- Models.KeywordListing: lists an article's keywords in ascending key order. The source's order is whatever the database returns.
- Forms.OwnEmailAccepted: holds only while addresses are unique, and the source does not keep them unique. The sign-up form (`news/forms.py:6-9`) collects no address, so every redactor who signed up has the blank one. Once there are two such redactors, `clean_email` refuses either one's blank address (`Forms.SharedEmailRefused`, `Forms.BlankEmailsClash`). Only the HTML `required` attribute on the profile page's e-mail input (`news/forms.py:68`) keeps a blank address from being submitted, and the model has no browser.
