# arXiv and OpenReview note generation, modelled in Dafny

This project models the core of two scripts that turn paper links into
Obsidian notes: `generate_arxiv_md.py` and `generate_openreview_md.py`. The
model covers how each script:

- validates an identifier;
- reads a feed entry (arXiv) or a JSON note (OpenReview) into a reference;
- derives the citation key and the record dictionary;
- fills the batch result map, one record or error per identifier;
- normalises the title and the summary and lays out the note's lines;
- extracts the identifier from a link in `run`.

Modules:

| module | file | contents |
|---|---|---|
| `Outcomes` | `outcomes.dfy` | `Option` for a missing XML element or JSON key; `Result` for a value or the text `str(e)` of a raised exception |
| `Text` | `text.dfy` | Python's string built-ins as used by the scripts: `split()` and `strip()` over Python's whitespace set, ASCII `lower()`, `find`/`rfind` returning -1, slicing with the negative index that -1 produces, `split(sep)`, `join`, `replace(c, '')` |
| `ArxivId` | `arxiv_id.dfy` | the `NEW_STYLE` and `OLD_STYLE` patterns as predicates over a table of archives and subject classes, and a datatype of identifiers proved to be exactly what the patterns accept |
| `OpenReviewId` | `openreview_id.dfy` | the `OPENREVIEW_ID` pattern |
| `Citation` | `citation.dfy` | the parts of `citation_key` both scripts share |
| `FrontMatter` | `front_matter.dfy` | the title and summary normalisation of `generate_markdown_file`, and the template, which is the same in both scripts except for the venue and the date |
| `Arxiv` | `arxiv.dfy` | `Reference`, `to_dict`, `arxiv2bib_dict`, the note, and the id extraction in `run`, for arXiv |
| `OpenReview` | `openreview.dfy` | the same operations for OpenReview |

The two batch functions are loops that update a dictionary, so they are
methods with `while` loops. Each is proved equal to a function of its inputs,
and the lemmas state their properties about that function. Everything else in
the core is expressions over strings and records, so it is modelled as
functions and lemmas. A `Reference` is never changed after `__init__`, so it is
a datatype, and `MakeReference` returns a `Result`. The remote request and the
clock-dependent conversions are function parameters:

- `request` stands for the API call;
- `yearOf` and `dateOf` turn an OpenReview epoch-millisecond date into a year
  and a `YYYY-MM-DD` string;
- `datePublished` and `dateAdded` are the formatted arXiv publication date and
  the current date.

Points where the model follows the code rather than the prose description of
the system:

- `bare_id` is written `id[:id.rfind('v')]`. For an identifier without a version
  `rfind` gives -1, and the slice drops the last character; it does not strip a
  version suffix (`Arxiv.BareIdOfSpelled`).
- The arXiv request is outside the `try`. A failing request therefore aborts
  the whole batch instead of giving one error per identifier (`Arxiv.Batch` is a
  `Result`).
- After normalisation, a title with a colon can hold two spaces side by side.
  The whitespace is collapsed before the double quotes are removed, so a
  stand-alone `"` leaves its two neighbouring spaces (`FrontMatter.QuoteRemovalJoinsSpaces`).
  Only text without a colon is guaranteed to come out collapsed (`FrontMatter.NormalisePlain`).
- The patterns end in `$`. Python's `re.match` accepts `$` before one final
  newline, so `is_valid("hep-th/0601001\n")` is true (`ArxivId.TrailingNewlineAccepted`).

## Model

| member | source | states |
|---|---|---|
| Text.Strip | generate_arxiv_md.py:83 | `str.strip()`: the result has no whitespace at either end, and it is empty exactly when the input is all whitespace |
| Text.StripIsSlice | generate_arxiv_md.py:83 | the stripped text is a slice of the input with only whitespace before and after it |
| Text.FindSpec | generate_arxiv_md.py:98 | `find` gives -1 exactly when the pattern does not occur; otherwise the first position where it occurs |
| Text.RFindSpec | generate_arxiv_md.py:71 | `rfind` gives -1 exactly when the pattern does not occur; otherwise the last position where it occurs |
| Text.NoWordsIffAllSpace | generate_arxiv_md.py:112 | `split()` gives no words exactly when the text is all whitespace |
| Text.WordsAreWords | generate_arxiv_md.py:112 | every word of `split()` is non-empty and holds no whitespace |
| Text.CollapseIsCollapsed | generate_arxiv_md.py:182-183 | `' '.join(s.split())` has no whitespace at either end and only single spaces between words |
| Text.CollapseFixedIff | generate_arxiv_md.py:182-183 | collapsing leaves text unchanged exactly when it is already collapsed |
| Text.CollapseIdempotent | generate_arxiv_md.py:182-183 | collapsing twice is the same as collapsing once |
| Text.WordsAppend | generate_arxiv_md.py:112 | `split()` of a text that is empty or ends in whitespace, followed by more text, is the words of the first part and then those of the second |
| Text.WordsOfJoin | generate_arxiv_md.py:182-183 | joining words with single spaces and splitting again gives the same words |
| Text.WordsOfCollapse | generate_arxiv_md.py:182-183 | collapsing keeps the words of the text, in order and in number |
| Text.CollapseKeepsVisible | generate_arxiv_md.py:182-183 | collapsing keeps every non-whitespace character that occurs in the text, and adds none |
| Text.RemoveSpec | generate_arxiv_md.py:186 | `replace(c, '')` keeps every other character, with its count, and leaves no `c` |
| Text.SplitJoin | generate_arxiv_md.py:194-213 | joining lines that hold no separator, then splitting on the separator, gives the lines back |
| Text.LastPiece | generate_arxiv_md.py:230 | `split(sep)[-1]` is the text after the last separator, or the whole text when there is none |
| ArxivId.ValidIffWellFormed | generate_arxiv_md.py:18-54 | `is_valid` accepts exactly the spellings of well-formed new-style and old-style identifiers, each optionally followed by one newline |
| ArxivId.MatchesIffWellFormed | generate_arxiv_md.py:18-49 | a string matches one of the two patterns exactly when it spells a well-formed identifier |
| ArxivId.Parse | generate_arxiv_md.py:18-49 | a string that matches a pattern splits into a well-formed identifier that spells it back |
| ArxivId.ParseNewStyle | generate_arxiv_md.py:18 | a new-style match splits into 4 digits, at least 4 digits and an all-digit version, and spells back to the string |
| ArxivId.ParseOldStyle | generate_arxiv_md.py:19-49 | an old-style match splits into a listed archive, a subject class listed for it or none, 7 digits and an all-digit version, and spells back to the string |
| ArxivId.SpelledIsValid | generate_arxiv_md.py:18-49 | the spelling of every well-formed identifier matches its pattern |
| ArxivId.ArchiveTableIsPlain | generate_arxiv_md.py:19-49 | no listed archive or subject class is empty or holds `.`, `/` or `v` |
| ArxivId.NewStyleAccepted | generate_arxiv_md.py:18 | `2310.01234v2` is valid |
| ArxivId.ShortNumberRejected | generate_arxiv_md.py:18 | `2310.123` is not valid |
| ArxivId.LetterFirstNotNewStyle | generate_arxiv_md.py:18 | a text that starts with a non-digit is not new-style |
| ArxivId.OldStyleAccepted | generate_arxiv_md.py:19-49 | `hep-th/0601001` is valid |
| ArxivId.TrailingNewlineAccepted | generate_arxiv_md.py:49-54 | `hep-th/0601001` followed by one newline is valid |
| ArxivId.UnlistedArchiveRejected | generate_arxiv_md.py:19-49 | `xx-yy/0601001` is not valid |
| ArxivId.UnlistedSubjectRejected | generate_arxiv_md.py:19-49 | `astro-ph.XX/0601001` is not valid |
| ArxivId.ListedPrefixRequired | generate_arxiv_md.py:19-49 | an old-style id's text before its first `/` is a listed archive, optionally with a listed subject class |
| ArxivId.Unmatched | generate_arxiv_md.py:52-54 | a text without a final newline that matches neither pattern is not valid |
| ArxivId.SlashlessLetterFirstRejected | generate_arxiv_md.py:18-54 | a text without `/` or a final newline that starts with a non-digit is not valid |
| ArxivId.OldStyleTailRejected | generate_arxiv_md.py:19-54 | the part of an old-style identifier after its `/` is never valid |
| ArxivId.SpellVersion | generate_arxiv_md.py:18-49 | an identifier's spelling is its unversioned spelling followed by `v` and the version, or by nothing |
| ArxivId.UnversionedHasNoV | generate_arxiv_md.py:18-49 | the unversioned spelling of a well-formed identifier holds no `v` |
| OpenReviewId.Scan | generate_openreview_md.py:7 | `[\w-]+` matches the whole text exactly when the text is non-empty and all its characters are word characters or `-` |
| OpenReviewId.ValidChars | generate_openreview_md.py:7-12 | `is_valid` holds exactly when the text is non-empty and every character is a word character or `-`, except that one final newline after at least one such character is allowed |
| OpenReviewId.ValidHasNoSeparator | generate_openreview_md.py:7-12 | a valid id holds no whitespace, `=` or `/`, apart from a final newline |
| OpenReviewId.ValidExample | generate_openreview_md.py:7-12 | `rJX_Jc-0W` is valid |
| OpenReviewId.PunctuationRejected | generate_openreview_md.py:7-12 | `not a valid id!!` is not valid |
| OpenReviewId.EmptyRejected | generate_openreview_md.py:7-12 | the empty text is not valid |
| Citation.LastName | generate_arxiv_md.py:112 | `name.split()[-1].lower()` raises `IndexError` exactly when the name is all whitespace; otherwise it gives a word |
| Citation.LastNameOfLastWord | generate_arxiv_md.py:112 | for any name whose last word is `w` (only whitespace after it, whitespace or nothing before it), the surname is `w` lower-cased |
| Citation.LastNames | generate_arxiv_md.py:112 | the surname list succeeds exactly when every name holds a word; it then has one surname per author, in order |
| Citation.FirstWord | generate_arxiv_md.py:114-117 | the title's first word, lower-cased and with `:` removed, holds neither `:` nor whitespace |
| Citation.FirstWordOfOpening | generate_arxiv_md.py:114-117 | a title whose first word, after any leading whitespace, is `a` gives `a`, lower-cased and without `:` |
| Citation.FirstWordAtStart | generate_arxiv_md.py:114-117 | a title that starts with a word gives that word, lower-cased and without `:` |
| Citation.Key | generate_arxiv_md.py:120 | the key is the first surname, then the year, then the first word, each at its own position |
| Citation.KeyHasNoSpace | generate_arxiv_md.py:110-121 | a key built from a year and a first word without whitespace holds no whitespace |
| Citation.LastNameExample | generate_arxiv_md.py:112 | `Jane Q. Smith` gives the surname `smith` |
| Citation.LastNamesOfOne | generate_arxiv_md.py:112 | a single author gives a one-element surname list |
| Citation.LastNamesExample | generate_arxiv_md.py:112 | `["Jane Q. Smith"]` gives `["smith"]` |
| Citation.FirstWordExample | generate_arxiv_md.py:114-117 | `Deep: Learning Things` gives `deep` |
| Citation.KeyExample | generate_arxiv_md.py:110-121 | `["Jane Q. Smith"]`, year `2023` and title `Deep: Learning Things` give `smith2023deep` |
| FrontMatter.NormaliseKeepsColon | generate_arxiv_md.py:182-187 | the normalised text holds `:` exactly when the input does |
| FrontMatter.NormaliseWrapsColon | generate_arxiv_md.py:182-187 | text with a colon becomes `"`, the collapsed text with every `"` removed, then `"` |
| FrontMatter.NormalisePlain | generate_arxiv_md.py:182-187 | text without a colon becomes its collapsed form, with no whitespace at the ends and single spaces between words |
| FrontMatter.NormaliseIdentity | generate_arxiv_md.py:182-187 | collapsed text without a colon is left unchanged |
| FrontMatter.NormaliseOneLine | generate_arxiv_md.py:182-187 | the only whitespace left after normalisation is the plain space, so there is no newline |
| FrontMatter.QuoteRemovalJoinsSpaces | generate_arxiv_md.py:182-187 | a stand-alone `"` between two words, one of them with a colon, leaves two spaces side by side |
| FrontMatter.NoteSplitsIntoLines | generate_arxiv_md.py:194-213 | a note whose fields hold no newline splits back into the template's 19 lines |
| Arxiv.FieldText | generate_arxiv_md.py:80-85 | `_field_text` is empty exactly when the element is missing or holds only whitespace; otherwise it has no whitespace at either end |
| Arxiv.IdAfterMarker | generate_arxiv_md.py:94-100 | `_id` is the text after the first occurrence of `/abs/` |
| Arxiv.IdWithoutMarker | generate_arxiv_md.py:94-100 | without `/abs/`, `find` gives -1 and `_id` is the URL minus its first four characters |
| Arxiv.FeedUrlId | generate_arxiv_md.py:94-100 | for `http://arxiv.org/abs/<t>`, `_id` is `<t>` |
| Arxiv.MarkerAfterHost | generate_arxiv_md.py:94-100 | for a host without `b`, `_id` of host + `/abs/` + t is t |
| Arxiv.Published | generate_arxiv_md.py:102-108 | `_published` gives two empty strings for fewer than 7 characters; otherwise a 4-character year and a 2-character month around character 4 |
| Arxiv.BareIdOfSpelled | generate_arxiv_md.py:71 | `bare_id` of a versioned identifier is its unversioned spelling; of an unversioned one, its spelling minus the last character |
| Arxiv.BareIdOfVersioned | generate_arxiv_md.py:71 | `bare_id` of `2310.01234v2` is `2310.01234` |
| Arxiv.BareIdOfUnversioned | generate_arxiv_md.py:71 | `bare_id` of `hep-th/0601001` is `hep-th/060100` |
| Arxiv.MakeReference | generate_arxiv_md.py:58-73 | `Reference(entry)` raises "No such publication" exactly when the id, the author list or the title is empty; otherwise every field is set from the entry |
| Arxiv.CitationKey | generate_arxiv_md.py:110-121 | `citation_key` succeeds exactly when there are authors and each name holds a word, and raises `IndexError` otherwise; the key is surname, year, then the title's first word |
| Arxiv.ToDict | generate_arxiv_md.py:123-139 | `to_dict` fails exactly when the key does; it holds the key, the authors joined with " and ", `arXiv`, and the reference's title, id, category, year, month, publication date, DOI, URL, journal reference and summary; `updated` and `bare_id` are not carried |
| Arxiv.EntryOutcomeSpec | generate_arxiv_md.py:168-172 | an entry gives a record exactly when it has an id, a title and authors who all have a surname; otherwise the error is "No such publication" or `IndexError` |
| Arxiv.Arxiv2BibDict | generate_arxiv_md.py:147-174 | the method's result is the batch function of its inputs |
| Arxiv.CollectIds | generate_arxiv_md.py:149-157 | the first loop keeps the valid ids in order and maps each invalid id to "Invalid arXiv identifier" |
| Arxiv.StoreEntries | generate_arxiv_md.py:166-172 | the second loop writes the outcome of entry i under `id_list[i]`, for i below the shorter of the two lengths |
| Arxiv.FirstLoopStep | generate_arxiv_md.py:153-157 | one step of the first loop appends a valid id or records an invalid one |
| Arxiv.InitialSpec | generate_arxiv_md.py:153-157 | after the first loop, the keys are exactly the invalid ids, each with "Invalid arXiv identifier" |
| Arxiv.ValidIdsSpec | generate_arxiv_md.py:153-157 | the list sent to the API holds exactly the valid ids, and is no longer than the input |
| Arxiv.RejectedSpec | generate_arxiv_md.py:153-157 | the map of rejected ids has exactly those ids as keys, each with the given value |
| Arxiv.AcceptedSpec | generate_arxiv_md.py:153-157 | the list of accepted ids holds exactly the accepted ids |
| Arxiv.PairedKeys | generate_arxiv_md.py:167-172 | the map after the `zip` loop has the keys written before it and the first n ids of `id_list` |
| Arxiv.PairedLast | generate_arxiv_md.py:167-172 | an id among the first n, not repeated after position i, holds the outcome of entry i |
| Arxiv.PairedOthers | generate_arxiv_md.py:167-172 | a key the `zip` loop does not reach keeps its value |
| Arxiv.NothingValid | generate_arxiv_md.py:159-160 | with no valid id, no request is made, and every id maps to "Invalid arXiv identifier" |
| Arxiv.RequestOnlyForValid | generate_arxiv_md.py:159-163 | the result depends on the request only through its answer for the valid ids |
| Arxiv.RequestRaised | generate_arxiv_md.py:163 | a request that raises makes the whole call raise with its message |
| Arxiv.BatchKeys | generate_arxiv_md.py:147-174 | the result's keys are the invalid ids and the first min(number of ids, number of entries) ids of `id_list` |
| Arxiv.BatchValue | generate_arxiv_md.py:167-172 | under `id_list[i]`, for i below that minimum, the result holds the outcome of entry i, unless `id_list[i]` comes again later in the paired part |
| Arxiv.TwoIds | generate_arxiv_md.py:153-157 | for one invalid and one valid id, only the valid one is sent, and only the invalid one is recorded |
| Arxiv.Misaligned | generate_arxiv_md.py:167 | for an invalid id followed by a valid one, the valid id's entry is stored under the invalid id, and the valid id gets no key |
| Arxiv.MisalignedExample | generate_arxiv_md.py:167 | `["bad id", "2310.01234v2"]` gives only `"bad id"`, mapped to the outcome of the entry fetched for `2310.01234v2` |
| Arxiv.AlignedBatchComplete | generate_arxiv_md.py:167 | pairing the entries with the valid ids gives every id a key and keeps "Invalid arXiv identifier" for the invalid ones |
| Arxiv.Aligned | generate_arxiv_md.py:167 | with that pairing, an invalid id and a valid one each get their own outcome |
| Arxiv.AlignedExample | generate_arxiv_md.py:167 | with that pairing, `["bad id", "2310.01234v2"]` gives both keys |
| Arxiv.PaperId | generate_arxiv_md.py:230 | `entry.split('/')[-1]` holds no `/` |
| Arxiv.PaperIdSpec | generate_arxiv_md.py:230 | the extracted id is the text after the last `/`, or the whole link when there is none |
| Arxiv.NewStyleLink | generate_arxiv_md.py:229-230 | an `abs` or `pdf` link to a new-style id gives back that id, which is valid |
| Arxiv.OldStyleLinkLosesArchive | generate_arxiv_md.py:229-230 | an `abs` or `pdf` link to an old-style id gives only its number and version, which is not valid |
| Arxiv.OldStyleLinkExample | generate_arxiv_md.py:230 | `https://arxiv.org/abs/hep-th/0601001` gives `0601001`, which is not valid |
| Arxiv.PaperIdFixedRoundTrip | generate_arxiv_md.py:229-230 | taking everything after the route gives back every well-formed id, which is valid |
| Arxiv.MarkdownFileLines | generate_arxiv_md.py:180-215 | the arXiv note splits into the template lines, with venue `arXiv` and the normalised title and summary |
| OpenReview.MakeReference | generate_openreview_md.py:16-28 | `Reference(note)` raises `KeyError` for the first missing key, in the order the source reads them; otherwise it raises "No such publication" exactly when the id, the authors or the title is empty, and succeeds exactly when all three are non-empty, holding every field, with `url` the forum route + `forum` and `pdf_url` the site + `pdf` |
| OpenReview.KeyErrorIsNotNoSuchPublication | generate_openreview_md.py:18-28 | a `KeyError` message never reads "No such publication" |
| OpenReview.Year | generate_openreview_md.py:33 | the year is `YYYY` when `pdate` is missing, null or 0 |
| OpenReview.CitationKey | generate_openreview_md.py:30-35 | `citation_key` succeeds exactly when there are authors, each name holds a word, and the title is empty or holds a word; otherwise it raises `IndexError`; the key is surname, year, then the title's first word |
| OpenReview.KeyWithoutDate | generate_openreview_md.py:30-35 | `["Jane Q. Smith"]` and `Deep: Learning Things` without a date give `smithYYYYdeep` |
| OpenReview.BlankTitleRaises | generate_openreview_md.py:34 | a title made only of whitespace raises `IndexError` |
| OpenReview.VenueSpec | generate_openreview_md.py:48 | the venue is the prefix of `venueid` before its first `/`, or all of it when there is none |
| OpenReview.ToDict | generate_openreview_md.py:37-49 | `to_dict` fails exactly when the key does; it holds the key, the title, the id, the url and the summary, joins the authors with " and ", gives `pubdate` as `dateOf` of the date or empty without one, and takes as venue `Venue(venueid)`, the text before the first `/` |
| OpenReview.IdOutcomeSpec | generate_openreview_md.py:68-80 | an invalid id gives "Invalid OpenReview identifier", no notes give "No notes found", a raised request gives its message; a record exactly when the first note builds a reference with a key |
| OpenReview.StoreAllSpec | generate_openreview_md.py:68-80 | storing f(id) for each id gives exactly the ids as keys, each with f of it |
| OpenReview.BatchSpec | generate_openreview_md.py:63-82 | every id in `id_list` is a key, and maps to its own outcome |
| OpenReview.BatchIndependent | generate_openreview_md.py:63-82 | an id's outcome is the same in any list that holds it |
| OpenReview.OpenReview2BibDict | generate_openreview_md.py:63-82 | the method's result is the batch function of its inputs |
| OpenReview.MarkdownFileLines | generate_openreview_md.py:88-123 | the OpenReview note splits into the template lines, with venue `OpenReview` and `pubdate` as given |
| OpenReview.PaperId | generate_openreview_md.py:138 | `entry.split('id=')[-1]` holds no `id=` |
| OpenReview.PaperIdSpec | generate_openreview_md.py:138 | the extracted id is the text after the last `id=`, or the whole link when there is none |
| OpenReview.ValidHasNoEquals | generate_openreview_md.py:7-12 | a valid OpenReview id holds no `=` |
| OpenReview.LinkRoundTrip | generate_openreview_md.py:136-138 | a forum or pdf link to a valid id gives back that id |
| OpenReview.ReferenceUrlRoundTrip | generate_openreview_md.py:24 | extracting the id from a reference's forum URL gives back its `forum` value, when that is a valid id |

The title and summary rule, and the template, are the same in the OpenReview
script (generate_openreview_md.py:90-97 and 102-121), so the `FrontMatter`
rows hold for both.

## Left out

- The HTTP calls `arxiv_request`, `openreview_request` and `download_pdf` are network I/O. The answer of a request is a function parameter.
- XML parsing of the Atom feed and JSON decoding are library calls. An entry or a note is a record of optional fields. The nesting `content[...]['value']` is collapsed to the field itself.
- An `author/name` element without text makes `field.text` `None`, and `split()` then raises `AttributeError`. Author names are modelled as strings.
- A JSON value of the wrong type (say, a number where a string is expected) is not modelled, because the decoded note is typed.
- `datetime.now`, `strptime`, `strftime` and `fromtimestamp` depend on the clock, the time zone and the locale. Their results are parameters, and total ones. The errors these calls can raise are not modelled: `strptime` raises `ValueError` on an empty or malformed `pubdate` in `generate_markdown_file`, and `fromtimestamp` raises `ValueError`, `OverflowError` or `OSError` on an out-of-range `pdate` (the per-id `try` of `openreview2bib_dict` would catch that one).
- The regex engine is not modelled. The patterns are written as predicates, and `\d` and `\w` are read as ASCII digits and ASCII word characters rather than Unicode ones.
- `str.lower()` is modelled for ASCII letters only.
- `generate_md.py`, the `__main__` blocks, the file writes in `run`, and the lookup `bibtex_db[paper_id]` (which can raise `KeyError`) are file I/O and entry-point glue. Of `run`, only the id extraction is modelled.
- `fetch_bibtex` only calls the batch function, so it has no member of its own.
- The insertion order of Python's dictionaries is not modelled, because the results are maps.
- FrontMatter.NormalisePlain: the guarantee of no consecutive whitespace is stated only for text without a colon, because it fails with one (`FrontMatter.QuoteRemovalJoinsSpaces`).

## Findings

| source | as written | input that shows it | evidently intended | confidence | as-written member | corrected member |
|---|---|---|---|---|---|---|
| generate_arxiv_md.py:167 | `zip(id_list, entries)` pairs the feed's entries with every identifier, invalid ones included | `["bad id", "2310.01234v2"]`, with the feed holding one entry: its record is stored under `"bad id"`, and `2310.01234v2` gets no key | pair the entries with the validated list `ids`, which is what was sent | high, not executed | Arxiv.MisalignedExample | Arxiv.AlignedBatchComplete |
| generate_arxiv_md.py:230 | `entry.split('/')[-1]` keeps only what follows the last `/` | `https://arxiv.org/abs/hep-th/0601001` gives `0601001`, which `is_valid` rejects | take everything after the `abs/` or `pdf/` route, so old-style identifiers survive | medium, not executed | Arxiv.OldStyleLinkExample | Arxiv.PaperIdFixedRoundTrip |
