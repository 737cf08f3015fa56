/** The OpenReview script (generate_openreview_md.py): a note of the API read into
    a reference, the reference's dictionary, the lookup `openreview2bib_dict`, the
    note written for a paper, and the step of `run` that turns a link into an
    identifier. */
module OpenReview {
  import opened Outcomes
  import opened Text
  import OpenReviewId
  import Citation
  import FrontMatter

  // ---------------------------------------------------------------------------
  // Notes and references

  /** The `content` object of a note, after JSON decoding. Each field is the
      `value` inside the field's object, `None` when the key is missing. */
  datatype Content = Content(
    title: Option<string>,
    authors: Option<seq<string>>,
    abstractText: Option<string>,
    pdf: Option<string>,
    venueid: Option<string>)

  /** One note of the API's answer, after JSON decoding. `pdate` is the publication
      time in milliseconds since the epoch, `None` when the key is missing or null. */
  datatype Note = Note(
    id: Option<string>,
    content: Option<Content>,
    forum: Option<string>,
    pdate: Option<int>)

  /** The message of the `KeyError` raised by looking up a missing key. */
  function KeyError(key: string): string {
    "'" + key + "'"
  }

  /** The first key `__init__` looks up that the note lacks, in the order of the
      lookups: `id`, `content`, then `title`, `authors`, `abstract` and `pdf` of the
      content, `forum`, and `venueid` of the content. */
  function MissingKey(n: Note): Option<string> {
    if n.id.None? then Some("id")
    else if n.content.None? then Some("content")
    else if n.content.value.title.None? then Some("title")
    else if n.content.value.authors.None? then Some("authors")
    else if n.content.value.abstractText.None? then Some("abstract")
    else if n.content.value.pdf.None? then Some("pdf")
    else if n.forum.None? then Some("forum")
    else if n.content.value.venueid.None? then Some("venueid")
    else None
  }

  /** A `Reference` once `__init__` has set every field. */
  datatype Reference = Reference(
    id: string,
    title: string,
    authors: seq<string>,
    summary: string,
    pdfUrl: string,
    url: string,
    pubDate: Option<int>,
    venueid: string)

  const Site: string := "https://openreview.net"
  const ForumRoute: string := "https://openreview.net/forum?id="
  const PdfRoute: string := "https://openreview.net/pdf?id="

  /** The message `__init__` raises for a note without identifier, authors or title. */
  const NoSuchPublication: string := "No such publication"

  /** `Reference(note)`: a missing key raises `KeyError` at its lookup; once every
      field is read, an empty identifier, author list or title raises "No such
      publication". */
  function MakeReference(n: Note): (r: Result<Reference>)
    ensures MissingKey(n).Some? ==> r == Err(KeyError(MissingKey(n).value))
    ensures MissingKey(n).None? ==>
      (r == Err(NoSuchPublication) <==>
        n.id.value == [] || n.content.value.authors.value == [] || n.content.value.title.value == [])
    ensures MissingKey(n).None? ==>
      (r.Ok? <==> n.id.value != [] && n.content.value.authors.value != [] && n.content.value.title.value != [])
    ensures r.Ok? ==>
      && MissingKey(n).None?
      && r.value.id == n.id.value && r.value.id != []
      && r.value.title == n.content.value.title.value && r.value.title != []
      && r.value.authors == n.content.value.authors.value && r.value.authors != []
      && r.value.summary == n.content.value.abstractText.value
      && r.value.pdfUrl == Site + n.content.value.pdf.value
      && r.value.url == ForumRoute + n.forum.value
      && r.value.pubDate == n.pdate
      && r.value.venueid == n.content.value.venueid.value
  {
    match MissingKey(n)
    case Some(key) => Err(KeyError(key))
    case None =>
      var c := n.content.value;
      if n.id.value == [] || c.authors.value == [] || c.title.value == [] then Err(NoSuchPublication)
      else
        Ok(Reference(n.id.value, c.title.value, c.authors.value, c.abstractText.value,
                     Site + c.pdf.value, ForumRoute + n.forum.value, n.pdate, c.venueid.value))
  }

  /** The two messages "No such publication" and a missing key's cannot be confused. */
  lemma KeyErrorIsNotNoSuchPublication(key: string)
    ensures KeyError(key) != NoSuchPublication
  {
    assert KeyError(key)[0] == '\'';
  }

  // ---------------------------------------------------------------------------
  // The citation key and the dictionary

  /** `self.pub_date` is truthy: present, not null and not zero. */
  predicate HasDate(pubDate: Option<int>) {
    pubDate.Some? && pubDate.value != 0
  }

  /** The year of the key: the literal `YYYY` without a date, otherwise the year of
      the date in local time, which `yearOf` stands for. */
  function Year(pubDate: Option<int>, yearOf: int -> string): (y: string)
    ensures !HasDate(pubDate) ==> y == "YYYY"
  {
    if HasDate(pubDate) then yearOf(pubDate.value) else "YYYY"
  }

  /** `citation_key`: the first author's surname, the year and the title's first
      word. Every author's surname is computed first; a name without a word, a
      title of whitespace only and an empty author list each raise `IndexError`. */
  function CitationKey(ref: Reference, yearOf: int -> string): (k: Result<string>)
    ensures k.Ok? <==>
      && ref.authors != []
      && (forall i :: 0 <= i < |ref.authors| ==> !AllSpace(ref.authors[i]))
      && (ref.title == [] || !AllSpace(ref.title))
    ensures k.Err? ==> k.error == Citation.IndexError
    ensures k.Ok? ==>
      && Citation.LastName(ref.authors[0]).Ok?
      && k.value == Citation.LastName(ref.authors[0]).value + Year(ref.pubDate, yearOf)
                    + (if ref.title == [] then [] else Citation.FirstWord(ref.title))
  {
    match Citation.LastNames(ref.authors)
    case Err(e) => Err(e)
    case Ok(names) =>
      var year := Year(ref.pubDate, yearOf);
      if ref.title != [] && AllSpace(ref.title) then Err(Citation.IndexError)
      else
        var firstWord := if ref.title == [] then [] else Citation.FirstWord(ref.title);
        if names == [] then Err(Citation.IndexError)
        else Ok(Citation.Key(names, year, firstWord))
  }

  /** Without a publication date the year is `YYYY`. */
  lemma KeyWithoutDate(ref: Reference, yearOf: int -> string)
    requires ref.authors == ["Jane Q. Smith"] && ref.title == "Deep: Learning Things" && !HasDate(ref.pubDate)
    ensures CitationKey(ref, yearOf) == Ok("smithYYYYdeep")
  {
    Citation.LastNamesExample(ref.authors);
    Citation.FirstWordExample(ref.title);
    assert Citation.LastName(ref.authors[0]) == Ok("smith");
    KeyParts("smith", "YYYY", "deep");
  }

  lemma KeyParts(a: string, b: string, c: string)
    requires a == "smith" && b == "YYYY" && c == "deep"
    ensures a + b + c == "smithYYYYdeep"
  {
  }

  /** A title of whitespace only raises `IndexError`, unlike an empty one. */
  lemma BlankTitleRaises(ref: Reference, yearOf: int -> string)
    requires ref.authors == ["Jane Q. Smith"] && ref.title == " "
    ensures CitationKey(ref, yearOf) == Err(Citation.IndexError)
  {
    assert AllSpace(ref.title);
  }

  /** The dictionary `to_dict` returns. */
  datatype Record = Record(
    key: string,
    author: string,
    title: string,
    eprint: string,
    url: string,
    summary: string,
    pubdate: string,
    venue: string)

  /** `venueid.split('/')[0]`. */
  function Venue(venueid: string): string {
    SplitOn(venueid, "/")[0]
  }

  /** The venue is the text of `venueid` before its first `/`, or all of it when
      there is none. */
  lemma VenueSpec(venueid: string)
    ensures '/' !in Venue(venueid)
    ensures Venue(venueid) <= venueid
    ensures Venue(venueid) == venueid || venueid[|Venue(venueid)|] == '/'
    ensures '/' !in venueid ==> Venue(venueid) == venueid
  {
    var k := Find(venueid, "/");
    FindSpec(venueid, "/");
    ContainsChar(venueid, '/');
    if k >= 0 {
      SplitOnFound(venueid, "/", k);
      OccursAtChar(venueid, '/', k);
      forall i | 0 <= i < k
        ensures venueid[..k][i] != '/'
      {
        OccursAtChar(venueid, '/', i);
      }
    } else {
      SplitOnAbsent(venueid, "/");
    }
  }

  /** `to_dict`: fails exactly when the citation key does. The publication date as
      `fromtimestamp` and `strftime` format it is `dateOf`. */
  function ToDict(ref: Reference, yearOf: int -> string, dateOf: int -> string): (d: Result<Record>)
    ensures d.Ok? <==> CitationKey(ref, yearOf).Ok?
    ensures d.Err? ==> d.error == Citation.IndexError
    ensures d.Ok? ==>
      && d.value.key == CitationKey(ref, yearOf).value
      && d.value.author == Join(" and ", ref.authors)
      && d.value.title == ref.title && d.value.eprint == ref.id
      && d.value.url == ref.url && d.value.summary == ref.summary
      && (!HasDate(ref.pubDate) ==> d.value.pubdate == "")
      && (HasDate(ref.pubDate) ==> d.value.pubdate == dateOf(ref.pubDate.value))
      && d.value.venue == Venue(ref.venueid)
      && '/' !in d.value.venue && d.value.venue <= ref.venueid
  {
    VenueSpec(ref.venueid);
    match CitationKey(ref, yearOf)
    case Err(e) => Err(e)
    case Ok(key) =>
      var pubdate := if HasDate(ref.pubDate) then dateOf(ref.pubDate.value) else "";
      Ok(Record(key, Join(" and ", ref.authors), ref.title, ref.id, ref.url, ref.summary,
                pubdate, Venue(ref.venueid)))
  }

  // ---------------------------------------------------------------------------
  // openreview2bib_dict

  /** What the request for one identifier gives back: the notes of the answer, or
      the message of the exception the request, the HTTP status check or the JSON
      decoding raised. */
  datatype Response = Notes(notes: seq<Note>) | Raised(error: string)

  const InvalidId: string := "Invalid OpenReview identifier"
  const NoNotes: string := "No notes found"

  /** What `openreview2bib_dict` stores for one identifier. */
  function IdOutcome(id: string, request: string -> Response, yearOf: int -> string, dateOf: int -> string): Result<Record> {
    if !OpenReviewId.IsValid(id) then Err(InvalidId)
    else
      match request(id)
      case Raised(e) => Err(e)
      case Notes(notes) =>
        if notes == [] then Err(NoNotes)
        else
          match MakeReference(notes[0])
          case Err(e) => Err(e)
          case Ok(ref) => ToDict(ref, yearOf, dateOf)
  }

  /** An identifier's outcome: a rejected identifier is never requested; a
      dictionary comes from the first note of the answer. */
  lemma IdOutcomeSpec(id: string, request: string -> Response, yearOf: int -> string, dateOf: int -> string)
    ensures !OpenReviewId.IsValid(id) ==> IdOutcome(id, request, yearOf, dateOf) == Err(InvalidId)
    ensures OpenReviewId.IsValid(id) && request(id) == Notes([]) ==> IdOutcome(id, request, yearOf, dateOf) == Err(NoNotes)
    ensures OpenReviewId.IsValid(id) && request(id).Raised? ==> IdOutcome(id, request, yearOf, dateOf) == Err(request(id).error)
    ensures IdOutcome(id, request, yearOf, dateOf).Ok? <==>
      && OpenReviewId.IsValid(id) && request(id).Notes? && request(id).notes != []
      && MakeReference(request(id).notes[0]).Ok?
      && CitationKey(MakeReference(request(id).notes[0]).value, yearOf).Ok?
    ensures IdOutcome(id, request, yearOf, dateOf).Ok? ==>
      IdOutcome(id, request, yearOf, dateOf).value.eprint == request(id).notes[0].id.value
  {
  }

  /** The map after the identifiers of `ids` have been stored in order, each with
      the value `f` gives it. */
  function StoreAll<V>(ids: seq<string>, f: string -> V): map<string, V> {
    if ids == [] then map[]
    else StoreAll(ids[..|ids| - 1], f)[ids[|ids| - 1] := f(ids[|ids| - 1])]
  }

  /** Every identifier of the list is a key, every key is one of them, and each
      holds the value of its own identifier, whatever else the list holds. */
  lemma {:induction false} StoreAllSpec<V>(ids: seq<string>, f: string -> V)
    ensures forall x :: x in StoreAll(ids, f) <==> x in ids
    ensures forall x :: x in StoreAll(ids, f) ==> StoreAll(ids, f)[x] == f(x)
  {
    if ids != [] {
      var init := ids[..|ids| - 1];
      StoreAllSpec(init, f);
      assert ids == init + [ids[|ids| - 1]];
    }
  }

  /** `openreview2bib_dict(ids)`, with the request, the year and the date of a
      timestamp as parameters. */
  function Batch(ids: seq<string>, request: string -> Response, yearOf: int -> string, dateOf: int -> string): map<string, Result<Record>> {
    StoreAll(ids, id => IdOutcome(id, request, yearOf, dateOf))
  }

  /** Every identifier of the list gets an entry, nothing else does, and each
      entry is the identifier's own outcome. */
  lemma BatchSpec(ids: seq<string>, request: string -> Response, yearOf: int -> string, dateOf: int -> string)
    ensures forall x :: x in Batch(ids, request, yearOf, dateOf) <==> x in ids
    ensures forall x :: x in ids ==> Batch(ids, request, yearOf, dateOf)[x] == IdOutcome(x, request, yearOf, dateOf)
  {
    StoreAllSpec(ids, id => IdOutcome(id, request, yearOf, dateOf));
  }

  /** An identifier's entry does not depend on the other identifiers of the list. */
  lemma BatchIndependent(ids: seq<string>, others: seq<string>, x: string,
                         request: string -> Response, yearOf: int -> string, dateOf: int -> string)
    requires x in ids && x in others
    ensures x in Batch(ids, request, yearOf, dateOf) && x in Batch(others, request, yearOf, dateOf)
    ensures Batch(ids, request, yearOf, dateOf)[x] == Batch(others, request, yearOf, dateOf)[x]
  {
    BatchSpec(ids, request, yearOf, dateOf);
    BatchSpec(others, request, yearOf, dateOf);
  }

  /** `openreview2bib_dict`: one request per accepted identifier, each answer's
      first note read into a dictionary, every failure stored as the
      identifier's error. */
  method OpenReview2BibDict(idList: seq<string>, request: string -> Response, yearOf: int -> string, dateOf: int -> string)
    returns (results: map<string, Result<Record>>)
    ensures results == Batch(idList, request, yearOf, dateOf)
  {
    results := map[];
    var i := 0;
    while i < |idList|
      invariant 0 <= i <= |idList|
      invariant results == Batch(idList[..i], request, yearOf, dateOf)
    {
      var id := idList[i];
      var outcome: Result<Record>;
      if OpenReviewId.IsValid(id) {
        var response := request(id);
        if response.Raised? {
          outcome := Err(response.error);
        } else if response.notes == [] {
          outcome := Err(NoNotes);
        } else {
          var ref := MakeReference(response.notes[0]);
          if ref.Err? {
            outcome := Err(ref.error);
          } else {
            outcome := ToDict(ref.value, yearOf, dateOf);
          }
        }
      } else {
        outcome := Err(InvalidId);
      }
      assert outcome == IdOutcome(id, request, yearOf, dateOf);
      StoreStep(idList, i, id => IdOutcome(id, request, yearOf, dateOf));
      results := results[id := outcome];
      i := i + 1;
    }
    assert idList[..|idList|] == idList;
  }

  /** One more identifier through the loop. */
  lemma StoreStep<V>(ids: seq<string>, i: nat, f: string -> V)
    requires i < |ids|
    ensures StoreAll(ids[..i + 1], f) == StoreAll(ids[..i], f)[ids[i] := f(ids[i])]
  {
    var p := ids[..i + 1];
    assert p[..|p| - 1] == ids[..i] && p[|p| - 1] == ids[i];
  }

  // ---------------------------------------------------------------------------
  // The note

  /** `generate_markdown_file(metadata)`: the publication date is the dictionary's
      `pubdate`, written as it is; the date the note is written is a parameter. */
  function MarkdownFile(metadata: Record, dateAdded: string): string {
    FrontMatter.Note("OpenReview", FrontMatter.Normalise(metadata.title), metadata.author,
      FrontMatter.Normalise(metadata.summary), metadata.pubdate, dateAdded, metadata.url, metadata.key)
  }

  /** When the authors, the dates, the URL and the key fit on one line, the note
      splits into the template's lines, with the normalised title and summary,
      the venue `OpenReview`, the dictionary's `pubdate`, the URL and the key in
      their places. */
  lemma MarkdownFileLines(metadata: Record, dateAdded: string)
    requires FrontMatter.SingleLines([metadata.author, metadata.pubdate, dateAdded, metadata.url, metadata.key])
    ensures SplitOn(MarkdownFile(metadata, dateAdded), "\n")
         == FrontMatter.NoteLines("OpenReview", FrontMatter.Normalise(metadata.title), metadata.author,
              FrontMatter.Normalise(metadata.summary), metadata.pubdate, dateAdded, metadata.url, metadata.key)
  {
    var fields := [metadata.author, metadata.pubdate, dateAdded, metadata.url, metadata.key];
    var title, summary := FrontMatter.Normalise(metadata.title), FrontMatter.Normalise(metadata.summary);
    FrontMatter.NormaliseOneLine(metadata.title);
    FrontMatter.NormaliseOneLine(metadata.summary);
    assert fields[0] == metadata.author && fields[1] == metadata.pubdate && fields[2] == dateAdded;
    assert fields[3] == metadata.url && fields[4] == metadata.key;
    var all := ["OpenReview", title, metadata.author, summary, metadata.pubdate, dateAdded, metadata.url, metadata.key];
    assert '\n' !in "OpenReview";
    assert FrontMatter.SingleLines(all) by {
      assert forall w | w in all :: '\n' !in w;
      assert forall k :: 0 <= k < |all| ==> all[k] in all;
    }
    FrontMatter.NoteSplitsIntoLines("OpenReview", title, metadata.author, summary, metadata.pubdate, dateAdded,
                                    metadata.url, metadata.key);
  }

  // ---------------------------------------------------------------------------
  // Links in run

  /** `entry.split('id=')[-1]`: the identifier `run` reads from a link. */
  function PaperId(url: string): (id: string)
    ensures !Contains(id, "id=")
  {
    Last(SplitOn(url, "id="))
  }

  /** The identifier read from a link is what follows its last `id=`, or the whole
      link when it has none. */
  lemma PaperIdSpec(url: string)
    ensures !Contains(url, "id=") ==> PaperId(url) == url
    ensures Contains(url, "id=") ==>
      && RFind(url, "id=") >= 0
      && PaperId(url) == url[RFind(url, "id=") + 3..]
  {
    IdSeparatorBorderFree();
    LastPiece(url, "id=");
    RFindSpec(url, "id=");
  }

  lemma IdSeparatorBorderFree()
    ensures BorderFree("id=")
  {
    var p := "id=";
    forall d | 0 < d < |p|
      ensures p[d..] != p[..|p| - d]
    {
      assert p[d..][0] != p[..|p| - d][0];
    }
  }

  /** No accepted identifier holds `=`. */
  lemma ValidHasNoEquals(x: string)
    requires OpenReviewId.IsValid(x)
    ensures '=' !in x
  {
    forall i | 0 <= i < |x|
      ensures x[i] != '='
    {
      if !(i == |x| - 1 && x[i] == '\n') {
        OpenReviewId.ValidHasNoSeparator(x, i);
      }
    }
  }

  /** A forum or PDF link to an accepted identifier gives that identifier back. */
  lemma LinkRoundTrip(route: string, x: string)
    requires route == ForumRoute || route == PdfRoute
    requires OpenReviewId.IsValid(x)
    ensures PaperId(route + x) == x
  {
    IdSeparatorBorderFree();
    ValidHasNoEquals(x);
    assert route[|route| - 3..] == "id=";
    LastPieceAfter(route, x, "id=");
  }

  /** The URL a reference stores leads back to the note's forum identifier, when
      that identifier is an accepted one. */
  lemma ReferenceUrlRoundTrip(n: Note)
    requires MakeReference(n).Ok? && OpenReviewId.IsValid(n.forum.value)
    ensures PaperId(MakeReference(n).value.url) == n.forum.value
  {
    LinkRoundTrip(ForumRoute, n.forum.value);
  }
}
