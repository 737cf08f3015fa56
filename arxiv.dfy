/** The arXiv script (generate_arxiv_md.py): a feed entry read into a reference,
    the reference's dictionary, the batch lookup `arxiv2bib_dict`, and the step
    of `run` that turns a link into an identifier. */
module Arxiv {
  import opened Outcomes
  import opened Text
  import ArxivId
  import Citation
  import FrontMatter

  // ---------------------------------------------------------------------------
  // Feed entries and references

  /** One `<entry>` element of the Atom feed, after XML parsing: each field is the
      text of the child element, `None` when the element is missing or holds no
      text; `primaryCategory` is the `term` attribute of `arxiv:primary_category`,
      `None` when the element or the attribute is missing; `authors` holds the
      text of each `author/name`. */
  datatype Entry = Entry(
    id: Option<string>,
    title: Option<string>,
    summary: Option<string>,
    published: Option<string>,
    updated: Option<string>,
    authors: seq<string>,
    primaryCategory: Option<string>,
    journalRef: Option<string>,
    doi: Option<string>)

  /** `_field_text`: the element's text without surrounding whitespace, or
      nothing when there is no text. */
  function FieldText(f: Option<string>): (t: string)
    ensures t == [] <==> f.None? || AllSpace(f.value)
    ensures t == [] || (!IsSpace(t[0]) && !IsSpace(t[|t| - 1]))
  {
    match f
    case None => []
    case Some(text) => Strip(text)
  }

  /** The marker `_id` looks for in the entry's URL. */
  const AbsMarker: string := "/abs/"

  /** `_id`: what follows the first `/abs/` of the URL. When the marker is missing,
      `find` gives -1 and the slice starts at index 4. */
  function IdFromUrl(url: string): string {
    Drop(url, Find(url, AbsMarker) + 5)
  }

  /** The identifier read from a URL is what follows its first `/abs/`. */
  lemma IdAfterMarker(url: string, k: nat)
    requires OccursAt(url, AbsMarker, k)
    requires forall j :: 0 <= j < k ==> !OccursAt(url, AbsMarker, j)
    ensures IdFromUrl(url) == url[k + 5..]
  {
    FindSpec(url, AbsMarker);
  }

  /** Without `/abs/`, the identifier is the URL less its first four characters. */
  lemma IdWithoutMarker(url: string)
    requires !Contains(url, AbsMarker)
    ensures IdFromUrl(url) == Drop(url, 4)
  {
    FindSpec(url, AbsMarker);
  }

  /** The host part of the URL the feed gives each entry. */
  const FeedHost: string := "http://arxiv.org"

  /** The identifier of an entry whose URL has the feed's form,
      `http://arxiv.org/abs/<identifier>`, is recovered exactly. */
  lemma FeedUrlId(url: string, t: string)
    requires url == FeedHost + AbsMarker + t
    ensures IdFromUrl(url) == t
  {
    assert 'b' !in FeedHost;
    MarkerAfterHost(FeedHost, t);
  }

  /** After a host without the letter `b`, the first `/abs/` is the one that
      follows the host: an earlier one would put its `b` inside the host. */
  lemma MarkerAfterHost(h: string, t: string)
    requires 'b' !in h
    ensures IdFromUrl(h + AbsMarker + t) == t
  {
    var s, p := h + AbsMarker + t, AbsMarker;
    assert OccursAt(s, p, |h|) by {
      assert s[|h|..|h| + 5] == p;
    }
    forall j | 0 <= j < |h|
      ensures !OccursAt(s, p, j)
    {
      if j + 2 < |h| {
        assert s[j + 2] == h[j + 2];
      } else {
        assert s[j + 2] == p[j + 2 - |h|];
      }
      assert s[j + 2] != 'b';
      if j + 5 <= |s| {
        assert s[j..j + 5][2] == s[j + 2];
      }
    }
    IdAfterMarker(s, |h|);
    assert s[|h| + 5..] == t;
  }

  /** `_published`: the year and the month sliced out of the publication date,
      both empty when the date is shorter than seven characters. */
  function Published(p: string): (ym: (string, string))
    ensures |p| < 7 ==> ym == ([], [])
    ensures |p| >= 7 ==> |ym.0| == 4 && |ym.1| == 2 && p == ym.0 + [p[4]] + ym.1 + p[7..]
  {
    if |p| < 7 then ([], []) else (p[..4], p[5..7])
  }

  /** `bare_id`: the identifier up to its last `v`. Without a `v`, `rfind` gives -1
      and the slice drops the last character. */
  function BareId(id: string): string {
    Take(id, RFind(id, "v"))
  }

  /** On the text of a well-formed identifier, `bare_id` removes the version when
      there is one and otherwise removes the last digit. */
  lemma BareIdOfSpelled(x: ArxivId.Identifier)
    requires ArxivId.WellFormed(x)
    ensures var s := ArxivId.Spell(x);
      BareId(s) == if x.version == [] then s[..|s| - 1] else ArxivId.Spell(ArxivId.Unversioned(x))
  {
    var s := ArxivId.Spell(x);
    var base := ArxivId.Spell(ArxivId.Unversioned(x));
    ArxivId.SpellVersion(x);
    ArxivId.UnversionedHasNoV(x);
    ArxivId.VersionSuffixChars(x.version);
    if x.version == [] {
      assert s == base;
      RFindCharAbsent(s, 'v');
    } else {
      assert s == (base + "v") + x.version;
      RFindBeforeSuffix(s, base + "v", x.version, "v");
      assert s[..|base|] == base;
    }
  }

  lemma BareIdOfVersioned(s: string)
    requires s == "2310.01234v2"
    ensures BareId(s) == "2310.01234"
  {
    var x := ArxivId.NewStyle("2310", "01234", "2");
    assert ArxivId.Spell(x) == s;
    BareIdOfSpelled(x);
    assert ArxivId.Spell(ArxivId.Unversioned(x)) == "2310.01234";
  }

  /** Without a version, the last digit goes. */
  lemma BareIdOfUnversioned(s: string)
    requires s == "hep-th/0601001"
    ensures BareId(s) == "hep-th/060100"
  {
    var y := ArxivId.OldStyle("hep-th", "", "0601001", "");
    assert ArxivId.Subjects("hep-th") == Some([]) by {
      assert "hep-th" == ArxivId.PlainArchives[9];
    }
    assert ArxivId.Spell(y) == s;
    BareIdOfSpelled(y);
  }

  /** A `Reference` once `__init__` has set every field. */
  datatype Reference = Reference(
    url: string,
    id: string,
    authors: seq<string>,
    title: string,
    summary: string,
    category: string,
    year: string,
    month: string,
    pubDate: string,
    updated: string,
    bareId: string,
    note: string,
    doi: string)

  /** The message `__init__` raises for an entry without identifier, authors or title. */
  const NoSuchPublication: string := "No such publication"

  /** `Reference(entry)`: fails when the identifier, the author list or the title
      comes out empty; otherwise sets every field from the entry. */
  function MakeReference(e: Entry): (r: Result<Reference>)
    ensures r.Err? <==> IdFromUrl(FieldText(e.id)) == [] || e.authors == [] || e.title.None? || AllSpace(e.title.value)
    ensures r.Err? ==> r.error == NoSuchPublication
    ensures r.Ok? ==> r.value.url == FieldText(e.id) && r.value.id == IdFromUrl(r.value.url)
    ensures r.Ok? ==> r.value.authors == e.authors && r.value.title == FieldText(e.title) && !AllSpace(r.value.title)
    ensures r.Ok? ==> (r.value.year, r.value.month) == Published(r.value.pubDate) && r.value.pubDate == FieldText(e.published)
    ensures r.Ok? ==> r.value.bareId == BareId(r.value.id)
    ensures r.Ok? ==> r.value.summary == FieldText(e.summary) && r.value.updated == FieldText(e.updated)
    ensures r.Ok? ==> r.value.note == FieldText(e.journalRef) && r.value.doi == FieldText(e.doi)
    ensures r.Ok? ==> r.value.category == if e.primaryCategory.Some? then e.primaryCategory.value else []
  {
    var url := FieldText(e.id);
    var id := IdFromUrl(url);
    var title := FieldText(e.title);
    if |id| == 0 || |e.authors| == 0 || |title| == 0 then Err(NoSuchPublication)
    else
      var published := FieldText(e.published);
      var (year, month) := Published(published);
      var category := match e.primaryCategory
        case None => []
        case Some(term) => term;
      Ok(Reference(url, id, e.authors, title, FieldText(e.summary), category, year, month,
                   published, FieldText(e.updated), BareId(id), FieldText(e.journalRef), FieldText(e.doi)))
  }

  // ---------------------------------------------------------------------------
  // The citation key and the dictionary

  /** `citation_key`: the first author's surname, the year and the title's first
      word. Every author's surname is computed, so any author name without a word
      raises `IndexError`, as does an empty author list. */
  function CitationKey(ref: Reference): (k: Result<string>)
    ensures k.Ok? <==> ref.authors != [] && forall i :: 0 <= i < |ref.authors| ==> !AllSpace(ref.authors[i])
    ensures k.Err? ==> k.error == Citation.IndexError
    ensures k.Ok? ==> Citation.LastName(ref.authors[0]).Ok?
    ensures k.Ok? ==>
      k.value == Citation.LastName(ref.authors[0]).value + ref.year
                 + (if AllSpace(ref.title) then [] else Citation.FirstWord(ref.title))
  {
    match Citation.LastNames(ref.authors)
    case Err(e) => Err(e)
    case Ok(names) =>
      if names == [] then Err(Citation.IndexError)
      else
        var firstWord := if AllSpace(ref.title) then [] else Citation.FirstWord(ref.title);
        Ok(Citation.Key(names, ref.year, firstWord))
  }

  /** The dictionary `to_dict` returns. */
  datatype Record = Record(
    key: string,
    author: string,
    title: string,
    eprint: string,
    archivePrefix: string,
    primaryClass: string,
    year: string,
    month: string,
    pubdate: string,
    doi: string,
    url: string,
    note: string,
    summary: string)

  /** `to_dict`: fails exactly when the citation key does; the authors are joined
      with " and ". */
  function ToDict(ref: Reference): (d: Result<Record>)
    ensures d.Ok? <==> CitationKey(ref).Ok?
    ensures d.Err? ==> d.error == Citation.IndexError
    ensures d.Ok? ==> d.value.key == CitationKey(ref).value && d.value.author == Join(" and ", ref.authors)
    ensures d.Ok? ==> d.value.eprint == ref.id && d.value.title == ref.title && d.value.archivePrefix == "arXiv"
    ensures d.Ok? ==> d.value.primaryClass == ref.category && d.value.year == ref.year && d.value.month == ref.month
    ensures d.Ok? ==> d.value.pubdate == ref.pubDate && d.value.doi == ref.doi && d.value.url == ref.url
    ensures d.Ok? ==> d.value.note == ref.note && d.value.summary == ref.summary
  {
    match CitationKey(ref)
    case Err(e) => Err(e)
    case Ok(key) =>
      Ok(Record(key, Join(" and ", ref.authors), ref.title, ref.id, "arXiv", ref.category,
                ref.year, ref.month, ref.pubDate, ref.doi, ref.url, ref.note, ref.summary))
  }

  /** What the batch stores for one entry: its dictionary, or the message of the
      exception building it raised. */
  function EntryOutcome(e: Entry): Result<Record> {
    match MakeReference(e)
    case Err(msg) => Err(msg)
    case Ok(ref) => ToDict(ref)
  }

  /** An entry yields a dictionary exactly when it has an identifier, a title and
      authors who all have a surname; the failures carry one of two messages. */
  lemma EntryOutcomeSpec(e: Entry)
    ensures EntryOutcome(e).Ok? <==>
      IdFromUrl(FieldText(e.id)) != [] && e.title.Some? && !AllSpace(e.title.value)
      && e.authors != [] && forall i :: 0 <= i < |e.authors| ==> !AllSpace(e.authors[i])
    ensures EntryOutcome(e).Err? ==> EntryOutcome(e).error in {NoSuchPublication, Citation.IndexError}
    ensures EntryOutcome(e).Ok? ==>
      && EntryOutcome(e).value.eprint == IdFromUrl(FieldText(e.id))
      && EntryOutcome(e).value.title == FieldText(e.title)
      && EntryOutcome(e).value.author == Join(" and ", e.authors)
  {
  }

  // ---------------------------------------------------------------------------
  // arxiv2bib_dict

  /** The message stored for an identifier `is_valid` rejects. */
  const InvalidId: string := "Invalid arXiv identifier"

  /** What the request gives back: the entries of the feed, or the message of the
      exception the request or the XML parsing raised. */
  datatype Response = Feed(entries: seq<Entry>) | Raised(error: string)

  /** The map holding `v` for each key of `ids` that `accept` rejects. */
  function Rejected<V>(ids: seq<string>, accept: string -> bool, v: V): map<string, V> {
    if ids == [] then map[]
    else
      var m := Rejected(ids[..|ids| - 1], accept, v);
      var id := ids[|ids| - 1];
      if accept(id) then m else m[id := v]
  }

  /** The keys of `ids` that `accept` accepts, in order. */
  function Accepted(ids: seq<string>, accept: string -> bool): seq<string> {
    if ids == [] then []
    else
      var id := ids[|ids| - 1];
      Accepted(ids[..|ids| - 1], accept) + (if accept(id) then [id] else [])
  }

  /** The error entries the first loop writes. */
  function Initial(ids: seq<string>): map<string, Result<Record>> {
    Rejected(ids, ArxivId.IsValid, Err(InvalidId))
  }

  /** The identifiers the first loop collects for the request, in order. */
  function ValidIds(ids: seq<string>): seq<string> {
    Accepted(ids, ArxivId.IsValid)
  }

  /** `f` applied to each element, in order. */
  function MapSeq<E, V>(f: E -> V, xs: seq<E>): (ys: seq<V>)
    ensures |ys| == |xs|
  {
    seq(|xs|, i requires 0 <= i < |xs| => f(xs[i]))
  }

  /** The outcome of each entry, in order. */
  function EntryOutcomes(es: seq<Entry>): (outs: seq<Result<Record>>)
    ensures |outs| == |es|
  {
    MapSeq(EntryOutcome, es)
  }

  /** The map after the first `n` pairs of `zip(keys, values)` have been stored in it. */
  function Paired<V>(m: map<string, V>, keys: seq<string>, values: seq<V>, n: nat): map<string, V>
    requires n <= |keys| && n <= |values|
  {
    if n == 0 then m else Paired(m, keys, values, n - 1)[keys[n - 1] := values[n - 1]]
  }

  /** `arxiv2bib_dict(ids)`, with the request as a parameter: an `Err` is the
      exception the request raised, which the function does not catch. */
  function Batch(ids: seq<string>, request: seq<string> -> Response): Result<map<string, Result<Record>>> {
    var m := Initial(ids);
    var valid := ValidIds(ids);
    if valid == [] then Ok(m)
    else
      match request(valid)
      case Raised(e) => Err(e)
      case Feed(es) => Ok(Paired(m, ids, EntryOutcomes(es), if |ids| < |es| then |ids| else |es|))
  }

  /** `arxiv2bib_dict`: validates the identifiers, requests the valid ones
      together, and stores the outcome of each entry under the identifier at the
      same position of the whole list. */
  method Arxiv2BibDict(idList: seq<string>, request: seq<string> -> Response)
    returns (r: Result<map<string, Result<Record>>>)
    ensures r == Batch(idList, request)
  {
    var ids, results := CollectIds(idList);
    if |ids| == 0 {
      return Ok(results);
    }
    var response := request(ids);
    if response.Raised? {
      return Err(response.error);
    }
    results := StoreEntries(results, idList, response.entries, EntryOutcome);
    return Ok(results);
  }

  /** The first loop of `arxiv2bib_dict`: the accepted identifiers in order, and
      an error entry for each rejected one. */
  method CollectIds(idList: seq<string>) returns (ids: seq<string>, results: map<string, Result<Record>>)
    ensures ids == ValidIds(idList)
    ensures results == Initial(idList)
  {
    ids, results := [], map[];
    var i := 0;
    while i < |idList|
      invariant 0 <= i <= |idList|
      invariant ids == ValidIds(idList[..i])
      invariant results == Initial(idList[..i])
    {
      var id := idList[i];
      FirstLoopStep(idList, i);
      if ArxivId.IsValid(id) {
        ids := ids + [id];
      } else {
        results := results[id := Err(InvalidId)];
      }
      i := i + 1;
    }
    assert idList[..|idList|] == idList;
  }

  /** The second loop of `arxiv2bib_dict`: `zip(id_list, entries)`, storing the
      outcome of each entry under the identifier at the same position. */
  method StoreEntries<E, V>(results0: map<string, V>, idList: seq<string>, entries: seq<E>, outcome: E -> V)
    returns (results: map<string, V>)
    ensures results == Paired(results0, idList, MapSeq(outcome, entries), if |idList| < |entries| then |idList| else |entries|)
  {
    var n := if |idList| < |entries| then |idList| else |entries|;
    results := results0;
    var j := 0;
    while j < n
      invariant 0 <= j <= n
      invariant results == Paired(results0, idList, MapSeq(outcome, entries), j)
    {
      results := results[idList[j] := outcome(entries[j])];
      j := j + 1;
    }
  }

  /** One more identifier through the first loop. */
  lemma FirstLoopStep(ids: seq<string>, i: nat)
    requires i < |ids|
    ensures ValidIds(ids[..i + 1]) == ValidIds(ids[..i]) + (if ArxivId.IsValid(ids[i]) then [ids[i]] else [])
    ensures Initial(ids[..i + 1]) == if ArxivId.IsValid(ids[i]) then Initial(ids[..i]) else Initial(ids[..i])[ids[i] := Err(InvalidId)]
  {
    PrefixStep<Result<Record>>(ids, i, ArxivId.IsValid, Err(InvalidId));
  }

  lemma PrefixStep<V>(ids: seq<string>, i: nat, accept: string -> bool, v: V)
    requires i < |ids|
    ensures Accepted(ids[..i + 1], accept) == Accepted(ids[..i], accept) + (if accept(ids[i]) then [ids[i]] else [])
    ensures Rejected(ids[..i + 1], accept, v) == if accept(ids[i]) then Rejected(ids[..i], accept, v) else Rejected(ids[..i], accept, v)[ids[i] := v]
  {
    var p := ids[..i + 1];
    assert p[..|p| - 1] == ids[..i] && p[|p| - 1] == ids[i];
  }

  /** The first loop stores an error entry for exactly the rejected identifiers. */
  lemma InitialSpec(ids: seq<string>)
    ensures forall x :: x in Initial(ids) <==> x in ids && !ArxivId.IsValid(x)
    ensures forall x :: x in Initial(ids) ==> Initial(ids)[x] == Err(InvalidId)
  {
    RejectedSpec<Result<Record>>(ids, ArxivId.IsValid, Err(InvalidId));
  }

  lemma {:induction false} RejectedSpec<V>(ids: seq<string>, accept: string -> bool, v: V)
    ensures forall x :: x in Rejected(ids, accept, v) <==> x in ids && !accept(x)
    ensures forall x :: x in Rejected(ids, accept, v) ==> Rejected(ids, accept, v)[x] == v
  {
    if ids != [] {
      var init := ids[..|ids| - 1];
      RejectedSpec(init, accept, v);
      assert ids == init + [ids[|ids| - 1]];
    }
  }

  /** The request is for exactly the accepted identifiers. */
  lemma ValidIdsSpec(ids: seq<string>)
    ensures forall x :: x in ValidIds(ids) <==> x in ids && ArxivId.IsValid(x)
    ensures |ValidIds(ids)| <= |ids|
  {
    AcceptedSpec(ids, ArxivId.IsValid);
  }

  lemma {:induction false} AcceptedSpec(ids: seq<string>, accept: string -> bool)
    ensures forall x :: x in Accepted(ids, accept) <==> x in ids && accept(x)
    ensures |Accepted(ids, accept)| <= |ids|
  {
    if ids != [] {
      var init := ids[..|ids| - 1];
      AcceptedSpec(init, accept);
      assert ids == init + [ids[|ids| - 1]];
    }
  }

  /** After `n` pairs, the keys are the earlier ones and the first `n` keys of the pairs. */
  lemma {:induction false} PairedKeys<V>(m: map<string, V>, keys: seq<string>, values: seq<V>, n: nat)
    requires n <= |keys| && n <= |values|
    ensures forall x :: x in Paired(m, keys, values, n) <==> x in m || x in keys[..n]
  {
    if n > 0 {
      PairedKeys(m, keys, values, n - 1);
      assert keys[..n] == keys[..n - 1] + [keys[n - 1]];
    }
  }

  /** A key among the first `n` holds the value paired with its last occurrence below `n`. */
  lemma {:induction false} PairedLast<V>(m: map<string, V>, keys: seq<string>, values: seq<V>, n: nat, i: nat)
    requires n <= |keys| && n <= |values| && i < n
    requires forall j :: i < j < n ==> keys[j] != keys[i]
    ensures keys[i] in Paired(m, keys, values, n) && Paired(m, keys, values, n)[keys[i]] == values[i]
  {
    if i < n - 1 {
      PairedLast(m, keys, values, n - 1, i);
    }
  }

  /** A key not among the first `n` keeps its value. */
  lemma {:induction false} PairedOthers<V>(m: map<string, V>, keys: seq<string>, values: seq<V>, n: nat, x: string)
    requires n <= |keys| && n <= |values| && x in m && x !in keys[..n]
    ensures x in Paired(m, keys, values, n) && Paired(m, keys, values, n)[x] == m[x]
  {
    if n > 0 {
      assert keys[..n] == keys[..n - 1] + [keys[n - 1]];
      PairedOthers(m, keys, values, n - 1, x);
    }
  }

  /** With no accepted identifier, no request is made: the result is the error
      entries alone, whatever the request would have given. */
  lemma NothingValid(ids: seq<string>, request: seq<string> -> Response, other: seq<string> -> Response)
    requires ValidIds(ids) == []
    ensures Batch(ids, request) == Batch(ids, other) == Ok(Initial(ids))
    ensures forall x :: x in Initial(ids) <==> x in ids
    ensures forall x :: x in Initial(ids) ==> Initial(ids)[x] == Err(InvalidId)
  {
    InitialSpec(ids);
    ValidIdsSpec(ids);
  }

  /** The result depends on the request only through its answer for the accepted
      identifiers. */
  lemma RequestOnlyForValid(ids: seq<string>, request: seq<string> -> Response, other: seq<string> -> Response)
    requires request(ValidIds(ids)) == other(ValidIds(ids))
    ensures Batch(ids, request) == Batch(ids, other)
  {
  }

  /** An exception raised by the request leaves `arxiv2bib_dict`. */
  lemma RequestRaised(ids: seq<string>, request: seq<string> -> Response)
    requires ValidIds(ids) != [] && request(ValidIds(ids)).Raised?
    ensures Batch(ids, request) == Err(request(ValidIds(ids)).error)
  {
  }

  /** The keys of the result: the rejected identifiers and the identifiers at the
      positions the feed has entries for; nothing else is written. */
  lemma BatchKeys(ids: seq<string>, request: seq<string> -> Response)
    requires ValidIds(ids) != [] && request(ValidIds(ids)).Feed?
    ensures var es := request(ValidIds(ids)).entries;
      var n := if |ids| < |es| then |ids| else |es|;
      Batch(ids, request).Ok?
      && forall x :: x in Batch(ids, request).value <==> (x in ids && !ArxivId.IsValid(x)) || x in ids[..n]
  {
    var es := request(ValidIds(ids)).entries;
    var n := if |ids| < |es| then |ids| else |es|;
    InitialSpec(ids);
    PairedKeys(Initial(ids), ids, EntryOutcomes(es), n);
  }

  /** The value the batch stores under `id_list[i]`: the outcome of entry `i`, as
      long as `id_list[i]` does not come again later in the paired part. */
  lemma BatchValue(ids: seq<string>, request: seq<string> -> Response, i: nat)
    requires ValidIds(ids) != [] && request(ValidIds(ids)).Feed?
    requires i < |ids| && i < |request(ValidIds(ids)).entries|
    requires forall j :: i < j < |ids| && j < |request(ValidIds(ids)).entries| ==> ids[j] != ids[i]
    ensures Batch(ids, request).Ok? && ids[i] in Batch(ids, request).value
    ensures Batch(ids, request).value[ids[i]] == EntryOutcome(request(ValidIds(ids)).entries[i])
  {
    var es := request(ValidIds(ids)).entries;
    var n := if |ids| < |es| then |ids| else |es|;
    PairedLast(Initial(ids), ids, EntryOutcomes(es), n, i);
    assert EntryOutcomes(es)[i] == EntryOutcome(es[i]);
  }

  /** The feed has an entry per requested identifier, yet a rejected identifier
      before an accepted one takes that one's entry, and the accepted identifier
      gets nothing. */
  lemma Misaligned(bad: string, good: string, e: Entry, request: seq<string> -> Response)
    requires !ArxivId.IsValid(bad) && ArxivId.IsValid(good) && request([good]) == Feed([e])
    ensures Batch([bad, good], request) == Ok(map[bad := EntryOutcome(e)])
    ensures good !in Batch([bad, good], request).value
  {
    var ids, m, outs := [bad, good], Initial([bad, good]), EntryOutcomes([e]);
    assert Batch(ids, request) == Ok(Paired(m, ids, outs, 1)) by {
      TwoIds(bad, good);
    }
    PairedOne(m, ids, outs);
    assert m == map[bad := Err(InvalidId)] by {
      TwoIds(bad, good);
    }
    assert outs[0] == EntryOutcome(e);
    UpdateSingleton(m, bad, Err(InvalidId), outs[0]);
  }

  lemma PairedOne<V>(m: map<string, V>, keys: seq<string>, values: seq<V>)
    requires |keys| >= 1 && |values| >= 1
    ensures Paired(m, keys, values, 1) == m[keys[0] := values[0]]
  {
  }

  lemma UpdateSingleton<V>(m: map<string, V>, k: string, u: V, v: V)
    requires m == map[k := u]
    ensures m[k := v] == map[k := v]
  {
  }

  /** The first loop on a rejected identifier followed by an accepted one. */
  lemma TwoIds(bad: string, good: string)
    requires !ArxivId.IsValid(bad) && ArxivId.IsValid(good)
    ensures ValidIds([bad, good]) == [good]
    ensures Initial([bad, good]) == map[bad := Err(InvalidId)]
  {
    var ids := [bad, good];
    FirstLoopStep(ids, 0);
    FirstLoopStep(ids, 1);
    assert ids[..0] == [] && ids[..2] == ids && ids[0] == bad && ids[1] == good;
    assert ValidIds([]) == [] && Initial([]) == map[];
  }

  lemma MisalignedExample(e: Entry, request: seq<string> -> Response)
    requires request(["2310.01234v2"]) == Feed([e])
    ensures Batch(["bad id", "2310.01234v2"], request) == Ok(map["bad id" := EntryOutcome(e)])
  {
    ArxivId.NewStyleAccepted();
    ArxivId.SlashlessLetterFirstRejected("bad id");
    Misaligned("bad id", "2310.01234v2", e, request);
  }

  /** The batch with each entry paired with the accepted identifier it was
      requested for. */
  function AlignedBatch(ids: seq<string>, request: seq<string> -> Response): Result<map<string, Result<Record>>> {
    var m := Initial(ids);
    var valid := ValidIds(ids);
    if valid == [] then Ok(m)
    else
      match request(valid)
      case Raised(e) => Err(e)
      case Feed(es) => Ok(Paired(m, valid, EntryOutcomes(es), if |valid| < |es| then |valid| else |es|))
  }

  /** When the feed answers every requested identifier, every identifier of the
      list gets a result, and a rejected one keeps its error entry. */
  lemma AlignedBatchComplete(ids: seq<string>, request: seq<string> -> Response)
    requires ValidIds(ids) != [] && request(ValidIds(ids)).Feed?
    requires |request(ValidIds(ids)).entries| == |ValidIds(ids)|
    ensures AlignedBatch(ids, request).Ok?
    ensures forall x :: x in AlignedBatch(ids, request).value <==> x in ids
    ensures forall x :: x in ids && !ArxivId.IsValid(x) ==> AlignedBatch(ids, request).value[x] == Err(InvalidId)
  {
    var valid := ValidIds(ids);
    var es := request(valid).entries;
    InitialSpec(ids);
    ValidIdsSpec(ids);
    assert valid[..|valid|] == valid;
    PairedKeys(Initial(ids), valid, EntryOutcomes(es), |valid|);
    forall x | x in ids && !ArxivId.IsValid(x)
      ensures AlignedBatch(ids, request).value[x] == Err(InvalidId)
    {
      PairedOthers(Initial(ids), valid, EntryOutcomes(es), |valid|, x);
    }
  }

  lemma AlignedExample(e: Entry, request: seq<string> -> Response)
    requires request(["2310.01234v2"]) == Feed([e])
    ensures AlignedBatch(["bad id", "2310.01234v2"], request)
      == Ok(map["bad id" := Err(InvalidId), "2310.01234v2" := EntryOutcome(e)])
  {
    ArxivId.NewStyleAccepted();
    ArxivId.SlashlessLetterFirstRejected("bad id");
    Aligned("bad id", "2310.01234v2", e, request);
  }

  lemma Aligned(bad: string, good: string, e: Entry, request: seq<string> -> Response)
    requires !ArxivId.IsValid(bad) && ArxivId.IsValid(good) && request([good]) == Feed([e])
    ensures AlignedBatch([bad, good], request) == Ok(map[bad := Err(InvalidId), good := EntryOutcome(e)])
  {
    TwoIds(bad, good);
    var m := Initial([bad, good]);
    assert Paired(m, [good], EntryOutcomes([e]), 1) == m[good := EntryOutcome(e)];
  }

  // ---------------------------------------------------------------------------
  // The identifier of a link, in `run`

  /** The two forms of link the script documents. */
  const AbsRoute: string := "https://arxiv.org/abs/"
  const PdfRoute: string := "https://arxiv.org/pdf/"

  /** `entry.split('/')[-1]`. */
  function PaperId(url: string): (id: string)
    ensures '/' !in id
  {
    var pieces := SplitOn(url, "/");
    ContainsChar(Last(pieces), '/');
    Last(pieces)
  }

  /** The identifier of a link is what follows its last `/`, or the whole link. */
  lemma PaperIdSpec(url: string)
    ensures PaperId(url) == if RFind(url, "/") < 0 then url else url[RFind(url, "/") + 1..]
  {
    LastPiece(url, "/");
  }

  /** A link to a new-style identifier gives the identifier back. */
  lemma NewStyleLink(route: string, x: ArxivId.Identifier)
    requires route == AbsRoute || route == PdfRoute
    requires x.NewStyle? && ArxivId.WellFormed(x)
    ensures PaperId(route + ArxivId.Spell(x)) == ArxivId.Spell(x)
    ensures ArxivId.IsValid(PaperId(route + ArxivId.Spell(x)))
  {
    ArxivId.NewStyleHasNoSlash(x);
    LastPieceAfter(route, ArxivId.Spell(x), "/");
    ArxivId.SpelledIsValid(x);
  }

  /** A link to an old-style identifier gives only its number and version, which
      `is_valid` then rejects. */
  lemma OldStyleLinkLosesArchive(route: string, x: ArxivId.Identifier)
    requires route == AbsRoute || route == PdfRoute
    requires x.OldStyle? && ArxivId.WellFormed(x)
    ensures PaperId(route + ArxivId.Spell(x)) == x.number + ArxivId.VersionSuffix(x.version)
    ensures !ArxivId.IsValid(PaperId(route + ArxivId.Spell(x)))
  {
    ArxivId.OldStyleTail(x);
    var p := route + ArxivId.OldPrefix(x.archive, x.subject) + "/";
    var t := x.number + ArxivId.VersionSuffix(x.version);
    assert route + ArxivId.Spell(x) == p + t;
    LastPieceAfter(p, t, "/");
    ArxivId.OldStyleTailRejected(x);
  }

  lemma OldStyleLinkExample(url: string)
    requires url == "https://arxiv.org/abs/hep-th/0601001"
    ensures PaperId(url) == "0601001" && !ArxivId.IsValid(PaperId(url))
  {
    var x := ArxivId.OldStyle("hep-th", "", "0601001", "");
    assert ArxivId.Subjects("hep-th") == Some([]) by {
      assert "hep-th" == ArxivId.PlainArchives[9];
    }
    assert url == AbsRoute + ArxivId.Spell(x);
    OldStyleLinkLosesArchive(AbsRoute, x);
  }

  /** The identifier of a link of a documented form: everything after the route. */
  function PaperIdFixed(url: string): string {
    if |url| >= |AbsRoute| && (url[..|AbsRoute|] == AbsRoute || url[..|AbsRoute|] == PdfRoute)
    then url[|AbsRoute|..]
    else PaperId(url)
  }

  /** Every link of a documented form gives its identifier back, and that
      identifier is accepted. */
  lemma PaperIdFixedRoundTrip(route: string, x: ArxivId.Identifier)
    requires route == AbsRoute || route == PdfRoute
    requires ArxivId.WellFormed(x)
    ensures PaperIdFixed(route + ArxivId.Spell(x)) == ArxivId.Spell(x)
    ensures ArxivId.IsValid(PaperIdFixed(route + ArxivId.Spell(x)))
  {
    var url := route + ArxivId.Spell(x);
    assert url[..|AbsRoute|] == route;
    assert url[|AbsRoute|..] == ArxivId.Spell(x);
    ArxivId.SpelledIsValid(x);
  }

  // ---------------------------------------------------------------------------
  // The note

  /** `generate_markdown_file(metadata)`. The publication date as `strptime` and
      `strftime` reformat it, and the date the note is written, are parameters. */
  function MarkdownFile(metadata: Record, datePublished: string, dateAdded: string): string {
    FrontMatter.Note("arXiv", FrontMatter.Normalise(metadata.title), metadata.author,
      FrontMatter.Normalise(metadata.summary), datePublished, dateAdded, metadata.url, metadata.key)
  }

  /** When the authors, the dates, the URL and the key fit on one line, the note
      splits into the template's lines, with the normalised title and summary,
      the venue `arXiv`, the dates, the URL and the key in their places. */
  lemma MarkdownFileLines(metadata: Record, datePublished: string, dateAdded: string)
    requires FrontMatter.SingleLines([metadata.author, datePublished, dateAdded, metadata.url, metadata.key])
    ensures SplitOn(MarkdownFile(metadata, datePublished, dateAdded), "\n")
         == FrontMatter.NoteLines("arXiv", FrontMatter.Normalise(metadata.title), metadata.author,
              FrontMatter.Normalise(metadata.summary), datePublished, dateAdded, metadata.url, metadata.key)
  {
    var fields := [metadata.author, datePublished, dateAdded, metadata.url, metadata.key];
    var title, summary := FrontMatter.Normalise(metadata.title), FrontMatter.Normalise(metadata.summary);
    FrontMatter.NormaliseOneLine(metadata.title);
    FrontMatter.NormaliseOneLine(metadata.summary);
    assert fields[0] == metadata.author && fields[1] == datePublished && fields[2] == dateAdded;
    assert fields[3] == metadata.url && fields[4] == metadata.key;
    var all := ["arXiv", title, metadata.author, summary, datePublished, dateAdded, metadata.url, metadata.key];
    assert '\n' !in "arXiv";
    assert FrontMatter.SingleLines(all) by {
      assert forall w | w in all :: '\n' !in w;
      assert forall k :: 0 <= k < |all| ==> all[k] in all;
    }
    FrontMatter.NoteSplitsIntoLines("arXiv", title, metadata.author, summary, datePublished, dateAdded, metadata.url, metadata.key);
  }
}
