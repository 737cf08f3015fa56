/** The citation key both scripts build (`citation_key`): the first author's
    surname, the year and the first word of the title. */
module Citation {
  import opened Outcomes
  import opened Text

  /** The message of the `IndexError` raised by indexing an empty list. */
  const IndexError: string := "list index out of range"

  /** `name.split()[-1].lower()`. */
  function LastName(name: string): (r: Result<string>)
    ensures r.Err? <==> AllSpace(name)
    ensures r.Err? ==> r.error == IndexError
    ensures r.Ok? ==> IsWord(r.value)
  {
    NoWordsIffAllSpace(name);
    WordsAreWords(name);
    var ws := Words(name);
    if ws == [] then Err(IndexError)
    else
      LowerKeepsWords(Last(ws));
      Ok(Lower(Last(ws)))
  }

  /** `[name.split()[-1].lower() for name in authors]`: fails as soon as one
      name has no word. */
  function LastNames(authors: seq<string>): (r: Result<seq<string>>)
    ensures r.Ok? <==> forall i :: 0 <= i < |authors| ==> !AllSpace(authors[i])
    ensures r.Err? ==> r.error == IndexError
    ensures r.Ok? ==> |r.value| == |authors|
    ensures r.Ok? ==> forall i :: 0 <= i < |authors| ==> LastName(authors[i]) == Ok(r.value[i])
  {
    if authors == [] then Ok([])
    else
      match LastName(authors[0])
      case Err(e) => Err(e)
      case Ok(n) =>
        match LastNames(authors[1..])
        case Err(e) => Err(e)
        case Ok(ns) =>
          assert forall i :: 1 <= i < |authors| ==> authors[i] == authors[1..][i - 1];
          Ok([n] + ns)
  }

  /** The title's first word, lower-cased, with every `:` removed. */
  function FirstWord(title: string): (w: string)
    requires !AllSpace(title)
    ensures ':' !in w
    ensures forall c :: c in w ==> c != ':' && !IsSpace(c)
  {
    NoWordsIffAllSpace(Lower(title));
    LowerSpace(title);
    var ws := Words(Lower(title));
    WordsAreWords(Lower(title));
    assert IsWord(ws[0]);
    RemoveSpec(ws[0], ':');
    RemoveKeepsNoSpace(ws[0], ':');
    Remove(ws[0], ':')
  }

  lemma RemoveKeepsNoSpace(w: string, c: char)
    requires IsWord(w)
    ensures forall x :: x in Remove(w, c) ==> !IsSpace(x)
  {
    RemoveSpec(w, c);
    forall x | x in Remove(w, c)
      ensures !IsSpace(x)
    {
      assert x in multiset(Remove(w, c));
    }
  }

  /** `f"{author_last_names[0]}{year}{first_word}"`, once the surnames are known and
      there is at least one author. */
  function Key(lastNames: seq<string>, year: string, firstWord: string): (key: string)
    requires lastNames != []
    ensures |key| == |lastNames[0]| + |year| + |firstWord|
    ensures key[..|lastNames[0]|] == lastNames[0]
    ensures key[|lastNames[0]|..|lastNames[0]| + |year|] == year
    ensures key[|lastNames[0]| + |year|..] == firstWord
  {
    lastNames[0] + year + firstWord
  }

  /** A key built from a whitespace-free year and first word has no whitespace. */
  lemma KeyHasNoSpace(authors: seq<string>, year: string, firstWord: string)
    requires LastNames(authors).Ok? && authors != []
    requires forall c :: c in year + firstWord ==> !IsSpace(c)
    ensures forall c :: c in Key(LastNames(authors).value, year, firstWord) ==> !IsSpace(c)
  {
    var ns := LastNames(authors).value;
    assert IsWord(ns[0]) by {
      assert LastName(authors[0]) == Ok(ns[0]);
    }
    assert Key(ns, year, firstWord) == ns[0] + (year + firstWord);
  }

  /** The surname is the name's last word, lower-cased, whatever text comes
      before it. */
  lemma LastNameOfLastWord(name: string, p: string, w: string, q: string)
    requires name == p + w + q && IsWord(w) && AllSpace(q)
    requires p == [] || IsSpace(p[|p| - 1])
    ensures LastName(name) == Ok(Lower(w))
  {
    assert name == p + (w + q);
    WordsAppend(p, w + q);
    NoWordsIffAllSpace(q);
    WordsAfterWord(w, q);
    assert Words(name) == Words(p) + [w];
  }

  /** A title whose first word, after any leading whitespace, is `a` gives that
      word, lower-cased and without `:`. */
  lemma FirstWordOfOpening(t: string, p: string, a: string, rest: string)
    requires t == p + a + rest && AllSpace(p) && IsWord(a) && (rest == [] || IsSpace(rest[0]))
    ensures !AllSpace(t)
    ensures FirstWord(t) == Remove(Lower(a), ':')
  {
    assert !IsSpace(t[|p|]) by {
      assert t[|p|] == a[0];
    }
    assert t == p + (a + rest);
    LowerAppend(p, a + rest);
    LowerAppend(a, rest);
    LowerSpace(p);
    LowerKeepsWords(a);
    if rest != [] {
      assert Lower(rest)[0] == LowerChar(rest[0]);
    }
    var lp := Lower(p);
    if lp != [] {
      assert IsSpace(lp[|lp| - 1]);
    }
    WordsAppend(lp, Lower(a) + Lower(rest));
    NoWordsIffAllSpace(lp);
    WordsAfterWord(Lower(a), Lower(rest));
  }

  /** A title that starts with the word `a`. */
  lemma FirstWordAtStart(t: string, a: string, rest: string)
    requires t == a + rest && IsWord(a) && (rest == [] || IsSpace(rest[0]))
    ensures !AllSpace(t)
    ensures FirstWord(t) == Remove(Lower(a), ':')
  {
    var p: string := [];
    assert t == p + a + rest;
    FirstWordOfOpening(t, p, a, rest);
  }

  lemma FirstWordExample(t: string)
    requires t == "Deep: Learning Things"
    ensures !AllSpace(t)
    ensures FirstWord(t) == "deep"
  {
    var a, rest := "Deep:", " Learning Things";
    assert !AllSpace(t) && FirstWord(t) == Remove(Lower(a), ':') by {
      assert t == a + rest;
      assert IsWord(a) && IsSpace(rest[0]);
      FirstWordAtStart(t, a, rest);
    }
    assert Lower(a) == "deep:";
    DropColon(Lower(a));
  }

  lemma DropColon(s: string)
    requires s == "deep:"
    ensures Remove(s, ':') == "deep"
  {
    assert s == "deep" + ":";
    RemoveAppend("deep", ":", ':');
    RemoveSpec("deep", ':');
    assert Remove(":", ':') == [];
  }

  lemma LastNameExample(n: string)
    requires n == "Jane Q. Smith"
    ensures LastName(n) == Ok("smith")
  {
    var p, w, q := "Jane Q. ", "Smith", "";
    assert LastName(n) == Ok(Lower(w)) by {
      assert n == p + w + q;
      assert IsWord(w) && IsSpace(p[|p| - 1]);
      LastNameOfLastWord(n, p, w, q);
    }
    assert Lower(w) == "smith";
  }

  /** A single author's surname list. */
  lemma LastNamesOfOne(authors: seq<string>, n: string)
    requires authors == [n] && LastName(n).Ok?
    ensures LastNames(authors) == Ok([LastName(n).value])
  {
    assert authors[0] == n && authors[1..] == [];
    assert LastNames(authors[1..]) == Ok([]);
    assert [LastName(n).value] + [] == [LastName(n).value];
  }

  lemma LastNamesExample(authors: seq<string>)
    requires authors == ["Jane Q. Smith"]
    ensures LastNames(authors) == Ok(["smith"])
  {
    var n := authors[0];
    LastNameExample(n);
    LastNamesOfOne(authors, n);
  }

  /** The key of the example in the program's comments. */
  lemma KeyExample(authors: seq<string>, title: string)
    requires authors == ["Jane Q. Smith"] && title == "Deep: Learning Things"
    ensures LastNames(authors) == Ok(["smith"])
    ensures !AllSpace(title)
    ensures Key(LastNames(authors).value, "2023", FirstWord(title)) == "smith2023deep"
  {
    LastNamesExample(authors);
    FirstWordExample(title);
    KeyOfParts(LastNames(authors).value, "2023", FirstWord(title));
  }

  lemma KeyOfParts(ns: seq<string>, year: string, w: string)
    requires ns == ["smith"] && year == "2023" && w == "deep"
    ensures Key(ns, year, w) == "smith2023deep"
  {
    assert ns[0] == "smith";
  }
}
