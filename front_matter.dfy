/** The note both scripts write (`generate_markdown_file`): the rule that
    normalises the title and the summary, and the lines of the front matter. */
module FrontMatter {
  import opened Text

  /** `f'"{t.replace('"', '')}"'`. */
  function Quoted(t: string): string {
    "\"" + Remove(t, '"') + "\""
  }

  /** The title and summary rule: whitespace runs collapsed to one space and the
      ends trimmed; then, if the text contains `:`, its double quotes removed and
      the whole wrapped in double quotes. */
  function Normalise(s: string): string {
    var t := Collapse(s);
    if ':' in t then Quoted(t) else t
  }

  /** The result contains `:` exactly when the input does. */
  lemma NormaliseKeepsColon(s: string)
    ensures ':' in Normalise(s) <==> ':' in s
  {
    var t := Collapse(s);
    CollapseKeepsVisible(s, ':');
    RemoveKeeps(t, '"', ':');
  }

  /** Text with a colon comes out between double quotes, with no double quote inside. */
  lemma NormaliseWrapsColon(s: string)
    requires ':' in s
    ensures var r := Normalise(s);
      |r| >= 2 && r[0] == '"' && r[|r| - 1] == '"' && '"' !in r[1..|r| - 1]
      && r[1..|r| - 1] == Remove(Collapse(s), '"')
  {
    CollapseKeepsVisible(s, ':');
    RemoveSpec(Collapse(s), '"');
  }

  /** Text without a colon comes out collapsed: no whitespace at either end, and
      only single spaces between words. */
  lemma NormalisePlain(s: string)
    requires ':' !in s
    ensures Normalise(s) == Collapse(s) && Collapsed(Normalise(s))
  {
    CollapseKeepsVisible(s, ':');
    CollapseIsCollapsed(s);
  }

  /** Collapsed text without a colon is left as it is. */
  lemma NormaliseIdentity(s: string)
    requires Collapsed(s) && ':' !in s
    ensures Normalise(s) == s
  {
    CollapseKeepsVisible(s, ':');
    CollapseFixedIff(s);
  }

  /** The only whitespace the result can hold is the plain space, so it fits on
      one line of the front matter. */
  lemma NormaliseOneLine(s: string)
    ensures forall c :: c in Normalise(s) && IsSpace(c) ==> c == ' '
    ensures '\n' !in Normalise(s)
  {
    var t := Collapse(s);
    CollapseIsCollapsed(s);
    assert forall c :: c in t && IsSpace(c) ==> c == ' ';
    if ':' in t {
      RemoveSpec(t, '"');
      forall c | c in Normalise(s) && IsSpace(c)
        ensures c == ' '
      {
        assert c in Remove(t, '"');
        assert c in multiset(Remove(t, '"'));
      }
    }
  }

  /** Removing a double quote that stands alone between two words leaves two
      spaces side by side: the collapsing happens before the quotes go. */
  lemma QuoteRemovalJoinsSpaces(a: string, b: string)
    requires IsWord(a) && IsWord(b) && '"' !in a && '"' !in b && ':' in b
    ensures Normalise(a + " \" " + b) == "\"" + (a + "  " + b) + "\""
  {
    var s := a + " \" " + b;
    assert s == a + " " + (['"'] + " " + b);
    LoneQuoteCollapsed(a, b, '"');
    assert ':' in s by {
      assert s == (a + " \" ") + b;
    }
    RemoveLoneQuote(a, b, '"');
  }

  /** Two words around a lone non-space character are already collapsed. */
  lemma LoneQuoteCollapsed(a: string, b: string, c: char)
    requires IsWord(a) && IsWord(b) && !IsSpace(c)
    ensures Collapse(a + " " + ([c] + " " + b)) == a + " " + ([c] + " " + b)
  {
    var t := [c] + " " + b;
    var s := a + " " + t;
    assert Words(s) == [a] + ([[c]] + [b]) by {
      WordsOfWordAndRest(s, a, t);
      WordsOfWordAndRest(t, [c], b);
      WordsAfterWord(b, []);
      assert b + [] == b;
    }
    assert Join(" ", [[c]] + [b]) == t by {
      JoinCons(" ", [c], [b]);
    }
    JoinCons(" ", a, [[c]] + [b]);
  }

  /** Removing `c` from two words around a lone `c` keeps both spaces. */
  lemma RemoveLoneQuote(a: string, b: string, c: char)
    requires c !in a && c !in b && !IsSpace(c)
    ensures Remove(a + " " + ([c] + " " + b), c) == a + "  " + b
  {
    var sp := " ";
    calc {
      Remove(a + sp + ([c] + sp + b), c);
      { assert a + sp + ([c] + sp + b) == a + (sp + ([c] + (sp + b))); }
      Remove(a + (sp + ([c] + (sp + b))), c);
      { RemoveAppend(a, sp + ([c] + (sp + b)), c); RemoveSpec(a, c); }
      a + Remove(sp + ([c] + (sp + b)), c);
      { RemoveAppend(sp, [c] + (sp + b), c); RemoveSpec(sp, c); }
      a + (sp + Remove([c] + (sp + b), c));
      { RemoveAppend([c], sp + b, c); assert Remove([c], c) == []; }
      a + (sp + Remove(sp + b, c));
      { RemoveAppend(sp, b, c); RemoveSpec(sp, c); RemoveSpec(b, c); }
      a + (sp + (sp + b));
    }
  }

  // ---------------------------------------------------------------------------
  // The note

  /** The lines of the note: the front matter, a notes callout and the embedded PDF. */
  function NoteLines(venue: string, title: string, authors: string, tldr: string, datePublished: string,
                     dateAdded: string, url: string, key: string): seq<string>
  {
    ["---",
     "title: " + title,
     "authors: " + authors,
     "tldr: " + tldr,
     "venue: " + venue,
     "date_published: " + datePublished,
     "rating: 0/5",
     "date_added: " + dateAdded,
     "url: " + url,
     "links: ",
     "tags:",
     "---",
     "> [!notes] Notes",
     "> Summary, Quotes, Thoughts, Questions, etc.",
     "",
     "---",
     "# PDF",
     "",
     "![[" + key + ".pdf]]"]
  }

  /** The text of the note: its lines joined with newlines, without a final newline. */
  function Note(venue: string, title: string, authors: string, tldr: string, datePublished: string,
                dateAdded: string, url: string, key: string): string
  {
    Join("\n", NoteLines(venue, title, authors, tldr, datePublished, dateAdded, url, key))
  }

  /** No field holds a newline. */
  predicate SingleLines(fields: seq<string>) {
    forall k :: 0 <= k < |fields| ==> '\n' !in fields[k]
  }

  /** A note whose fields hold no newline splits back into its lines. */
  lemma NoteSplitsIntoLines(venue: string, title: string, authors: string, tldr: string, datePublished: string,
                            dateAdded: string, url: string, key: string)
    requires SingleLines([venue, title, authors, tldr, datePublished, dateAdded, url, key])
    ensures SplitOn(Note(venue, title, authors, tldr, datePublished, dateAdded, url, key), "\n")
         == NoteLines(venue, title, authors, tldr, datePublished, dateAdded, url, key)
  {
    var fields := [venue, title, authors, tldr, datePublished, dateAdded, url, key];
    var lines := NoteLines(venue, title, authors, tldr, datePublished, dateAdded, url, key);
    assert '\n' !in venue && '\n' !in title && '\n' !in authors && '\n' !in tldr by {
      assert fields[0] == venue && fields[1] == title && fields[2] == authors && fields[3] == tldr;
    }
    assert '\n' !in datePublished && '\n' !in dateAdded && '\n' !in url && '\n' !in key by {
      assert fields[4] == datePublished && fields[5] == dateAdded && fields[6] == url && fields[7] == key;
    }
    TemplateSingleLines();
    CalloutSingleLine();
    CalloutTextSingleLine();
    assert forall w | w in lines :: '\n' !in w;
    LinesWithoutNewline(lines);
    SplitJoin(lines, "\n");
  }

  lemma LinesWithoutNewline(lines: seq<string>)
    requires forall w | w in lines :: '\n' !in w
    ensures forall k :: 0 <= k < |lines| ==> !Contains(lines[k], "\n")
  {
    forall k | 0 <= k < |lines|
      ensures !Contains(lines[k], "\n")
    {
      assert lines[k] in lines;
      ContainsChar(lines[k], '\n');
    }
  }

  /** The fixed text of the template holds no newline. */
  lemma TemplateSingleLines()
    ensures '\n' !in "---" && '\n' !in "rating: 0/5" && '\n' !in "links: " && '\n' !in "tags:"
    ensures '\n' !in "# PDF" && '\n' !in "![[" && '\n' !in ".pdf]]"
    ensures '\n' !in "title: " && '\n' !in "authors: " && '\n' !in "tldr: " && '\n' !in "venue: "
    ensures '\n' !in "date_published: " && '\n' !in "date_added: " && '\n' !in "url: "
  {
  }

  lemma CalloutSingleLine()
    ensures '\n' !in "> [!notes] Notes"
  {
  }

  lemma CalloutTextSingleLine()
    ensures '\n' !in "> Summary, Quotes, Thoughts, Questions, etc."
  {
  }
}
