/** The Python string operations the two scripts use (`split`, `strip`, `join`,
    `find`, `rfind`, `replace`, `lower`, slicing), written out over `seq<char>`,
    with the facts about them that the rest of the model needs. */
module Text {

  /** The characters Python's `str.split()` and `str.strip()` (no arguments) treat as whitespace. */
  predicate IsSpace(c: char) {
    var n := c as int;
    n == 0x20 || 0x09 <= n <= 0x0D || 0x1C <= n <= 0x1F || n == 0x85 || n == 0xA0 || n == 0x1680
    || 0x2000 <= n <= 0x200A || n == 0x2028 || n == 0x2029 || n == 0x202F || n == 0x205F || n == 0x3000
  }

  predicate AllSpace(s: string) {
    forall i :: 0 <= i < |s| ==> IsSpace(s[i])
  }

  predicate IsDigit(c: char) {
    '0' <= c <= '9'
  }

  predicate AllDigits(s: string) {
    forall i :: 0 <= i < |s| ==> IsDigit(s[i])
  }

  /** A non-empty run of non-whitespace characters: one element of `s.split()`. */
  predicate IsWord(w: string) {
    |w| > 0 && forall i :: 0 <= i < |w| ==> !IsSpace(w[i])
  }

  function LowerChar(c: char): char {
    if 'A' <= c <= 'Z' then (c as int + 32) as char else c
  }

  /** `s.lower()`, restricted to ASCII letters. */
  function Lower(s: string): string {
    seq(|s|, i requires 0 <= i < |s| => LowerChar(s[i]))
  }

  lemma LowerKeepsWords(w: string)
    requires IsWord(w)
    ensures IsWord(Lower(w))
  {
  }

  /** Lower-casing distributes over concatenation. */
  lemma LowerAppend(a: string, b: string)
    ensures Lower(a + b) == Lower(a) + Lower(b)
  {
  }

  /** Lower-casing keeps whitespace where it is. */
  lemma LowerSpace(s: string)
    ensures AllSpace(Lower(s)) <==> AllSpace(s)
  {
    forall i | 0 <= i < |s|
      ensures IsSpace(Lower(s)[i]) <==> IsSpace(s[i])
    {
      assert Lower(s)[i] == LowerChar(s[i]);
    }
  }

  // ---------------------------------------------------------------------------
  // Searching: str.find and str.rfind

  /** `p` occurs in `s` starting at index `i`. */
  predicate OccursAt(s: string, p: string, i: int) {
    0 <= i && i + |p| <= |s| && s[i..i + |p|] == p
  }

  predicate Contains(s: string, p: string) {
    exists i :: 0 <= i <= |s| - |p| && OccursAt(s, p, i)
  }

  /** The first index `>= i` at which `p` occurs in `s`, or -1. */
  function FindFrom(s: string, p: string, i: nat): (k: int)
    decreases |s| - i
    ensures k == -1 || (i <= k && k + |p| <= |s|)
  {
    if i + |p| > |s| then -1
    else if s[i..i + |p|] == p then i
    else FindFrom(s, p, i + 1)
  }

  lemma {:induction false} FindFromSpec(s: string, p: string, i: nat)
    decreases |s| - i
    ensures var k := FindFrom(s, p, i); k == -1 || (i <= k && OccursAt(s, p, k))
    ensures var k := FindFrom(s, p, i); forall j :: i <= j && (k == -1 || j < k) ==> !OccursAt(s, p, j)
  {
    if i + |p| <= |s| && s[i..i + |p|] != p {
      FindFromSpec(s, p, i + 1);
    }
  }

  /** `s.find(p)`. */
  function Find(s: string, p: string): int {
    FindFrom(s, p, 0)
  }

  /** The last index `<= i` at which `p` occurs in `s`, or -1. */
  function RFindFrom(s: string, p: string, i: int): (k: int)
    decreases if i < 0 then 0 else i + 1
    ensures k == -1 || (0 <= k <= i && k + |p| <= |s|)
  {
    if i < 0 then -1
    else if OccursAt(s, p, i) then i
    else RFindFrom(s, p, i - 1)
  }

  lemma {:induction false} RFindFromSpec(s: string, p: string, i: int)
    decreases if i < 0 then 0 else i + 1
    ensures var k := RFindFrom(s, p, i); k == -1 || (0 <= k <= i && OccursAt(s, p, k))
    ensures var k := RFindFrom(s, p, i); forall j :: k < j <= i ==> !OccursAt(s, p, j)
  {
    if i >= 0 && !OccursAt(s, p, i) {
      RFindFromSpec(s, p, i - 1);
    }
  }

  /** `s.rfind(p)`. */
  function RFind(s: string, p: string): int {
    RFindFrom(s, p, |s| - |p|)
  }

  /** `find` gives -1 exactly when `p` does not occur, and otherwise its first occurrence. */
  lemma FindSpec(s: string, p: string)
    ensures Find(s, p) == -1 <==> !Contains(s, p)
    ensures Find(s, p) != -1 ==> OccursAt(s, p, Find(s, p))
    ensures forall j :: 0 <= j < Find(s, p) ==> !OccursAt(s, p, j)
  {
    FindFromSpec(s, p, 0);
  }

  /** `rfind` gives -1 exactly when `p` does not occur, and otherwise its last occurrence. */
  lemma RFindSpec(s: string, p: string)
    ensures RFind(s, p) == -1 <==> !Contains(s, p)
    ensures RFind(s, p) != -1 ==> OccursAt(s, p, RFind(s, p))
    ensures forall j :: RFind(s, p) < j ==> !OccursAt(s, p, j)
  {
    RFindFromSpec(s, p, |s| - |p|);
  }

  /** `Find` of a character that first occurs at `k`. */
  lemma FindCharAt(s: string, c: char, k: nat)
    requires k < |s| && s[k] == c && forall j :: 0 <= j < k ==> s[j] != c
    ensures Find(s, [c]) == k
  {
    FindSpec(s, [c]);
    OccursAtChar(s, c, k);
    if Find(s, [c]) != k {
      OccursAtChar(s, c, Find(s, [c]));
    }
  }

  /** `Find` of a character that does not occur. */
  lemma FindCharAbsent(s: string, c: char)
    requires c !in s
    ensures Find(s, [c]) == -1
  {
    FindSpec(s, [c]);
    ContainsChar(s, c);
  }

  /** A one-character pattern occurs exactly where the character is. */
  lemma OccursAtChar(s: string, c: char, i: int)
    ensures OccursAt(s, [c], i) <==> 0 <= i < |s| && s[i] == c
  {
    if 0 <= i < |s| {
      assert s[i..i + 1] == [s[i]];
    }
  }

  lemma ContainsChar(s: string, c: char)
    ensures Contains(s, [c]) <==> c in s
  {
    if c in s {
      var i :| 0 <= i < |s| && s[i] == c;
      OccursAtChar(s, c, i);
    }
    if Contains(s, [c]) {
      var i :| OccursAt(s, [c], i);
      OccursAtChar(s, c, i);
    }
  }

  /** An occurrence of `p` in a suffix of `s` is an occurrence in `s`, shifted. */
  lemma OccursInSuffix(s: string, p: string, m: nat, j: nat)
    requires m <= |s|
    ensures OccursAt(s[m..], p, j) <==> OccursAt(s, p, m + j)
  {
    if j + |p| <= |s| - m {
      assert s[m..][j..j + |p|] == s[m + j..m + j + |p|];
    }
  }

  /** `p` has no border: no proper non-empty prefix of `p` is also its suffix,
      so two occurrences of `p` never overlap. */
  predicate BorderFree(p: string) {
    forall d :: 0 < d < |p| ==> p[d..] != p[..|p| - d]
  }

  lemma OverlapIsBorder(s: string, p: string, i: int, j: int)
    requires OccursAt(s, p, i) && OccursAt(s, p, j) && i < j < i + |p|
    ensures p[j - i..] == p[..|p| - (j - i)]
  {
    assert p[j - i..] == s[j..i + |p|];
    assert p[..|p| - (j - i)] == s[j..i + |p|];
  }

  lemma NoOverlap(s: string, p: string, i: int, j: int)
    requires BorderFree(p) && OccursAt(s, p, i) && OccursAt(s, p, j) && i < j
    ensures i + |p| <= j
  {
    if j < i + |p| {
      OverlapIsBorder(s, p, i, j);
      assert false;
    }
  }

  // ---------------------------------------------------------------------------
  // Slicing with Python's conventions

  /** `s[k:]` for a non-negative `k`. */
  function Drop(s: string, k: nat): string {
    if k <= |s| then s[k..] else []
  }

  /** `s[:k]`; a negative `k` counts from the end. */
  function Take(s: string, k: int): string {
    if k >= 0 then s[..if k <= |s| then k else |s|]
    else if -k <= |s| then s[..|s| + k]
    else []
  }

  // ---------------------------------------------------------------------------
  // str.replace(c, '') for one character

  /** `s.replace(c, '')`. */
  function Remove(s: string, c: char): (r: string)
    ensures |r| <= |s|
  {
    if s == [] then []
    else if s[0] == c then Remove(s[1..], c)
    else [s[0]] + Remove(s[1..], c)
  }

  /** Removing `c` leaves no `c` and keeps every other character as often as it occurs. */
  lemma {:induction false} RemoveSpec(s: string, c: char)
    ensures multiset(Remove(s, c)) == multiset(s)[c := 0]
    ensures c !in Remove(s, c)
    ensures c !in s ==> Remove(s, c) == s
  {
    if s != [] {
      RemoveSpec(s[1..], c);
      assert s == [s[0]] + s[1..];
    }
  }

  lemma RemoveKeeps(s: string, c: char, x: char)
    requires x != c
    ensures x in Remove(s, c) <==> x in s
  {
    RemoveSpec(s, c);
    assert x in multiset(Remove(s, c)) <==> x in multiset(s);
  }

  lemma {:induction false} RemoveAppend(a: string, b: string, c: char)
    ensures Remove(a + b, c) == Remove(a, c) + Remove(b, c)
  {
    if a == [] {
      assert a + b == b;
    } else {
      assert (a + b)[0] == a[0] && (a + b)[1..] == a[1..] + b;
      RemoveAppend(a[1..], b, c);
      var ra, rb := Remove(a[1..], c), Remove(b, c);
      if a[0] != c {
        assert [a[0]] + (ra + rb) == ([a[0]] + ra) + rb;
      }
    }
  }

  // ---------------------------------------------------------------------------
  // str.split() and ' '.join(...)

  /** The length of the longest prefix of `s` without whitespace. */
  function WordLength(s: string): (n: nat)
    ensures n <= |s|
  {
    if s == [] || IsSpace(s[0]) then 0 else 1 + WordLength(s[1..])
  }

  /** The prefix `WordLength` measures is whitespace-free and ends at whitespace
      or at the end of `s`. */
  lemma {:induction false} WordLengthSpec(s: string)
    ensures forall i :: 0 <= i < WordLength(s) ==> !IsSpace(s[i])
    ensures WordLength(s) < |s| ==> IsSpace(s[WordLength(s)])
  {
    if s != [] && !IsSpace(s[0]) {
      WordLengthSpec(s[1..]);
      assert forall i :: 1 <= i < |s| ==> s[i] == s[1..][i - 1];
    }
  }

  /** `s.split()`: the maximal runs of non-whitespace characters, in order. */
  function Words(s: string): (ws: seq<string>)
    decreases |s|
  {
    if s == [] then []
    else if IsSpace(s[0]) then Words(s[1..])
    else
      var n := WordLength(s);
      [s[..n]] + Words(s[n..])
  }

  /** Every element of `s.split()` is a word. */
  lemma {:induction false} WordsAreWords(s: string)
    decreases |s|
    ensures forall k :: 0 <= k < |Words(s)| ==> IsWord(Words(s)[k])
  {
    if s != [] {
      if IsSpace(s[0]) {
        WordsAreWords(s[1..]);
      } else {
        var n := WordLength(s);
        WordLengthSpec(s);
        WordsAreWords(s[n..]);
        var ws := Words(s);
        assert ws == [s[..n]] + Words(s[n..]);
        assert IsWord(ws[0]);
        assert forall k :: 1 <= k < |ws| ==> ws[k] == Words(s[n..])[k - 1];
      }
    }
  }

  /** `sep.join(parts)`. */
  function Join(sep: string, parts: seq<string>): string {
    if parts == [] then []
    else if |parts| == 1 then parts[0]
    else parts[0] + sep + Join(sep, parts[1..])
  }

  function Last<T>(xs: seq<T>): T
    requires xs != []
  {
    xs[|xs| - 1]
  }

  lemma {:induction false} NoWordsIffAllSpace(s: string)
    decreases |s|
    ensures Words(s) == [] <==> AllSpace(s)
  {
    if s != [] {
      if IsSpace(s[0]) {
        NoWordsIffAllSpace(s[1..]);
        assert AllSpace(s) <==> AllSpace(s[1..]) by {
          assert forall i :: 1 <= i < |s| ==> s[i] == s[1..][i - 1];
        }
      }
    }
  }

  /** The first word of `s` is preceded only by whitespace and followed by
      whitespace or the end of `s`. */
  lemma {:induction false} FirstWordAt(s: string) returns (k: nat)
    requires Words(s) != []
    decreases |s|
    ensures var w := Words(s)[0];
      k + |w| <= |s| && s[k..k + |w|] == w && AllSpace(s[..k])
      && (k + |w| == |s| || IsSpace(s[k + |w|]))
  {
    if IsSpace(s[0]) {
      assert Words(s) == Words(s[1..]);
      var k' := FirstWordAt(s[1..]);
      k := ShiftFirstWord(s, Words(s)[0], k');
    } else {
      WordLengthSpec(s);
      k := 0;
    }
  }

  /** A word found after whitespace only in `s[1..]`, where `s[0]` is whitespace,
      is found after whitespace only in `s`. */
  lemma ShiftFirstWord(s: string, w: string, k': nat) returns (k: nat)
    requires s != [] && IsSpace(s[0])
    requires k' + |w| <= |s| - 1 && s[1..][k'..k' + |w|] == w && AllSpace(s[1..][..k'])
    requires k' + |w| == |s| - 1 || IsSpace(s[1..][k' + |w|])
    ensures k + |w| <= |s| && s[k..k + |w|] == w && AllSpace(s[..k])
      && (k + |w| == |s| || IsSpace(s[k + |w|]))
  {
    k := k' + 1;
    assert s[k..k + |w|] == s[1..][k'..k' + |w|];
    forall i | 0 <= i < k
      ensures IsSpace(s[..k][i])
    {
      if i > 0 {
        assert s[..k][i] == s[1..][..k'][i - 1];
      }
    }
    if k + |w| < |s| {
      assert s[k + |w|] == s[1..][k' + |w|];
    }
  }

  /** The last word of `s` is preceded by whitespace or the start of `s`, and
      followed only by whitespace. */
  lemma {:induction false} LastWordAt(s: string) returns (k: nat)
    requires Words(s) != []
    decreases |s|, 1
    ensures var w := Last(Words(s));
      k + |w| <= |s| && s[k..k + |w|] == w && AllSpace(s[k + |w|..])
      && (k == 0 || IsSpace(s[k - 1]))
  {
    var w := Last(Words(s));
    if IsSpace(s[0]) {
      assert Words(s) == Words(s[1..]);
      var k' := LastWordAt(s[1..]);
      k := ShiftWord(s, 1, w, k');
    } else {
      var n := WordLength(s);
      WordLengthSpec(s);
      var t := s[n..];
      if Words(t) == [] {
        NoWordsIffAllSpace(t);
        k := 0;
      } else {
        assert w == Last(Words(t));
        WordsAreWords(t);
        assert IsWord(w);
        var k' := LastWordAt(t);
        // the word cannot start on the whitespace at t[0]
        assert k' > 0;
        k := ShiftWord(s, n, w, k');
      }
    }
  }

  /** A word found at `k'` in `s[d..]`, away from its start, is found at `d + k'` in `s`. */
  lemma ShiftWord(s: string, d: nat, w: string, k': nat) returns (k: nat)
    requires d <= |s|
    requires k' + |w| <= |s| - d && s[d..][k'..k' + |w|] == w && AllSpace(s[d..][k' + |w|..])
    requires k' == 0 ==> d == 0 || IsSpace(s[d - 1])
    requires k' > 0 ==> IsSpace(s[d..][k' - 1])
    ensures k == d + k'
    ensures k + |w| <= |s| && s[k..k + |w|] == w && AllSpace(s[k + |w|..])
      && (k == 0 || IsSpace(s[k - 1]))
  {
    k := d + k';
    assert s[k..k + |w|] == s[d..][k'..k' + |w|];
    assert s[k + |w|..] == s[d..][k' + |w|..];
    if k' > 0 {
      assert s[k - 1] == s[d..][k' - 1];
    }
  }

  /** Leading whitespace does not change the words. */
  lemma WordsAfterSpace(c: char, s: string)
    requires IsSpace(c)
    ensures Words([c] + s) == Words(s)
  {
    assert ([c] + s)[1..] == s;
  }

  /** A word followed by whitespace or the end of the text is the first word. */
  lemma WordsAfterWord(w: string, s: string)
    requires IsWord(w) && (s == [] || IsSpace(s[0]))
    ensures Words(w + s) == [w] + Words(s)
  {
    WordLengthOfWord(w, s);
    assert (w + s)[..|w|] == w && (w + s)[|w|..] == s;
  }

  lemma {:induction false} WordLengthOfWord(w: string, s: string)
    requires forall i :: 0 <= i < |w| ==> !IsSpace(w[i])
    requires s == [] || IsSpace(s[0])
    ensures WordLength(w + s) == |w|
  {
    if w != [] {
      assert (w + s)[1..] == w[1..] + s;
      WordLengthOfWord(w[1..], s);
    }
  }

  /** `' '.join(s.split())`: whitespace runs collapsed to one space, ends trimmed. */
  function Collapse(s: string): string {
    Join(" ", Words(s))
  }

  /** Text that collapsing leaves alone: its only whitespace is single spaces
      between non-whitespace characters. */
  ghost predicate Collapsed(s: string) {
    (forall i :: 0 <= i < |s| && IsSpace(s[i]) ==> s[i] == ' ' && 0 < i < |s| - 1)
    && (forall i, j :: 0 <= i < j < |s| && j == i + 1 && IsSpace(s[i]) ==> !IsSpace(s[j]))
  }

  lemma {:induction false} JoinWordsCollapsed(ws: seq<string>)
    requires forall k :: 0 <= k < |ws| ==> IsWord(ws[k])
    ensures Collapsed(Join(" ", ws))
    ensures ws != [] ==> |Join(" ", ws)| > 0
  {
    if |ws| >= 2 {
      var w, rest := ws[0], ws[1..];
      JoinWordsCollapsed(rest);
      var jr := Join(" ", rest);
      var j := Join(" ", ws);
      assert j == w + " " + jr;
      forall i | 0 <= i < |j| && IsSpace(j[i])
        ensures j[i] == ' ' && 0 < i < |j| - 1
      {
        if i > |w| {
          assert j[i] == jr[i - |w| - 1];
        }
      }
      forall i, k | 0 <= i < k < |j| && k == i + 1 && IsSpace(j[i])
        ensures !IsSpace(j[k])
      {
        if i == |w| {
          assert j[k] == jr[0];
        } else {
          assert j[i] == jr[i - |w| - 1];
          assert j[k] == jr[k - |w| - 1];
        }
      }
    }
  }

  /** Collapsing always yields collapsed text. */
  lemma CollapseIsCollapsed(s: string)
    ensures Collapsed(Collapse(s))
  {
    WordsAreWords(s);
    JoinWordsCollapsed(Words(s));
  }

  lemma CollapsedAfterSpace(s: string, m: nat)
    requires Collapsed(s) && 1 <= m < |s| && IsSpace(s[m - 1])
    ensures Collapsed(s[m..])
  {
    var t := s[m..];
    assert forall i :: 0 <= i < |t| ==> t[i] == s[m + i];
  }

  /** In collapsed text, the first word is either everything or followed by
      one space and more collapsed text. */
  lemma CollapsedStep(s: string)
    requires Collapsed(s) && s != [] && WordLength(s) < |s|
    ensures var n := WordLength(s);
      n + 1 < |s| && s[n] == ' ' && Collapsed(s[n + 1..]) && !IsSpace(s[n + 1])
  {
    var n := WordLength(s);
    WordLengthSpec(s);
    CollapsedAfterSpace(s, n + 1);
  }

  lemma JoinCons(sep: string, w: string, ws: seq<string>)
    requires ws != []
    ensures Join(sep, [w] + ws) == w + sep + Join(sep, ws)
  {
    assert ([w] + ws)[1..] == ws;
  }

  lemma {:induction false} CollapsedIsFixed(s: string)
    requires Collapsed(s)
    decreases |s|
    ensures Collapse(s) == s
  {
    if s != [] {
      var n := WordLength(s);
      WordLengthSpec(s);
      if n == |s| {
        WordsAfterWord(s, []);
        assert s + [] == s;
      } else {
        CollapsedStep(s);
        var t := s[n + 1..];
        CollapsedIsFixed(t);
        assert s == s[..n] + " " + t;
        FixedStep(s, s[..n], t);
      }
    }
  }

  /** A word, one space and a text that collapsing leaves alone is left alone. */
  lemma FixedStep(s: string, w: string, t: string)
    requires s == w + " " + t && IsWord(w) && t != [] && !IsSpace(t[0]) && Collapse(t) == t
    ensures Collapse(s) == s
  {
    WordsOfWordAndRest(s, w, t);
    NoWordsIffAllSpace(t);
    JoinCons(" ", w, Words(t));
  }

  /** The words of a word, one space and more text. */
  lemma WordsOfWordAndRest(s: string, w: string, t: string)
    requires s == w + " " + t && IsWord(w)
    ensures Words(s) == [w] + Words(t)
  {
    var st := [' '] + t;
    WordsAfterSpace(' ', t);
    WordsAfterWord(w, st);
    assert s == w + st;
  }

  /** Text that is empty or ends in whitespace splits apart from what follows it. */
  lemma {:induction false} WordsAppend(p: string, t: string)
    requires p == [] || IsSpace(p[|p| - 1])
    decreases |p|
    ensures Words(p + t) == Words(p) + Words(t)
  {
    if p == [] {
      assert p + t == t;
    } else if IsSpace(p[0]) {
      assert (p + t)[1..] == p[1..] + t;
      WordsAppend(p[1..], t);
    } else {
      var n := WordLength(p);
      WordLengthSpec(p);
      assert n < |p|;
      assert p == p[..n] + p[n..];
      assert p + t == p[..n] + (p[n..] + t);
      WordLengthOfWord(p[..n], p[n..] + t);
      WordLengthOfWord(p[..n], p[n..]);
      assert (p + t)[..n] == p[..n] && (p + t)[n..] == p[n..] + t;
      WordsAppend(p[n..], t);
    }
  }

  /** Joining words with single spaces and splitting again gives the words back. */
  lemma {:induction false} WordsOfJoin(ws: seq<string>)
    requires forall k :: 0 <= k < |ws| ==> IsWord(ws[k])
    ensures Words(Join(" ", ws)) == ws
  {
    if |ws| == 1 {
      WordsAfterWord(ws[0], []);
      assert ws[0] + [] == ws[0];
    } else if |ws| > 1 {
      var rest := ws[1..];
      assert ws == [ws[0]] + rest;
      JoinCons(" ", ws[0], rest);
      WordsOfJoin(rest);
      WordsOfWordAndRest(Join(" ", ws), ws[0], Join(" ", rest));
    }
  }

  /** Collapsing keeps the words, in order and in number. */
  lemma WordsOfCollapse(s: string)
    ensures Words(Collapse(s)) == Words(s)
  {
    WordsAreWords(s);
    WordsOfJoin(Words(s));
  }

  lemma CollapseFixedIff(s: string)
    ensures Collapse(s) == s <==> Collapsed(s)
  {
    CollapseIsCollapsed(s);
    if Collapsed(s) {
      CollapsedIsFixed(s);
    }
  }

  lemma CollapseIdempotent(s: string)
    ensures Collapse(Collapse(s)) == Collapse(s)
  {
    CollapseIsCollapsed(s);
    CollapsedIsFixed(Collapse(s));
  }

  /** `x` occurs in one of the strings `ws`. */
  predicate InSome(x: char, ws: seq<string>) {
    exists k :: 0 <= k < |ws| && x in ws[k]
  }

  lemma InSomeCons(x: char, w: string, ws: seq<string>)
    ensures InSome(x, [w] + ws) <==> x in w || InSome(x, ws)
  {
    var vs := [w] + ws;
    if x in w {
      assert vs[0] == w;
    }
    if InSome(x, ws) {
      var k :| 0 <= k < |ws| && x in ws[k];
      assert vs[k + 1] == ws[k];
    }
    if InSome(x, vs) {
      var k :| 0 <= k < |vs| && x in vs[k];
      if k > 0 {
        assert vs[k] == ws[k - 1];
      }
    }
  }

  lemma {:induction false} JoinContains(sep: string, ws: seq<string>, x: char)
    requires x !in sep
    ensures x in Join(sep, ws) <==> InSome(x, ws)
  {
    if |ws| == 1 {
      InSomeCons(x, ws[0], []);
      assert ws == [ws[0]] + [];
    } else if |ws| >= 2 {
      JoinContains(sep, ws[1..], x);
      assert Join(sep, ws) == ws[0] + sep + Join(sep, ws[1..]);
      InSomeCons(x, ws[0], ws[1..]);
      assert ws == [ws[0]] + ws[1..];
    }
  }

  lemma {:induction false} WordsContain(s: string, x: char)
    requires !IsSpace(x)
    decreases |s|
    ensures x in s <==> InSome(x, Words(s))
  {
    if s != [] {
      assert s == [s[0]] + s[1..];
      if IsSpace(s[0]) {
        WordsContain(s[1..], x);
        assert Words(s) == Words(s[1..]);
        assert x in s <==> x in s[1..];
      } else {
        var n := WordLength(s);
        WordsContain(s[n..], x);
        assert s == s[..n] + s[n..];
        assert Words(s) == [s[..n]] + Words(s[n..]);
        InSomeCons(x, s[..n], Words(s[n..]));
      }
    }
  }

  /** Collapsing keeps every non-whitespace character that occurs. */
  lemma CollapseKeepsVisible(s: string, x: char)
    requires !IsSpace(x)
    ensures x in Collapse(s) <==> x in s
  {
    var ws := Words(s);
    assert x !in " ";
    JoinContains(" ", ws, x);
    WordsContain(s, x);
  }

  // ---------------------------------------------------------------------------
  // str.strip()

  function StripLeft(s: string): (r: string)
    ensures |r| <= |s| && r == s[|s| - |r|..] && AllSpace(s[..|s| - |r|])
    ensures r == [] || !IsSpace(r[0])
  {
    if s != [] && IsSpace(s[0]) then
      var r := StripLeft(s[1..]);
      assert s[1..][..|s| - 1 - |r|] == s[1..|s| - |r|];
      r
    else s
  }

  function StripRight(s: string): (r: string)
    ensures |r| <= |s| && r == s[..|r|] && AllSpace(s[|r|..])
    ensures r == [] || !IsSpace(r[|r| - 1])
  {
    if s != [] && IsSpace(s[|s| - 1]) then
      var r := StripRight(s[..|s| - 1]);
      assert s[|r|..] == s[..|s| - 1][|r|..] + [s[|s| - 1]];
      r
    else s
  }

  /** `s.strip()`: `s` with its leading and trailing whitespace removed. */
  function Strip(s: string): (r: string)
    ensures r == [] || (!IsSpace(r[0]) && !IsSpace(r[|r| - 1]))
    ensures r == [] <==> AllSpace(s)
  {
    var l := StripLeft(s);
    var r := StripRight(l);
    StripEnds(l, r);
    StripEmpty(s, l, r, |s| - |l|);
    r
  }

  /** What `strip` keeps is a slice of `s` with only whitespace around it. */
  lemma StripIsSlice(s: string) returns (i: nat)
    ensures i + |Strip(s)| <= |s| && s[i..i + |Strip(s)|] == Strip(s)
    ensures AllSpace(s[..i]) && AllSpace(s[i + |Strip(s)|..])
  {
    var l := StripLeft(s);
    i := |s| - |l|;
    StripWitness(s, l, StripRight(l), i);
  }

  lemma StripWitness(s: string, l: string, r: string, i: nat)
    requires i <= |s| && l == s[i..] && AllSpace(s[..i])
    requires |r| <= |l| && r == l[..|r|] && AllSpace(l[|r|..])
    ensures i + |r| <= |s| && s[i..i + |r|] == r && AllSpace(s[..i]) && AllSpace(s[i + |r|..])
  {
    assert s[i + |r|..] == l[|r|..];
  }

  lemma StripEnds(l: string, r: string)
    requires l == [] || !IsSpace(l[0])
    requires |r| <= |l| && r == l[..|r|] && (r == [] || !IsSpace(r[|r| - 1]))
    ensures r == [] || (!IsSpace(r[0]) && !IsSpace(r[|r| - 1]))
  {
    if r != [] {
      assert r[0] == l[0];
    }
  }

  lemma StripEmpty(s: string, l: string, r: string, i: nat)
    requires i <= |s| && l == s[i..] && AllSpace(s[..i]) && (l == [] || !IsSpace(l[0]))
    requires |r| <= |l| && r == l[..|r|] && AllSpace(l[|r|..])
    ensures r == [] <==> AllSpace(s)
  {
    if r == [] {
      assert l[|r|..] == l;
      assert i == |s|;
      assert s[..i] == s;
    }
    if AllSpace(s) {
      AllSpaceSuffix(s, i);
    }
  }

  lemma AllSpaceSuffix(s: string, i: nat)
    requires i <= |s| && AllSpace(s)
    ensures AllSpace(s[i..])
  {
    forall j | 0 <= j < |s| - i
      ensures IsSpace(s[i..][j])
    {
      assert s[i..][j] == s[i + j];
    }
  }

  // ---------------------------------------------------------------------------
  // str.split(sep) and sep.join(...) with an explicit separator

  /** `s.split(sep)` for a non-empty separator. */
  function SplitOn(s: string, sep: string): (parts: seq<string>)
    requires sep != []
    decreases |s|
    ensures parts != []
    ensures !Contains(Last(parts), sep)
  {
    var k := Find(s, sep);
    FindSpec(s, sep);
    if k < 0 then [s] else [s[..k]] + SplitOn(s[k + |sep|..], sep)
  }

  /** Splitting at the first occurrence of the separator. */
  lemma SplitOnFound(s: string, sep: string, k: nat)
    requires sep != [] && k == Find(s, sep) && k + |sep| <= |s|
    ensures SplitOn(s, sep) == [s[..k]] + SplitOn(s[k + |sep|..], sep)
  {
  }

  /** The last occurrence of a border-free `sep` in `s`, found from its first one. */
  lemma RFindAfterFirst(s: string, sep: string, k: nat)
    requires sep != [] && BorderFree(sep) && k == Find(s, sep)
    ensures k + |sep| <= |s|
    ensures var m := k + |sep|; var r := RFind(s[m..], sep);
      RFind(s, sep) == if r < 0 then k else m + r
  {
    FindSpec(s, sep);
    var m := k + |sep|;
    var rest := s[m..];
    var r := RFind(rest, sep);
    RFindSpec(s, sep);
    RFindSpec(rest, sep);
    forall j | j > k && OccursAt(s, sep, j)
      ensures j >= m && OccursAt(rest, sep, j - m)
    {
      NoOverlap(s, sep, k, j);
      OccursInSuffix(s, sep, m, j - m);
    }
    if r >= 0 {
      OccursInSuffix(s, sep, m, r);
    }
  }

  /** `s.split(sep)[-1]` is what follows the last occurrence of a border-free
      separator, or all of `s` when the separator does not occur. */
  lemma {:induction false} LastPiece(s: string, sep: string)
    requires sep != [] && BorderFree(sep)
    decreases |s|, 1
    ensures Last(SplitOn(s, sep)) == if RFind(s, sep) < 0 then s else s[RFind(s, sep) + |sep|..]
  {
    if Find(s, sep) >= 0 {
      LastPieceFound(s, sep, Find(s, sep));
    } else {
      FindSpec(s, sep);
      RFindSpec(s, sep);
      SplitOnAbsent(s, sep);
    }
  }

  lemma LastOfCons<T>(x: T, ys: seq<T>)
    requires ys != []
    ensures Last([x] + ys) == Last(ys)
  {
  }

  lemma SplitOnAbsent(s: string, sep: string)
    requires sep != [] && Find(s, sep) < 0
    ensures SplitOn(s, sep) == [s]
  {
  }

  lemma {:induction false} LastPieceFound(s: string, sep: string, k: nat)
    requires sep != [] && BorderFree(sep) && k == Find(s, sep)
    decreases |s|, 0
    ensures RFind(s, sep) >= 0 && Last(SplitOn(s, sep)) == s[RFind(s, sep) + |sep|..]
  {
    RFindAfterFirst(s, sep, k);
    var m := k + |sep|;
    var rest := s[m..];
    var r := RFind(rest, sep);
    var last := RFind(s, sep);
    assert last == if r < 0 then k else m + r;
    var piece := Last(SplitOn(rest, sep));
    LastPiece(rest, sep);
    assert Last(SplitOn(s, sep)) == piece by {
      SplitOnFound(s, sep, k);
      LastOfCons(s[..k], SplitOn(rest, sep));
    }
    LastPieceStep(s, sep, m, r, piece, last);
  }

  lemma LastPieceStep(s: string, sep: string, m: nat, r: int, piece: string, last: int)
    requires m <= |s| && (r < 0 || m + r + |sep| <= |s|)
    requires piece == if r < 0 then s[m..] else s[m..][r + |sep|..]
    requires last == if r < 0 then m - |sep| else m + r
    ensures piece == s[last + |sep|..]
  {
    if r >= 0 {
      assert s[m + r + |sep|..] == s[m..][r + |sep|..];
    }
  }

  /** Splitting a joined list on a border-free separator that no part contains
      gives the parts back. */
  lemma {:induction false} SplitJoin(ws: seq<string>, sep: string)
    requires sep != [] && BorderFree(sep) && ws != []
    requires forall k :: 0 <= k < |ws| ==> !Contains(ws[k], sep)
    ensures SplitOn(Join(sep, ws), sep) == ws
  {
    if |ws| == 1 {
      FindSpec(ws[0], sep);
      SplitOnAbsent(ws[0], sep);
    } else {
      var rest := ws[1..];
      assert forall k :: 0 <= k < |rest| ==> rest[k] == ws[k + 1];
      SplitJoin(rest, sep);
      var j := Join(sep, ws);
      assert j == ws[0] + sep + Join(sep, rest);
      FirstSeparator(j, ws[0], sep, Join(sep, rest));
      SplitAtFirst(j, ws[0], sep, Join(sep, rest));
      assert ws == [ws[0]] + rest;
    }
  }

  /** Splitting `w + sep + rest` at its first separator, which follows `w`. */
  lemma SplitAtFirst(j: string, w: string, sep: string, rest: string)
    requires sep != [] && j == w + sep + rest && Find(j, sep) == |w|
    ensures SplitOn(j, sep) == [w] + SplitOn(rest, sep)
  {
    SplitOnFound(j, sep, |w|);
    assert j[..|w|] == w;
    assert j[|w| + |sep|..] == rest;
  }

  /** In `w + sep + rest`, where `w` does not contain the border-free `sep`, the
      first `sep` is the one after `w`. */
  lemma FirstSeparator(j: string, w: string, sep: string, rest: string)
    requires sep != [] && BorderFree(sep) && !Contains(w, sep) && j == w + sep + rest
    ensures Find(j, sep) == |w|
  {
    assert OccursAt(j, sep, |w|) by {
      assert j[|w|..|w| + |sep|] == sep;
    }
    forall i | 0 <= i < |w|
      ensures !OccursAt(j, sep, i)
    {
      if OccursAt(j, sep, i) {
        if i + |sep| <= |w| {
          assert w[i..i + |sep|] == j[i..i + |sep|];
          assert OccursAt(w, sep, i);
        } else {
          NoOverlap(j, sep, i, |w|);
        }
      }
    }
    FindSpec(j, sep);
  }

  /** When `s` is `p + t`, `p` ends with `sep` and the last character of `sep`
      does not occur in `t`, the last `sep` in `s` is the one that ends `p`. */
  lemma RFindBeforeSuffix(s: string, p: string, t: string, sep: string)
    requires sep != [] && s == p + t && |sep| <= |p| && p[|p| - |sep|..] == sep
    requires sep[|sep| - 1] !in t
    ensures RFind(s, sep) == |p| - |sep|
  {
    var k := |p| - |sep|;
    assert OccursAt(s, sep, k) by {
      assert s[k..k + |sep|] == p[k..];
    }
    RFindSpec(s, sep);
  }

  /** `c` does not occur, so `rfind` gives -1. */
  lemma RFindCharAbsent(s: string, c: char)
    requires c !in s
    ensures RFind(s, [c]) == -1
  {
    RFindSpec(s, [c]);
    ContainsChar(s, c);
  }

  /** `(p + t).split(sep)[-1]` is `t` when `p` ends with the border-free `sep` and
      the last character of `sep` does not occur in `t`. */
  lemma LastPieceAfter(p: string, t: string, sep: string)
    requires sep != [] && BorderFree(sep) && |sep| <= |p| && p[|p| - |sep|..] == sep
    requires sep[|sep| - 1] !in t
    ensures Last(SplitOn(p + t, sep)) == t
  {
    var s := p + t;
    RFindBeforeSuffix(s, p, t, sep);
    LastPiece(s, sep);
    assert s[|p|..] == t;
  }
}
