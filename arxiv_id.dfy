/** Validation of arXiv identifiers (`is_valid`, with the NEW_STYLE and
    OLD_STYLE patterns), written as explicit predicates, and the structure of
    the identifiers they accept. */
module ArxivId {
  import opened Outcomes
  import opened Text

  /** The archives the old-style pattern enumerates without subject classes. */
  const PlainArchives: seq<string> :=
    ["math-ph", "hep-ph", "nucl-ex", "nucl-th", "gr-qc", "astro-ph", "hep-lat", "quant-ph", "hep-ex", "hep-th"]

  const StatSubjects: seq<string> := ["AP", "CO", "ML", "ME", "TH"]

  const QBioSubjects: seq<string> := ["BM", "CB", "GN", "MN", "NC", "OT", "PE", "QM", "SC", "TO"]

  const CondMatSubjects: seq<string> :=
    ["dis-nn", "mes-hall", "mtrl-sci", "other", "soft", "stat-mech", "str-el", "supr-con"]

  const CsSubjects: seq<string> :=
    ["AR", "AI", "CL", "CC", "CE", "CG", "GT", "CV", "CY", "CR", "DS", "DB", "DL",
     "DM", "DC", "GL", "GR", "HC", "IR", "IT", "LG", "LO", "MS", "MA", "MM", "NI",
     "NE", "NA", "OS", "OH", "PF", "PL", "RO", "SE", "SD", "SC"]

  const NlinSubjects: seq<string> := ["AO", "CG", "CD", "SI", "PS"]

  const PhysicsSubjects: seq<string> :=
    ["acc-ph", "ao-ph", "atom-ph", "atm-clus", "bio-ph", "chem-ph", "class-ph",
     "comp-ph", "data-an", "flu-dyn", "gen-ph", "geo-ph", "hist-ph", "ins-det",
     "med-ph", "optics", "ed-ph", "soc-ph", "plasm-ph", "pop-ph", "space-ph"]

  const MathSubjects: seq<string> :=
    ["AG", "AT", "AP", "CT", "CA", "CO", "AC", "CV", "DG", "DS", "FA", "GM", "GN",
     "GT", "GR", "HO", "IT", "KT", "LO", "MP", "MG", "NT", "NA", "OA", "OC", "PR",
     "QA", "RT", "RA", "SP", "ST", "SG"]

  /** The archives of the old-style pattern, each with the subject classes it
      allows after a `.`; `None` for anything else. */
  function Subjects(archive: string): Option<seq<string>> {
    if archive in PlainArchives then Some([])
    else if archive == "stat" then Some(StatSubjects)
    else if archive == "q-bio" then Some(QBioSubjects)
    else if archive == "cond-mat" then Some(CondMatSubjects)
    else if archive == "cs" then Some(CsSubjects)
    else if archive == "nlin" then Some(NlinSubjects)
    else if archive == "physics" then Some(PhysicsSubjects)
    else if archive == "math" then Some(MathSubjects)
    else None
  }

  /** `(v\d+)?`: nothing, or `v` and at least one digit. */
  predicate IsVersion(v: string) {
    v == [] || (|v| >= 2 && v[0] == 'v' && AllDigits(v[1..]))
  }

  /** The length of the longest prefix of `s` made of digits. */
  function DigitRun(s: string): (n: nat)
    ensures n <= |s| && AllDigits(s[..n])
    ensures n < |s| ==> !IsDigit(s[n])
  {
    if s == [] || !IsDigit(s[0]) then 0
    else
      var n := 1 + DigitRun(s[1..]);
      assert s[..n] == [s[0]] + s[1..][..n - 1];
      n
  }

  /** NEW_STYLE, `^\d{4}\.\d{4,}(v\d+)?$`: since the version starts with a
      letter, the second group of digits is the longest digit run after the dot. */
  predicate IsNewStyle(s: string) {
    |s| >= 5 && AllDigits(s[..4]) && s[4] == '.'
    && var n := DigitRun(s[5..]); n >= 4 && IsVersion(s[5 + n..])
  }

  /** What OLD_STYLE allows before the `/`: an archive, optionally followed
      by `.` and one of that archive's subject classes. */
  predicate IsArchivePrefix(p: string) {
    var d := Find(p, ".");
    if d < 0 then Subjects(p).Some?
    else Subjects(p[..d]).Some? && p[d + 1..] in Subjects(p[..d]).value
  }

  /** OLD_STYLE, `^(archive(\.subject)?)/\d{7}(v\d+)?$`: no archive or subject
      contains `/`, so the prefix ends at the first `/`. */
  predicate IsOldStyle(s: string) {
    var k := Find(s, "/");
    k >= 0 && IsArchivePrefix(s[..k])
    && |s| >= k + 8 && AllDigits(s[k + 1..k + 8]) && IsVersion(s[k + 8..])
  }

  /** One of the two patterns describes all of `s`. */
  predicate Matches(s: string) {
    IsNewStyle(s) || IsOldStyle(s)
  }

  /** `is_valid(arxiv_id)`. A pattern ending in `$` also matches when a single
      newline follows the text it describes. */
  predicate IsValid(s: string) {
    Matches(s) || (|s| > 0 && s[|s| - 1] == '\n' && Matches(s[..|s| - 1]))
  }

  // ---------------------------------------------------------------------------
  // The identifiers the patterns describe

  /** An arXiv identifier by its parts; an empty `subject` or `version` is absent,
      and a version is kept without its `v`. */
  datatype Identifier =
    | NewStyle(yymm: string, number: string, version: string)
    | OldStyle(archive: string, subject: string, number: string, version: string)

  function VersionSuffix(v: string): string {
    if v == [] then [] else "v" + v
  }

  /** The text of an identifier. */
  function Spell(id: Identifier): string {
    match id
    case NewStyle(y, n, v) => y + "." + n + VersionSuffix(v)
    case OldStyle(a, sub, n, v) => a + (if sub == [] then [] else "." + sub) + "/" + n + VersionSuffix(v)
  }

  /** The parts the two patterns require: four digits, a dot and at least four
      digits; or a listed archive, one of its subject classes if any, and
      exactly seven digits; in both cases a version of digits, if present. */
  predicate WellFormed(id: Identifier) {
    match id
    case NewStyle(y, n, v) =>
      |y| == 4 && AllDigits(y) && |n| >= 4 && AllDigits(n) && AllDigits(v)
    case OldStyle(a, sub, n, v) =>
      Subjects(a).Some? && (sub == [] || sub in Subjects(a).value)
      && |n| == 7 && AllDigits(n) && AllDigits(v)
  }

  /** A name that cannot be confused with the punctuation around it. */
  predicate Plain(w: string) {
    w != [] && '.' !in w && '/' !in w && 'v' !in w
  }

  predicate AllPlain(ws: seq<string>) {
    forall i :: 0 <= i < |ws| ==> Plain(ws[i])
  }

  predicate PlainBetween(ws: seq<string>, lo: nat, hi: nat) {
    forall i :: lo <= i < hi && i < |ws| ==> Plain(ws[i])
  }

  lemma PlainArchivesArePlain() ensures AllPlain(PlainArchives) {}
  lemma StatSubjectsArePlain() ensures AllPlain(StatSubjects) {}
  lemma QBioSubjectsArePlain() ensures AllPlain(QBioSubjects) {}
  lemma CondMatSubjectsArePlain() ensures AllPlain(CondMatSubjects) {}
  lemma CsSubjectsLow() ensures PlainBetween(CsSubjects, 0, 12) {}
  lemma CsSubjectsMid() ensures PlainBetween(CsSubjects, 12, 24) {}
  lemma CsSubjectsHigh() ensures PlainBetween(CsSubjects, 24, 36) {}
  lemma CsSubjectsArePlain() ensures AllPlain(CsSubjects) {
    CsSubjectsLow();
    CsSubjectsMid();
    CsSubjectsHigh();
  }
  lemma NlinSubjectsArePlain() ensures AllPlain(NlinSubjects) {}
  lemma PhysicsSubjectsLow() ensures PlainBetween(PhysicsSubjects, 0, 7) {}
  lemma PhysicsSubjectsMid() ensures PlainBetween(PhysicsSubjects, 7, 14) {}
  lemma PhysicsSubjectsHigh() ensures PlainBetween(PhysicsSubjects, 14, 21) {}
  lemma PhysicsSubjectsArePlain() ensures AllPlain(PhysicsSubjects) {
    PhysicsSubjectsLow();
    PhysicsSubjectsMid();
    PhysicsSubjectsHigh();
  }
  lemma MathSubjectsLow() ensures PlainBetween(MathSubjects, 0, 16) {}
  lemma MathSubjectsHigh() ensures PlainBetween(MathSubjects, 16, 32) {}
  lemma MathSubjectsArePlain() ensures AllPlain(MathSubjects) {
    MathSubjectsLow();
    MathSubjectsHigh();
  }

  /** No archive or subject class name is empty or contains `.`, `/` or `v`. */
  lemma ArchiveTableIsPlain(a: string)
    requires Subjects(a).Some?
    ensures Plain(a) && forall sub :: sub in Subjects(a).value ==> Plain(sub)
  {
    PlainArchivesArePlain();
    StatSubjectsArePlain();
    QBioSubjectsArePlain();
    CondMatSubjectsArePlain();
    CsSubjectsArePlain();
    NlinSubjectsArePlain();
    PhysicsSubjectsArePlain();
    MathSubjectsArePlain();
  }

  lemma VersionSpelled(v: string)
    requires AllDigits(v)
    ensures IsVersion(VersionSuffix(v))
  {
    if v != [] {
      assert VersionSuffix(v)[1..] == v;
    }
  }

  lemma NewStyleSpelled(y: string, n: string, v: string)
    requires WellFormed(NewStyle(y, n, v))
    ensures IsNewStyle(Spell(NewStyle(y, n, v)))
  {
    var s := Spell(NewStyle(y, n, v));
    var vs := VersionSuffix(v);
    VersionSpelled(v);
    assert s == y + "." + n + vs;
    assert s[..4] == y;
    var t := s[5..];
    assert t == n + vs;
    assert t[..|n|] == n;
    assert DigitRun(t) == |n|;
    assert s[5 + |n|..] == vs;
  }

  /** The spelled prefix of an old-style identifier has no '/' and is a listed archive
      with one of its subject classes, if any. */
  lemma PrefixSpelled(a: string, sub: string) returns (p: string)
    requires Subjects(a).Some? && (sub == [] || sub in Subjects(a).value)
    ensures p == a + (if sub == [] then [] else "." + sub)
    ensures '/' !in p && IsArchivePrefix(p)
  {
    p := a + (if sub == [] then [] else "." + sub);
    ArchiveTableIsPlain(a);
    if sub == [] {
      FindCharAbsent(p, '.');
    } else {
      FindCharAt(p, '.', |a|);
      assert p[..|a|] == a;
      assert p[|a| + 1..] == sub;
    }
  }

  lemma OldStyleSpelled(a: string, sub: string, n: string, v: string)
    requires WellFormed(OldStyle(a, sub, n, v))
    ensures IsOldStyle(Spell(OldStyle(a, sub, n, v)))
  {
    var p := PrefixSpelled(a, sub);
    VersionSpelled(v);
    OldStyleJoined(p, n, VersionSuffix(v));
  }

  lemma OldStyleJoined(p: string, n: string, vs: string)
    requires '/' !in p && IsArchivePrefix(p)
    requires |n| == 7 && AllDigits(n) && IsVersion(vs)
    ensures IsOldStyle(p + "/" + n + vs)
  {
    var s := p + "/" + n + vs;
    FindCharAt(s, '/', |p|);
    assert s[..|p|] == p;
    assert s[|p| + 1..|p| + 8] == n;
    assert s[|p| + 8..] == vs;
  }

  /** Every well-formed identifier is accepted by the pattern of its style. */
  lemma SpelledIsValid(id: Identifier)
    requires WellFormed(id)
    ensures id.NewStyle? ==> IsNewStyle(Spell(id))
    ensures id.OldStyle? ==> IsOldStyle(Spell(id))
  {
    match id
    case NewStyle(y, n, v) => NewStyleSpelled(y, n, v);
    case OldStyle(a, sub, n, v) => OldStyleSpelled(a, sub, n, v);
  }

  function ParseNewStyle(s: string): (id: Identifier)
    requires IsNewStyle(s)
    ensures id.NewStyle? && WellFormed(id) && Spell(id) == s
  {
    var n := DigitRun(s[5..]);
    var y, digits, vs := s[..4], s[5..5 + n], s[5 + n..];
    var v := if vs == [] then [] else vs[1..];
    assert s[5..][..n] == digits;
    assert VersionSuffix(v) == vs;
    assert s == y + "." + digits + vs;
    NewStyle(y, digits, v)
  }

  lemma SubjectNonEmpty(a: string, sub: string)
    requires Subjects(a).Some? && sub in Subjects(a).value
    ensures sub != []
  {
    ArchiveTableIsPlain(a);
  }

  /** The old-style text rebuilt from the prefix before `/`, the digits and the version. */
  lemma OldStyleRebuilt(s: string, k: nat, a: string, sub: string, v: string)
    requires k + 8 <= |s| && s[k] == '/'
    requires s[..k] == a + (if sub == [] then [] else "." + sub)
    requires VersionSuffix(v) == s[k + 8..]
    ensures Spell(OldStyle(a, sub, s[k + 1..k + 8], v)) == s
  {
    assert s == s[..k] + "/" + s[k + 1..k + 8] + s[k + 8..];
  }

  function ParseOldStyle(s: string): (id: Identifier)
    requires IsOldStyle(s)
    ensures id.OldStyle? && WellFormed(id) && Spell(id) == s
  {
    var k := Find(s, "/");
    var p := s[..k];
    var d := Find(p, ".");
    var a := if d < 0 then p else p[..d];
    var sub := if d < 0 then [] else p[d + 1..];
    var vs := s[k + 8..];
    var v := if vs == [] then [] else vs[1..];
    PrefixParts(p, d, a, sub);
    VersionParts(vs, v);
    SlashAt(s, k);
    OldStyleRebuilt(s, k, a, sub, v);
    OldStyle(a, sub, s[k + 1..k + 8], v)
  }

  /** The archive and subject class read off an old-style prefix. */
  lemma PrefixParts(p: string, d: int, a: string, sub: string)
    requires IsArchivePrefix(p) && d == Find(p, ".")
    requires a == (if d < 0 then p else p[..d])
    requires sub == (if d < 0 then [] else p[d + 1..])
    ensures Subjects(a).Some? && (sub == [] || sub in Subjects(a).value)
    ensures p == a + (if sub == [] then [] else "." + sub)
  {
    if d >= 0 {
      DotAt(p, d);
      SubjectNonEmpty(a, sub);
    }
  }

  /** The digits of a version suffix accepted by `(v\d+)?`. */
  lemma VersionParts(vs: string, v: string)
    requires IsVersion(vs) && v == (if vs == [] then [] else vs[1..])
    ensures AllDigits(v) && VersionSuffix(v) == vs
  {
  }

  lemma DotAt(p: string, d: int)
    requires d == Find(p, ".") && d >= 0
    ensures p == p[..d] + "." + p[d + 1..]
  {
    FindSpec(p, ".");
    OccursAtChar(p, '.', d);
  }

  lemma SlashAt(s: string, k: int)
    requires k == Find(s, "/") && k >= 0
    ensures k < |s| && s[k] == '/'
  {
    FindSpec(s, "/");
    OccursAtChar(s, '/', k);
  }

  /** The parts of an identifier one of the patterns describes. */
  function Parse(s: string): (id: Identifier)
    requires Matches(s)
    ensures WellFormed(id) && Spell(id) == s
  {
    if IsNewStyle(s) then ParseNewStyle(s) else ParseOldStyle(s)
  }

  /** `s` is the text of some well-formed identifier. */
  ghost predicate Spelled(s: string) {
    exists id :: WellFormed(id) && Spell(id) == s
  }

  /** The patterns describe exactly the spellings of well-formed identifiers. */
  lemma MatchesIffWellFormed(s: string)
    ensures Matches(s) <==> Spelled(s)
  {
    if Matches(s) {
      var id := Parse(s);
    }
    forall id | WellFormed(id) && Spell(id) == s
      ensures Matches(s)
    {
      SpelledIsValid(id);
    }
  }

  /** `is_valid` accepts exactly the spellings of well-formed identifiers, each
      with or without one trailing newline. */
  lemma ValidIffWellFormed(s: string)
    ensures IsValid(s) <==> Spelled(s) || (|s| > 0 && s[|s| - 1] == '\n' && Spelled(s[..|s| - 1]))
  {
    MatchesIffWellFormed(s);
    if |s| > 0 {
      MatchesIffWellFormed(s[..|s| - 1]);
    }
  }

  // ---------------------------------------------------------------------------
  // Where `/` and `v` occur in an identifier

  /** The identifier without its version. */
  function Unversioned(id: Identifier): Identifier {
    match id
    case NewStyle(y, n, _) => NewStyle(y, n, [])
    case OldStyle(a, sub, n, _) => OldStyle(a, sub, n, [])
  }

  /** The text an old-style identifier has before its `/`. */
  function OldPrefix(a: string, sub: string): string {
    a + (if sub == [] then [] else "." + sub)
  }

  /** An identifier's text is its unversioned text followed by the version. */
  lemma SpellVersion(id: Identifier)
    ensures Spell(id) == Spell(Unversioned(id)) + VersionSuffix(id.version)
  {
    match id
    case NewStyle(y, n, v) =>
      assert Spell(Unversioned(id)) == y + "." + n + [];
    case OldStyle(a, sub, n, v) =>
      assert Spell(Unversioned(id)) == OldPrefix(a, sub) + "/" + n + [];
  }

  /** Before its version, a well-formed identifier has no `v`. */
  lemma UnversionedHasNoV(id: Identifier)
    requires WellFormed(id)
    ensures 'v' !in Spell(Unversioned(id))
  {
    match id
    case NewStyle(y, n, v) =>
      assert Spell(Unversioned(id)) == y + "." + n + [];
    case OldStyle(a, sub, n, v) =>
      ArchiveTableIsPlain(a);
      assert Spell(Unversioned(id)) == OldPrefix(a, sub) + "/" + n + [];
  }

  /** A version suffix holds `v` only as its first character, and no `/`. */
  lemma VersionSuffixChars(v: string)
    requires AllDigits(v)
    ensures '/' !in VersionSuffix(v)
    ensures v != [] ==> VersionSuffix(v) == "v" + v && 'v' !in v
  {
  }

  /** A new-style identifier has no `/`. */
  lemma NewStyleHasNoSlash(id: Identifier)
    requires id.NewStyle? && WellFormed(id)
    ensures '/' !in Spell(id)
  {
    VersionSuffixChars(id.version);
  }

  /** An old-style identifier is its prefix, `/`, and a tail without `/`. */
  lemma OldStyleTail(id: Identifier)
    requires id.OldStyle? && WellFormed(id)
    ensures Spell(id) == OldPrefix(id.archive, id.subject) + "/" + (id.number + VersionSuffix(id.version))
    ensures '/' !in id.number + VersionSuffix(id.version)
  {
    VersionSuffixChars(id.version);
  }

  /** The number and version of an old-style identifier, on their own, are not accepted. */
  lemma OldStyleTailRejected(id: Identifier)
    requires id.OldStyle? && WellFormed(id)
    ensures !IsValid(id.number + VersionSuffix(id.version))
  {
    var vs := VersionSuffix(id.version);
    var t := id.number + vs;
    VersionSuffixChars(id.version);
    assert t[4] == id.number[4];
    assert !IsNewStyle(t);
    FindCharAbsent(t, '/');
    assert t[|t| - 1] != '\n' by {
      if vs == [] {
        assert t[|t| - 1] == id.number[6];
      } else {
        assert t[|t| - 1] == id.version[|id.version| - 1];
      }
    }
    Unmatched(t);
  }

  /** A text without `/` that does not start with a digit and does not end in a
      newline is rejected. */
  lemma SlashlessLetterFirstRejected(s: string)
    requires s != [] && !IsDigit(s[0]) && '/' !in s && s[|s| - 1] != '\n'
    ensures !IsValid(s)
  {
    LetterFirstNotNewStyle(s);
    FindCharAbsent(s, '/');
    Unmatched(s);
  }

  // ---------------------------------------------------------------------------
  // Examples

  lemma NewStyleAccepted()
    ensures IsValid("2310.01234v2")
  {
    var id := NewStyle("2310", "01234", "2");
    SpelledIsValid(id);
    assert Spell(id) == "2310.01234v2";
  }

  lemma ShortNumberRejected(s: string)
    requires s == "2310.123"
    ensures !IsValid(s)
  {
    assert |s[5..]| == 3 && s[|s| - 1] != '\n';
    FindCharAbsent(s, '/');
  }

  lemma OldStyleAccepted()
    ensures IsValid("hep-th/0601001")
  {
    var id := OldStyle("hep-th", "", "0601001", "");
    SpelledIsValid(id);
    assert Spell(id) == "hep-th/0601001";
  }

  /** The newline that ends a line of input does not make an identifier invalid. */
  lemma TrailingNewlineAccepted()
    ensures IsValid("hep-th/0601001\n")
  {
    OldStyleAccepted();
    assert "hep-th/0601001\n"[..14] == "hep-th/0601001";
  }

  /** A text that starts with a letter is not new-style. */
  lemma LetterFirstNotNewStyle(s: string)
    requires s != [] && !IsDigit(s[0])
    ensures !IsNewStyle(s)
  {
    if |s| >= 4 {
      assert s[..4][0] == s[0];
    }
  }

  /** An old-style text needs a listed prefix before its first `/`. */
  lemma ListedPrefixRequired(s: string, k: nat, p: string)
    requires k < |s| && s[k] == '/' && s[..k] == p && '/' !in p
    ensures IsOldStyle(s) ==> IsArchivePrefix(p)
  {
    FindCharAt(s, '/', k);
  }

  /** A text that neither pattern describes and that does not end in a newline is rejected. */
  lemma Unmatched(s: string)
    requires !IsNewStyle(s) && !IsOldStyle(s) && (s == [] || s[|s| - 1] != '\n')
    ensures !IsValid(s)
  {
  }

  lemma UnlistedArchiveRejected(s: string)
    requires s == "xx-yy/0601001"
    ensures !IsValid(s)
  {
    LetterFirstNotNewStyle(s);
    ListedPrefixRequired(s, 5, "xx-yy");
    UnlistedArchive(s[..5]);
    Unmatched(s);
  }

  lemma UnlistedSubjectRejected(s: string)
    requires s == "astro-ph.XX/0601001"
    ensures !IsValid(s)
  {
    LetterFirstNotNewStyle(s);
    ListedPrefixRequired(s, 11, "astro-ph.XX");
    UnlistedSubject(s[..11]);
    Unmatched(s);
  }

  lemma UnlistedArchive(p: string)
    requires p == "xx-yy"
    ensures !IsArchivePrefix(p)
  {
    FindCharAbsent(p, '.');
    assert p !in PlainArchives by {
      assert forall i :: 0 <= i < |PlainArchives| ==> PlainArchives[i][0] != p[0];
    }
  }

  lemma UnlistedSubject(p: string)
    requires p == "astro-ph.XX"
    ensures !IsArchivePrefix(p)
  {
    FindCharAt(p, '.', 8);
    assert p[..8] == PlainArchives[5];
  }
}
