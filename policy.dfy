/**
 * The guardrail policy checker: three passes over fixed tables, whose
 * findings are concatenated in pass order.
 *   1. discriminatory phrases, as substrings of the lower-cased text;
 *   2. personal data (email, phone, social security number), as regular
 *      expressions searched in the original text, at most one finding per kind;
 *   3. unprofessional words, as substrings of the lower-cased text, reported
 *      together in one finding.
 */
module Policy {
  import opened Strings
  import opened Regex
  import opened Wrappers

  const BannedPatterns: seq<string> := [
    "because you are a woman",
    "because you are a man",
    "because you are muslim",
    "because you are christian",
    "because of your ethnicity",
    "because of your race",
    "because of your gender",
    "because of your age",
    "because of your disability",
    "due to your religion"
  ]

  function Single(c: char): CharRange { CharRange(c, c) }
  function Literal(c: char): Regex { Char(CharClass([Single(c)], false)) }

  /** `\d` */
  const Digit: Regex := Char(CharClass([CharRange('0', '9')], false))
  /** `[-.\s]` */
  const Separator: Regex := Char(CharClass([Single('-'), Single('.')], true))

  /** `\b[A-Za-z0-9._%+-]+@[A-Za-z0-9.-]+\.[A-Z|a-z]{2,}\b` (the `|` inside the last class is a literal bar) */
  const EmailPattern: Regex := Concat(EmailParts)
  const EmailParts: seq<Regex> := [
    WordBoundary,
    OneOrMore(Char(EmailLocalChar)),
    Literal('@'),
    OneOrMore(Char(EmailDomainChar)),
    Literal('.'),
    AtLeast(Char(EmailTopChar), 2),
    WordBoundary
  ]

  /** `[A-Za-z0-9._%+-]` */
  const EmailLocalChar: CharClass := CharClass([CharRange('A', 'Z'), CharRange('a', 'z'), CharRange('0', '9'),
    Single('.'), Single('_'), Single('%'), Single('+'), Single('-')], false)
  /** `[A-Za-z0-9.-]` */
  const EmailDomainChar: CharClass := CharClass([CharRange('A', 'Z'), CharRange('a', 'z'), CharRange('0', '9'),
    Single('.'), Single('-')], false)
  /** `[A-Z|a-z]` */
  const EmailTopChar: CharClass := CharClass([CharRange('A', 'Z'), Single('|'), CharRange('a', 'z')], false)

  /** `\b(?:\+?\d{1,3}[-.\s]?)?\(?\d{3}\)?[-.\s]?\d{3}[-.\s]?\d{4}\b` */
  const PhonePattern: Regex := Concat(PhoneParts)
  const PhoneParts: seq<Regex> := [
    WordBoundary,
    Optional(Concat([Optional(Literal('+')), OneTo(Digit, 3), Optional(Separator)])),
    Optional(Literal('(')),
    Times(Digit, 3),
    Optional(Literal(')')),
    Optional(Separator),
    Times(Digit, 3),
    Optional(Separator),
    Times(Digit, 4),
    WordBoundary
  ]

  /** `\b\d{3}-\d{2}-\d{4}\b` */
  const SsnPattern: Regex := Concat(SsnParts)
  const SsnParts: seq<Regex> := [
    WordBoundary, Times(Digit, 3), Literal('-'), Times(Digit, 2), Literal('-'), Times(Digit, 4), WordBoundary
  ]

  /** One entry of the personal-data table: the kind reported and the pattern searched for. */
  datatype Detector = Detector(kind: string, pattern: Regex)

  /** The personal-data table, in its iteration order. */
  const PiiDetectors: seq<Detector> := [
    Detector("email", EmailPattern),
    Detector("phone", PhonePattern),
    Detector("ssn", SsnPattern)
  ]

  const UnprofessionalWords: seq<string> := ["stupid", "dumb", "idiot", "useless"]

  const DiscriminatoryPrefix := "Discriminatory reasoning detected: '"
  const PiiPrefix := "PII detected: "
  const UnprofessionalPrefix := "Unprofessional language: "

  function DiscriminatoryMessage(pattern: string): string {
    DiscriminatoryPrefix + pattern + "'"
  }

  function PiiMessage(kind: string): string {
    PiiPrefix + kind
  }

  function UnprofessionalMessage(words: seq<string>): string {
    UnprofessionalPrefix + Join(words, ", ")
  }

  /** Pass 1: one message per pattern contained in `lower`, in table order. */
  function DiscriminatoryFindings(lower: string, patterns: seq<string>): (r: seq<string>)
    ensures |r| <= |patterns|
  {
    if patterns == [] then []
    else
      var p := patterns[|patterns| - 1];
      DiscriminatoryFindings(lower, patterns[..|patterns| - 1])
        + (if Contains(lower, p) then [DiscriminatoryMessage(p)] else [])
  }

  /** Pass 2: one message per detector whose pattern occurs in `text`, in table order. */
  function PiiFindings(text: string, detectors: seq<Detector>): (r: seq<string>)
    ensures |r| <= |detectors|
  {
    if detectors == [] then []
    else
      var d := detectors[|detectors| - 1];
      PiiFindings(text, detectors[..|detectors| - 1])
        + (if Search(d.pattern, text) then [PiiMessage(d.kind)] else [])
  }

  /** The words contained in `lower`, in table order. */
  function FoundWords(lower: string, words: seq<string>): (r: seq<string>)
    ensures |r| <= |words|
  {
    if words == [] then []
    else
      var w := words[|words| - 1];
      FoundWords(lower, words[..|words| - 1]) + (if Contains(lower, w) then [w] else [])
  }

  /** Pass 3: at most one message, naming every unprofessional word found. */
  function UnprofessionalFindings(lower: string): seq<string> {
    var found := FoundWords(lower, UnprofessionalWords);
    if found == [] then [] else [UnprofessionalMessage(found)]
  }

  /** What `policy_check(text)` returns. */
  function Violations(text: string): seq<string> {
    var lower := Lower(text);
    DiscriminatoryFindings(lower, BannedPatterns)
      + PiiFindings(text, PiiDetectors)
      + UnprofessionalFindings(lower)
  }

  /** `policy_check`: the three passes, appending to one list. */
  method PolicyCheck(text: string) returns (violations: seq<string>)
    ensures violations == Violations(text)
  {
    var lower := Lower(text);
    violations := [];
    violations := CheckPhrases(lower, BannedPatterns, violations);
    ghost var discriminatory := violations;
    violations := CheckPersonalData(text, PiiDetectors, violations);
    ghost var personal := violations[|discriminatory|..];
    var found := FoundWords(lower, UnprofessionalWords);
    if found != [] {
      violations := violations + [UnprofessionalMessage(found)];
    }
    ViolationsInParts(text, discriminatory, personal, violations[|discriminatory| + |personal|..]);
  }

  lemma ViolationsInParts(text: string, d: seq<string>, p: seq<string>, u: seq<string>)
    requires d == DiscriminatoryFindings(Lower(text), BannedPatterns)
    requires p == PiiFindings(text, PiiDetectors)
    requires u == UnprofessionalFindings(Lower(text))
    ensures Violations(text) == d + p + u
  {
  }

  /** The loop of pass 1: append a message for each pattern found in `lower`. */
  method CheckPhrases(lower: string, patterns: seq<string>, before: seq<string>) returns (violations: seq<string>)
    ensures violations == before + DiscriminatoryFindings(lower, patterns)
  {
    violations := before;
    for k := 0 to |patterns|
      invariant violations == before + DiscriminatoryFindings(lower, patterns[..k])
    {
      var pattern := patterns[k];
      assert patterns[..k + 1][..k] == patterns[..k];
      if Contains(lower, pattern) {
        violations := violations + [DiscriminatoryMessage(pattern)];
      }
    }
    assert patterns[..|patterns|] == patterns;
  }

  /** The loop of pass 2: append a message for each detector whose pattern occurs in `text`. */
  method CheckPersonalData(text: string, detectors: seq<Detector>, before: seq<string>) returns (violations: seq<string>)
    ensures violations == before + PiiFindings(text, detectors)
  {
    violations := before;
    for k := 0 to |detectors|
      invariant violations == before + PiiFindings(text, detectors[..k])
    {
      var detector := detectors[k];
      assert detectors[..k + 1][..k] == detectors[..k];
      if Search(detector.pattern, text) {
        violations := violations + [PiiMessage(detector.kind)];
      }
    }
    assert detectors[..|detectors|] == detectors;
  }

  // ---------------------------------------------------------------------
  // Pass 1: discriminatory phrases

  /** Findings over two tables laid end to end are the findings of each, in order. */
  lemma {:induction false} DiscriminatoryFindingsAppend(lower: string, a: seq<string>, b: seq<string>)
    ensures DiscriminatoryFindings(lower, a + b) == DiscriminatoryFindings(lower, a) + DiscriminatoryFindings(lower, b)
    decreases |b|
  {
    if b != [] {
      var init := b[..|b| - 1];
      assert (a + b)[..|a + b| - 1] == a + init;
      assert (a + b)[|a + b| - 1] == b[|b| - 1];
      DiscriminatoryFindingsAppend(lower, a, init);
    } else {
      assert a + b == a;
    }
  }

  /** A message is reported exactly when it names a pattern of the table that `lower` contains. */
  lemma {:induction false} DiscriminatoryFindingsMembers(lower: string, patterns: seq<string>, m: string)
    ensures m in DiscriminatoryFindings(lower, patterns)
      <==> exists p :: p in patterns && Contains(lower, p) && m == DiscriminatoryMessage(p)
    decreases |patterns|
  {
    if patterns != [] {
      var init := patterns[..|patterns| - 1];
      var last := patterns[|patterns| - 1];
      assert patterns == init + [last];
      DiscriminatoryFindingsMembers(lower, init, m);
      if m in DiscriminatoryFindings(lower, patterns) && m !in DiscriminatoryFindings(lower, init) {
        assert last in patterns && Contains(lower, last) && m == DiscriminatoryMessage(last);
      }
    }
  }

  /** Different phrases give different messages. */
  lemma DiscriminatoryMessageInjective(p: string, q: string)
    requires DiscriminatoryMessage(p) == DiscriminatoryMessage(q)
    ensures p == q
  {
    var n := |DiscriminatoryPrefix|;
    assert p == DiscriminatoryMessage(p)[n..n + |p|];
    assert q == DiscriminatoryMessage(q)[n..n + |q|];
  }

  /** Over a table without repeats, each contained phrase is reported exactly once, and no other is. */
  lemma {:induction false} DiscriminatoryFindingsCount(lower: string, patterns: seq<string>, p: string)
    requires NoDuplicates(patterns)
    ensures multiset(DiscriminatoryFindings(lower, patterns))[DiscriminatoryMessage(p)]
      == if p in patterns && Contains(lower, p) then 1 else 0
    decreases |patterns|
  {
    if patterns != [] {
      var init := patterns[..|patterns| - 1];
      var last := patterns[|patterns| - 1];
      assert patterns == init + [last];
      DiscriminatoryFindingsCount(lower, init, p);
      if DiscriminatoryMessage(last) == DiscriminatoryMessage(p) {
        DiscriminatoryMessageInjective(last, p);
        assert p !in init;
      }
    }
  }

  lemma BannedPatternsDistinct()
    ensures NoDuplicates(BannedPatterns)
  {
  }

  /** Pass 1 reports each banned phrase the lower-cased text contains exactly once, and no other phrase. */
  lemma DiscriminatoryFindingsOfTable(lower: string, p: string)
    ensures multiset(DiscriminatoryFindings(lower, BannedPatterns))[DiscriminatoryMessage(p)]
      == if p in BannedPatterns && Contains(lower, p) then 1 else 0
  {
    BannedPatternsDistinct();
    DiscriminatoryFindingsCount(lower, BannedPatterns, p);
  }

  /** When patterns `i < j` are both contained, the message for `i` comes before the message for `j`. */
  lemma DiscriminatoryFindingsOrder(lower: string, patterns: seq<string>, i: nat, j: nat)
    requires i < j < |patterns|
    requires Contains(lower, patterns[i]) && Contains(lower, patterns[j])
    ensures var r := DiscriminatoryFindings(lower, patterns);
      exists a, b :: 0 <= a < b < |r|
        && r[a] == DiscriminatoryMessage(patterns[i]) && r[b] == DiscriminatoryMessage(patterns[j])
  {
    var front, back := patterns[..j], patterns[j + 1..];
    assert patterns == front + [patterns[j]] + back;
    DiscriminatoryFindingsAppend(lower, front + [patterns[j]], back);
    DiscriminatoryFindingsAppend(lower, front, [patterns[j]]);
    assert DiscriminatoryFindings(lower, [patterns[j]]) == [DiscriminatoryMessage(patterns[j])] by {
      assert [patterns[j]][..0] == [];
    }
    var f := DiscriminatoryFindings(lower, front);
    DiscriminatoryFindingsMembers(lower, front, DiscriminatoryMessage(patterns[i]));
    assert patterns[i] in front;
    var a :| 0 <= a < |f| && f[a] == DiscriminatoryMessage(patterns[i]);
    var r := DiscriminatoryFindings(lower, patterns);
    assert r == f + [DiscriminatoryMessage(patterns[j])] + DiscriminatoryFindings(lower, back);
    assert r[a] == DiscriminatoryMessage(patterns[i]) && r[|f|] == DiscriminatoryMessage(patterns[j]);
  }

  // ---------------------------------------------------------------------
  // Pass 2: personal data

  /** A message is reported exactly when it names a detector whose pattern occurs in `text`. */
  lemma {:induction false} PiiFindingsMembers(text: string, detectors: seq<Detector>, m: string)
    ensures m in PiiFindings(text, detectors)
      <==> exists d :: d in detectors && Search(d.pattern, text) && m == PiiMessage(d.kind)
    decreases |detectors|
  {
    if detectors != [] {
      var init := detectors[..|detectors| - 1];
      var last := detectors[|detectors| - 1];
      assert detectors == init + [last];
      PiiFindingsMembers(text, init, m);
      if m in PiiFindings(text, detectors) && m !in PiiFindings(text, init) {
        assert last in detectors && Search(last.pattern, text) && m == PiiMessage(last.kind);
      }
    }
  }

  /**
   * The personal-data pass over the real table: at most one message per kind,
   * however often that kind occurs, and always in the order email, phone, ssn.
   */
  lemma PiiFindingsOfTable(text: string)
    ensures PiiFindings(text, PiiDetectors)
      == (if Search(EmailPattern, text) then ["PII detected: email"] else [])
       + (if Search(PhonePattern, text) then ["PII detected: phone"] else [])
       + (if Search(SsnPattern, text) then ["PII detected: ssn"] else [])
  {
    var email, phone, ssn := PiiDetectors[0], PiiDetectors[1], PiiDetectors[2];
    assert PiiMessage(email.kind) == "PII detected: email";
    assert PiiMessage(phone.kind) == "PII detected: phone";
    assert PiiMessage(ssn.kind) == "PII detected: ssn";
    assert PiiDetectors[..2] == [email, phone];
    assert [email, phone][..1] == [email];
    assert [email][..0] == [];
    assert PiiFindings(text, [email]) == (if Search(EmailPattern, text) then ["PII detected: email"] else []);
    assert PiiFindings(text, [email, phone]) == PiiFindings(text, [email])
      + (if Search(PhonePattern, text) then ["PII detected: phone"] else []);
  }

  // ---------------------------------------------------------------------
  // Pass 3: unprofessional words

  lemma {:induction false} FoundWordsMembers(lower: string, words: seq<string>, w: string)
    ensures w in FoundWords(lower, words) <==> w in words && Contains(lower, w)
    decreases |words|
  {
    if words != [] {
      var init := words[..|words| - 1];
      assert words == init + [words[|words| - 1]];
      FoundWordsMembers(lower, init, w);
    }
  }

  /** The words found keep the order of the table. */
  lemma {:induction false} FoundWordsInTableOrder(lower: string, words: seq<string>)
    ensures IsSubsequence(FoundWords(lower, words), words)
    decreases |words|
  {
    if words != [] {
      var init := words[..|words| - 1];
      var last := words[|words| - 1];
      FoundWordsInTableOrder(lower, init);
      var f := FoundWords(lower, words);
      if Contains(lower, last) {
        assert f == FoundWords(lower, init) + [last];
        assert f[..|f| - 1] == FoundWords(lower, init);
      } else {
        assert f == FoundWords(lower, init);
        SubsequenceOfPrefix(FoundWords(lower, init), init, last);
        assert init + [last] == words;
      }
    }
  }

  /** The words found are distinct when the table is. */
  lemma {:induction false} FoundWordsDistinct(lower: string, words: seq<string>)
    requires NoDuplicates(words)
    ensures NoDuplicates(FoundWords(lower, words))
    decreases |words|
  {
    if words != [] {
      var init := words[..|words| - 1];
      var last := words[|words| - 1];
      FoundWordsDistinct(lower, init);
      FoundWordsMembers(lower, init, last);
    }
  }

  /**
   * At most one unprofessional-language message; there is one exactly when
   * some word of the list occurs, and it names every word found, each once,
   * in list order, separated by ", ".
   */
  lemma UnprofessionalFindingsShape(lower: string)
    ensures var found := FoundWords(lower, UnprofessionalWords);
      && (forall w :: w in found <==> w in UnprofessionalWords && Contains(lower, w))
      && IsSubsequence(found, UnprofessionalWords)
      && NoDuplicates(found)
      && UnprofessionalFindings(lower)
         == if found == [] then [] else ["Unprofessional language: " + Join(found, ", ")]
  {
    forall w ensures w in FoundWords(lower, UnprofessionalWords) <==> w in UnprofessionalWords && Contains(lower, w) {
      FoundWordsMembers(lower, UnprofessionalWords, w);
    }
    FoundWordsInTableOrder(lower, UnprofessionalWords);
    FoundWordsDistinct(lower, UnprofessionalWords);
  }

  // ---------------------------------------------------------------------
  // The whole result

  /** The pass a message comes from, read off its fixed prefix. */
  datatype Category = Discriminatory | PersonalData | Unprofessional

  function CategoryOf(m: string): Option<Category> {
    if StartsWith(m, DiscriminatoryPrefix) then Some(Discriminatory)
    else if StartsWith(m, PiiPrefix) then Some(PersonalData)
    else if StartsWith(m, UnprofessionalPrefix) then Some(Unprofessional)
    else None
  }

  function Rank(c: Category): nat {
    match c
    case Discriminatory => 0
    case PersonalData => 1
    case Unprofessional => 2
  }

  lemma DiscriminatoryMessageCategory(p: string)
    ensures CategoryOf(DiscriminatoryMessage(p)) == Some(Discriminatory)
  {
    assert DiscriminatoryMessage(p)[..|DiscriminatoryPrefix|] == DiscriminatoryPrefix;
  }

  lemma PiiMessageCategory(kind: string)
    ensures CategoryOf(PiiMessage(kind)) == Some(PersonalData)
  {
    var m := PiiMessage(kind);
    assert m[..|PiiPrefix|] == PiiPrefix;
    assert |DiscriminatoryPrefix| <= |m| ==> m[..|DiscriminatoryPrefix|][0] == 'P';
  }

  lemma UnprofessionalMessageCategory(words: seq<string>)
    ensures CategoryOf(UnprofessionalMessage(words)) == Some(Unprofessional)
  {
    var m := UnprofessionalMessage(words);
    assert m[..|UnprofessionalPrefix|] == UnprofessionalPrefix;
    assert |DiscriminatoryPrefix| <= |m| ==> m[..|DiscriminatoryPrefix|][0] == 'U';
    assert m[..|PiiPrefix|][0] == 'U';
  }

  lemma DiscriminatoryFindingsCategory(lower: string, patterns: seq<string>)
    ensures forall m :: m in DiscriminatoryFindings(lower, patterns) ==> CategoryOf(m) == Some(Discriminatory)
  {
    forall m | m in DiscriminatoryFindings(lower, patterns) ensures CategoryOf(m) == Some(Discriminatory) {
      DiscriminatoryFindingsMembers(lower, patterns, m);
      var q :| q in patterns && Contains(lower, q) && m == DiscriminatoryMessage(q);
      DiscriminatoryMessageCategory(q);
    }
  }

  lemma PiiFindingsCategory(text: string, detectors: seq<Detector>)
    ensures forall m :: m in PiiFindings(text, detectors) ==> CategoryOf(m) == Some(PersonalData)
  {
    forall m | m in PiiFindings(text, detectors) ensures CategoryOf(m) == Some(PersonalData) {
      PiiFindingsMembers(text, detectors, m);
      var det :| det in detectors && Search(det.pattern, text) && m == PiiMessage(det.kind);
      PiiMessageCategory(det.kind);
    }
  }

  /** Messages of three consecutive groups of ranks 0, 1 and 2 are ordered by rank. */
  lemma RanksAscend(d: seq<string>, p: seq<string>, u: seq<string>)
    requires forall m :: m in d ==> CategoryOf(m) == Some(Discriminatory)
    requires forall m :: m in p ==> CategoryOf(m) == Some(PersonalData)
    requires forall m :: m in u ==> CategoryOf(m) == Some(Unprofessional)
    ensures forall m :: m in d + p + u ==> CategoryOf(m).Some?
    ensures var v := d + p + u;
      forall a, b :: 0 <= a < b < |v| ==> Rank(CategoryOf(v[a]).value) <= Rank(CategoryOf(v[b]).value)
  {
    var v := d + p + u;
    forall a | 0 <= a < |v|
      ensures CategoryOf(v[a]).Some?
      ensures Rank(CategoryOf(v[a]).value) == if a < |d| then 0 else if a < |d| + |p| then 1 else 2
    {
      if a < |d| {
        assert v[a] in d;
      } else if a < |d| + |p| {
        assert v[a] == p[a - |d|];
      } else {
        assert v[a] == u[a - |d| - |p|];
      }
    }
  }

  /**
   * Category order is fixed: every message belongs to one of the three passes,
   * and all discriminatory messages come before all personal-data messages,
   * which come before the unprofessional-language message.
   */
  lemma CategoryOrder(text: string)
    ensures forall m :: m in Violations(text) ==> CategoryOf(m).Some?
    ensures var v := Violations(text);
      forall a, b :: 0 <= a < b < |v| ==> Rank(CategoryOf(v[a]).value) <= Rank(CategoryOf(v[b]).value)
  {
    var lower := Lower(text);
    var d := DiscriminatoryFindings(lower, BannedPatterns);
    var p := PiiFindings(text, PiiDetectors);
    var u := UnprofessionalFindings(lower);
    DiscriminatoryFindingsCategory(lower, BannedPatterns);
    PiiFindingsCategory(text, PiiDetectors);
    UnprofessionalMessageCategory(FoundWords(lower, UnprofessionalWords));
    RanksAscend(d, p, u);
    ViolationsInParts(text, d, p, u);
  }

  /** At most 10 + 3 + 1 messages. */
  lemma ViolationsBound(text: string)
    ensures |Violations(text)| <= 14
  {
  }

  /**
   * The phrase and word passes read only the lower-cased text: two texts
   * with the same lower-cased form get the same violations exactly when
   * their personal-data findings agree.
   */
  lemma OnlyPersonalDataReadsCase(a: string, b: string)
    requires Lower(a) == Lower(b)
    ensures Violations(a) == Violations(b) <==> PiiFindings(a, PiiDetectors) == PiiFindings(b, PiiDetectors)
  {
    var d := DiscriminatoryFindings(Lower(a), BannedPatterns);
    var u := UnprofessionalFindings(Lower(a));
    var pa := PiiFindings(a, PiiDetectors);
    var pb := PiiFindings(b, PiiDetectors);
    ViolationsInParts(a, d, pa, u);
    ViolationsInParts(b, d, pb, u);
    if d + pa + u == d + pb + u {
      assert |pa| == |pb|;
      assert pa == (d + pa + u)[|d|..|d| + |pa|];
      assert pb == (d + pb + u)[|d|..|d| + |pb|];
    }
  }

  /** The text is clean: no banned phrase, no personal data, no unprofessional word. */
  predicate IsClean(text: string) {
    var lower := Lower(text);
    (forall p | p in BannedPatterns :: !Contains(lower, p))
    && !Search(EmailPattern, text) && !Search(PhonePattern, text) && !Search(SsnPattern, text)
    && (forall w | w in UnprofessionalWords :: !Contains(lower, w))
  }

  /** The result is empty exactly when the text is clean. */
  lemma NoViolationsExactlyWhenClean(text: string)
    ensures Violations(text) == [] <==> IsClean(text)
  {
    var lower := Lower(text);
    var d := DiscriminatoryFindings(lower, BannedPatterns);
    var found := FoundWords(lower, UnprofessionalWords);
    PiiFindingsOfTable(text);
    if d == [] {
      forall p | p in BannedPatterns ensures !Contains(lower, p) {
        DiscriminatoryFindingsMembers(lower, BannedPatterns, DiscriminatoryMessage(p));
      }
    } else {
      DiscriminatoryFindingsMembers(lower, BannedPatterns, d[0]);
    }
    if found == [] {
      forall w | w in UnprofessionalWords ensures !Contains(lower, w) {
        FoundWordsMembers(lower, UnprofessionalWords, w);
      }
    } else {
      FoundWordsMembers(lower, UnprofessionalWords, found[0]);
    }
  }

  /** The empty text is clean. */
  lemma EmptyTextIsClean()
    ensures Violations("") == []
  {
    assert Lower("") == "";
    forall p | p in BannedPatterns + UnprofessionalWords ensures !Contains("", p) {
      assert p != "";
    }
    NoPersonalDataInEmptyText();
    NoViolationsExactlyWhenClean("");
  }

  /** Every personal-data pattern needs at least one character. */
  lemma NoPersonalDataInEmptyText()
    ensures !Search(EmailPattern, "") && !Search(PhonePattern, "") && !Search(SsnPattern, "")
  {
    ConcatMinLength(EmailParts, 2);
    NoSearchInShortText(EmailPattern, "");
    ConcatMinLength(PhoneParts, 3);
    TimesMinLength(Digit, 3);
    NoSearchInShortText(PhonePattern, "");
    ConcatMinLength(SsnParts, 1);
    NoSearchInShortText(SsnPattern, "");
  }

  /** `\d{n}` matches a run of `n` digits. */
  lemma {:induction false} DigitsMatch(s: string, i: nat, n: nat)
    requires n >= 1 && i + n <= |s|
    requires forall k :: i <= k < i + n ==> '0' <= s[k] <= '9'
    ensures MatchesAt(Times(Digit, n), s, i, i + n)
    decreases n
  {
    assert MatchesAt(Digit, s, i, i + 1);
    if n > 1 {
      DigitsMatch(s, i + 1, n - 1);
      CatMatch(Digit, Times(Digit, n - 1), s, i, i + 1, i + n);
    }
  }

  /** A text of the email shape is reported. */
  lemma EmailShapeIsReported()
    ensures "PII detected: email" in Violations("a@b.cd")
  {
    var s := "a@b.cd";
    EmailShapeMatches(s);
    assert Search(EmailPattern, s);
    PiiFindingsOfTable(s);
    ViolationsInParts(s, DiscriminatoryFindings(Lower(s), BannedPatterns), PiiFindings(s, PiiDetectors),
      UnprofessionalFindings(Lower(s)));
  }

  lemma EmailShapeMatches(s: string)
    requires s == "a@b.cd"
    ensures MatchesAt(EmailPattern, s, 0, 6)
  {
    forall k: nat | k < |EmailParts|
      ensures PartMatches(EmailParts, s, EmailSpans, k)
    {
      EmailPartMatches(s, k);
    }
    ConcatMatch(EmailParts, s, EmailSpans);
  }

  /** Where each part of the email pattern matches in "a@b.cd". */
  const EmailSpans: seq<nat> := [0, 0, 1, 2, 3, 4, 6, 6]

  lemma EmailPartMatches(s: string, k: nat)
    requires s == "a@b.cd" && k < |EmailParts|
    ensures PartMatches(EmailParts, s, EmailSpans, k)
  {
    if k == 1 {
      LowerLetterRun(EmailLocalChar, 1, s, 0, 1);
    } else if k == 3 {
      LowerLetterRun(EmailDomainChar, 1, s, 2, 3);
    } else if k == 5 {
      EmailTopLevelMatches(s);
    } else if k == 0 || k == 6 {
      assert AtWordBoundary(s, EmailSpans[k]);
    } else {
      assert s[EmailSpans[k]] == EmailParts[k].cls.ranges[0].lo;
    }
  }

  /** `[A-Z|a-z]{2,}` matches "cd" in "a@b.cd". */
  lemma EmailTopLevelMatches(s: string)
    requires s == "a@b.cd"
    ensures MatchesAt(EmailParts[5], s, 4, 6)
  {
    LowerLetterRun(EmailTopChar, 2, s, 5, 6);
    LowerLetterInClass(s[4], EmailTopChar, 2);
    assert MatchesAt(Char(EmailTopChar), s, 4, 5);
    CatMatch(Char(EmailTopChar), OneOrMore(Char(EmailTopChar)), s, 4, 5, 6);
  }

  /** A lower-case letter belongs to a class holding the range `a-z`. */
  lemma LowerLetterInClass(c: char, cls: CharClass, k: nat)
    requires k < |cls.ranges| && cls.ranges[k] == CharRange('a', 'z') && 'a' <= c <= 'z'
    ensures InClass(c, cls)
  {
    assert cls.ranges[k] in cls.ranges;
  }

  /** A run of lower-case letters matches `[...]+` for a class holding the range `a-z`. */
  lemma LowerLetterRun(cls: CharClass, k: nat, s: string, i: nat, j: nat)
    requires k < |cls.ranges| && cls.ranges[k] == CharRange('a', 'z')
    requires i < j <= |s| && forall m :: i <= m < j ==> 'a' <= s[m] <= 'z'
    ensures MatchesAt(OneOrMore(Char(cls)), s, i, j)
  {
    forall m | i <= m < j ensures InClass(s[m], cls) {
      LowerLetterInClass(s[m], cls, k);
    }
    RunMatchesOneOrMore(cls, s, i, j);
  }

  /** A text of the phone-number shape is reported. */
  lemma PhoneShapeIsReported()
    ensures "PII detected: phone" in Violations("555-123-4567")
  {
    var s := "555-123-4567";
    PhoneShapeMatches(s);
    assert Search(PhonePattern, s);
    PiiFindingsOfTable(s);
    ViolationsInParts(s, DiscriminatoryFindings(Lower(s), BannedPatterns), PiiFindings(s, PiiDetectors),
      UnprofessionalFindings(Lower(s)));
  }

  lemma PhoneShapeMatches(s: string)
    requires s == "555-123-4567"
    ensures MatchesAt(PhonePattern, s, 0, 12)
  {
    var pos: seq<nat> := [0, 0, 0, 0, 3, 3, 4, 7, 8, 12, 12];
    forall k: nat | k < |PhoneParts|
      ensures PartMatches(PhoneParts, s, pos, k)
    {
      if k == 3 {
        DigitsMatch(s, 0, 3);
      } else if k == 5 || k == 7 {
        assert Separator.cls.ranges[0] == Single('-');
        assert MatchesAt(Separator, s, pos[k], pos[k] + 1);
      } else if k == 6 {
        DigitsMatch(s, 4, 3);
      } else if k == 8 {
        DigitsMatch(s, 8, 4);
      }
    }
    ConcatMatch(PhoneParts, s, pos);
  }

  /** A text of the social-security-number shape is reported. */
  lemma SsnShapeIsReported()
    ensures "PII detected: ssn" in Violations("123-45-6789")
  {
    var s := "123-45-6789";
    SsnShapeMatches(s);
    assert Search(SsnPattern, s);
    PiiFindingsOfTable(s);
    ViolationsInParts(s, DiscriminatoryFindings(Lower(s), BannedPatterns), PiiFindings(s, PiiDetectors),
      UnprofessionalFindings(Lower(s)));
  }

  lemma SsnShapeMatches(s: string)
    requires s == "123-45-6789"
    ensures MatchesAt(SsnPattern, s, 0, 11)
  {
    var pos: seq<nat> := [0, 0, 3, 4, 6, 7, 11, 11];
    forall k: nat | k < |SsnParts|
      ensures PartMatches(SsnParts, s, pos, k)
    {
      if k == 1 {
        DigitsMatch(s, 0, 3);
      } else if k == 3 {
        DigitsMatch(s, 4, 2);
      } else if k == 5 {
        DigitsMatch(s, 7, 4);
      }
    }
    ConcatMatch(SsnParts, s, pos);
  }
}
