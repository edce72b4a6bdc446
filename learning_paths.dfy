/**
 * Learning-path suggestions: the skill keywords mentioned, case-insensitively,
 * in the coaching answer, in keyword-table order, without repetitions and at
 * most five; a fixed default list when none is mentioned.
 */
module LearningPaths {
  import opened Strings

  const Keywords: seq<string> := [
    "Python", "Java", "JavaScript", "C++", "R", "SQL", "Go", "Rust",
    "Machine Learning", "Data Analysis", "Statistics", "Deep Learning",
    "AI", "Neural Networks", "Data Science", "Analytics",
    "Digital Marketing", "Business Strategy", "Project Management",
    "Marketing", "Management", "Leadership", "Entrepreneurship",
    "Cloud Computing", "DevOps", "Cybersecurity", "Web Development",
    "Mobile Development", "Database", "API",
    "Excel", "Tableau", "Power BI", "Git", "Docker", "Kubernetes",
    "Communication", "Problem Solving", "Critical Thinking",
    "Teamwork", "Presentation"
  ]

  const DefaultPaths: seq<string> := ["Data Analysis", "Python", "Communication"]

  const MaxPaths: nat := 5

  /** `keyword.lower() in message.lower()`. */
  predicate Mentions(message: string, keyword: string) {
    Contains(Lower(message), Lower(keyword))
  }

  /** The keywords mentioned in the message, in table order. */
  function Matched(message: string, keywords: seq<string>): seq<string>
    decreases |keywords|
  {
    if keywords == [] then []
    else
      var before := Matched(message, keywords[..|keywords| - 1]);
      var k := keywords[|keywords| - 1];
      if Mentions(message, k) then before + [k] else before
  }

  /** `list(dict.fromkeys(xs))`: the first occurrence of every element, in order. */
  function Dedup(xs: seq<string>): seq<string>
    decreases |xs|
  {
    if xs == [] then []
    else
      var d := Dedup(xs[..|xs| - 1]);
      if xs[|xs| - 1] in d then d else d + [xs[|xs| - 1]]
  }

  function LearningPaths(message: string): seq<string> {
    var unique := Dedup(Matched(message, Keywords));
    if unique != [] then Take(unique, MaxPaths) else DefaultPaths
  }

  method MatchKeywords(message: string, keywords: seq<string>) returns (paths: seq<string>)
    ensures paths == Matched(message, keywords)
  {
    paths := [];
    var lower := Lower(message);
    for k := 0 to |keywords|
      invariant paths == Matched(message, keywords[..k])
    {
      assert keywords[..k + 1][..k] == keywords[..k];
      if Contains(lower, Lower(keywords[k])) {
        paths := paths + [keywords[k]];
      }
    }
    assert keywords[..|keywords|] == keywords;
  }

  method ExtractLearningPaths(message: string) returns (paths: seq<string>)
    ensures paths == LearningPaths(message)
  {
    var found := MatchKeywords(message, Keywords);
    var unique := Dedup(found);
    paths := if unique != [] then Take(unique, MaxPaths) else DefaultPaths;
  }

  /** A keyword is matched exactly when it is in the table and mentioned in the message. */
  lemma {:induction false} MatchedMembers(message: string, keywords: seq<string>, x: string)
    ensures x in Matched(message, keywords) <==> x in keywords && Mentions(message, x)
    decreases |keywords|
  {
    if keywords != [] {
      var init := keywords[..|keywords| - 1];
      MatchedMembers(message, init, x);
      assert keywords == init + [keywords[|keywords| - 1]];
    }
  }

  /** The matched keywords keep table order. */
  lemma {:induction false} MatchedInTableOrder(message: string, keywords: seq<string>)
    ensures IsSubsequence(Matched(message, keywords), keywords)
    decreases |keywords|
  {
    if keywords != [] {
      var init := keywords[..|keywords| - 1];
      var k := keywords[|keywords| - 1];
      MatchedInTableOrder(message, init);
      assert init + [k] == keywords;
      if Mentions(message, k) {
        var m := Matched(message, keywords);
        assert m[..|m| - 1] == Matched(message, init);
      } else {
        SubsequenceOfPrefix(Matched(message, init), init, k);
      }
    }
  }

  /** De-duplication keeps exactly the same elements, each once, in order of first occurrence. */
  lemma {:induction false} DedupProperties(xs: seq<string>)
    ensures forall x :: x in Dedup(xs) <==> x in xs
    ensures NoDuplicates(Dedup(xs))
    ensures IsSubsequence(Dedup(xs), xs)
    decreases |xs|
  {
    if xs != [] {
      var init := xs[..|xs| - 1];
      var x := xs[|xs| - 1];
      DedupProperties(init);
      assert init + [x] == xs;
      var d := Dedup(xs);
      if x in Dedup(init) {
        SubsequenceOfPrefix(Dedup(init), init, x);
      } else {
        assert d[..|d| - 1] == Dedup(init);
      }
    }
  }

  /** On a list without repetitions de-duplication changes nothing. */
  lemma {:induction false} DedupOfDistinct(xs: seq<string>)
    requires NoDuplicates(xs)
    ensures Dedup(xs) == xs
    decreases |xs|
  {
    if xs != [] {
      var init := xs[..|xs| - 1];
      DedupOfDistinct(init);
      assert xs[|xs| - 1] !in init;
      assert init + [xs[|xs| - 1]] == xs;
    }
  }

  /**
   * The suggestions: one to five distinct entries. Without a mentioned
   * keyword they are the default list; otherwise they are keywords mentioned
   * in the message, in table order.
   */
  lemma LearningPathsShape(message: string)
    ensures 1 <= |LearningPaths(message)| <= MaxPaths
    ensures NoDuplicates(LearningPaths(message))
    ensures Matched(message, Keywords) == [] ==> LearningPaths(message) == DefaultPaths
    ensures Matched(message, Keywords) != [] ==>
      IsSubsequence(LearningPaths(message), Keywords)
      && forall p | p in LearningPaths(message) :: Mentions(message, p)
  {
    var matched := Matched(message, Keywords);
    var unique := Dedup(matched);
    DedupProperties(matched);
    if matched != [] {
      assert matched[0] in unique;
      var r := Take(unique, MaxPaths);
      PrefixIsSubsequence(unique, |r|);
      MatchedInTableOrder(message, Keywords);
      SubsequenceTransitive(r, unique, matched);
      SubsequenceTransitive(r, matched, Keywords);
      forall p | p in r ensures Mentions(message, p) {
        MatchedMembers(message, Keywords, p);
      }
    }
  }

  /** When at most five keywords are mentioned, every one of them is suggested. */
  lemma MentionedIsSuggested(message: string, k: string)
    requires k in Keywords && Mentions(message, k)
    requires |Matched(message, Keywords)| <= MaxPaths
    ensures k in LearningPaths(message)
  {
    MatchedMembers(message, Keywords, k);
    var matched := Matched(message, Keywords);
    DedupProperties(matched);
    DedupNoLonger(matched);
  }

  /** De-duplication never lengthens a list. */
  lemma {:induction false} DedupNoLonger(xs: seq<string>)
    ensures |Dedup(xs)| <= |xs|
    decreases |xs|
  {
    if xs != [] {
      DedupNoLonger(xs[..|xs| - 1]);
    }
  }

  /**
   * Without any mentioned keyword the default list is suggested; otherwise
   * the suggestions start with the first mentioned keyword in table order.
   */
  lemma FirstSuggestion(message: string)
    ensures Matched(message, Keywords) == [] <==> forall k | k in Keywords :: !Mentions(message, k)
    ensures Matched(message, Keywords) == [] ==> LearningPaths(message) == DefaultPaths
    ensures Matched(message, Keywords) != [] ==> LearningPaths(message)[0] == Matched(message, Keywords)[0]
  {
    var matched := Matched(message, Keywords);
    forall k | k in Keywords ensures Mentions(message, k) <==> k in matched {
      MatchedMembers(message, Keywords, k);
    }
    if matched != [] {
      MatchedMembers(message, Keywords, matched[0]);
      DedupKeepsFirst(matched);
    }
  }

  lemma {:induction false} DedupKeepsFirst(xs: seq<string>)
    requires xs != []
    ensures Dedup(xs) != [] && Dedup(xs)[0] == xs[0]
    decreases |xs|
  {
    if |xs| > 1 {
      DedupKeepsFirst(xs[..|xs| - 1]);
    }
  }

  /** Only the lower-cased message matters. */
  lemma {:induction false} MatchedIgnoresCase(message: string, keywords: seq<string>)
    ensures Matched(Lower(message), keywords) == Matched(message, keywords)
    decreases |keywords|
  {
    LowerIdempotent(message);
    if keywords != [] {
      MatchedIgnoresCase(message, keywords[..|keywords| - 1]);
    }
  }

  lemma LearningPathsIgnoreCase(message: string)
    ensures LearningPaths(Lower(message)) == LearningPaths(message)
  {
    MatchedIgnoresCase(message, Keywords);
  }

  /**
   * The one-letter keyword "R" is a plain substring test, so any message
   * with the letter r in it, in either case, mentions it.
   */
  lemma LetterRMentionsR(message: string)
    requires Contains(Lower(message), "r")
    ensures "R" in Matched(message, Keywords)
  {
    assert Lower("R") == "r";
    MatchedMembers(message, Keywords, "R");
  }
}
