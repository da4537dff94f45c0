/** The backend's verdict scoring: the final report is lower-cased, each
    keyword of two fixed lists scores 1 when it occurs at all, and the two
    scores pick one of three labels. */
module Verdict {
  import opened Text

  const FakeKeywords: seq<string> := ["fake", "manipulated", "deepfake"]
  const AuthKeywords: seq<string> := ["authentic", "real", "genuine", "not fake", "not deepfake"]

  const AuthenticLabel: string := "Authentic Image / Video"
  const DeepfakeLabel: string := "Deepfake Detected"
  const UncertainLabel: string := "Uncertain / Needs Review"

  predicate IsLabel(s: string) {
    s == AuthenticLabel || s == DeepfakeLabel || s == UncertainLabel
  }

  datatype Score = Score(fakeHits: nat, authHits: nat)

  /** `sum(word in text for word in words)`: one point per keyword present. */
  function CountHits(text: string, words: seq<string>): (n: nat)
    ensures n <= |words|
    ensures n == 0 <==> forall k :: 0 <= k < |words| ==> !Contains(text, words[k])
  {
    if words == [] then 0
    else (if Contains(text, words[0]) then 1 else 0) + CountHits(text, words[1..])
  }

  /** The distinct keywords found in the text */
  function KeywordsFound(text: string, words: seq<string>): set<string> {
    set w | w in words && Contains(text, w)
  }

  predicate Distinct(words: seq<string>) {
    forall i, j :: 0 <= i < j < |words| ==> words[i] != words[j]
  }

  /** The score counts distinct keywords found, however often each occurs. */
  lemma {:induction false} CountHitsCountsKeywordsFound(text: string, words: seq<string>)
    requires Distinct(words)
    ensures CountHits(text, words) == |KeywordsFound(text, words)|
  {
    if words != [] {
      var rest := words[1..];
      DistinctTail(words);
      CountHitsCountsKeywordsFound(text, rest);
      KeywordsFoundSplit(text, words);
    }
  }

  lemma DistinctTail(words: seq<string>)
    requires words != [] && Distinct(words)
    ensures Distinct(words[1..]) && words[0] !in words[1..]
  {
    var rest := words[1..];
    forall i, j | 0 <= i < j < |rest| ensures rest[i] != rest[j] {
      assert rest[i] == words[i + 1] && rest[j] == words[j + 1];
    }
    forall j | 0 <= j < |rest| ensures rest[j] != words[0] {
      assert rest[j] == words[j + 1];
    }
  }

  /** The keywords found are the head, when present, beside those found in the tail. */
  lemma KeywordsFoundSplit(text: string, words: seq<string>)
    requires words != [] && words[0] !in words[1..]
    ensures |KeywordsFound(text, words)|
         == (if Contains(text, words[0]) then 1 else 0) + |KeywordsFound(text, words[1..])|
  {
    var rest := words[1..];
    var head := if Contains(text, words[0]) then {words[0]} else {};
    assert KeywordsFound(text, words) == head + KeywordsFound(text, rest) by {
      assert forall w :: w in words <==> w == words[0] || w in rest;
    }
    assert head !! KeywordsFound(text, rest);
  }

  /** Both hit counts of a report, taken on its lower-cased text */
  function Scores(report: string): (s: Score)
    ensures s.fakeHits <= 3 && s.authHits <= 5
    ensures s.fakeHits == |KeywordsFound(Lower(report), FakeKeywords)|
    ensures s.authHits == |KeywordsFound(Lower(report), AuthKeywords)|
  {
    var low := Lower(report);
    CountHitsCountsKeywordsFound(low, FakeKeywords);
    CountHitsCountsKeywordsFound(low, AuthKeywords);
    Score(CountHits(low, FakeKeywords), CountHits(low, AuthKeywords))
  }

  /** The if/elif/else chain over the two counts */
  function PickLabel(s: Score): (v: string)
    ensures IsLabel(v)
    ensures v == AuthenticLabel <==> s.authHits > s.fakeHits
    ensures v == DeepfakeLabel <==> s.fakeHits > s.authHits
    ensures v == UncertainLabel <==> s.fakeHits == s.authHits
  {
    if s.authHits > s.fakeHits then AuthenticLabel
    else if s.fakeHits > s.authHits then DeepfakeLabel
    else UncertainLabel
  }

  /** The verdict the backend attaches to a final report */
  function VerdictOf(report: string): (v: string)
    ensures IsLabel(v)
  {
    PickLabel(Scores(report))
  }

  /** Matching ignores case: the verdict depends only on the lower-cased report. */
  lemma VerdictIgnoresCase(report: string)
    ensures VerdictOf(Lower(report)) == VerdictOf(report)
  {
    LowerIdempotent(report);
  }

  /** "fake" is a substring of "deepfake", so a report mentioning "deepfake"
      (including "not deepfake") scores at least two fake hits. */
  lemma DeepfakeMentionScoresTwice(report: string)
    requires Contains(Lower(report), "deepfake")
    ensures Scores(report).fakeHits >= 2
  {
    var low := Lower(report);
    assert OccursAt("deepfake", "fake", 4);
    ContainsTransitive(low, "deepfake", "fake");
    assert CountHits(low, FakeKeywords[2..]) == 1;
  }

  /** A report whose only keyword text is "not deepfake" scores auth 1
      against fake 2 and is labelled a deepfake. */
  lemma NotDeepfakeIsLabelledDeepfake(report: string)
    requires Contains(Lower(report), "not deepfake")
    requires !Contains(Lower(report), "manipulated")
    requires !Contains(Lower(report), "authentic")
    requires !Contains(Lower(report), "real")
    requires !Contains(Lower(report), "genuine")
    requires !Contains(Lower(report), "not fake")
    ensures Scores(report) == Score(2, 1)
    ensures VerdictOf(report) == DeepfakeLabel
  {
    var low := Lower(report);
    assert OccursAt("not deepfake", "deepfake", 4);
    ContainsTransitive(low, "not deepfake", "deepfake");
    assert OccursAt("deepfake", "fake", 4);
    ContainsTransitive(low, "deepfake", "fake");
    assert CountHits(low, FakeKeywords[2..]) == 1;
    assert CountHits(low, FakeKeywords[1..]) == 1;
    assert CountHits(low, FakeKeywords) == 2;
    assert CountHits(low, AuthKeywords[4..]) == 1;
    assert CountHits(low, AuthKeywords[3..]) == 1;
    assert CountHits(low, AuthKeywords[2..]) == 1;
    assert CountHits(low, AuthKeywords[1..]) == 1;
    assert CountHits(low, AuthKeywords) == 1;
  }

  /** The same with the other negation: "not fake" alone scores 1 against 1
      and the verdict is uncertain. */
  lemma NotFakeIsUncertain(report: string)
    requires Contains(Lower(report), "not fake")
    requires !Contains(Lower(report), "manipulated")
    requires !Contains(Lower(report), "deepfake")
    requires !Contains(Lower(report), "authentic")
    requires !Contains(Lower(report), "real")
    requires !Contains(Lower(report), "genuine")
    ensures Scores(report) == Score(1, 1)
    ensures VerdictOf(report) == UncertainLabel
  {
    var low := Lower(report);
    assert OccursAt("not fake", "fake", 4);
    ContainsTransitive(low, "not fake", "fake");
    assert OccursAt("not deepfake", "deepfake", 4);
    if Contains(low, "not deepfake") {
      ContainsTransitive(low, "not deepfake", "deepfake");
    }
    assert CountHits(low, FakeKeywords[2..]) == 0;
    assert CountHits(low, FakeKeywords[1..]) == 0;
    assert CountHits(low, FakeKeywords) == 1;
    assert CountHits(low, AuthKeywords[4..]) == 0;
    assert CountHits(low, AuthKeywords[3..]) == 1;
    assert CountHits(low, AuthKeywords[2..]) == 1;
    assert CountHits(low, AuthKeywords[1..]) == 1;
    assert CountHits(low, AuthKeywords) == 1;
  }

  /** The report "Not deepfake" is labelled a deepfake. */
  lemma NotDeepfakeExample()
    ensures VerdictOf("Not deepfake") == DeepfakeLabel
  {
    var low := Lower("Not deepfake");
    LowerNotDeepfake();
    assert OccursAt(low, "not deepfake", 0);
    MissingCharRulesOut(low, "manipulated", 'm');
    MissingCharRulesOut(low, "authentic", 'u');
    MissingCharRulesOut(low, "real", 'r');
    MissingCharRulesOut(low, "genuine", 'g');
    NoNotFake();
    NotDeepfakeIsLabelledDeepfake("Not deepfake");
  }

  lemma LowerNotDeepfake()
    ensures Lower("Not deepfake") == "not deepfake"
  {
    var s := "Not deepfake";
    assert LowerChar(s[0]) == 'n';
    assert forall i :: 1 <= i < |s| ==> LowerChar(s[i]) == s[i];
  }

  lemma NoNotFake()
    ensures !Contains("not deepfake", "not fake")
  {
    var s := "not deepfake";
    forall i | 0 <= i <= |s| - 8
      ensures !OccursAt(s, "not fake", i)
    {
      assert s[i..i + 8][0] == s[i];
      assert s[i..i + 8][4] == s[i + 4];
    }
  }
}
