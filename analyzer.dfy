/**
 * One analysis from start to end: extract the text of a parsed message,
 * score it, and decide its label.
 */
module Analyzer {
  import opened Wrappers
  import opened Extract
  import opened Scoring
  import Patterns

  /** The verdict for a message, or the extraction error that stops the analysis. */
  function Analysis(m: Message, c: Classifier): (r: Result<Verdict, ExtractError>)
    requires ProbabilityModel(c)
    ensures r.Success? <==> Body(m.root).Success?
    ensures r.Success? ==> r.value.explanation == Explanation
  {
    match Text(m)
    case Success(t) => Success(Score(c, t))
    case Failure(err) => Failure(err)
  }

  /** Extracts the text, accumulates the heuristics, fuses with the classifier and labels. */
  method AnalyzeEmail(m: Message, c: Classifier) returns (r: Result<Verdict, ExtractError>)
    requires ProbabilityModel(c)
    ensures r == Analysis(m, c)
    ensures r.Success? ==> (r.value.category == Phishing <==> r.value.score > 50)
    ensures r.Success? ==> 0 <= r.value.score <= 80
    ensures r.Failure? <==> !Decodable(Walk(m.root)) && m.root.Container?
  {
    var text := ExtractText(m);
    if text.Failure? {
      return Failure(text.error);
    }
    var t := text.value;
    var h := Heuristics(t);
    var ml := MlScore(c, t);
    var score := Fuse(h, ml);
    r := Success(Verdict(LabelOf(score), score, Explanation));
  }

  /**
   * With no model file the score is 0.25 when neither test hits, 0.4 when
   * exactly one does and 0.55 when both do; only the last is phishing.
   */
  lemma NeutralOutcomes(m: Message)
    requires Text(m).Success?
    ensures var t := Text(m).value;
            var v := Analysis(m, NoModelFile).value;
            && (v.score == 25 <==> !HasUrl(t) && !HasKeyword(t))
            && (v.score == 40 <==> HasUrl(t) != HasKeyword(t))
            && (v.score == 55 <==> HasUrl(t) && HasKeyword(t))
            && (v.category == Phishing <==> v.score == 55)
  {
    var t := Text(m).value;
    FuseNeutral(HeuristicScore(t));
  }

  /** The score grows with the classifier's probability: a more suspicious model never lowers the verdict. */
  lemma ScoreMonotoneInModel(m: Message, p: string -> real, q: string -> real)
    requires Text(m).Success?
    requires ProbabilityModel(Trained(p)) && ProbabilityModel(Trained(q))
    requires p(Text(m).value) <= q(Text(m).value)
    ensures Analysis(m, Trained(p)).value.score <= Analysis(m, Trained(q)).value.score
    ensures Analysis(m, Trained(p)).value.category == Phishing ==> Analysis(m, Trained(q)).value.category == Phishing
  {
    var t := Text(m).value;
    FuseMonotone(HeuristicScore(t), p(t), HeuristicScore(t), q(t));
  }

  /** The neutral verdict of a text, from which of the two tests hit. */
  lemma NeutralVerdict(t: string)
    ensures Score(NoModelFile, t) == Verdict(LabelOf((HeuristicScore(t) + 50) / 2), (HeuristicScore(t) + 50) / 2, Explanation)
  {
    FuseNeutral(HeuristicScore(t));
  }

  /** A text on which neither test hits, with no model file, scores 0.25 and is safe. */
  lemma NeutralNoHit(m: Message, t: string)
    requires Text(m) == Success(t)
    requires !HasUrl(t) && !HasKeyword(t)
    ensures Analysis(m, NoModelFile) == Success(Verdict(Safe, 25, Explanation))
  {
    NeutralVerdict(t);
  }

  /** A text on which exactly one test hits, with no model file, scores 0.4 and is safe. */
  lemma NeutralOneHit(m: Message, t: string)
    requires Text(m) == Success(t)
    requires HasUrl(t) != HasKeyword(t)
    ensures Analysis(m, NoModelFile) == Success(Verdict(Safe, 40, Explanation))
  {
    NeutralVerdict(t);
  }

  /** A text on which both tests hit, with no model file, scores 0.55 and is phishing. */
  lemma NeutralTwoHits(m: Message, t: string)
    requires Text(m) == Success(t)
    requires HasUrl(t) && HasKeyword(t)
    ensures Analysis(m, NoModelFile) == Success(Verdict(Phishing, 55, Explanation))
  {
    NeutralVerdict(t);
  }

  /** Once the body is known, the text is the subject, a space and that body. */
  lemma TextOfBody(m: Message, body: string)
    requires Body(m.root) == Success(body)
    ensures Text(m) == Success(Subject(m) + " " + body)
  {
  }

  /** The text of a single-part message: subject, space, payload. */
  lemma SinglePartText(m: Message)
    requires m.root.Leaf?
    ensures Text(m) == Success(Subject(m) + " " + m.root.payload)
  {
  }

  lemma UrgentText(m: Message)
    requires m == Message(Some("URGENT: verify your bank login"), Leaf("text/plain", ""))
    ensures Text(m) == Success("URGENT: verify your bank login ")
  {
    SinglePartText(m);
    assert "URGENT: verify your bank login" + " " + "" == "URGENT: verify your bank login ";
  }

  lemma UrgentHitsKeywordOnly(t: string)
    requires t == "URGENT: verify your bank login "
    ensures HasKeyword(t) && !HasUrl(t)
  {
    assert FoldedAt(t, 0, "urgent");
    assert KeywordAt(t, 0);
    assert forall i :: 0 <= i < |t| ==> t[i] != 'h';
    Patterns.NoUrlWithoutH(t);
  }

  /**
   * A subject full of keywords but no URL: only the keyword test hits, so
   * heuristics 0.3, neutral model, score 0.4, safe.
   */
  lemma UrgentSubjectScenario(m: Message)
    requires m == Message(Some("URGENT: verify your bank login"), Leaf("text/plain", ""))
    ensures Analysis(m, NoModelFile) == Success(Verdict(Safe, 40, Explanation))
  {
    UrgentText(m);
    UrgentHitsKeywordOnly("URGENT: verify your bank login ");
    NeutralOneHit(m, "URGENT: verify your bank login ");
  }

  lemma MeetingText(m: Message)
    requires m == Message(None, Leaf("text/plain", "Meeting at 3pm tomorrow."))
    ensures Text(m) == Success(" Meeting at 3pm tomorrow.")
  {
    SinglePartText(m);
    assert "" + " " + "Meeting at 3pm tomorrow." == " Meeting at 3pm tomorrow.";
  }

  lemma MeetingHitsNothing(t: string)
    requires t == " Meeting at 3pm tomorrow."
    ensures !HasUrl(t) && !HasKeyword(t)
  {
    assert forall i :: 0 <= i < |t| ==> t[i] != 'h';
    Patterns.NoUrlWithoutH(t);
    MeetingHasNoKeyword(t);
  }

  lemma MeetingHasNoKeyword(t: string)
    requires t == " Meeting at 3pm tomorrow."
    ensures !HasKeyword(t)
  {
    assert forall i :: 0 <= i < |t| ==>
      t[i] != 'v' && t[i] != 'V' && t[i] != 'u' && t[i] != 'U' && t[i] != 'b' && t[i] != 'B' && t[i] != 'l' && t[i] != 'L';
    assert forall i :: 0 <= i < |t| && (t[i] == 'p' || t[i] == 'P') ==> i == 13;
    assert t[14] == 'm';
    forall j: nat | j < |t| ensures !KeywordAt(t, j) {
      Patterns.NoKeywordAt(t, j);
    }
  }

  /** An ordinary body and no subject: heuristics 0, neutral model, score 0.25, safe. */
  lemma PlainMeetingScenario(m: Message)
    requires m == Message(None, Leaf("text/plain", "Meeting at 3pm tomorrow."))
    ensures Analysis(m, NoModelFile) == Success(Verdict(Safe, 25, Explanation))
  {
    MeetingText(m);
    MeetingHitsNothing(" Meeting at 3pm tomorrow.");
    NeutralNoHit(m, " Meeting at 3pm tomorrow.");
  }

  /** A container holding a plain part and a part of another type has the plain part's text as body. */
  lemma PlainBesideOther(t: string, plain: Entity, other: Entity)
    requires t != TextPlain
    requires plain.Leaf? && plain.contentType == TextPlain
    requires other.Leaf? && other.contentType != TextPlain
    ensures Body(Container(t, [plain, other])) == Success(plain.payload)
  {
    var root := Container(t, [plain, other]);
    assert WalkAll([other]) == [other] by {
      assert [other][1..] == [];
    }
    assert WalkAll([plain, other]) == [plain, other] by {
      assert [plain, other][1..] == [other];
    }
    var nodes := [root, plain, other];
    assert Walk(root) == nodes;
    assert PlainText([root]) == "" by {
      assert [root][..0] == [];
    }
    assert PlainText([root, plain]) == plain.payload by {
      assert [root, plain][..1] == [root];
    }
    assert PlainText(nodes) == plain.payload by {
      assert nodes[..2] == [root, plain];
    }
  }

  lemma MultipartBody(m: Message, plain: Entity, html: Entity)
    requires plain == Leaf("text/plain", "click http://evil.example/login")
    requires html == Leaf("text/html", "<p>verify</p>")
    requires m == Message(None, Container("multipart/alternative", [plain, html]))
    ensures Body(m.root) == Success("click http://evil.example/login")
  {
    PlainBesideOther("multipart/alternative", plain, html);
  }

  lemma EvilLinkText(m: Message)
    requires m.subject == None
    requires Body(m.root) == Success("click http://evil.example/login")
    ensures Text(m) == Success(" " + "click http://evil.example/login")
  {
    TextOfBody(m, "click http://evil.example/login");
    assert Subject(m) == "";
    assert Subject(m) + " " == " ";
  }

  lemma EvilLinkHitsBoth(t: string)
    requires t == " " + "click http://evil.example/login"
    ensures HasUrl(t) && HasKeyword(t)
  {
    forall i | 7 <= i < 14
      ensures t[i] == "http://"[i - 7]
    {
    }
    assert t[14] == 'e';
    assert UrlAt(t, 7);
    forall i | 27 <= i < 32
      ensures t[i] == "login"[i - 27]
    {
    }
    assert FoldedAt(t, 27, "login");
    assert KeywordAt(t, 27);
  }

  /**
   * A multipart message with a plain part and an HTML part: only the plain
   * part is read, and it holds both a URL and a keyword.
   */
  lemma MultipartScenario(m: Message, plain: Entity, html: Entity)
    requires plain == Leaf("text/plain", "click http://evil.example/login")
    requires html == Leaf("text/html", "<p>verify</p>")
    requires m == Message(None, Container("multipart/alternative", [plain, html]))
    ensures Text(m) == Success(" " + "click http://evil.example/login")
    ensures Analysis(m, NoModelFile) == Success(Verdict(Phishing, 55, Explanation))
  {
    MultipartBody(m, plain, html);
    EvilLinkText(m);
    EvilLinkHitsBoth(" " + "click http://evil.example/login");
    NeutralTwoHits(m, " " + "click http://evil.example/login");
  }
}
