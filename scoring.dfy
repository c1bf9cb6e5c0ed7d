/**
 * The scoring engine: two fixed-weight heuristic tests on the analysed text,
 * a classifier probability (or the neutral 0.5 when no model file exists),
 * their average rounded to two decimals, and the phishing/safe decision.
 * Scores are integers in hundredths: 0.3 is 30, the threshold 0.5 is 50.
 */
module Scoring {

  // ---------------------------------------------------------------------
  // Pattern search
  // ---------------------------------------------------------------------

  /** Searching for a pattern: some position at or after `i` where `at` matches. */
  function SearchFrom(t: string, i: nat, at: (string, nat) -> bool): (found: bool)
    requires i <= |t|
    ensures found <==> exists j: nat :: i <= j < |t| && at(t, j)
    decreases |t| - i
  {
    if i == |t| then false else at(t, i) || SearchFrom(t, i + 1, at)
  }

  /** `\w`, restricted to ASCII: letters, digits and underscore. */
  predicate IsWordChar(c: char)
  {
    ('a' <= c <= 'z') || ('A' <= c <= 'Z') || ('0' <= c <= '9') || c == '_'
  }

  /** A character of the class `[\w.-]`. */
  predicate IsHostChar(c: char)
  {
    IsWordChar(c) || c == '.' || c == '-'
  }

  /** The string `p` occurs, exactly as written, at position `j` of `t`. */
  predicate LiteralAt(t: string, j: nat, p: string)
  {
    j + |p| <= |t| && forall i :: j <= i < j + |p| ==> t[i] == p[i - j]
  }

  /**
   * `http[s]?://[\w.-]+` matches at position `j`. The scheme is case-sensitive,
   * and one host character is enough for the search to succeed.
   */
  predicate UrlAt(t: string, j: nat)
  {
    || (LiteralAt(t, j, "http://") && j + 7 < |t| && IsHostChar(t[j + 7]))
    || (LiteralAt(t, j, "https://") && j + 8 < |t| && IsHostChar(t[j + 8]))
  }

  /** The URL test. */
  predicate HasUrl(t: string)
  {
    SearchFrom(t, 0, UrlAt)
  }

  /**
   * Simple lower-case mapping, as far as it can yield an ASCII letter: the
   * ASCII capitals, LATIN CAPITAL LETTER I WITH DOT ABOVE (to i) and
   * KELVIN SIGN (to k). Every other character is left as it is.
   */
  function Lower(c: char): char
  {
    if 'A' <= c <= 'Z' then (c as int + 32) as char
    else if c == '\U{0130}' then 'i'
    else if c == '\U{212A}' then 'k'
    else c
  }

  /**
   * `c` matches the lower-case ASCII letter `k` when the case is ignored:
   * the lower-case forms agree, or `c` is one of the two characters whose
   * upper case is the upper case of `k` (DOTLESS I for i, LONG S for s).
   */
  predicate FoldsTo(c: char, k: char)
  {
    || Lower(c) == k
    || (k == 'i' && c == '\U{0131}')
    || (k == 's' && c == '\U{017F}')
  }

  /** The lower-case word `w` occurs at position `j` of `t`, ignoring case. */
  predicate FoldedAt(t: string, j: nat, w: string)
  {
    j + |w| <= |t| && forall i :: j <= i < j + |w| ==> FoldsTo(t[i], w[i - j])
  }

  /** `verify|urgent|password|bank|login` matches at position `j`, ignoring case. */
  predicate KeywordAt(t: string, j: nat)
  {
    || FoldedAt(t, j, "verify")
    || FoldedAt(t, j, "urgent")
    || FoldedAt(t, j, "password")
    || FoldedAt(t, j, "bank")
    || FoldedAt(t, j, "login")
  }

  /** The keyword test. */
  predicate HasKeyword(t: string)
  {
    SearchFrom(t, 0, KeywordAt)
  }

  // ---------------------------------------------------------------------
  // Heuristic sub-score
  // ---------------------------------------------------------------------

  /** Weight of each heuristic test, in hundredths. */
  const TestWeight: int := 30

  /** Points one test adds. */
  function Points(hit: bool): int
  {
    if hit then TestWeight else 0
  }

  /** The heuristic sub-score: the sum of the points of the two tests. */
  function HeuristicScore(t: string): int
  {
    Points(HasUrl(t)) + Points(HasKeyword(t))
  }

  /** Accumulates the heuristic sub-score one test at a time. */
  method Heuristics(t: string) returns (h: int)
    ensures h == HeuristicScore(t)
    ensures h == 0 || h == 30 || h == 60
    ensures h == 0 <==> !HasUrl(t) && !HasKeyword(t)
    ensures h == 60 <==> HasUrl(t) && HasKeyword(t)
  {
    h := 0;
    if HasUrl(t) {
      h := h + TestWeight;
    }
    if HasKeyword(t) {
      h := h + TestWeight;
    }
  }

  // ---------------------------------------------------------------------
  // Classifier probability
  // ---------------------------------------------------------------------

  /**
   * The classifier as the analyser sees it: either there is no model file,
   * or a trained model gives the probability of the phishing class for a text.
   */
  datatype Classifier = NoModelFile | Trained(proba: string -> real)

  /** A trained model's answers are probabilities. */
  ghost predicate ProbabilityModel(c: Classifier)
  {
    c.Trained? ==> forall t :: 0.0 <= c.proba(t) <= 1.0
  }

  /** The neutral probability used when no model file exists: no information. */
  const NeutralProbability: real := 0.5

  /** The ML sub-score of a text. */
  function MlScore(c: Classifier, t: string): (p: real)
    requires ProbabilityModel(c)
    ensures 0.0 <= p <= 1.0
    ensures c.NoModelFile? ==> p == 0.5
    ensures c.Trained? ==> p == c.proba(t)
  {
    match c
    case NoModelFile => NeutralProbability
    case Trained(proba) => proba(t)
  }

  // ---------------------------------------------------------------------
  // Rounding, fusion and decision
  // ---------------------------------------------------------------------

  /**
   * Rounds to the nearest integer, a tie going to the even neighbour: the
   * rule of Python's `round`, applied here to exact values.
   */
  function RoundHalfEven(y: real): (r: int)
    ensures -0.5 <= r as real - y <= 0.5
    ensures (r as real - y == 0.5 || y - r as real == 0.5) ==> r % 2 == 0
  {
    var n := y.Floor;
    var frac := y - n as real;
    if frac < 0.5 then n
    else if frac > 0.5 then n + 1
    else if n % 2 == 0 then n
    else n + 1
  }

  /** Rounding never reverses the order of two values. */
  lemma RoundMonotone(x: real, y: real)
    requires x <= y
    ensures RoundHalfEven(x) <= RoundHalfEven(y)
  {
    var n, m := x.Floor, y.Floor;
    assert n <= m;
    if n < m {
      assert RoundHalfEven(x) <= n + 1 <= m <= RoundHalfEven(y);
    }
  }

  /** A value already on the grid is left as it is. */
  lemma RoundExact(n: int)
    ensures RoundHalfEven(n as real) == n
  {
    assert (n as real).Floor == n;
  }

  /**
   * `round((h + ml) / 2, 2)` in hundredths, for a heuristic sub-score `h`
   * in hundredths and a probability `ml`: the hundredth nearest to the
   * average, ties to the even hundredth.
   */
  function Fuse(h: int, ml: real): (score: int)
    ensures -0.5 <= score as real - (h as real + 100.0 * ml) / 2.0 <= 0.5
  {
    RoundHalfEven((h as real + 100.0 * ml) / 2.0)
  }

  /** The fused score grows with either sub-score. */
  lemma FuseMonotone(h1: int, ml1: real, h2: int, ml2: real)
    requires h1 <= h2 && ml1 <= ml2
    ensures Fuse(h1, ml1) <= Fuse(h2, ml2)
  {
    RoundMonotone((h1 as real + 100.0 * ml1) / 2.0, (h2 as real + 100.0 * ml2) / 2.0);
  }

  /** A heuristic sub-score of at most 0.6 and a probability give a score in [0, 0.8]. */
  lemma FuseBounds(h: int, ml: real)
    requires 0 <= h <= 60 && 0.0 <= ml <= 1.0
    ensures 0 <= Fuse(h, ml) <= 80
  {
    FuseMonotone(0, 0.0, h, ml);
    FuseMonotone(h, ml, 60, 1.0);
    RoundExact(0);
    RoundExact(80);
  }

  /** Without a model file the only fused scores are 0.25, 0.4 and 0.55. */
  lemma FuseNeutral(h: int)
    requires h == 0 || h == 30 || h == 60
    ensures Fuse(h, NeutralProbability) == (h + 50) / 2
    ensures Fuse(h, NeutralProbability) == 25 || Fuse(h, NeutralProbability) == 40 || Fuse(h, NeutralProbability) == 55
  {
    RoundExact((h + 50) / 2);
    assert (h as real + 100.0 * NeutralProbability) / 2.0 == ((h + 50) / 2) as real;
  }

  /** Decision threshold, in hundredths. */
  const Threshold: int := 50

  datatype Label = Phishing | Safe

  /** The label of a fused score: phishing only strictly above the threshold. */
  function LabelOf(score: int): (l: Label)
    ensures l == Phishing <==> score > 50
  {
    if score > Threshold then Phishing else Safe
  }

  /** The label as the ledger stores it. */
  function LabelName(l: Label): (s: string)
    ensures s == "phishing" || s == "safe"
    ensures s == "phishing" <==> l == Phishing
  {
    match l
    case Phishing => "phishing"
    case Safe => "safe"
  }

  const Explanation: string := "AI+heuristics combined analysis"

  /** The outcome of one analysis. */
  datatype Verdict = Verdict(category: Label, score: int, explanation: string)

  /** The verdict for an analysed text. */
  function Score(c: Classifier, t: string): (v: Verdict)
    requires ProbabilityModel(c)
    ensures v.category == Phishing <==> v.score > 50
    ensures 0 <= v.score <= 80
    ensures v.explanation == Explanation
  {
    var h := HeuristicScore(t);
    var ml := MlScore(c, t);
    FuseBounds(h, ml);
    var score := Fuse(h, ml);
    Verdict(LabelOf(score), score, Explanation)
  }
}

/** Facts about the two heuristic tests as text searches. */
module Patterns {
  import opened Scoring

  lemma LiteralShift(a: string, t: string, b: string, j: nat, p: string)
    requires LiteralAt(t, j, p)
    ensures LiteralAt(a + t + b, j + |a|, p)
  {
    var s := a + t + b;
    forall i | j + |a| <= i < j + |a| + |p|
      ensures s[i] == p[i - (j + |a|)]
    {
      assert s[i] == t[i - |a|];
    }
  }

  lemma FoldedShift(a: string, t: string, b: string, j: nat, w: string)
    requires FoldedAt(t, j, w)
    ensures FoldedAt(a + t + b, j + |a|, w)
  {
    var s := a + t + b;
    forall i | j + |a| <= i < j + |a| + |w|
      ensures FoldsTo(s[i], w[i - (j + |a|)])
    {
      assert s[i] == t[i - |a|];
    }
  }

  /** Surrounding text never hides a URL: the test looks for a substring, anywhere. */
  lemma UrlInContext(a: string, t: string, b: string)
    requires HasUrl(t)
    ensures HasUrl(a + t + b)
  {
    var j: nat :| j < |t| && UrlAt(t, j);
    var s := a + t + b;
    if LiteralAt(t, j, "http://") && j + 7 < |t| && IsHostChar(t[j + 7]) {
      LiteralShift(a, t, b, j, "http://");
      assert s[j + |a| + 7] == t[j + 7];
    } else {
      LiteralShift(a, t, b, j, "https://");
      assert s[j + |a| + 8] == t[j + 8];
    }
    assert UrlAt(s, j + |a|);
  }

  /** Surrounding text never hides a keyword: there is no word boundary in the test. */
  lemma KeywordInContext(a: string, t: string, b: string)
    requires HasKeyword(t)
    ensures HasKeyword(a + t + b)
  {
    var j: nat :| j < |t| && KeywordAt(t, j);
    if FoldedAt(t, j, "verify") {
      FoldedShift(a, t, b, j, "verify");
    } else if FoldedAt(t, j, "urgent") {
      FoldedShift(a, t, b, j, "urgent");
    } else if FoldedAt(t, j, "password") {
      FoldedShift(a, t, b, j, "password");
    } else if FoldedAt(t, j, "bank") {
      FoldedShift(a, t, b, j, "bank");
    } else {
      FoldedShift(a, t, b, j, "login");
    }
    assert KeywordAt(a + t + b, j + |a|);
  }

  /** A string placed inside a text occurs there. */
  lemma LiteralInside(a: string, p: string, b: string)
    ensures LiteralAt(a + p + b, |a|, p)
  {
    var s := a + p + b;
    forall i | |a| <= i < |a| + |p|
      ensures s[i] == p[i - |a|]
    {
    }
  }

  /** A lower-case word placed inside a text occurs there, ignoring case. */
  lemma FoldedInside(a: string, w: string, b: string)
    requires forall m :: 0 <= m < |w| ==> 'a' <= w[m] <= 'z'
    ensures FoldedAt(a + w + b, |a|, w)
  {
    var s := a + w + b;
    forall i | |a| <= i < |a| + |w|
      ensures FoldsTo(s[i], w[i - |a|])
    {
      assert s[i] == w[i - |a|];
    }
  }

  /** Upper case is ignored: "URGENT" and "LogIn" hit the keyword test. */
  lemma KeywordIgnoresCase(t: string, u: string)
    requires t == "URGENT" && u == "LogIn"
    ensures HasKeyword(t) && HasKeyword(u)
  {
    assert FoldedAt(t, 0, "urgent");
    assert KeywordAt(t, 0);
    assert FoldedAt(u, 0, "login");
    assert KeywordAt(u, 0);
  }

  /** There is no word boundary: "banking" hits the keyword test through "bank". */
  lemma KeywordInsideWord(t: string)
    requires t == "banking"
    ensures HasKeyword(t)
  {
    assert t == "" + "bank" + "ing";
    FoldedInside("", "bank", "ing");
    assert KeywordAt(t, 0);
  }

  /** A text without a lower-case `h` holds no URL. */
  lemma NoUrlWithoutH(t: string)
    requires forall i :: 0 <= i < |t| ==> t[i] != 'h'
    ensures !HasUrl(t)
  {
    forall j: nat | j < |t| ensures !UrlAt(t, j) {
      assert t[j] != 'h';
    }
  }

  /** For a letter without special case folds, ignoring case means matching either ASCII case. */
  lemma FoldsToAscii(c: char, k: char)
    requires 'a' <= k <= 'z' && k != 'i' && k != 's' && k != 'k'
    ensures FoldsTo(c, k) <==> c == k || c as int == k as int - 32
  {
  }

  /**
   * No keyword starts at a position holding none of the first letters v, u,
   * b, l in either case, nor a p followed by an a.
   */
  lemma NoKeywordAt(t: string, j: nat)
    requires j < |t|
    requires t[j] != 'v' && t[j] != 'V' && t[j] != 'u' && t[j] != 'U'
    requires t[j] != 'b' && t[j] != 'B' && t[j] != 'l' && t[j] != 'L'
    requires (t[j] == 'p' || t[j] == 'P') && j + 1 < |t| ==> t[j + 1] != 'a' && t[j + 1] != 'A'
    ensures !KeywordAt(t, j)
  {
    FoldsToAscii(t[j], 'v');
    FoldsToAscii(t[j], 'u');
    FoldsToAscii(t[j], 'b');
    FoldsToAscii(t[j], 'l');
    FoldsToAscii(t[j], 'p');
    if j + 1 < |t| {
      FoldsToAscii(t[j + 1], 'a');
    }
  }

  /** The URL test needs a lower-case `http` or `https` scheme and one host character after `://`. */
  lemma UrlHits(t: string, u: string)
    requires t == "https://a" && u == "http://-"
    ensures HasUrl(t) && HasUrl(u)
  {
    assert t == "" + "https://" + "a";
    LiteralInside("", "https://", "a");
    assert UrlAt(t, 0);
    assert u == "" + "http://" + "-";
    LiteralInside("", "http://", "-");
    assert UrlAt(u, 0);
  }

  /** Without a host character after `://` there is no URL. */
  lemma UrlNeedsHost(t: string, u: string)
    requires t == "http://" && u == "https:// x"
    ensures !HasUrl(t) && !HasUrl(u)
  {
    forall j: nat | j < |u| ensures !UrlAt(u, j) {
      if j == 0 {
        assert u[4] == 's';
        assert u[8] == ' ';
      } else {
        assert u[j] != 'h';
      }
    }
  }

  /** The scheme is case-sensitive. */
  lemma UrlSchemeIsCaseSensitive(t: string)
    requires t == "HTTP://example"
    ensures !HasUrl(t)
  {
    NoUrlWithoutH(t);
  }
}
