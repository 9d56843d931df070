/** Scoring a parsed resume against a job requirement: the case-insensitive
    skill match and its 70/30 weighted score, the experience and education
    checks, and the three-way recommendation. The score is an exact real;
    the narrative feedback from the language model is an input. */
module ResumeEvaluation {
  import opened Common
  import opened JsonValue

  /** The parsed resume. Its list fields are typed only as lists, so each
      entry is whatever value the decoder produced. */
  datatype ResumeData = ResumeData(
    name: string,
    email: string,
    phone: Option<string>,
    education: seq<Json>,
    workExperience: seq<Json>,
    skills: seq<Json>,
    projects: seq<Json>,
    certifications: Option<seq<Json>>)

  datatype JobRequirement = JobRequirement(
    title: string,
    requiredSkills: seq<string>,
    preferredSkills: seq<string>,
    minimumYearsExperience: int,
    educationRequirement: string,
    jobDescription: string)

  /** The three recommendation texts: "强烈建议面试", "建议面试，但需要关注部分不足"
      and "暂不建议面试". */
  datatype Recommendation = StronglyRecommend | RecommendWithCaveats | NotRecommended

  datatype EvaluationResult = EvaluationResult(
    score: real,
    matchingSkills: seq<string>,
    missingSkills: seq<string>,
    experienceMatch: bool,
    educationMatch: bool,
    detailedFeedback: string,
    recommendation: Recommendation)

  /** The exceptions evaluation can raise: `.lower()` of a skill or
      education entry that is not a string (an AttributeError), division by
      zero on an empty required-skill list, len() of a work-experience entry
      that has no length, and a failed call to the language model. */
  datatype EvalError = NotAString | DivisionByZero | UnsizedExperienceEntry | FeedbackFailed(message: string)

  const RequiredWeight: real := 70.0
  const PreferredWeight: real := 30.0

  // ---------------------------------------------------------------------
  // Skill matching

  /** The entries of a decoded list as strings, or None when some entry is
      not a string and so has no `.lower()`. */
  function Strings(items: seq<Json>): (r: Option<seq<string>>)
    ensures r.None? <==> exists j :: j in items && !j.Str?
    ensures r.Some? ==> |r.value| == |items| && forall i :: 0 <= i < |items| ==> items[i] == Str(r.value[i])
  {
    if items == [] then Some([])
    else
      var init, last := items[..|items| - 1], items[|items| - 1];
      assert items == init + [last];
      match Strings(init)
      case None =>
        assert forall j :: j in init ==> j in items;
        None
      case Some(strs) =>
        if last.Str? then Some(strs + [last.s]) else None
  }

  function LowerAll(skills: seq<string>): (r: seq<string>)
    ensures |r| == |skills|
    ensures forall i :: 0 <= i < |skills| ==> r[i] == Lower(skills[i])
  {
    seq(|skills|, i requires 0 <= i < |skills| => Lower(skills[i]))
  }

  /** The skills whose lowercase form is (want) or is not (!want) among the
      lowercased resume skills, in their original order and case. */
  function Select(skills: seq<string>, resumeLower: seq<string>, want: bool): (r: seq<string>)
    ensures |r| <= |skills|
  {
    if skills == [] then []
    else
      var last := skills[|skills| - 1];
      Select(skills[..|skills| - 1], resumeLower, want)
        + (if (Lower(last) in resumeLower) == want then [last] else [])
  }

  /** A skill is selected iff it is listed and its lowercase form is (or is
      not) among the resume's; the selection keeps the skills' order. */
  lemma {:induction false} SelectSpec(skills: seq<string>, resumeLower: seq<string>, want: bool)
    ensures forall s :: s in Select(skills, resumeLower, want) <==> s in skills && (Lower(s) in resumeLower) == want
    ensures IsSubsequence(Select(skills, resumeLower, want), skills)
  {
    if skills == [] {
      SubsequenceEmpty(skills);
    } else {
      var init, last := skills[..|skills| - 1], skills[|skills| - 1];
      assert skills == init + [last];
      SelectSpec(init, resumeLower, want);
      SubsequenceSnoc(Select(init, resumeLower, want), init, last, (Lower(last) in resumeLower) == want);
    }
  }

  /** The selection keeps every copy of a selected skill and none of the
      others: a skill listed twice and matched is reported twice. */
  lemma {:induction false} SelectCount(skills: seq<string>, resumeLower: seq<string>, want: bool)
    ensures forall s ::
      multiset(Select(skills, resumeLower, want))[s] == (if (Lower(s) in resumeLower) == want then multiset(skills)[s] else 0)
  {
    if skills != [] {
      var init, last := skills[..|skills| - 1], skills[|skills| - 1];
      assert skills == init + [last];
      SelectCount(init, resumeLower, want);
    }
  }

  /** Every skill lands in exactly one of the matching and missing lists. */
  lemma {:induction false} SelectPartition(skills: seq<string>, resumeLower: seq<string>)
    ensures |Select(skills, resumeLower, true)| + |Select(skills, resumeLower, false)| == |skills|
    ensures multiset(Select(skills, resumeLower, true)) + multiset(Select(skills, resumeLower, false)) == multiset(skills)
  {
    if skills != [] {
      var init, last := skills[..|skills| - 1], skills[|skills| - 1];
      assert skills == init + [last];
      SelectPartition(init, resumeLower);
    }
  }

  /** Selection depends only on which lowercase names the resume has. */
  lemma {:induction false} SelectSameMembers(skills: seq<string>, lower1: seq<string>, lower2: seq<string>, want: bool)
    requires forall s :: s in lower1 <==> s in lower2
    ensures Select(skills, lower1, want) == Select(skills, lower2, want)
  {
    if skills != [] {
      SelectSameMembers(skills[..|skills| - 1], lower1, lower2, want);
    }
  }

  /** More resume skills never match fewer job skills. */
  lemma {:induction false} SelectMonotone(skills: seq<string>, lower1: seq<string>, lower2: seq<string>)
    requires forall s :: s in lower1 ==> s in lower2
    ensures |Select(skills, lower1, true)| <= |Select(skills, lower2, true)|
  {
    if skills != [] {
      SelectMonotone(skills[..|skills| - 1], lower1, lower2);
    }
  }

  // ---------------------------------------------------------------------
  // The weighted score

  datatype SkillMatch = SkillMatch(score: real, matching: seq<string>, missing: seq<string>)

  /** `weight` times the fraction part / whole. */
  function Weighted(part: nat, whole: nat, weight: real): real
    requires whole > 0
  {
    part as real / whole as real * weight
  }

  lemma WeightedBounds(part: nat, whole: nat, weight: real)
    requires 0 < whole && part <= whole && 0.0 <= weight
    ensures 0.0 <= Weighted(part, whole, weight) <= weight
    ensures Weighted(part, whole, weight) == weight <==> part == whole || weight == 0.0
    ensures Weighted(part, whole, weight) == 0.0 <==> part == 0 || weight == 0.0
  {
    var f := part as real / whole as real;
    assert f * whole as real == part as real;
    assert f <= 1.0;
    if f == 1.0 {
      assert part == whole;
    }
  }

  lemma WeightedMonotone(part1: nat, part2: nat, whole: nat, weight: real)
    requires 0 < whole && part1 <= part2 && 0.0 <= weight
    ensures Weighted(part1, whole, weight) <= Weighted(part2, whole, weight)
  {
    var f1 := part1 as real / whole as real;
    var f2 := part2 as real / whole as real;
    assert f1 * whole as real == part1 as real;
    assert f2 * whole as real == part2 as real;
    assert f1 <= f2;
  }

  /** The preferred-skill part of the score: its weighted fraction, or the
      full 30 points when the job lists no preferred skill. */
  function PreferredScore(matched: nat, total: nat): real
  {
    if total > 0 then Weighted(matched, total, PreferredWeight) else PreferredWeight
  }

  lemma PreferredScoreBounds(matched: nat, total: nat)
    requires matched <= total
    ensures 0.0 <= PreferredScore(matched, total) <= PreferredWeight
  {
    if total > 0 {
      WeightedBounds(matched, total, PreferredWeight);
    }
  }

  /** Skill matching as the evaluator computes it: an error when the job
      lists no required skill, otherwise the score with the matching list
      (required then preferred) and the missing required skills. */
  function SkillMatchScore(resumeSkills: seq<string>, required: seq<string>, preferred: seq<string>)
    : (r: Result<SkillMatch, EvalError>)
    ensures r.Err? <==> required == []
    ensures r.Err? ==> r.error == DivisionByZero
    ensures r.Ok? ==> 0.0 <= r.value.score <= 100.0
    ensures r.Ok? ==> |r.value.matching| <= |required| + |preferred| && |r.value.missing| <= |required|
  {
    var resumeLower := LowerAll(resumeSkills);
    var matchingRequired := Select(required, resumeLower, true);
    var matchingPreferred := Select(preferred, resumeLower, true);
    var missing := Select(required, resumeLower, false);
    if |required| == 0 then Err(DivisionByZero)
    else
      WeightedBounds(|matchingRequired|, |required|, RequiredWeight);
      PreferredScoreBounds(|matchingPreferred|, |preferred|);
      var score := Weighted(|matchingRequired|, |required|, RequiredWeight)
                   + PreferredScore(|matchingPreferred|, |preferred|);
      Ok(SkillMatch(score, matchingRequired + matchingPreferred, missing))
  }

  /** Matched(skills, resume): whether a job skill is matched by the resume. */
  predicate Matched(skill: string, resumeSkills: seq<string>)
  {
    exists r :: r in resumeSkills && Lower(r) == Lower(skill)
  }

  lemma MatchedIsSelected(skill: string, resumeSkills: seq<string>)
    ensures Matched(skill, resumeSkills) <==> Lower(skill) in LowerAll(resumeSkills)
  {
    var low := LowerAll(resumeSkills);
    if Lower(skill) in low {
      var i :| 0 <= i < |low| && low[i] == Lower(skill);
      assert resumeSkills[i] in resumeSkills;
    }
    if Matched(skill, resumeSkills) {
      var r :| r in resumeSkills && Lower(r) == Lower(skill);
      var i :| 0 <= i < |resumeSkills| && resumeSkills[i] == r;
      assert low[i] == Lower(skill);
    }
  }

  /** The membership, order and partition half of SkillListsSpec. */
  lemma SkillListsOrder(resumeSkills: seq<string>, required: seq<string>, preferred: seq<string>)
    requires required != []
    ensures var m := SkillMatchScore(resumeSkills, required, preferred).value;
      && (exists k :: 0 <= k <= |m.matching|
            && (forall s :: s in m.matching[..k] <==> s in required && Matched(s, resumeSkills))
            && (forall s :: s in m.matching[k..] <==> s in preferred && Matched(s, resumeSkills))
            && IsSubsequence(m.matching[..k], required)
            && IsSubsequence(m.matching[k..], preferred)
            && multiset(m.matching[..k]) + multiset(m.missing) == multiset(required))
      && (forall s :: s in m.missing <==> s in required && !Matched(s, resumeSkills))
      && IsSubsequence(m.missing, required)
  {
    var low := LowerAll(resumeSkills);
    var mr := Select(required, low, true);
    var mp := Select(preferred, low, true);
    var m := SkillMatchScore(resumeSkills, required, preferred).value;
    assert m.matching == mr + mp;
    assert m.matching[..|mr|] == mr && m.matching[|mr|..] == mp;
    SelectSpec(required, low, true);
    SelectSpec(preferred, low, true);
    SelectSpec(required, low, false);
    SelectPartition(required, low);
    forall s
      ensures Matched(s, resumeSkills) <==> Lower(s) in low
    {
      MatchedIsSelected(s, resumeSkills);
    }
  }

  /** The lists: a job skill is matched iff some resume skill equals it up to
      case; the matching list is the matched required skills then the
      matched preferred skills, the missing list the unmatched required
      skills, each in the job's order and case; a matched skill appears as
      often as the two job lists hold it together; every required skill is
      in exactly one of the two lists. */
  lemma SkillListsSpec(resumeSkills: seq<string>, required: seq<string>, preferred: seq<string>)
    requires required != []
    ensures var m := SkillMatchScore(resumeSkills, required, preferred).value;
      && (exists k :: 0 <= k <= |m.matching|
            && (forall s :: s in m.matching[..k] <==> s in required && Matched(s, resumeSkills))
            && (forall s :: s in m.matching[k..] <==> s in preferred && Matched(s, resumeSkills))
            && IsSubsequence(m.matching[..k], required)
            && IsSubsequence(m.matching[k..], preferred)
            && multiset(m.matching[..k]) + multiset(m.missing) == multiset(required))
      && (forall s :: s in m.matching ==> multiset(m.matching)[s] == multiset(required)[s] + multiset(preferred)[s])
      && (forall s :: s in m.missing <==> s in required && !Matched(s, resumeSkills))
      && IsSubsequence(m.missing, required)
  {
    SkillListsOrder(resumeSkills, required, preferred);
    MatchingCount(resumeSkills, required, preferred);
  }

  /** A matched skill is reported as often as the required and preferred
      lists hold it together. */
  lemma MatchingCount(resumeSkills: seq<string>, required: seq<string>, preferred: seq<string>)
    requires required != []
    ensures var m := SkillMatchScore(resumeSkills, required, preferred).value;
      forall s :: s in m.matching ==> multiset(m.matching)[s] == multiset(required)[s] + multiset(preferred)[s]
  {
    var low := LowerAll(resumeSkills);
    var mr, mp := Select(required, low, true), Select(preferred, low, true);
    var m := SkillMatchScore(resumeSkills, required, preferred).value;
    assert multiset(m.matching) == multiset(mr) + multiset(mp);
    SelectSpec(required, low, true);
    SelectSpec(preferred, low, true);
    SelectCount(required, low, true);
    SelectCount(preferred, low, true);
  }

  /** Every skill is matched exactly when none is missing, and none is
      matched exactly when the matching list is empty; the matched count is
      full or zero accordingly. */
  lemma SelectExtremes(skills: seq<string>, low: seq<string>)
    ensures (forall s :: s in skills ==> Lower(s) in low) <==> |Select(skills, low, true)| == |skills|
    ensures (forall s :: s in skills ==> Lower(s) !in low) <==> |Select(skills, low, true)| == 0
  {
    var matched, missing := Select(skills, low, true), Select(skills, low, false);
    SelectSpec(skills, low, true);
    SelectSpec(skills, low, false);
    SelectPartition(skills, low);
    if missing != [] {
      assert missing[0] in missing;
    }
    if matched != [] {
      assert matched[0] in matched;
    }
  }

  /** The score's shape: with no preferred skills the preferred part is the
      full 30; the score is 100 exactly when every listed skill is matched;
      with preferred skills listed it is 0 exactly when nothing is matched. */
  lemma ScoreExtremes(resumeSkills: seq<string>, required: seq<string>, preferred: seq<string>)
    requires required != []
    ensures var low := LowerAll(resumeSkills);
      var score := SkillMatchScore(resumeSkills, required, preferred).value.score;
      && (preferred == [] ==> score == Weighted(|Select(required, low, true)|, |required|, RequiredWeight) + 30.0)
      && (score == 100.0 <==>
            (forall s :: s in required ==> Lower(s) in low) && (forall s :: s in preferred ==> Lower(s) in low))
      && (preferred != [] ==>
            (score == 0.0 <==>
              (forall s :: s in required ==> Lower(s) !in low) && (forall s :: s in preferred ==> Lower(s) !in low)))
  {
    var low := LowerAll(resumeSkills);
    var mr, mp := Select(required, low, true), Select(preferred, low, true);
    SelectExtremes(required, low);
    SelectExtremes(preferred, low);
    WeightedBounds(|mr|, |required|, RequiredWeight);
    if preferred != [] {
      WeightedBounds(|mp|, |preferred|, PreferredWeight);
    }
  }

  /** Adding skills to the resume never lowers the score, and the score
      depends only on which skills the resume lists up to case, not on their
      order, case or repetition. */
  lemma ScoreMonotone(resume1: seq<string>, resume2: seq<string>, required: seq<string>, preferred: seq<string>)
    requires required != []
    requires forall s :: s in resume1 ==> exists t :: t in resume2 && Lower(t) == Lower(s)
    ensures SkillMatchScore(resume1, required, preferred).value.score
         <= SkillMatchScore(resume2, required, preferred).value.score
  {
    var low1, low2 := LowerAll(resume1), LowerAll(resume2);
    forall s | s in low1
      ensures s in low2
    {
      var i :| 0 <= i < |low1| && low1[i] == s;
      assert resume1[i] in resume1;
      var t :| t in resume2 && Lower(t) == Lower(resume1[i]);
      var j :| 0 <= j < |resume2| && resume2[j] == t;
      assert low2[j] == s;
    }
    SelectMonotone(required, low1, low2);
    SelectMonotone(preferred, low1, low2);
    WeightedMonotone(|Select(required, low1, true)|, |Select(required, low2, true)|, |required|, RequiredWeight);
    if preferred != [] {
      WeightedMonotone(|Select(preferred, low1, true)|, |Select(preferred, low2, true)|, |preferred|, PreferredWeight);
    }
  }

  lemma ScoreIgnoresCaseAndOrder(resume1: seq<string>, resume2: seq<string>, required: seq<string>, preferred: seq<string>)
    requires forall s :: s in LowerAll(resume1) <==> s in LowerAll(resume2)
    ensures SkillMatchScore(resume1, required, preferred) == SkillMatchScore(resume2, required, preferred)
  {
    var low1, low2 := LowerAll(resume1), LowerAll(resume2);
    SelectSameMembers(required, low1, low2, true);
    SelectSameMembers(preferred, low1, low2, true);
    SelectSameMembers(required, low1, low2, false);
  }

  // ---------------------------------------------------------------------
  // Experience and education

  /** The total work experience: the lengths of the entries added up, or
      None when some entry has no length (a TypeError). */
  function TotalExperience(entries: seq<Json>): Option<nat>
  {
    if entries == [] then Some(0)
    else
      match (TotalExperience(entries[..|entries| - 1]), Len(entries[|entries| - 1]))
      case (Some(total), Some(n)) => Some(total + n)
      case _ => None
  }

  /** The total fails exactly when some entry has no length. */
  lemma {:induction false} TotalExperienceFails(entries: seq<Json>)
    ensures TotalExperience(entries).None? <==> exists e :: e in entries && Len(e).None?
  {
    if entries != [] {
      var init, last := entries[..|entries| - 1], entries[|entries| - 1];
      assert entries == init + [last];
      TotalExperienceFails(init);
    }
  }

  /** The total adds up over a split of the entries, so more work history
      never lowers it. */
  lemma {:induction false} TotalExperienceAppend(a: seq<Json>, b: seq<Json>)
    ensures TotalExperience(a + b).Some? <==> TotalExperience(a).Some? && TotalExperience(b).Some?
    ensures TotalExperience(a + b).Some? ==>
      TotalExperience(a + b).value == TotalExperience(a).value + TotalExperience(b).value
  {
    if b == [] {
      assert a + b == a;
    } else {
      var init, last := b[..|b| - 1], b[|b| - 1];
      assert (a + b)[..|a + b| - 1] == a + init;
      assert (a + b)[|a + b| - 1] == last;
      TotalExperienceAppend(a, init);
    }
  }

  /** The education test on string entries: some entry contains the
      requirement once both are lower-cased. */
  predicate EducationMatch(requirement: string, education: seq<string>)
  {
    exists e :: e in education && Contains(Lower(e), Lower(requirement))
  }

  /** No education entry never matches; an empty requirement matches any
      non-empty list; the test ignores the requirement's case. */
  lemma EducationMatchEdges(requirement: string, education: seq<string>)
    ensures education == [] ==> !EducationMatch(requirement, education)
    ensures requirement == "" && education != [] ==> EducationMatch(requirement, education)
    ensures EducationMatch(Lower(requirement), education) == EducationMatch(requirement, education)
  {
    if requirement == "" && education != [] {
      assert OccursAt(Lower(education[0]), Lower(requirement), 0);
      assert education[0] in education;
    }
    LowerIdempotent(requirement);
  }

  /** Whether a decoded education entry is a string that contains the
      requirement once both are lower-cased. */
  predicate MentionsRequirement(requirement: string, entry: Json)
  {
    entry.Str? && Contains(Lower(entry.s), Lower(requirement))
  }

  /** The education test as the generator expression runs it: entries are
      read in order, the first one mentioning the requirement ends the scan
      with true, and a non-string entry reached before it raises (None). */
  function EducationScan(requirement: string, education: seq<Json>): Option<bool>
  {
    if education == [] then Some(false)
    else if !education[0].Str? then None
    else if MentionsRequirement(requirement, education[0]) then Some(true)
    else EducationScan(requirement, education[1..])
  }

  /** Entry i is the first to mention the requirement and only strings come
      before it: the scan stops there with true. */
  predicate FoundAt(requirement: string, education: seq<Json>, i: int)
  {
    0 <= i < |education| && MentionsRequirement(requirement, education[i])
    && forall j :: 0 <= j < i ==> education[j].Str?
  }

  /** Entry i is not a string and no entry before it mentions the
      requirement: the scan raises there. */
  predicate FailsAt(requirement: string, education: seq<Json>, i: int)
  {
    0 <= i < |education| && !education[i].Str?
    && forall j :: 0 <= j < i ==> !MentionsRequirement(requirement, education[j])
  }

  /** The scan answers true iff it finds a mention before any non-string
      entry, raises iff it meets a non-string entry before any mention, and
      answers false iff every entry is a string and none mentions the
      requirement. A non-string entry after a mention is never read. */
  lemma {:induction false} EducationScanSpec(requirement: string, education: seq<Json>)
    ensures EducationScan(requirement, education) == Some(true) <==> exists i :: FoundAt(requirement, education, i)
    ensures EducationScan(requirement, education).None? <==> exists i :: FailsAt(requirement, education, i)
    ensures EducationScan(requirement, education) == Some(false) <==>
      forall j :: 0 <= j < |education| ==> education[j].Str? && !MentionsRequirement(requirement, education[j])
  {
    if education == [] {
    } else if !education[0].Str? {
      assert FailsAt(requirement, education, 0);
    } else if MentionsRequirement(requirement, education[0]) {
      assert FoundAt(requirement, education, 0);
      assert forall i :: !FailsAt(requirement, education, i);
    } else {
      var rest := education[1..];
      EducationScanSpec(requirement, rest);
      assert !FoundAt(requirement, education, 0) && !FailsAt(requirement, education, 0);
      if i :| FoundAt(requirement, education, i) {
        assert FoundAt(requirement, rest, i - 1);
      }
      if i :| FoundAt(requirement, rest, i) {
        assert FoundAt(requirement, education, i + 1);
      }
      if i :| FailsAt(requirement, education, i) {
        assert FailsAt(requirement, rest, i - 1);
      }
      if i :| FailsAt(requirement, rest, i) {
        assert FailsAt(requirement, education, i + 1);
      }
      assert forall j :: 1 <= j < |education| ==> education[j] == rest[j - 1];
    }
  }

  /** On a list of strings the scan raises nothing and answers the education
      test. */
  lemma EducationScanOfStrings(requirement: string, education: seq<Json>)
    requires Strings(education).Some?
    ensures EducationScan(requirement, education) == Some(EducationMatch(requirement, Strings(education).value))
  {
    var strs := Strings(education).value;
    EducationScanSpec(requirement, education);
    if EducationMatch(requirement, strs) {
      var e :| e in strs && Contains(Lower(e), Lower(requirement));
      var i :| 0 <= i < |strs| && strs[i] == e;
      assert MentionsRequirement(requirement, education[i]);
    } else {
      forall j | 0 <= j < |education|
        ensures !MentionsRequirement(requirement, education[j])
      {
        assert strs[j] in strs;
      }
    }
  }

  // ---------------------------------------------------------------------
  // Recommendation

  function Recommend(score: real, experienceMatch: bool, educationMatch: bool): Recommendation
  {
    if score >= 80.0 && experienceMatch && educationMatch then StronglyRecommend
    else if score >= 60.0 && (experienceMatch || educationMatch) then RecommendWithCaveats
    else NotRecommended
  }

  function Rank(r: Recommendation): nat
  {
    match r
    case NotRecommended => 0
    case RecommendWithCaveats => 1
    case StronglyRecommend => 2
  }

  /** A higher score or more satisfied checks never lower the
      recommendation; below 60, or with neither check met, nothing is
      recommended. */
  lemma RecommendMonotone(score1: real, exp1: bool, edu1: bool, score2: real, exp2: bool, edu2: bool)
    requires score1 <= score2 && (exp1 ==> exp2) && (edu1 ==> edu2)
    ensures Rank(Recommend(score1, exp1, edu1)) <= Rank(Recommend(score2, exp2, edu2))
    ensures score1 < 60.0 ==> Recommend(score1, exp1, edu1) == NotRecommended
    ensures !exp1 && !edu1 ==> Recommend(score1, exp1, edu1) == NotRecommended
  {
  }

  lemma RecommendExamples()
    ensures Recommend(85.0, true, true) == StronglyRecommend
    ensures Recommend(65.0, true, false) == RecommendWithCaveats
    ensures forall e: bool, d: bool :: Recommend(40.0, e, d) == NotRecommended
  {
  }

  // ---------------------------------------------------------------------
  // The whole evaluation

  /** evaluate_resume; `feedback` is the language model's narrative or its
      failure. Errors surface in the order the steps run: lower-casing the
      resume's skills, the score's division, the experience sum, the
      education scan, the language model. */
  function EvaluateResume(resume: ResumeData, job: JobRequirement, feedback: Result<string, string>)
    : (r: Result<EvaluationResult, EvalError>)
    ensures r.Err? <==>
      || Strings(resume.skills).None?
      || job.requiredSkills == []
      || TotalExperience(resume.workExperience).None?
      || EducationScan(job.educationRequirement, resume.education).None?
      || feedback.Err?
    ensures Strings(resume.skills).None? ==> r == Err(NotAString)
    ensures Strings(resume.skills).Some? && job.requiredSkills == [] ==> r == Err(DivisionByZero)
    ensures Strings(resume.skills).Some? && job.requiredSkills != [] && TotalExperience(resume.workExperience).None? ==>
      r == Err(UnsizedExperienceEntry)
    ensures
      && Strings(resume.skills).Some? && job.requiredSkills != [] && TotalExperience(resume.workExperience).Some?
      && EducationScan(job.educationRequirement, resume.education).None?
      ==> r == Err(NotAString)
    ensures
      && Strings(resume.skills).Some? && job.requiredSkills != [] && TotalExperience(resume.workExperience).Some?
      && EducationScan(job.educationRequirement, resume.education).Some? && feedback.Err?
      ==> r == Err(FeedbackFailed(feedback.error))
    ensures r.Ok? ==>
      && SkillMatchScore(Strings(resume.skills).value, job.requiredSkills, job.preferredSkills)
           == Ok(SkillMatch(r.value.score, r.value.matchingSkills, r.value.missingSkills))
      && 0.0 <= r.value.score <= 100.0
      && (r.value.experienceMatch <==> TotalExperience(resume.workExperience).value >= job.minimumYearsExperience)
      && EducationScan(job.educationRequirement, resume.education) == Some(r.value.educationMatch)
      && r.value.detailedFeedback == feedback.value
      && r.value.recommendation == Recommend(r.value.score, r.value.experienceMatch, r.value.educationMatch)
  {
    match Strings(resume.skills)
    case None => Err(NotAString)
    case Some(skills) =>
      match SkillMatchScore(skills, job.requiredSkills, job.preferredSkills)
      case Err(e) => Err(e)
      case Ok(m) =>
        match TotalExperience(resume.workExperience)
        case None => Err(UnsizedExperienceEntry)
        case Some(total) =>
          var experienceMatch := total >= job.minimumYearsExperience;
          match EducationScan(job.educationRequirement, resume.education)
          case None => Err(NotAString)
          case Some(educationMatch) =>
            match feedback
            case Err(message) => Err(FeedbackFailed(message))
            case Ok(text) =>
              Ok(EvaluationResult(m.score, m.matching, m.missing, experienceMatch, educationMatch, text,
                                  Recommend(m.score, experienceMatch, educationMatch)))
  }
}
