/** `get_missing_keywords` (backend/matcher/views.py:99-117): the catalog skills
    that the job description's keyword set has and the resume's lacks, each
    scored by its weight and its position in its role's list, ranked by a stable
    descending sort and cut to the first 15. */
module GapRanker {
  import opened Seqs
  import opened Text
  import opened StableSort
  import opened SkillCatalog

  /** The number of keywords returned. */
  const MaxMissing: nat := 15

  /** One element of `missing_keywords`: (skill.lower(), weight, category). */
  datatype Candidate = Candidate(keyword: string, weight: int, role: string)

  /** One element of `priority_map`: (keyword, final_priority). */
  datatype Ranked = Ranked(keyword: string, priority: int)

  /** The test of the first loop: in the job description, not in the resume. */
  predicate IsMissing(keyword: string, resume: set<string>, jd: set<string>) {
    keyword in jd && keyword !in resume
  }

  /** The lowercased skill names of a role's list, in list order. */
  function LowerSkills(entries: seq<Entry>): (r: seq<string>)
    ensures |r| == |entries|
    ensures forall i :: 0 <= i < |entries| ==> r[i] == Lower(entries[i].skill)
  {
    seq(|entries|, i requires 0 <= i < |entries| => Lower(entries[i].skill))
  }

  /** Some role of the catalog lists a skill whose lowercase form is `keyword`. */
  ghost predicate IsCatalogKeyword(c: Catalog, keyword: string) {
    exists role :: role in c.groups && keyword in LowerSkills(c.groups[role])
  }

  /** The candidates the inner loop emits for one role's list. */
  function RoleCandidates(role: string, entries: seq<Entry>, resume: set<string>, jd: set<string>): (r: seq<Candidate>)
    ensures |r| <= |entries|
    ensures forall k :: 0 <= k < |r| ==>
      r[k].role == role && IsMissing(r[k].keyword, resume, jd) && r[k].keyword in LowerSkills(entries)
  {
    if entries == [] then []
    else
      var e := entries[|entries| - 1];
      var prev := RoleCandidates(role, entries[..|entries| - 1], resume, jd);
      assert LowerSkills(entries[..|entries| - 1]) == LowerSkills(entries)[..|entries| - 1];
      prev + (if IsMissing(Lower(e.skill), resume, jd) then [Candidate(Lower(e.skill), e.weight, role)] else [])
  }

  /** One more entry of the inner loop. */
  lemma RoleCandidatesStep(role: string, entries: seq<Entry>, j: nat, resume: set<string>, jd: set<string>)
    requires j < |entries|
    ensures RoleCandidates(role, entries[..j + 1], resume, jd) ==
      RoleCandidates(role, entries[..j], resume, jd) +
      (if IsMissing(Lower(entries[j].skill), resume, jd) then [Candidate(Lower(entries[j].skill), entries[j].weight, role)] else [])
  {
    assert entries[..j + 1][..j] == entries[..j];
  }

  /** The candidates the nested loops emit for `roles`, role after role. */
  function CandidatesOf(c: Catalog, roles: seq<string>, resume: set<string>, jd: set<string>): (r: seq<Candidate>)
    requires forall role :: role in roles ==> role in c.groups
    ensures forall k :: 0 <= k < |r| ==>
      r[k].role in roles && IsMissing(r[k].keyword, resume, jd) && r[k].keyword in LowerSkills(c.groups[r[k].role])
  {
    if roles == [] then []
    else
      var role := roles[|roles| - 1];
      CandidatesOf(c, roles[..|roles| - 1], resume, jd) + RoleCandidates(role, c.groups[role], resume, jd)
  }

  /** One more role of the outer loop. */
  lemma CandidatesOfStep(c: Catalog, roles: seq<string>, i: nat, resume: set<string>, jd: set<string>)
    requires forall role :: role in roles ==> role in c.groups
    requires i < |roles|
    ensures CandidatesOf(c, roles[..i + 1], resume, jd) ==
      CandidatesOf(c, roles[..i], resume, jd) + RoleCandidates(roles[i], c.groups[roles[i]], resume, jd)
  {
    assert roles[..i + 1][..i] == roles[..i];
  }

  /** `keyword_position`: the first index of the keyword in its role's
      lowercased list, or the list's length where `.index` raises ValueError. */
  function Position(c: Catalog, cand: Candidate): (r: nat)
    requires cand.role in c.groups
    ensures r <= |c.groups[cand.role]|
    ensures r < |c.groups[cand.role]| <==> cand.keyword in LowerSkills(c.groups[cand.role])
  {
    IndexOf(LowerSkills(c.groups[cand.role]), cand.keyword)
  }

  /** A candidate's final priority: its weight times the length of its role's
      list minus its position there. */
  function Priority(c: Catalog, cand: Candidate): (r: int)
    requires cand.role in c.groups
    ensures cand.keyword !in LowerSkills(c.groups[cand.role]) ==> r == 0
    ensures cand.keyword in LowerSkills(c.groups[cand.role]) && cand.weight >= 0 ==> r >= cand.weight
  {
    var n := |c.groups[cand.role]| - Position(c, cand);
    ScaleAtLeast(cand.weight, n);
    cand.weight * n
  }

  /** A non-negative weight times a factor of at least one is at least the weight. */
  lemma ScaleAtLeast(w: int, n: int)
    ensures w >= 0 && n >= 1 ==> w * n >= w
  {
    if w >= 0 && n >= 1 {
      assert w * n == w + w * (n - 1);
    }
  }

  /** `priority_map`, built from the candidates in order. */
  function Prioritize(c: Catalog, cands: seq<Candidate>): (r: seq<Ranked>)
    requires forall k :: 0 <= k < |cands| ==> cands[k].role in c.groups
    ensures |r| == |cands|
  {
    if cands == [] then []
    else
      var cand := cands[|cands| - 1];
      Prioritize(c, cands[..|cands| - 1]) + [Ranked(cand.keyword, Priority(c, cand))]
  }

  /** One more candidate of the priority loop. */
  lemma PrioritizeStep(c: Catalog, cands: seq<Candidate>, k: nat)
    requires forall k :: 0 <= k < |cands| ==> cands[k].role in c.groups
    requires k < |cands|
    ensures Prioritize(c, cands[..k + 1]) == Prioritize(c, cands[..k]) + [Ranked(cands[k].keyword, Priority(c, cands[k]))]
  {
    assert cands[..k + 1][..k] == cands[..k];
  }

  /** The sort key. */
  function PriorityOf(x: Ranked): (p: int) {
    x.priority
  }

  /** The candidates of the whole catalog, in emission order. */
  function Emitted(resume: set<string>, jd: set<string>, c: Catalog): (r: seq<Ranked>)
    requires Valid(c)
  {
    Prioritize(c, CandidatesOf(c, c.roles, resume, jd))
  }

  /** `priority_map` after its stable in-place sort, highest priority first. */
  function Ranking(resume: set<string>, jd: set<string>, c: Catalog): (r: seq<Ranked>)
    requires Valid(c)
    ensures multiset(r) == multiset(Emitted(resume, jd, c))
    ensures NonIncreasing(r, PriorityOf)
  {
    SortDesc(Emitted(resume, jd, c), PriorityOf)
  }

  /** The keywords of ranked pairs, dropping the priorities. */
  function KeywordsOf(rs: seq<Ranked>): (r: seq<string>)
    ensures |r| == |rs|
    ensures forall i :: 0 <= i < |rs| ==> r[i] == rs[i].keyword
  {
    seq(|rs|, i requires 0 <= i < |rs| => rs[i].keyword)
  }

  /** The value `get_missing_keywords` returns for the resume's keywords, the
      job description's keywords and the catalog. */
  function MissingKeywords(resume: set<string>, jd: set<string>, c: Catalog): (r: seq<string>)
    requires Valid(c)
    ensures |r| <= MaxMissing
    ensures |r| == MaxMissing || |r| == |Emitted(resume, jd, c)|
  {
    var ranked := Ranking(resume, jd, c);
    assert |ranked| == |multiset(ranked)| == |Emitted(resume, jd, c)|;
    KeywordsOf(Take(ranked, MaxMissing))
  }

  /** The nested loops of `get_missing_keywords` that fill `missing_keywords`;
      the inner loop is `CollectRole`. */
  method CollectCandidates(resume: set<string>, jd: set<string>, c: Catalog) returns (cands: seq<Candidate>)
    requires Valid(c)
    ensures cands == CandidatesOf(c, c.roles, resume, jd)
  {
    cands := [];
    var i := 0;
    while i < |c.roles|
      invariant 0 <= i <= |c.roles|
      invariant cands == CandidatesOf(c, c.roles[..i], resume, jd)
    {
      var role := c.roles[i];
      var found := CollectRole(role, c.groups[role], resume, jd);
      cands := cands + found;
      CandidatesOfStep(c, c.roles, i, resume, jd);
      i := i + 1;
    }
    assert c.roles[..i] == c.roles;
  }

  /** The inner loop of `get_missing_keywords` over one role's list: the
      candidates it appends to `missing_keywords`. */
  method CollectRole(role: string, skills: seq<Entry>, resume: set<string>, jd: set<string>) returns (found: seq<Candidate>)
    ensures found == RoleCandidates(role, skills, resume, jd)
  {
    found := [];
    var j := 0;
    while j < |skills|
      invariant 0 <= j <= |skills|
      invariant found == RoleCandidates(role, skills[..j], resume, jd)
    {
      var keyword := Lower(skills[j].skill);
      if keyword in jd && keyword !in resume {
        found := found + [Candidate(keyword, skills[j].weight, role)];
      }
      RoleCandidatesStep(role, skills, j, resume, jd);
      j := j + 1;
    }
    assert skills[..j] == skills;
  }

  /** The loop of `get_missing_keywords` that fills `priority_map`. */
  method AssignPriorities(c: Catalog, cands: seq<Candidate>) returns (ranked: seq<Ranked>)
    requires forall k :: 0 <= k < |cands| ==> cands[k].role in c.groups
    ensures ranked == Prioritize(c, cands)
  {
    ranked := [];
    var k := 0;
    while k < |cands|
      invariant 0 <= k <= |cands|
      invariant ranked == Prioritize(c, cands[..k])
    {
      var cand := cands[k];
      var names := LowerSkills(c.groups[cand.role]);
      var position := IndexOf(names, cand.keyword);
      ranked := ranked + [Ranked(cand.keyword, cand.weight * (|c.groups[cand.role]| - position))];
      PrioritizeStep(c, cands, k);
      k := k + 1;
    }
    assert cands[..k] == cands;
  }

  /** `get_missing_keywords`: collect, score, sort in place, keep the first 15. */
  method GetMissingKeywords(resume: set<string>, jd: set<string>, c: Catalog) returns (missing: seq<string>)
    requires Valid(c)
    ensures missing == MissingKeywords(resume, jd, c)
    ensures |missing| <= MaxMissing
    ensures forall k :: 0 <= k < |missing| ==>
      IsMissing(missing[k], resume, jd) && IsCatalogKeyword(c, missing[k])
  {
    var cands := CollectCandidates(resume, jd, c);
    var ranked := AssignPriorities(c, cands);
    ranked := SortDesc(ranked, PriorityOf);
    missing := KeywordsOf(Take(ranked, MaxMissing));
    MissingKeywordsSound(resume, jd, c);
  }

  /** Every element of the ranking is a candidate's keyword with its priority. */
  lemma RankingFromCandidates(resume: set<string>, jd: set<string>, c: Catalog, k: nat)
    requires Valid(c)
    requires k < |Ranking(resume, jd, c)|
    ensures IsMissing(Ranking(resume, jd, c)[k].keyword, resume, jd)
    ensures IsCatalogKeyword(c, Ranking(resume, jd, c)[k].keyword)
  {
    var cands := CandidatesOf(c, c.roles, resume, jd);
    var emitted := Emitted(resume, jd, c);
    var x := Ranking(resume, jd, c)[k];
    assert x in multiset(emitted);
    var m :| 0 <= m < |emitted| && emitted[m] == x;
    PrioritizeAt(c, cands, m);
    assert cands[m].role in c.groups && x.keyword in LowerSkills(c.groups[cands[m].role]);
  }

  /** Every returned keyword is a lowercased catalog skill that the job
      description has and the resume lacks; at most 15 are returned, and they
      are the first 15 of the full ranking. */
  lemma MissingKeywordsSound(resume: set<string>, jd: set<string>, c: Catalog)
    requires Valid(c)
    ensures |MissingKeywords(resume, jd, c)| == if |Ranking(resume, jd, c)| <= MaxMissing then |Ranking(resume, jd, c)| else MaxMissing
    ensures MissingKeywords(resume, jd, c) == KeywordsOf(Ranking(resume, jd, c))[..|MissingKeywords(resume, jd, c)|]
    ensures forall k :: 0 <= k < |MissingKeywords(resume, jd, c)| ==>
      IsMissing(MissingKeywords(resume, jd, c)[k], resume, jd) && IsCatalogKeyword(c, MissingKeywords(resume, jd, c)[k])
  {
    var ranking := Ranking(resume, jd, c);
    var out := MissingKeywords(resume, jd, c);
    KeywordsOfTake(ranking, MaxMissing);
    forall k | 0 <= k < |out|
      ensures IsMissing(out[k], resume, jd) && IsCatalogKeyword(c, out[k])
    {
      assert out[k] == ranking[k].keyword;
      RankingFromCandidates(resume, jd, c, k);
    }
  }

  /** The keywords of the first `n` ranked are the first keywords of all. */
  lemma KeywordsOfTake(rs: seq<Ranked>, n: nat)
    ensures var out := KeywordsOf(Take(rs, n));
      && |out| == (if |rs| <= n then |rs| else n)
      && out == KeywordsOf(rs)[..|out|]
  {
  }

  /** The `m`-th element of `priority_map` comes from the `m`-th candidate. */
  lemma {:induction false} PrioritizeAt(c: Catalog, cands: seq<Candidate>, m: nat)
    requires forall k :: 0 <= k < |cands| ==> cands[k].role in c.groups
    requires m < |cands|
    ensures Prioritize(c, cands)[m] == Ranked(cands[m].keyword, Priority(c, cands[m]))
  {
    if m < |cands| - 1 {
      PrioritizeAt(c, cands[..|cands| - 1], m);
    }
  }

  /** The position of every candidate is the first index of its keyword in its
      role's lowercased list, so the ValueError fallback never happens and the
      factor `len - position` is at least 1. A role listing the same lowercased
      skill twice gives both candidates that first index. */
  lemma CandidatePosition(resume: set<string>, jd: set<string>, c: Catalog, k: nat)
    requires Valid(c)
    requires k < |CandidatesOf(c, c.roles, resume, jd)|
    ensures var cand := CandidatesOf(c, c.roles, resume, jd)[k];
      && cand.role in c.groups
      && Position(c, cand) < |c.groups[cand.role]|
      && Lower(c.groups[cand.role][Position(c, cand)].skill) == cand.keyword
      && (forall q :: 0 <= q < Position(c, cand) ==> Lower(c.groups[cand.role][q].skill) != cand.keyword)
      && |c.groups[cand.role]| - Position(c, cand) >= 1
  {
  }

  /** An earlier listing with a positive weight no smaller than the other's
      ranks strictly higher: for equal weights an earlier position always wins,
      and the first skill of a role outranks its last one. */
  lemma EarlierListingOutranks(c: Catalog, a: Candidate, b: Candidate)
    requires a.role in c.groups && b.role == a.role
    requires Position(c, a) < Position(c, b) < |c.groups[a.role]|
    requires 0 < a.weight && b.weight <= a.weight
    ensures Priority(c, a) > Priority(c, b)
  {
    var n := |c.groups[a.role]|;
    var fa, fb := n - Position(c, a), n - Position(c, b);
    assert Priority(c, a) == a.weight * fa && Priority(c, b) == b.weight * fb;
    ScaledOrder(a.weight, b.weight, fa, fb);
  }

  /** A larger positive weight on a larger positive factor gives a larger product. */
  lemma ScaledOrder(wa: int, wb: int, fa: int, fb: int)
    requires 0 < wa && wb <= wa && 1 <= fb < fa
    ensures wa * fa > wb * fb
  {
    calc {
      wa * fa;
    >= { MulMonotone(wa, fb + 1, fa); }
      wa * (fb + 1);
      wa * fb + wa;
    >
      wa * fb;
    >= { MulMonotone(fb, wb, wa); }
      fb * wb;
    }
  }

  lemma MulMonotone(x: int, y: int, z: int)
    requires 0 <= x && y <= z
    ensures x * y <= x * z
  {
  }

  /** The ranking is the stable descending sort of the emitted candidates: the
      same candidates (none merged, so a skill missing under two roles appears
      twice), priorities non-increasing, and equal priorities in emission order
      (role order, then list order). */
  lemma RankingOrder(resume: set<string>, jd: set<string>, c: Catalog)
    requires Valid(c)
    ensures |Ranking(resume, jd, c)| == |CandidatesOf(c, c.roles, resume, jd)|
    ensures multiset(Ranking(resume, jd, c)) == multiset(Emitted(resume, jd, c))
    ensures NonIncreasing(Ranking(resume, jd, c), PriorityOf)
    ensures forall p :: KeyFilter(Ranking(resume, jd, c), PriorityOf, p) == KeyFilter(Emitted(resume, jd, c), PriorityOf, p)
  {
    var emitted := Emitted(resume, jd, c);
    assert |multiset(Ranking(resume, jd, c))| == |multiset(emitted)|;
    forall p ensures KeyFilter(Ranking(resume, jd, c), PriorityOf, p) == KeyFilter(emitted, PriorityOf, p) {
      SortDescStable(emitted, PriorityOf, p);
    }
  }

  /** Every listed skill that the job description has and the resume lacks is
      emitted under its role. */
  lemma {:induction false} RoleCandidatesComplete(role: string, entries: seq<Entry>, resume: set<string>, jd: set<string>, j: nat)
    requires j < |entries| && IsMissing(Lower(entries[j].skill), resume, jd)
    ensures Candidate(Lower(entries[j].skill), entries[j].weight, role) in RoleCandidates(role, entries, resume, jd)
  {
    if j < |entries| - 1 {
      RoleCandidatesComplete(role, entries[..|entries| - 1], resume, jd, j);
    }
  }

  lemma {:induction false} CandidatesOfComplete(c: Catalog, roles: seq<string>, resume: set<string>, jd: set<string>, role: string, j: nat)
    requires forall r :: r in roles ==> r in c.groups
    requires role in roles && j < |c.groups[role]|
    requires IsMissing(Lower(c.groups[role][j].skill), resume, jd)
    ensures Candidate(Lower(c.groups[role][j].skill), c.groups[role][j].weight, role) in CandidatesOf(c, roles, resume, jd)
  {
    var last := roles[|roles| - 1];
    if role == last {
      RoleCandidatesComplete(role, c.groups[role], resume, jd, j);
    } else {
      assert role in roles[..|roles| - 1];
      CandidatesOfComplete(c, roles[..|roles| - 1], resume, jd, role, j);
    }
  }

  /** Conversely to `MissingKeywordsSound`: every catalog entry whose lowercased
      skill is missing from the resume is ranked, with its priority. */
  lemma RankingComplete(resume: set<string>, jd: set<string>, c: Catalog, role: string, j: nat)
    requires Valid(c)
    requires role in c.groups && j < |c.groups[role]|
    requires IsMissing(Lower(c.groups[role][j].skill), resume, jd)
    ensures Ranked(Lower(c.groups[role][j].skill), Priority(c, Candidate(Lower(c.groups[role][j].skill), c.groups[role][j].weight, role)))
      in Ranking(resume, jd, c)
  {
    var cands := CandidatesOf(c, c.roles, resume, jd);
    var cand := Candidate(Lower(c.groups[role][j].skill), c.groups[role][j].weight, role);
    CandidatesOfComplete(c, c.roles, resume, jd, role, j);
    var m :| 0 <= m < |cands| && cands[m] == cand;
    PrioritizeAt(c, cands, m);
    assert Emitted(resume, jd, c)[m] in multiset(Ranking(resume, jd, c));
  }

  /** Top 15: a missing catalog keyword left out of the result means that 15
      keywords were returned, each ranked at least as high as it. */
  lemma MissingKeywordsTop(resume: set<string>, jd: set<string>, c: Catalog, role: string, j: nat)
    requires Valid(c)
    requires role in c.groups && j < |c.groups[role]|
    requires IsMissing(Lower(c.groups[role][j].skill), resume, jd)
    requires Lower(c.groups[role][j].skill) !in MissingKeywords(resume, jd, c)
    ensures |MissingKeywords(resume, jd, c)| == MaxMissing
    ensures forall i :: 0 <= i < MaxMissing ==>
      Ranking(resume, jd, c)[i].priority >= Priority(c, Candidate(Lower(c.groups[role][j].skill), c.groups[role][j].weight, role))
  {
    var ranking := Ranking(resume, jd, c);
    var out := MissingKeywords(resume, jd, c);
    var x := Ranked(Lower(c.groups[role][j].skill), Priority(c, Candidate(Lower(c.groups[role][j].skill), c.groups[role][j].weight, role)));
    RankingComplete(resume, jd, c, role, j);
    var q :| 0 <= q < |ranking| && ranking[q] == x;
    assert forall i :: 0 <= i < |out| ==> out[i] == ranking[i].keyword;
    assert q >= |out|;
    forall i | 0 <= i < MaxMissing ensures ranking[i].priority >= x.priority {
      assert PriorityOf(ranking[i]) >= PriorityOf(ranking[q]);
    }
  }

  /** The lowercase forms the examples use. */
  lemma ExampleLowercase()
    ensures Lower("python") == "python" && Lower("Python") == "python" && Lower("sql") == "sql"
  {
    LowerPython();
    LowerOfLowercase("sql");
  }

  lemma LowerPython()
    ensures Lower("python") == "python" && Lower("Python") == "python"
  {
    LowerSmallPython();
    LowerCons('P', "ython");
    assert "Python" == ['P'] + "ython";
  }

  lemma LowerSmallPython()
    ensures Lower("python") == "python" && Lower("ython") == "ython"
  {
    LowerCons('p', "ython");
    assert "python" == ['p'] + "ython";
    LowerOfLowercase("ython");
  }

  /** A role listing `a` (weight 5) then `b` (weight 3), both lowercase, with
      `b` on the resume: the inner loop emits `a` only. */
  lemma FirstOfTwoCandidates(role: string, a: string, b: string)
    requires a != b && Lower(a) == a && Lower(b) == b
    ensures RoleCandidates(role, [Entry(a, 5), Entry(b, 3)], {b}, {a, b}) == [Candidate(a, 5, role)]
  {
    var entries := [Entry(a, 5), Entry(b, 3)];
    RoleCandidatesStep(role, entries, 0, {b}, {a, b});
    assert entries[..1] == [Entry(a, 5)] && entries[..1][..0] == [];
    RoleCandidatesStep(role, entries, 1, {b}, {a, b});
    assert entries[..2] == entries;
  }

  /** The single-role catalog emits `a` with priority 5 * (2 - 0) = 10. */
  lemma FirstOfTwoEmitted(c: Catalog, role: string, a: string, b: string)
    requires a != b && Lower(a) == a && Lower(b) == b
    requires Valid(c) && c.roles == [role] && c.groups[role] == [Entry(a, 5), Entry(b, 3)]
    ensures Emitted({b}, {a, b}, c) == [Ranked(a, 10)]
  {
    var cand := Candidate(a, 5, role);
    assert CandidatesOf(c, c.roles, {b}, {a, b}) == [cand] by {
      FirstOfTwoCandidates(role, a, b);
      CandidatesOfOne(c, {b}, {a, b});
    }
    assert Priority(c, cand) == 10 by {
      PriorityAt(c, cand, 0);
    }
    PrioritizeStep(c, [cand], 0);
    assert [cand][..1] == [cand] && [cand][..0] == [];
  }

  /** Role "Backend" lists python (weight 5) and sql (weight 3); the job
      description has both, the resume only sql: the answer is python alone. */
  lemma BackendExample()
    ensures var c := Catalog(["Backend"], map["Backend" := [Entry("python", 5), Entry("sql", 3)]]);
      && Valid(c)
      && Ranking({"sql"}, {"python", "sql"}, c) == [Ranked("python", 10)]
      && MissingKeywords({"sql"}, {"python", "sql"}, c) == ["python"]
  {
    var c := Catalog(["Backend"], map["Backend" := [Entry("python", 5), Entry("sql", 3)]]);
    assert Valid(c) by {
      assert "Backend" in c.roles;
    }
    assert "python" != "sql" by {
      assert |"python"| != |"sql"|;
    }
    ExampleLowercase();
    FirstOfTwoEmitted(c, "Backend", "python", "sql");
    SingleEmitted({"sql"}, {"python", "sql"}, c);
  }

  /** A single emitted candidate is the whole ranking and the whole answer. */
  lemma SingleEmitted(resume: set<string>, jd: set<string>, c: Catalog)
    requires Valid(c) && |Emitted(resume, jd, c)| == 1
    ensures Ranking(resume, jd, c) == Emitted(resume, jd, c)
    ensures MissingKeywords(resume, jd, c) == [Emitted(resume, jd, c)[0].keyword]
  {
    MissingKeywordsOfSorted(resume, jd, c);
  }

  /** Role `b` lists `P` alone and role `d` lists `s` then `p`, where `P` lowers
      to `p`; the job description has `p`, the resume nothing: `p` is emitted
      under each role, first with 5 * (1 - 0) = 5, then with 2 * (2 - 1) = 2. */
  lemma TwoRolesEmitted(c: Catalog, b: string, d: string, P: string, s: string, p: string)
    requires s != p && Lower(P) == p && Lower(s) == s && Lower(p) == p
    requires Valid(c) && c.roles == [b, d] && c.groups[b] == [Entry(P, 5)] && c.groups[d] == [Entry(s, 1), Entry(p, 2)]
    ensures Emitted({}, {p}, c) == [Ranked(p, 5), Ranked(p, 2)]
  {
    var x, y := Candidate(p, 5, b), Candidate(p, 2, d);
    assert CandidatesOf(c, c.roles, {}, {p}) == [x, y] by {
      TwoRolesCandidates(c, b, d, P, s, p);
    }
    assert Priority(c, x) == 5 by {
      PriorityAt(c, x, 0);
    }
    assert Priority(c, y) == 2 by {
      assert Lower(c.groups[d][0].skill) != p;
      PriorityAt(c, y, 1);
    }
    PrioritizeTwo(c, x, y);
  }

  /** A candidate whose keyword is first listed at `i` in its role has
      priority `weight * (len - i)`. */
  lemma PriorityAt(c: Catalog, cand: Candidate, i: nat)
    requires cand.role in c.groups && i < |c.groups[cand.role]|
    requires Lower(c.groups[cand.role][i].skill) == cand.keyword
    requires forall q :: 0 <= q < i ==> Lower(c.groups[cand.role][q].skill) != cand.keyword
    ensures Priority(c, cand) == cand.weight * (|c.groups[cand.role]| - i)
  {
    IndexOfUnique(LowerSkills(c.groups[cand.role]), cand.keyword, i);
  }

  /** The candidates of the two-role catalog: `p` under each role. */
  lemma TwoRolesCandidates(c: Catalog, b: string, d: string, P: string, s: string, p: string)
    requires s != p && Lower(P) == p && Lower(s) == s && Lower(p) == p
    requires Valid(c) && c.roles == [b, d] && c.groups[b] == [Entry(P, 5)] && c.groups[d] == [Entry(s, 1), Entry(p, 2)]
    ensures CandidatesOf(c, c.roles, {}, {p}) == [Candidate(p, 5, b), Candidate(p, 2, d)]
  {
    assert RoleCandidates(b, [Entry(P, 5)], {}, {p}) == [Candidate(p, 5, b)] by {
      RoleCandidatesStep(b, [Entry(P, 5)], 0, {}, {p});
      assert [Entry(P, 5)][..1] == [Entry(P, 5)] && [Entry(P, 5)][..0] == [];
    }
    assert RoleCandidates(d, [Entry(s, 1), Entry(p, 2)], {}, {p}) == [Candidate(p, 2, d)] by {
      SkipThenEmit(d, s, p);
    }
    CandidatesOfTwo(c, {}, {p});
  }

  /** The candidates of a one-role catalog are that role's. */
  lemma CandidatesOfOne(c: Catalog, resume: set<string>, jd: set<string>)
    requires Valid(c) && |c.roles| == 1
    ensures CandidatesOf(c, c.roles, resume, jd) == RoleCandidates(c.roles[0], c.groups[c.roles[0]], resume, jd)
  {
    var r0 := c.roles[0];
    assert c.roles == [r0] && [r0][..0] == [];
    assert CandidatesOf(c, [], resume, jd) + RoleCandidates(r0, c.groups[r0], resume, jd) == RoleCandidates(r0, c.groups[r0], resume, jd);
  }

  /** The candidates of a two-role catalog: the first role's, then the second's. */
  lemma CandidatesOfTwo(c: Catalog, resume: set<string>, jd: set<string>)
    requires Valid(c) && |c.roles| == 2
    ensures CandidatesOf(c, c.roles, resume, jd) ==
      RoleCandidates(c.roles[0], c.groups[c.roles[0]], resume, jd) + RoleCandidates(c.roles[1], c.groups[c.roles[1]], resume, jd)
  {
    var r0, r1 := c.roles[0], c.roles[1];
    var first := RoleCandidates(r0, c.groups[r0], resume, jd);
    assert CandidatesOf(c, [r0], resume, jd) == first by {
      assert [r0][..0] == [];
      assert CandidatesOf(c, [], resume, jd) + first == first;
    }
    assert c.roles[..1] == [r0];
  }

  /** The inner loop over `s` then `p`, with only `p` wanted, emits `p` alone. */
  lemma SkipThenEmit(role: string, s: string, p: string)
    requires s != p && Lower(s) == s && Lower(p) == p
    ensures RoleCandidates(role, [Entry(s, 1), Entry(p, 2)], {}, {p}) == [Candidate(p, 2, role)]
  {
    var entries := [Entry(s, 1), Entry(p, 2)];
    RoleCandidatesStep(role, entries, 0, {}, {p});
    assert entries[..1] == [Entry(s, 1)] && entries[..1][..0] == [];
    RoleCandidatesStep(role, entries, 1, {}, {p});
    assert entries[..2] == entries;
  }

  /** `priority_map` of two candidates. */
  lemma PrioritizeTwo(c: Catalog, a: Candidate, b: Candidate)
    requires a.role in c.groups && b.role in c.groups
    ensures Prioritize(c, [a, b]) == [Ranked(a.keyword, Priority(c, a)), Ranked(b.keyword, Priority(c, b))]
  {
    assert [a, b][..1] == [a];
  }

  /** No de-duplication: Backend lists "Python", Data lists sql then python;
      python is missing under both roles and is returned twice. */
  lemma DuplicateAcrossRolesExample(c: Catalog)
    requires c == Catalog(["Backend", "Data"], map["Backend" := [Entry("Python", 5)], "Data" := [Entry("sql", 1), Entry("python", 2)]])
    ensures Valid(c)
    ensures MissingKeywords({}, {"python"}, c) == ["python", "python"]
  {
    assert "Backend" != "Data" && "sql" != "python" by {
      assert |"Backend"| != |"Data"| && |"sql"| != |"python"|;
    }
    assert Valid(c) && c.groups["Backend"] == [Entry("Python", 5)] by {
      assert "Backend" in c.roles && "Data" in c.roles;
    }
    ExampleLowercase();
    TwoRolesEmitted(c, "Backend", "Data", "Python", "sql", "python");
    TwoEmitted({}, {"python"}, c);
  }

  /** Two candidates emitted in ranking order are the answer, in that order. */
  lemma TwoEmitted(resume: set<string>, jd: set<string>, c: Catalog)
    requires Valid(c) && |Emitted(resume, jd, c)| == 2
    requires Emitted(resume, jd, c)[0].priority >= Emitted(resume, jd, c)[1].priority
    ensures MissingKeywords(resume, jd, c) == [Emitted(resume, jd, c)[0].keyword, Emitted(resume, jd, c)[1].keyword]
  {
    MissingKeywordsOfSorted(resume, jd, c);
  }

  /** When the candidates are emitted already in ranking order and are at most
      15, the answer is their keywords in emission order. */
  lemma MissingKeywordsOfSorted(resume: set<string>, jd: set<string>, c: Catalog)
    requires Valid(c)
    requires NonIncreasing(Emitted(resume, jd, c), PriorityOf)
    requires |Emitted(resume, jd, c)| <= MaxMissing
    ensures Ranking(resume, jd, c) == Emitted(resume, jd, c)
    ensures MissingKeywords(resume, jd, c) == KeywordsOf(Emitted(resume, jd, c))
  {
    SortDescOfSorted(Emitted(resume, jd, c), PriorityOf);
  }
}
