/** The keyword comparison of `match_resume` (backend/matcher/views.py:207-221):
    the job description's and the resume's keyword sets split into matched,
    missing and extra keywords, and each part's share of all keywords as a
    percentage. */
module KeywordBreakdown {

  /** The four keyword sets and `total_keywords`. */
  datatype Breakdown = Breakdown(matched: set<string>, missing: set<string>, extra: set<string>,
                                 unrecognized: set<string>, total: nat)

  /** The four pie-chart percentages, before rounding. */
  datatype Percentages = Percentages(matched: real, missing: real, extra: real, unrecognized: real)

  /** `matched`, `missing`, `extra`, `unrecognized` and `total_keywords` for the
      job description's keywords `jd` and the resume's keywords `resume`. */
  function Split(jd: set<string>, resume: set<string>): (r: Breakdown)
    ensures r.matched + r.missing == jd && r.matched + r.extra == resume
    ensures r.matched !! r.missing && r.matched !! r.extra && r.missing !! r.extra
    ensures r.unrecognized == {}
  {
    Breakdown(jd * resume, jd - resume, resume - jd, {}, |jd + resume|)
  }

  /** A part's size as a percentage of the total number of keywords. */
  function Share(part: nat, total: nat): (r: real)
    requires total > 0
  {
    (part as real / total as real) * 100.0
  }

  /** The percentages of a breakdown: each part's share of the total, or all
      zero when there are no keywords. */
  function Percents(b: Breakdown): (r: Percentages)
    ensures b.total == 0 ==> r == Percentages(0.0, 0.0, 0.0, 0.0)
    ensures b.total > 0 ==>
      && r.matched * b.total as real == |b.matched| as real * 100.0
      && r.missing * b.total as real == |b.missing| as real * 100.0
      && r.extra * b.total as real == |b.extra| as real * 100.0
      && r.unrecognized * b.total as real == |b.unrecognized| as real * 100.0
  {
    if b.total > 0 then
      Percentages(Share(|b.matched|, b.total), Share(|b.missing|, b.total),
                  Share(|b.extra|, b.total), Share(|b.unrecognized|, b.total))
    else
      Percentages(0.0, 0.0, 0.0, 0.0)
  }

  /** The three non-empty parts partition all keywords: they are pairwise
      disjoint, the job description's keywords are the matched and the missing
      ones, the resume's are the matched and the extra ones, and the part sizes
      add up to the total. */
  lemma SplitPartition(jd: set<string>, resume: set<string>)
    ensures var b := Split(jd, resume);
      && b.matched !! b.missing && b.matched !! b.extra && b.missing !! b.extra
      && b.matched + b.missing == jd
      && b.matched + b.extra == resume
      && b.matched + b.missing + b.extra == jd + resume
      && b.unrecognized == {}
      && |b.matched| + |b.missing| + |b.extra| + |b.unrecognized| == b.total
  {
    var b := Split(jd, resume);
    assert jd == b.matched + b.missing;
    assert jd + resume == jd + b.extra;
    DisjointUnionSize(b.matched, b.missing);
    DisjointUnionSize(jd, b.extra);
  }

  /** The size of a union of disjoint sets is the sum of their sizes. */
  lemma DisjointUnionSize(a: set<string>, b: set<string>)
    requires a !! b
    ensures |a + b| == |a| + |b|
  {
    assert a * b == {};
  }

  /** A keyword is matched exactly when both sides have it, missing exactly when
      only the job description has it, extra exactly when only the resume has it. */
  lemma SplitMembership(jd: set<string>, resume: set<string>, k: string)
    ensures var b := Split(jd, resume);
      && (k in b.matched <==> k in jd && k in resume)
      && (k in b.missing <==> k in jd && k !in resume)
      && (k in b.extra <==> k !in jd && k in resume)
      && k !in b.unrecognized
  {
  }

  /** There are no keywords at all exactly when both sets are empty. */
  lemma SplitEmpty(jd: set<string>, resume: set<string>)
    ensures Split(jd, resume).total == 0 <==> jd == {} && resume == {}
  {
    if jd != {} {
      var k :| k in jd;
      assert k in jd + resume;
    }
  }

  /** The percentages add up to 100 when there are keywords, each between 0 and
      100, with unrecognized always 0; with no keywords they are all 0. */
  lemma PercentsOfSplit(jd: set<string>, resume: set<string>)
    ensures var p := Percents(Split(jd, resume));
      && p.unrecognized == 0.0
      && 0.0 <= p.matched <= 100.0 && 0.0 <= p.missing <= 100.0 && 0.0 <= p.extra <= 100.0
      && (Split(jd, resume).total > 0 ==> p.matched + p.missing + p.extra == 100.0)
      && (Split(jd, resume).total == 0 ==> p.matched == 0.0 && p.missing == 0.0 && p.extra == 0.0)
  {
    var b := Split(jd, resume);
    assert b.unrecognized == {} && |b.matched| + |b.missing| + |b.extra| == b.total by {
      SplitPartition(jd, resume);
    }
    PercentsOfParts(b);
  }

  /** The percentages of parts that make up the total. */
  lemma PercentsOfParts(b: Breakdown)
    requires b.unrecognized == {} && |b.matched| + |b.missing| + |b.extra| == b.total
    ensures var p := Percents(b);
      && p.unrecognized == 0.0
      && 0.0 <= p.matched <= 100.0 && 0.0 <= p.missing <= 100.0 && 0.0 <= p.extra <= 100.0
      && (b.total > 0 ==> p.matched + p.missing + p.extra == 100.0)
      && (b.total == 0 ==> p.matched == 0.0 && p.missing == 0.0 && p.extra == 0.0)
  {
    if b.total > 0 {
      var m, n, e := |b.matched|, |b.missing|, |b.extra|;
      ShareBounds(m, b.total);
      ShareBounds(n, b.total);
      ShareBounds(e, b.total);
      assert Share(m, b.total) + Share(n, b.total) + Share(e, b.total) == 100.0 by {
        SharesAdd(m as real, n as real, e as real, b.total as real);
      }
    }
  }

  /** A part no larger than the total has a share between 0 and 100. */
  lemma ShareBounds(part: nat, total: nat)
    requires 0 < total && part <= total
    ensures 0.0 <= Share(part, total) <= 100.0
  {
    var t := total as real;
    assert part as real / t <= 1.0 by {
      assert part as real <= t;
    }
  }

  /** Shares of parts that make up the whole add up to 100. */
  lemma SharesAdd(m: real, n: real, e: real, t: real)
    requires t > 0.0 && m + n + e == t
    ensures (m / t) * 100.0 + (n / t) * 100.0 + (e / t) * 100.0 == 100.0
  {
    assert m / t + n / t + e / t == (m + n + e) / t;
  }
}
