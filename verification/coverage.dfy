/**
 * The arithmetic of the admin report of one question: the share of each
 * answer group, and how much of the answers the five biggest groups cover.
 */
module Coverage {
  import opened Grouping

  /**
   * `whole > 0 ? Math.round((part / whole) * 100) : 0`, on exact rationals:
   * the integer nearest to `100 * part / whole`, a half rounded up.
   */
  function Percent(part: nat, whole: nat): (p: nat)
    ensures whole == 0 ==> p == 0
    ensures part <= whole ==> p <= 100
  {
    if whole == 0 then 0
    else
      var p := (200 * part + whole) / (2 * whole);
      PercentBounds(part, whole, p);
      p
  }

  /** The rounding is to the nearest integer, a half going up as in `Math.round`. */
  lemma PercentNearest(part: nat, whole: nat)
    requires whole > 0
    ensures -(whole as int) <= 200 * part - 2 * whole * Percent(part, whole) < whole
  {
    PercentBounds(part, whole, Percent(part, whole));
  }

  /** The floor division that rounds a percentage, and its bound. */
  lemma PercentBounds(part: nat, whole: nat, p: nat)
    requires whole > 0 && p == (200 * part + whole) / (2 * whole)
    ensures -(whole as int) <= 200 * part - 2 * whole * p < whole
    ensures part <= whole ==> p <= 100
  {
    var q, r := 2 * whole, (200 * part + whole) % (2 * whole);
    assert 200 * part + whole == q * p + r;
    if part <= whole && p > 100 {
      assert q * p >= q * 101 by { MulMono(q, 101, p); }
      assert false;
    }
  }

  /** All of the answers are a hundred percent of them. */
  lemma PercentOfWhole(whole: nat)
    ensures whole > 0 ==> Percent(whole, whole) == 100
  {
    if whole > 0 {
      var p := Percent(whole, whole);
      PercentBounds(whole, whole, p);
      if p < 100 {
        MulMono(2 * whole, p, 99);
      }
    }
  }

  lemma MulMono(a: nat, b: nat, c: nat)
    requires b <= c
    ensures a * b <= a * c
  {
  }

  /** Group counts of a prefix never exceed those of the whole list. */
  lemma {:induction false} TotalPrefix(gs: seq<Group>, k: nat)
    requires k <= |gs|
    ensures Total(gs[..k]) <= Total(gs)
  {
    if k > 0 {
      assert gs[..k][1..] == gs[1..][..k - 1];
      TotalPrefix(gs[1..], k - 1);
    }
  }

  /** One group's count is part of the total. */
  lemma {:induction false} CountWithinTotal(gs: seq<Group>, i: nat)
    requires i < |gs|
    ensures gs[i].count <= Total(gs)
  {
    if i > 0 {
      CountWithinTotal(gs[1..], i - 1);
    }
  }

  /** `answers.slice(0, 5)` summed: the answers covered by the first five groups. */
  function Top5Count(gs: seq<Group>): (n: nat)
    ensures n <= Total(gs)
    ensures |gs| <= 5 ==> n == Total(gs)
  {
    var k := if |gs| < 5 then |gs| else 5;
    TotalPrefix(gs, k);
    assert k == |gs| ==> gs[..k] == gs;
    Total(gs[..k])
  }

  datatype Status = Neutral | Good | Concentrated | Scattered

  /**
   * `top5Status`: neutral under 20 answers; otherwise good from 60 to 85
   * percent, concentrated above, scattered below, one of the three exactly.
   */
  function StatusOf(totalCount: nat, top5Pct: nat): (s: Status)
    ensures totalCount < 20 ==> s == Neutral
    ensures totalCount >= 20 ==> s != Neutral
    ensures totalCount >= 20 ==>
              && (s == Good <==> 60 <= top5Pct <= 85)
              && (s == Concentrated <==> 85 < top5Pct)
              && (s == Scattered <==> top5Pct < 60)
  {
    if totalCount < 20 then Neutral
    else if 60 <= top5Pct <= 85 then Good
    else if top5Pct > 85 then Concentrated
    else Scattered
  }

  /** One line of the report: a group and its share of the answers. */
  datatype Share = Share(group: Group, percentage: nat)

  datatype Report = Report(answers: seq<Share>, totalCount: nat, top5Pct: nat, top5Status: Status)

  /** Each group with `Math.round(count / totalCount * 100)`. */
  function Shares(gs: seq<Group>, totalCount: nat): (r: seq<Share>)
    ensures |r| == |gs|
    ensures forall i :: 0 <= i < |gs| ==> r[i].group == gs[i] && r[i].percentage == Percent(gs[i].count, totalCount)
  {
    seq(|gs|, i requires 0 <= i < |gs| => Share(gs[i], Percent(gs[i].count, totalCount)))
  }

  /**
   * The body of `/api/admin/questions/:id/answers` once the groups are read:
   * the total is every answer, each group gets its rounded share of it, the
   * top-5 share is the rounded share of the first five groups' answers; all
   * of them lie in 0..100, and five groups or fewer cover everything.
   */
  function ReportOf(gs: seq<Group>): (r: Report)
    ensures r.totalCount == Total(gs)
    ensures r.answers == Shares(gs, r.totalCount)
    ensures r.top5Pct == Percent(Top5Count(gs), r.totalCount)
    ensures |r.answers| == |gs| && forall i :: 0 <= i < |gs| ==> r.answers[i].group == gs[i]
    ensures forall i :: 0 <= i < |gs| ==> r.answers[i].percentage <= 100
    ensures r.top5Pct <= 100
    ensures r.totalCount == 0 ==> r.top5Pct == 0 && r.top5Status == Neutral
    ensures r.totalCount > 0 && |gs| <= 5 ==> r.top5Pct == 100
    ensures r.top5Status == StatusOf(r.totalCount, r.top5Pct)
  {
    var total := Total(gs);
    var shares := Shares(gs, total);
    SharesWithinHundred(gs, shares);
    var pct := Percent(Top5Count(gs), total);
    PercentOfWhole(total);
    Report(shares, total, pct, StatusOf(total, pct))
  }

  /** No group holds more than all of the answers. */
  lemma SharesWithinHundred(gs: seq<Group>, shares: seq<Share>)
    requires shares == Shares(gs, Total(gs))
    ensures forall i :: 0 <= i < |gs| ==> shares[i].percentage <= 100
  {
    forall i | 0 <= i < |gs| {
      CountWithinTotal(gs, i);
    }
  }

  /** Every answer in a single group: it is the whole of the answers. */
  lemma SingleGroupIsEverything(g: Group)
    requires g.count > 0
    ensures ReportOf([g]).answers[0].percentage == 100
    ensures ReportOf([g]).top5Pct == 100
  {
    assert Total([g]) == g.count + Total([]);
  }
}
