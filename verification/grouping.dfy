/**
 * The effect of the query behind `getAnswersGrouped` (db.js):
 *
 *   SELECT LOWER(TRIM(text)) AS normalized, MIN(text) AS sample_text, COUNT(*) AS count
 *   ... GROUP BY LOWER(TRIM(text)) ORDER BY count DESC
 *
 * over the texts of one question's answers, in table order.
 */
module Grouping {
  import opened Wrappers
  import opened Strings

  /** One result row: the shared key, the smallest text with that key, how many texts have it. */
  datatype Group = Group(normalized: string, sampleText: string, count: nat)

  // ---------------------------------------------------------------- MIN(text)

  /** Text order by code point, as SQLite's BINARY collation orders UTF-8 text. */
  predicate TextLe(a: string, b: string) {
    a == [] || (b != [] && (a[0] < b[0] || (a[0] == b[0] && TextLe(a[1..], b[1..]))))
  }

  lemma {:induction false} TextLeReflexive(a: string)
    ensures TextLe(a, a)
  {
    if a != [] {
      TextLeReflexive(a[1..]);
    }
  }

  lemma {:induction false} TextLeTotal(a: string, b: string)
    ensures TextLe(a, b) || TextLe(b, a)
  {
    if a != [] && b != [] && a[0] == b[0] {
      TextLeTotal(a[1..], b[1..]);
    }
  }

  lemma {:induction false} TextLeTransitive(a: string, b: string, c: string)
    requires TextLe(a, b) && TextLe(b, c)
    ensures TextLe(a, c)
  {
    if a != [] && a[0] == b[0] && b[0] == c[0] {
      TextLeTransitive(a[1..], b[1..], c[1..]);
    }
  }

  /** The smaller of two texts. */
  function MinText(a: string, b: string): (m: string)
    ensures m == a || m == b
    ensures TextLe(m, a) && TextLe(m, b)
  {
    TextLeTotal(a, b);
    TextLeReflexive(a);
    TextLeReflexive(b);
    if TextLe(a, b) then a else b
  }

  // ---------------------------------------------------------------- GROUP BY

  /** How many of `texts` have the key `k`. */
  function Occurrences(texts: seq<string>, k: string): (n: nat)
    ensures n <= |texts|
  {
    if texts == [] then 0
    else Occurrences(texts[..|texts| - 1], k) + (if SqlKey(texts[|texts| - 1]) == k then 1 else 0)
  }

  /** Sum of the counts of `gs`. */
  function Total(gs: seq<Group>): nat {
    if gs == [] then 0 else gs[0].count + Total(gs[1..])
  }

  /** No two groups share a key. */
  ghost predicate DistinctKeys(gs: seq<Group>) {
    forall i, j :: 0 <= i < j < |gs| ==> gs[i].normalized != gs[j].normalized
  }

  /** The position of the first group with key `k`, or `|gs|` when there is none. */
  function Find(gs: seq<Group>, k: string): (i: nat)
    ensures i <= |gs| && forall j :: 0 <= j < i ==> gs[j].normalized != k
    ensures i < |gs| ==> gs[i].normalized == k
  {
    if gs == [] || gs[0].normalized == k then 0 else 1 + Find(gs[1..], k)
  }

  /** `g` is the group of its key among `texts`: its count, and the smallest text with that key. */
  ghost predicate IsGroupOf(g: Group, texts: seq<string>) {
    && g.count == Occurrences(texts, g.normalized) && 0 < g.count
    && g.sampleText in texts && SqlKey(g.sampleText) == g.normalized
    && forall t :: t in texts && SqlKey(t) == g.normalized ==> TextLe(g.sampleText, t)
  }

  /** `gs` is the result of grouping `texts` by key, in some order. */
  ghost predicate GroupsOf(gs: seq<Group>, texts: seq<string>) {
    && DistinctKeys(gs)
    && (forall j :: 0 <= j < |gs| ==> IsGroupOf(gs[j], texts))
    && (forall t :: t in texts ==> Find(gs, SqlKey(t)) < |gs|)
    && Total(gs) == |texts|
  }

  /** The group `g` after one more text with its key. */
  function Bump(g: Group, t: string): Group {
    g.(sampleText := MinText(g.sampleText, t), count := g.count + 1)
  }

  /** Folds one more row into the groups: bump its key's group, or open a new one at the end. */
  function AddRow(gs: seq<Group>, t: string): (r: seq<Group>)
    ensures Total(r) == Total(gs) + 1
    ensures Find(gs, SqlKey(t)) < |gs| ==>
              r == gs[Find(gs, SqlKey(t)) := Bump(gs[Find(gs, SqlKey(t))], t)]
    ensures Find(gs, SqlKey(t)) == |gs| ==> r == gs + [Group(SqlKey(t), t, 1)]
  {
    if gs == [] then [Group(SqlKey(t), t, 1)]
    else if gs[0].normalized == SqlKey(t) then [Bump(gs[0], t)] + gs[1..]
    else [gs[0]] + AddRow(gs[1..], t)
  }

  /** Occurrences after one more text. */
  lemma OccurrencesSnoc(texts: seq<string>, t: string, k: string)
    ensures Occurrences(texts + [t], k) == Occurrences(texts, k) + (if SqlKey(t) == k then 1 else 0)
  {
    assert (texts + [t])[..|texts|] == texts;
  }

  /** A group whose key is not that of the new text stays the group of its key. */
  lemma KeptGroup(g: Group, texts: seq<string>, t: string)
    requires IsGroupOf(g, texts) && g.normalized != SqlKey(t)
    ensures IsGroupOf(g, texts + [t])
  {
    OccurrencesSnoc(texts, t, g.normalized);
  }

  /** The group of the new text's key, bumped, is the group of that key. */
  lemma BumpedGroup(g: Group, texts: seq<string>, t: string)
    requires IsGroupOf(g, texts) && g.normalized == SqlKey(t)
    ensures IsGroupOf(Bump(g, t), texts + [t])
  {
    OccurrencesSnoc(texts, t, g.normalized);
    var b := Bump(g, t);
    forall u | u in texts + [t] && SqlKey(u) == g.normalized ensures TextLe(b.sampleText, u) {
      if u in texts {
        TextLeTransitive(b.sampleText, g.sampleText, u);
      }
    }
  }

  /** A text whose key no group has opens a group of its own. */
  lemma NewGroup(texts: seq<string>, t: string)
    requires forall u :: u in texts ==> SqlKey(u) != SqlKey(t)
    ensures IsGroupOf(Group(SqlKey(t), t, 1), texts + [t])
  {
    OccurrencesSnoc(texts, t, SqlKey(t));
    NoOccurrence(texts, SqlKey(t));
    TextLeReflexive(t);
  }

  /** A key no text has does not occur. */
  lemma {:induction false} NoOccurrence(texts: seq<string>, k: string)
    requires forall u :: u in texts ==> SqlKey(u) != k
    ensures Occurrences(texts, k) == 0
  {
    if texts != [] {
      var n := |texts|;
      assert forall u :: u in texts[..n - 1] ==> u in texts;
      NoOccurrence(texts[..n - 1], k);
    }
  }

  /** Adding a row whose key already has a group keeps the groups those of the texts seen so far. */
  lemma AddRowToGroup(gs: seq<Group>, texts: seq<string>, t: string)
    requires GroupsOf(gs, texts) && Find(gs, SqlKey(t)) < |gs|
    ensures GroupsOf(AddRow(gs, t), texts + [t])
  {
    var i := Find(gs, SqlKey(t));
    BumpKeepsKeys(gs, texts, t, i);
    BumpKeepsGroups(gs, gs[i := Bump(gs[i], t)], texts, t, i);
  }

  /** Bumping the group of `t` keeps the keys distinct, and every text seen so far still finds its group. */
  lemma BumpKeepsKeys(gs: seq<Group>, texts: seq<string>, t: string, i: nat)
    requires i < |gs| && gs[i].normalized == SqlKey(t)
    requires DistinctKeys(gs) && forall u :: u in texts ==> Find(gs, SqlKey(u)) < |gs|
    ensures DistinctKeys(gs[i := Bump(gs[i], t)])
    ensures forall u :: u in texts + [t] ==> Find(gs[i := Bump(gs[i], t)], SqlKey(u)) < |gs|
  {
    var r := gs[i := Bump(gs[i], t)];
    forall u | u in texts + [t] ensures Find(r, SqlKey(u)) < |gs| {
      FindSameKeys(r, gs, SqlKey(u));
    }
  }

  /** Bumping the group of `t` keeps every group the group of its key among the texts, `t` included. */
  lemma BumpKeepsGroups(gs: seq<Group>, r: seq<Group>, texts: seq<string>, t: string, i: nat)
    requires i < |gs| && gs[i].normalized == SqlKey(t) && r == gs[i := Bump(gs[i], t)]
    requires forall j :: 0 <= j < |gs| ==> IsGroupOf(gs[j], texts)
    requires DistinctKeys(gs)
    ensures forall j :: 0 <= j < |r| ==> IsGroupOf(r[j], texts + [t])
  {
    forall j | 0 <= j < |r| ensures IsGroupOf(r[j], texts + [t]) {
      if j == i { BumpedGroup(gs[i], texts, t); } else { KeptGroup(gs[j], texts, t); }
    }
  }

  /** `Find` looks at the keys only. */
  lemma {:induction false} FindSameKeys(a: seq<Group>, b: seq<Group>, k: string)
    requires |a| == |b| && forall j :: 0 <= j < |a| ==> a[j].normalized == b[j].normalized
    ensures Find(a, k) == Find(b, k)
  {
    if a != [] {
      FindSameKeys(a[1..], b[1..], k);
    }
  }

  /** Adding a row with a new key keeps the groups those of the texts seen so far. */
  lemma AddRowNewGroup(gs: seq<Group>, texts: seq<string>, t: string)
    requires GroupsOf(gs, texts) && Find(gs, SqlKey(t)) == |gs|
    ensures GroupsOf(AddRow(gs, t), texts + [t])
  {
    forall u | u in texts ensures SqlKey(u) != SqlKey(t) {
      assert gs[Find(gs, SqlKey(u))].normalized == SqlKey(u);
    }
    NewGroupKeepsGroups(gs, texts, t);
    NewGroupFound(gs, texts, t);
  }

  /** The groups seen so far and the new one are the groups of their keys once the new text is in. */
  lemma NewGroupKeepsGroups(gs: seq<Group>, texts: seq<string>, t: string)
    requires forall j :: 0 <= j < |gs| ==> IsGroupOf(gs[j], texts)
    requires forall u :: u in texts ==> SqlKey(u) != SqlKey(t)
    ensures forall j :: 0 <= j < |gs| + 1 ==> IsGroupOf((gs + [Group(SqlKey(t), t, 1)])[j], texts + [t])
  {
    var r := gs + [Group(SqlKey(t), t, 1)];
    forall j | 0 <= j < |r| ensures IsGroupOf(r[j], texts + [t]) {
      if j == |gs| { NewGroup(texts, t); } else { KeptGroup(gs[j], texts, t); }
    }
  }

  /** After a new group is opened, every text seen so far finds its group. */
  lemma NewGroupFound(gs: seq<Group>, texts: seq<string>, t: string)
    requires forall u :: u in texts ==> Find(gs, SqlKey(u)) < |gs|
    ensures forall u :: u in texts + [t] ==> Find(gs + [Group(SqlKey(t), t, 1)], SqlKey(u)) < |gs| + 1
  {
    var g := Group(SqlKey(t), t, 1);
    forall u | u in texts + [t] ensures Find(gs + [g], SqlKey(u)) < |gs| + 1 {
      FindAppend(gs, g, SqlKey(u));
    }
  }

  /** Appending a group keeps every key found, and finds the new group's key. */
  lemma FindAppend(gs: seq<Group>, g: Group, k: string)
    ensures Find(gs, k) < |gs| ==> Find(gs + [g], k) == Find(gs, k)
    ensures g.normalized == k ==> Find(gs + [g], k) <= |gs|
  {
    var r := gs + [g];
    var i := Find(gs, k);
    if i < |gs| {
      assert r[i] == gs[i];
    } else if g.normalized == k {
      assert r[|gs|] == g;
    }
  }

  /** Adding one more row keeps the groups those of the texts seen so far. */
  lemma AddRowGroups(gs: seq<Group>, texts: seq<string>, t: string)
    requires GroupsOf(gs, texts)
    ensures GroupsOf(AddRow(gs, t), texts + [t])
  {
    if Find(gs, SqlKey(t)) < |gs| {
      AddRowToGroup(gs, texts, t);
    } else {
      AddRowNewGroup(gs, texts, t);
    }
  }

  lemma GroupsOfSameTexts(gs: seq<Group>, a: seq<string>, b: seq<string>)
    requires GroupsOf(gs, a) && a == b
    ensures GroupsOf(gs, b)
  {
  }

  /** The groups of `texts`, in order of first appearance. */
  function GroupAll(texts: seq<string>): (r: seq<Group>)
    ensures GroupsOf(r, texts)
  {
    if texts == [] then []
    else
      var prefix, last := texts[..|texts| - 1], texts[|texts| - 1];
      var gs := GroupAll(prefix);
      AddRowGroups(gs, prefix, last);
      SplitLast(texts);
      GroupsOfSameTexts(AddRow(gs, last), prefix + [last], texts);
      AddRow(gs, last)
  }

  // ---------------------------------------------------------------- ORDER BY count DESC

  /** Inserts `g` before the first group with a count not above its own. */
  function Insert(g: Group, gs: seq<Group>): (r: seq<Group>)
    ensures |r| == |gs| + 1 && Total(r) == g.count + Total(gs)
    ensures forall h :: h in r <==> h == g || h in gs
  {
    if gs == [] || g.count >= gs[0].count then [g] + gs
    else
      var r := [gs[0]] + Insert(g, gs[1..]);
      assert forall h :: h in gs[1..] ==> h in gs;
      r
  }

  /** Inserting into a sorted sequence keeps it sorted. */
  lemma {:induction false} InsertSorted(g: Group, gs: seq<Group>)
    requires SortedDesc(gs)
    ensures SortedDesc(Insert(g, gs))
  {
    if gs != [] && g.count < gs[0].count {
      InsertSorted(g, gs[1..]);
      var r := Insert(g, gs[1..]);
      assert r[0] in r;
    }
  }

  /** Inserting a group with a fresh key keeps the keys distinct. */
  lemma {:induction false} InsertDistinct(g: Group, gs: seq<Group>)
    requires DistinctKeys(gs) && forall h :: h in gs ==> h.normalized != g.normalized
    ensures DistinctKeys(Insert(g, gs))
  {
    if gs != [] && g.count < gs[0].count {
      assert forall h :: h in gs[1..] ==> h in gs;
      InsertDistinct(g, gs[1..]);
      var r := Insert(g, gs[1..]);
      forall j | 0 <= j < |r| ensures r[j].normalized != gs[0].normalized {
        assert r[j] in r;
      }
    }
  }

  /** Counts never increase along `gs`. */
  ghost predicate SortedDesc(gs: seq<Group>) {
    forall i, j :: 0 <= i < j < |gs| ==> gs[i].count >= gs[j].count
  }

  /** Insertion sort by count, descending. */
  function SortDesc(gs: seq<Group>): (r: seq<Group>)
    ensures |r| == |gs| && Total(r) == Total(gs) && SortedDesc(r)
    ensures forall h :: h in r <==> h in gs
  {
    if gs == [] then []
    else
      var rest := SortDesc(gs[1..]);
      assert forall h :: h in gs[1..] ==> h in gs;
      InsertSorted(gs[0], rest);
      Insert(gs[0], rest)
  }

  /** Sorting keeps the keys distinct. */
  lemma {:induction false} SortDescDistinct(gs: seq<Group>)
    requires DistinctKeys(gs)
    ensures DistinctKeys(SortDesc(gs))
  {
    if gs != [] {
      var rest := SortDesc(gs[1..]);
      SortDescDistinct(gs[1..]);
      forall h | h in rest ensures h.normalized != gs[0].normalized {
        var j :| 0 <= j < |gs[1..]| && gs[1..][j] == h;
        assert gs[j + 1] == h;
      }
      InsertDistinct(gs[0], rest);
    }
  }

  /** A reordering of the groups of `texts` that keeps keys distinct is again their groups. */
  lemma ReorderedGroups(gs: seq<Group>, r: seq<Group>, texts: seq<string>)
    requires GroupsOf(gs, texts) && DistinctKeys(r) && Total(r) == Total(gs)
    requires forall h :: h in r <==> h in gs
    ensures GroupsOf(r, texts)
  {
    forall j | 0 <= j < |r| ensures IsGroupOf(r[j], texts) {
      assert r[j] in gs;
    }
    forall u | u in texts ensures Find(r, SqlKey(u)) < |r| {
      var g := gs[Find(gs, SqlKey(u))];
      assert g in r;
    }
  }

  /**
   * The result of the grouped query: one group per distinct key among
   * `texts`, each with its exact count and smallest text, counts summing to
   * the number of texts, largest count first.
   */
  function Grouped(texts: seq<string>): (r: seq<Group>)
    ensures GroupsOf(r, texts)
    ensures SortedDesc(r)
  {
    var gs := GroupAll(texts);
    SortDescDistinct(gs);
    ReorderedGroups(gs, SortDesc(gs), texts);
    SortDesc(gs)
  }
}
