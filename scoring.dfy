/**
 * Leaderboard entries and their scores (src/app/page.tsx:10-50): the four
 * stats of an entry, the composite "personal" score, and the metric a sort key
 * selects.
 */
module Scoring {
  import opened Wrappers

  /** A stat as read from the JSON snapshot; `None` when the field is missing. */
  type Stat = Option<int>

  /** One raw or merged leaderboard record. */
  datatype Entry = Entry(name: string, occ: Stat, gather: Stat, pvp: Stat, life: Stat)

  /** `x || 0`: a missing stat (or a zero) counts as 0. */
  function Val(x: Stat): int {
    x.GetOr(0)
  }

  /** The four stat fields of an entry. */
  datatype StatField = Occ | Gather | Pvp | Life

  function Get(e: Entry, f: StatField): Stat {
    match f
    case Occ => e.occ
    case Gather => e.gather
    case Pvp => e.pvp
    case Life => e.life
  }

  /** `personal(e)`: the composite score. */
  function Personal(e: Entry): int {
    Val(e.occ) + Val(e.gather) + Val(e.pvp) + Val(e.life)
  }

  /** The sort keys the page accepts, in the order of the sort control. */
  const SortKeys: seq<string> := ["personal", "occ", "gather", "pvp", "life"]

  /** `scoreFor(e, key)`: the metric a sort key selects. */
  function ScoreFor(e: Entry, key: string): int {
    if key == "occ" then Val(e.occ)
    else if key == "gather" then Val(e.gather)
    else if key == "pvp" then Val(e.pvp)
    else if key == "life" then Val(e.life)
    else Personal(e)
  }

  /** The composite score is the sum of the four single-stat metrics. */
  lemma PersonalIsSumOfMetrics(e: Entry)
    ensures Personal(e) == ScoreFor(e, "occ") + ScoreFor(e, "gather") + ScoreFor(e, "pvp") + ScoreFor(e, "life")
  {
  }

  /** Each stat key selects its own field; every other key selects the composite score. */
  lemma ScoreForSelects(e: Entry, key: string)
    ensures key == "occ" ==> ScoreFor(e, key) == Val(Get(e, Occ))
    ensures key == "gather" ==> ScoreFor(e, key) == Val(Get(e, Gather))
    ensures key == "pvp" ==> ScoreFor(e, key) == Val(Get(e, Pvp))
    ensures key == "life" ==> ScoreFor(e, key) == Val(Get(e, Life))
    ensures key !in {"occ", "gather", "pvp", "life"} ==> ScoreFor(e, key) == Personal(e)
  {
  }

  /** With no negative stats, a single metric never exceeds the composite score. */
  lemma MetricAtMostPersonal(e: Entry, key: string)
    requires Val(e.occ) >= 0 && Val(e.gather) >= 0 && Val(e.pvp) >= 0 && Val(e.life) >= 0
    ensures 0 <= ScoreFor(e, key) <= Personal(e)
  {
  }

  /** The sum of one stat over a list of entries. */
  function StatTotal(s: seq<Entry>, f: StatField): int {
    if s == [] then 0 else Val(Get(s[0], f)) + StatTotal(s[1..], f)
  }

  /** The sum of the composite score over a list of entries. */
  function PersonalTotal(s: seq<Entry>): int {
    if s == [] then 0 else Personal(s[0]) + PersonalTotal(s[1..])
  }

  lemma {:induction false} StatTotalAppend(a: seq<Entry>, b: seq<Entry>, f: StatField)
    ensures StatTotal(a + b, f) == StatTotal(a, f) + StatTotal(b, f)
  {
    if a == [] {
      assert a + b == b;
    } else {
      assert (a + b)[1..] == a[1..] + b;
      StatTotalAppend(a[1..], b, f);
    }
  }

  /** The total composite score of a list is the sum of its four stat totals. */
  lemma {:induction false} PersonalTotalSplits(s: seq<Entry>)
    ensures PersonalTotal(s) == StatTotal(s, Occ) + StatTotal(s, Gather) + StatTotal(s, Pvp) + StatTotal(s, Life)
  {
    if s != [] {
      PersonalTotalSplits(s[1..]);
    }
  }
}
