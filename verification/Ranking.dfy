/**
 The rank order of veridex/scoring.py and veridex/leaderboard.py: a lexicographic key, best agent
 first, with None after every number, and the agent id as the last word.
 */
module Ranking {
  import opened Prelude
  import opened Sorting

  /** Python's <= on strings. */
  predicate StringLe(a: string, b: string) {
    a == [] || (b != [] && (a[0] < b[0] || (a[0] == b[0] && StringLe(a[1..], b[1..]))))
  }

  lemma {:induction false} StringLeTotal(a: string, b: string)
    ensures StringLe(a, b) || StringLe(b, a)
    ensures StringLe(a, b) && StringLe(b, a) ==> a == b
  {
    if a != [] && b != [] {
      StringLeTotal(a[1..], b[1..]);
      assert a == [a[0]] + a[1..] && b == [b[0]] + b[1..];
    }
  }

  lemma {:induction false} StringLeTransitive(a: string, b: string, c: string)
    requires StringLe(a, b) && StringLe(b, c)
    ensures StringLe(a, c)
  {
    if a != [] && b != [] && c != [] && a[0] == b[0] == c[0] {
      StringLeTransitive(a[1..], b[1..], c[1..]);
    }
  }

  /** What ranking looks at. */
  datatype Key = Key(avgClv: Option<real>, totalClv: int, brier: Option<real>, maxDrawdown: int,
                     actionCount: int, agentId: string)

  /** Descending with None last: the tuples (0, -avg) and (1, 0.0). */
  predicate Higher(a: Option<real>, b: Option<real>) {
    a.Some? && (b == None || a.value > b.value)
  }

  /** Ascending with None last: the tuples (0, brier) and (1, 0.0). */
  predicate Lower(a: Option<real>, b: Option<real>) {
    a.Some? && (b == None || a.value < b.value)
  }

  /** The tuple comparison: a ranks no later than b. */
  predicate KeyLe(a: Key, b: Key) {
    if a.avgClv != b.avgClv then Higher(a.avgClv, b.avgClv)
    else if a.totalClv != b.totalClv then a.totalClv > b.totalClv
    else if a.brier != b.brier then Lower(a.brier, b.brier)
    else if a.maxDrawdown != b.maxDrawdown then a.maxDrawdown > b.maxDrawdown
    else if a.actionCount != b.actionCount then a.actionCount > b.actionCount
    else StringLe(a.agentId, b.agentId)
  }

  /** a is a proper prefix of b, or smaller where they first differ. */
  predicate Precedes(a: string, b: string) {
    exists k | 0 <= k <= |a| && k < |b| :: a[..k] == b[..k] && (k == |a| || a[k] < b[k])
  }

  lemma {:induction false} StringLePrecedes(a: string, b: string)
    requires StringLe(a, b)
    ensures a == b || Precedes(a, b)
  {
    if a == [] {
      assert b != [] ==> a[..0] == b[..0];
    } else if a[0] < b[0] {
      assert a[..0] == b[..0];
    } else {
      StringLePrecedes(a[1..], b[1..]);
      assert a == [a[0]] + a[1..] && b == [b[0]] + b[1..];
      if Precedes(a[1..], b[1..]) {
        var k :| 0 <= k <= |a| - 1 && k < |b| - 1
                 && a[1..][..k] == b[1..][..k] && (k == |a| - 1 || a[1..][k] < b[1..][k]);
        assert a[..k + 1] == [a[0]] + a[1..][..k] && b[..k + 1] == [b[0]] + b[1..][..k];
      }
    }
  }

  /** What ranks no later: the higher average CLV, None last; on equal ones the next figure, and so on to the id. */
  predicate Ahead(a: Key, b: Key) {
    && (b.avgClv.Some? ==> a.avgClv.Some? && a.avgClv.value >= b.avgClv.value)
    && (a.avgClv == b.avgClv ==>
          && a.totalClv >= b.totalClv
          && (a.totalClv == b.totalClv ==>
                && (b.brier.Some? ==> a.brier.Some? && a.brier.value <= b.brier.value)
                && (a.brier == b.brier ==>
                      && a.maxDrawdown >= b.maxDrawdown
                      && (a.maxDrawdown == b.maxDrawdown ==>
                            && a.actionCount >= b.actionCount
                            && (a.actionCount == b.actionCount ==>
                                  a.agentId == b.agentId || Precedes(a.agentId, b.agentId))))))
  }

  lemma KeyLeIsAhead(a: Key, b: Key)
    requires KeyLe(a, b)
    ensures Ahead(a, b)
  {
    if StringLe(a.agentId, b.agentId) {
      StringLePrecedes(a.agentId, b.agentId);
    }
  }

  /** A total order on keys: ties are impossible between different keys. */
  lemma KeyLeIsTotalOrder()
    ensures TotalPreorder(KeyLe)
    ensures forall a, b :: KeyLe(a, b) && KeyLe(b, a) ==> a == b
  {
    forall a, b
      ensures KeyLe(a, b) || KeyLe(b, a)
      ensures KeyLe(a, b) && KeyLe(b, a) ==> a == b
    {
      StringLeTotal(a.agentId, b.agentId);
    }
    forall a, b, c | KeyLe(a, b) && KeyLe(b, c)
      ensures KeyLe(a, c)
    {
      if StringLe(a.agentId, b.agentId) && StringLe(b.agentId, c.agentId) {
        StringLeTransitive(a.agentId, b.agentId, c.agentId);
      }
    }
  }

  /** A list of rows with the 1-based ranks of its positions. */
  datatype Ranked<R> = Ranked(rank: nat, row: R)

  function WithRanks<R>(rows: seq<R>): (r: seq<Ranked<R>>)
    ensures |r| == |rows| && forall i | 0 <= i < |r| :: r[i] == Ranked(i + 1, rows[i])
  {
    seq(|rows|, i requires 0 <= i < |rows| => Ranked(i + 1, rows[i]))
  }

  /** for rank, row in enumerate(rows, start=1) */
  method AssignRanks<R>(rows: seq<R>) returns (ranked: seq<Ranked<R>>)
    ensures ranked == WithRanks(rows)
  {
    ranked := [];
    for k := 0 to |rows|
      invariant ranked == WithRanks(rows)[..k]
    {
      ranked := ranked + [Ranked(k + 1, rows[k])];
    }
  }

  // ---------------------------------------------------------------- sorting rows by key

  /** Rows in the order of their keys. */
  function ByKey<R>(key: R -> Key): (R, R) -> bool {
    (x, y) => KeyLe(key(x), key(y))
  }

  lemma ByKeyIsPreorder<R(!new)>(key: R -> Key)
    ensures TotalPreorder(ByKey(key))
  {
    KeyLeIsTotalOrder();
    forall x, y, z | ByKey(key)(x, y) && ByKey(key)(y, z)
      ensures ByKey(key)(x, z)
    {
      assert KeyLe(key(x), key(z));
    }
    forall x, y
      ensures ByKey(key)(x, y) || ByKey(key)(y, x)
    {
      assert KeyLe(key(x), key(y)) || KeyLe(key(y), key(x));
    }
  }

  lemma {:induction false} InsertKeys<R>(s: seq<R>, x: R, key: R -> Key)
    ensures Map(Insert(s, x, ByKey(key)), key) == Insert(Map(s, key), key(x), KeyLe)
  {
    if s != [] && !KeyLe(key(s[|s| - 1]), key(x)) {
      InsertKeys(s[..|s| - 1], x, key);
      assert Map(s, key)[..|s| - 1] == Map(s[..|s| - 1], key);
    }
  }

  /** Sorting rows by key sorts their keys: nothing else about a row can influence the order. */
  lemma {:induction false} SortKeys<R>(s: seq<R>, key: R -> Key)
    ensures Map(Sort(s, ByKey(key)), key) == Sort(Map(s, key), KeyLe)
  {
    if s != [] {
      SortKeys(s[..|s| - 1], key);
      InsertKeys(Sort(s[..|s| - 1], ByKey(key)), s[|s| - 1], key);
      assert Map(s, key)[..|s| - 1] == Map(s[..|s| - 1], key);
    }
  }

  /** Rows with distinct keys have one sorted arrangement. */
  lemma {:induction false} SortedByKeyIsUnique<R(!new)>(a: seq<R>, b: seq<R>, key: R -> Key)
    requires multiset(a) == multiset(b)
    requires forall x, y | x in a && y in a && key(x) == key(y) :: x == y
    ensures Sort(a, ByKey(key)) == Sort(b, ByKey(key))
  {
    ByKeyIsPreorder(key);
    KeyLeIsTotalOrder();
    SortSorts(a, ByKey(key));
    SortSorts(b, ByKey(key));
    var sa, sb := Sort(a, ByKey(key)), Sort(b, ByKey(key));
    forall x, y | x in sa && y in sa && ByKey(key)(x, y) && ByKey(key)(y, x)
      ensures x == y
    {
      assert x in multiset(sa) && y in multiset(sa);
    }
    SortedPermutationsAgree(sa, sb, ByKey(key));
  }
}
