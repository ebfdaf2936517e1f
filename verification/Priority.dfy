/** The priority accumulator of Replication/Priority.hs, over the reals: bandwidth-limited selection
    that starves no entity. */
module Priority {
  import opened IntMap

  datatype Entry = Entry(base: real, acc: real)

  type Accumulator = IntMap<Entry>

  /** What an entity of the given rate gains in a time step */
  function Step(dt: real, base: real): real {
    base * dt
  }

  /** accumulate */
  function Accumulate(dt: real, m: Accumulator): Accumulator {
    map k | k in m :: m[k].(acc := m[k].acc + Step(dt, m[k].base))
  }

  /** Priority grows by the base rate per unit of time, and times add up. */
  lemma AccumulateIs(a: real, b: real, m: Accumulator, k: int)
    requires k in m
    ensures Accumulate(a, Accumulate(b, m)) == Accumulate(a + b, m)
    ensures Accumulate(1.0, m)[k] == Entry(m[k].base, m[k].acc + m[k].base) && Accumulate(0.0, m)[k] == m[k]
  {
    forall j | j in m ensures Accumulate(a, Accumulate(b, m))[j] == Accumulate(a + b, m)[j] {
      assert Step(a, m[j].base) + Step(b, m[j].base) == Step(a + b, m[j].base);
    }
  }

  // ---- Sorting ----

  /** k comes after everything with at least its priority: what a stable sort does with a later key. */
  function Insert(m: Accumulator, sorted: seq<int>, k: int): (r: seq<int>)
    requires k in m && forall i :: 0 <= i < |sorted| ==> sorted[i] in m
    ensures forall i :: 0 <= i < |r| ==> r[i] in m
    ensures |r| == |sorted| + 1
  {
    if sorted == [] then [k]
    else
      var last := sorted[|sorted| - 1];
      if m[last].acc >= m[k].acc then sorted + [k] else Insert(m, sorted[..|sorted| - 1], k) + [last]
  }

  /** sortBy on the list of the keys in ascending order, highest accumulated priority first */
  function Sort(m: Accumulator, keys: set<int>): (r: seq<int>)
    requires keys <= m.Keys
    ensures forall i :: 0 <= i < |r| ==> r[i] in m
  {
    if keys == {} then []
    else
      var k := MaxKey(keys);
      Insert(m, Sort(m, keys - {k}), k)
  }

  predicate Descending(m: Accumulator, r: seq<int>)
    requires forall i :: 0 <= i < |r| ==> r[i] in m
  {
    forall i, j :: 0 <= i < j < |r| ==> m[r[i]].acc >= m[r[j]].acc
  }

  lemma {:induction false} InsertKeeps(m: Accumulator, sorted: seq<int>, k: int)
    requires k in m && (forall i :: 0 <= i < |sorted| ==> sorted[i] in m) && Descending(m, sorted)
    ensures Descending(m, Insert(m, sorted, k))
    ensures multiset(Insert(m, sorted, k)) == multiset(sorted) + multiset{k}
  {
    InsertPermutes(m, sorted, k);
    if sorted != [] {
      var front, last := sorted[..|sorted| - 1], sorted[|sorted| - 1];
      if m[last].acc < m[k].acc {
        InsertKeeps(m, front, k);
        LastIsLeast(m, front, last, k, Insert(m, front, k));
      }
    }
  }

  lemma {:induction false} InsertPermutes(m: Accumulator, sorted: seq<int>, k: int)
    requires k in m && forall i :: 0 <= i < |sorted| ==> sorted[i] in m
    ensures multiset(Insert(m, sorted, k)) == multiset(sorted) + multiset{k}
  {
    if sorted != [] {
      var front, last := sorted[..|sorted| - 1], sorted[|sorted| - 1];
      if m[last].acc < m[k].acc {
        InsertPermutes(m, front, k);
        MultisetSnoc(front, last);
        MultisetSnoc(Insert(m, front, k), last);
        assert sorted == front + [last];
      } else {
        MultisetSnoc(sorted, k);
      }
    }
  }

  lemma MultisetSnoc(s: seq<int>, k: int)
    ensures multiset(s + [k]) == multiset(s) + multiset{k}
  {
  }

  lemma LastIsLeast(m: Accumulator, front: seq<int>, last: int, k: int, r: seq<int>)
    requires last in m && k in m && (forall i :: 0 <= i < |front| ==> front[i] in m && m[front[i]].acc >= m[last].acc)
    requires (forall i :: 0 <= i < |r| ==> r[i] in m) && Descending(m, r)
      && multiset(r) == multiset(front) + multiset{k}
    requires m[last].acc < m[k].acc
    ensures Descending(m, r + [last])
  {
    forall i | 0 <= i < |r| ensures m[r[i]].acc >= m[last].acc {
      assert r[i] in multiset(r);
      assert r[i] in front || r[i] == k;
    }
  }

  lemma {:induction false} SortIs(m: Accumulator, keys: set<int>)
    requires keys <= m.Keys
    ensures Descending(m, Sort(m, keys)) && multiset(Sort(m, keys)) == multiset(keys)
    decreases keys
  {
    if keys != {} {
      var k := MaxKey(keys);
      SortIs(m, keys - {k});
      InsertKeeps(m, Sort(m, keys - {k}), k);
      assert multiset(keys) == multiset(keys - {k}) + multiset{k};
    }
  }

  /** Higher priorities come first, and among equal ones the lower key. */
  predicate Ranked(m: Accumulator, r: seq<int>)
    requires forall i :: 0 <= i < |r| ==> r[i] in m
  {
    forall i, j :: 0 <= i < j < |r| ==> m[r[i]].acc > m[r[j]].acc || (m[r[i]].acc == m[r[j]].acc && r[i] < r[j])
  }

  lemma {:induction false} InsertRanked(m: Accumulator, sorted: seq<int>, k: int)
    requires k in m && (forall i :: 0 <= i < |sorted| ==> sorted[i] in m && sorted[i] < k) && Ranked(m, sorted)
    ensures Ranked(m, Insert(m, sorted, k))
  {
    if sorted != [] {
      var front, last := sorted[..|sorted| - 1], sorted[|sorted| - 1];
      assert sorted == front + [last];
      if m[last].acc < m[k].acc {
        var r := Insert(m, front, k);
        InsertRanked(m, front, k);
        InsertPermutes(m, front, k);
        forall i | 0 <= i < |r| ensures m[r[i]].acc > m[last].acc || (m[r[i]].acc == m[last].acc && r[i] < last) {
          assert r[i] in multiset(r);
          assert r[i] in front || r[i] == k;
        }
      }
    }
  }

  lemma SortedBelow(m: Accumulator, keys: set<int>, k: int)
    requires keys <= m.Keys && IsMax(keys, k)
    ensures forall i :: 0 <= i < |Sort(m, keys - {k})| ==> Sort(m, keys - {k})[i] < k
  {
    var rest := Sort(m, keys - {k});
    SortIs(m, keys - {k});
    forall i | 0 <= i < |rest| ensures rest[i] < k {
      assert rest[i] in multiset(rest);
    }
  }

  /** The list is sorted by priority, stably: this and its contents determine it. */
  lemma {:induction false} SortRanked(m: Accumulator, keys: set<int>)
    requires keys <= m.Keys
    ensures Ranked(m, Sort(m, keys)) && multiset(Sort(m, keys)) == multiset(keys)
    decreases keys
  {
    SortIs(m, keys);
    if keys != {} {
      var k := MaxKey(keys);
      SortRanked(m, keys - {k});
      SortedBelow(m, keys, k);
      InsertRanked(m, Sort(m, keys - {k}), k);
    }
  }

  /** Every entity is listed, and the first has the highest priority. */
  lemma FirstIsHighest(m: Accumulator)
    requires m.Keys != {}
    ensures var r := Sort(m, m.Keys);
      r != [] && r[0] in m && forall k :: k in m ==> m[k].acc <= m[r[0]].acc
  {
    var r := Sort(m, m.Keys);
    SortIs(m, m.Keys);
    forall k | k in m ensures r != [] && m[k].acc <= m[r[0]].acc {
      assert k in multiset(r);
      var i :| 0 <= i < |r| && r[i] == k;
    }
    var some :| some in m.Keys;
  }

  // ---- Selection ----

  /** selectWithinBudget: the entities taken, and the budget left */
  function Select(remaining: int, size: int -> int, list: seq<int>): (seq<int>, int)
    decreases list, remaining
  {
    if list == [] then ([], remaining)
    else if size(list[0]) > remaining then Select(remaining, size, list[1..])
    else
      var (taken, left) := Select(remaining - size(list[0]), size, list[1..]);
      ([list[0]] + taken, left)
  }

  /** drainTop */
  function DrainTop(budget: int, size: int -> int, m: Accumulator): (seq<int>, Accumulator) {
    var selected := Select(budget, size, Sort(m, m.Keys)).0;
    (selected, Reset(m, selected))
  }

  function Reset(m: Accumulator, selected: seq<int>): Accumulator {
    map k | k in m :: if k in selected then m[k].(acc := 0.0) else m[k]
  }

  function Total(size: int -> int, list: seq<int>): int {
    if list == [] then 0 else size(list[0]) + Total(size, list[1..])
  }

  /** What is taken and what is left add up to the budget, and the budget is never overdrawn. */
  lemma {:induction false} SelectFits(remaining: int, size: int -> int, list: seq<int>)
    ensures var (taken, left) := Select(remaining, size, list);
      Total(size, taken) + left == remaining && (remaining >= 0 ==> left >= 0)
      && forall k :: k in taken ==> k in list
    decreases list
  {
    if list != [] {
      SelectFits(remaining, size, list[1..]);
      SelectFits(remaining - size(list[0]), size, list[1..]);
    }
  }

  /** The first entity that fits is taken. */
  lemma FirstTaken(remaining: int, size: int -> int, list: seq<int>)
    requires list != [] && size(list[0]) <= remaining
    ensures list[0] in Select(remaining, size, list).0
  {
  }

  lemma SelectOne(remaining: int, size: int -> int, k: int)
    ensures Select(remaining, size, [k]) == if size(k) > remaining then ([], remaining) else ([k], remaining - size(k))
  {
    assert [k][1..] == [] && [k] + [] == [k];
    assert Select(remaining, size, []) == ([], remaining);
    assert Select(remaining - size(k), size, []) == ([], remaining - size(k));
  }

  lemma {:induction false} SelectSnoc(remaining: int, size: int -> int, list: seq<int>, k: int)
    ensures var (taken, left) := Select(remaining, size, list);
      Select(remaining, size, list + [k])
      == if size(k) > left then (taken, left) else (taken + [k], left - size(k))
    decreases list
  {
    if list == [] {
      assert list + [k] == [k] && [k][1..] == [] && [k] + [] == [k] && [] + [k] == [k];
      SelectOne(remaining, size, k);
    } else {
      var first, rest := list[0], list[1..];
      assert (list + [k])[1..] == rest + [k] && (list + [k])[0] == first;
      SelectFirst(remaining, size, list);
      SelectFirst(remaining, size, list + [k]);
      SelectSnoc(remaining, size, rest, k);
      SelectSnoc(remaining - size(first), size, rest, k);
      var taken := Select(remaining - size(first), size, rest).0;
      assert [first] + (taken + [k]) == ([first] + taken) + [k];
    }
  }

  lemma SelectFirst(remaining: int, size: int -> int, list: seq<int>)
    requires list != []
    ensures Select(remaining, size, list)
         == if size(list[0]) > remaining then Select(remaining, size, list[1..])
            else ([list[0]] + Select(remaining - size(list[0]), size, list[1..]).0,
                  Select(remaining - size(list[0]), size, list[1..]).1)
  {
  }

  /** Every entity in its turn is selected if and only if it fits in what those selected before it leave;
      one that does not fit does not keep the later ones from being selected. */
  lemma SelectGreedy(budget: int, size: int -> int, list: seq<int>, i: nat)
    requires i < |list|
    ensures var before := Select(budget, size, list[..i]).0;
      Select(budget, size, list[..i + 1]).0
      == if size(list[i]) <= budget - Total(size, before) then before + [list[i]] else before
  {
    assert list[..i + 1] == list[..i] + [list[i]];
    SelectFits(budget, size, list[..i]);
    SelectSnoc(budget, size, list[..i], list[i]);
  }

  lemma {:induction false} SelectGrows(budget: int, size: int -> int, list: seq<int>, i: nat)
    requires i <= |list| && forall k :: k in list ==> size(k) >= 0
    ensures Select(budget, size, list[..i]).0 <= Select(budget, size, list).0
    ensures Select(budget, size, list[..i]).1 >= Select(budget, size, list).1
    decreases |list| - i
  {
    if i == |list| {
      assert list[..i] == list;
    } else {
      assert list[..i + 1] == list[..i] + [list[i]];
      SelectSnoc(budget, size, list[..i], list[i]);
      SelectGrows(budget, size, list, i + 1);
    }
  }

  lemma FittingIsTaken(budget: int, size: int -> int, list: seq<int>, i: nat)
    requires i < |list| && (forall k :: k in list ==> size(k) >= 0)
    requires size(list[i]) <= Select(budget, size, list[..i]).1
    ensures list[i] in Select(budget, size, list).0
  {
    SelectSnoc(budget, size, list[..i], list[i]);
    SelectGrows(budget, size, list, i + 1);
    assert list[..i + 1] == list[..i] + [list[i]];
    var taken := Select(budget, size, list[..i + 1]).0;
    assert taken[|taken| - 1] == list[i];
  }

  lemma SkippedIsLarge(budget: int, size: int -> int, list: seq<int>, i: nat)
    requires i < |list| && (forall k :: k in list ==> size(k) >= 0) && list[i] !in Select(budget, size, list).0
    ensures size(list[i]) > budget - Total(size, Select(budget, size, list).0)
  {
    SelectFits(budget, size, list);
    SelectGrows(budget, size, list, i);
    if size(list[i]) <= Select(budget, size, list[..i]).1 {
      FittingIsTaken(budget, size, list, i);
    }
  }

  /** When sizes are not negative, the budget is used up: every entity that is not selected is larger than
      what is left of the budget at the end. */
  lemma DrainUsesBudget(budget: int, size: int -> int, m: Accumulator, k: int)
    requires k in m && (forall j :: j in m ==> size(j) >= 0) && k !in DrainTop(budget, size, m).0
    ensures size(k) > budget - Total(size, DrainTop(budget, size, m).0)
  {
    var list := Sort(m, m.Keys);
    SortIs(m, m.Keys);
    assert k in multiset(list);
    var i :| 0 <= i < |list| && list[i] == k;
    SkippedIsLarge(budget, size, list, i);
  }

  /** The selected entities fit the budget together, and only they start again from zero. */
  lemma DrainFits(budget: nat, size: int -> int, m: Accumulator)
    ensures var (selected, m') := DrainTop(budget, size, m);
      && Total(size, selected) <= budget && m'.Keys == m.Keys
      && forall k :: k in m ==> m'[k] == if k in selected then Entry(m[k].base, 0.0) else m[k]
  {
    SelectFits(budget, size, Sort(m, m.Keys));
  }

  // ---- Rounds ----

  /** One round: time passes, then the budget is spent. */
  function Round(dt: real, budget: int, size: int -> int, m: Accumulator): (seq<int>, Accumulator) {
    DrainTop(budget, size, Accumulate(dt, m))
  }

  function Grown(dt: real, e: Entry): real {
    e.acc + Step(dt, e.base)
  }

  /** The entity t is selected, and none has a higher priority. */
  ghost predicate IsTop(dt: real, m: Accumulator, picks: seq<int>, t: int) {
    t in m && t in picks && forall k :: k in m ==> Grown(dt, m[k]) <= Grown(dt, m[t])
  }

  /** What a round does to the entity k */
  ghost predicate Moves(dt: real, m: Accumulator, picks: seq<int>, m': Accumulator, k: int) {
    k in m' && (k in m ==> m'[k] == Entry(m[k].base, if k in picks then 0.0 else Grown(dt, m[k])))
  }

  /** What matters of a round: one of highest priority is selected, the selected start again from zero,
      and the others grow. */
  ghost predicate Fair(dt: real, m: Accumulator, picks: seq<int>, m': Accumulator) {
    && m'.Keys == m.Keys
    && (exists t :: IsTop(dt, m, picks, t))
    && (forall k {:trigger Moves(dt, m, picks, m', k)} :: k in m ==> Moves(dt, m, picks, m', k))
  }

  /** Every entity fits the budget alone. */
  ghost predicate EachFits(m: Accumulator, budget: int, size: int -> int) {
    forall k :: k in m ==> size(k) <= budget
  }

  lemma RoundIsFair(dt: real, budget: nat, size: int -> int, m: Accumulator, picks: seq<int>, m': Accumulator)
    requires m.Keys != {} && EachFits(m, budget, size) && (picks, m') == Round(dt, budget, size, m)
    ensures Fair(dt, m, picks, m')
  {
    var grown := Accumulate(dt, m);
    assert grown.Keys == m.Keys && m' == Reset(grown, picks);
    FirstIsHighest(grown);
    var order := Sort(grown, grown.Keys);
    var first := order[0];
    assert first in m.Keys;
    FirstTaken(budget, size, order);
    TopTaken(dt, m, grown, picks, order[0]);
    forall k | k in m ensures Moves(dt, m, picks, m', k) {
      MovesAs(dt, m, grown, picks, k);
    }
  }

  lemma TopTaken(dt: real, m: Accumulator, grown: Accumulator, picks: seq<int>, t: int)
    requires grown == Accumulate(dt, m) && t in picks && t in m
    requires forall k :: k in grown ==> grown[k].acc <= grown[t].acc
    ensures IsTop(dt, m, picks, t)
  {
    forall k | k in m ensures Grown(dt, m[k]) <= Grown(dt, m[t]) {
      assert k in grown;
    }
  }

  lemma MovesAs(dt: real, m: Accumulator, grown: Accumulator, picks: seq<int>, k: int)
    requires grown == Accumulate(dt, m) && k in m
    ensures Moves(dt, m, picks, Reset(grown, picks), k)
  {
  }

  /** The states and the selections of a number of rounds */
  datatype Log = Log(states: seq<Accumulator>, picks: seq<seq<int>>)

  function Run(dt: real, budget: nat, size: int -> int, m: Accumulator, n: nat): (g: Log)
    ensures |g.states| == n + 1 && |g.picks| == n
    decreases n
  {
    if n == 0 then Log([m], [])
    else
      var g := Run(dt, budget, size, m, n - 1);
      var (picks, m') := Round(dt, budget, size, g.states[n - 1]);
      Log(g.states + [m'], g.picks + [picks])
  }

  ghost predicate FairLog(dt: real, g: Log) {
    && |g.states| == |g.picks| + 1
    && forall i {:trigger g.picks[i]} :: 0 <= i < |g.picks| ==> Fair(dt, g.states[i], g.picks[i], g.states[i + 1])
  }

  lemma ExtendFair(dt: real, g: Log, picks: seq<int>, m': Accumulator)
    requires FairLog(dt, g) && Fair(dt, g.states[|g.picks|], picks, m')
    ensures FairLog(dt, Log(g.states + [m'], g.picks + [picks]))
  {
    var h := Log(g.states + [m'], g.picks + [picks]);
    forall i | 0 <= i < |h.picks| ensures Fair(dt, h.states[i], h.picks[i], h.states[i + 1]) {
      if i < |g.picks| {
        var _ := g.picks[i];
      }
    }
  }

  lemma {:induction false} RunIsFair(dt: real, budget: nat, size: int -> int, m: Accumulator, n: nat)
    requires m.Keys != {} && EachFits(m, budget, size)
    ensures var g := Run(dt, budget, size, m, n);
      FairLog(dt, g) && g.states[0] == m && g.states[n].Keys == m.Keys
    decreases n
  {
    if n != 0 {
      RunIsFair(dt, budget, size, m, n - 1);
      var g := Run(dt, budget, size, m, n - 1);
      var (picks, m') := Round(dt, budget, size, g.states[n - 1]);
      RoundIsFair(dt, budget, size, g.states[n - 1], picks, m');
      ExtendFair(dt, g, picks, m');
    }
  }

  // ---- Waiting and growing ----

  lemma {:induction false} BasesStay(dt: real, g: Log, k: int, r: nat)
    requires FairLog(dt, g) && k in g.states[0] && r <= |g.picks|
    ensures k in g.states[r] && g.states[r][k].base == g.states[0][k].base && g.states[r].Keys == g.states[0].Keys
  {
    if r > 0 {
      BasesStay(dt, g, k, r - 1);
      var _ := g.picks[r - 1];
      assert Moves(dt, g.states[r - 1], g.picks[r - 1], g.states[r], k);
    }
  }

  /** n rounds of growth */
  function Growth(n: nat, step: real): real {
    if n == 0 then 0.0 else Growth(n - 1, step) + step
  }

  lemma {:induction false} GrowthIs(n: nat, step: real)
    ensures Growth(n, step) == n as real * step
  {
    if n != 0 {
      GrowthIs(n - 1, step);
      assert n as real * step == (n - 1) as real * step + step;
    }
  }

  /** An entity not selected in the first r rounds has grown in each of them. */
  lemma {:induction false} Waiting(dt: real, g: Log, e: int, r: nat)
    requires FairLog(dt, g) && e in g.states[0] && g.states[0][e].acc >= 0.0 && r <= |g.picks|
    requires forall i :: 0 <= i < r ==> e !in g.picks[i]
    ensures e in g.states[r] && g.states[r][e].acc >= Growth(r, Step(dt, g.states[0][e].base))
  {
    if r > 0 {
      Waiting(dt, g, e, r - 1);
      BasesStay(dt, g, e, r - 1);
      var _ := g.picks[r - 1];
      assert Moves(dt, g.states[r - 1], g.picks[r - 1], g.states[r], e);
    }
  }

  /** An entity selected in round r has at most the growth since then. */
  lemma {:induction false} SinceSelected(dt: real, g: Log, f: int, r: nat, later: nat)
    requires FairLog(dt, g) && f in g.states[0] && r < later <= |g.picks| && f in g.picks[r]
    requires Step(dt, g.states[0][f].base) >= 0.0
    ensures f in g.states[later] && g.states[later][f].acc <= Growth(later - r - 1, Step(dt, g.states[0][f].base))
    decreases later
  {
    var i := later - 1;
    BasesStay(dt, g, f, i);
    var _ := g.picks[i];
    assert Moves(dt, g.states[i], g.picks[i], g.states[later], f);
    if i > r {
      SinceSelected(dt, g, f, r, i);
      GrowthNonNegative(i - r, Step(dt, g.states[0][f].base));
    }
  }

  lemma {:induction false} GrowthNonNegative(n: nat, step: real)
    requires step >= 0.0
    ensures Growth(n, step) >= 0.0
  {
    if n != 0 { GrowthNonNegative(n - 1, step); }
  }

  // ---- No starvation ----

  /** More entries than values: two entries are equal. */
  lemma {:induction false} Pigeonhole(s: seq<int>, values: set<int>) returns (i: nat, j: nat)
    requires |s| > |values| && forall l :: 0 <= l < |s| ==> s[l] in values
    ensures i < j < |s| && s[i] == s[j]
    decreases |s|
  {
    var n := |s| - 1;
    if l :| 0 <= l < n && s[l] == s[n] {
      i, j := l, n;
    } else {
      var front := s[..n];
      assert s[n] in values;
      i, j := Pigeonhole(front, values - {s[n]});
    }
  }

  /** The round by which every waiting entity is selected: floor(n * bMax / b) + 1 + n */
  function Deadline(n: nat, bMax: real, b: real): int
    requires b > 0.0
  {
    (n as real * bMax / b).Floor + 1 + n
  }

  lemma FloorCovers(n: nat, bMax: real, b: real, k: int)
    requires b > 0.0 && k == (n as real * bMax / b).Floor + 1
    ensures k as real * b > n as real * bMax
  {
    var q := n as real * bMax / b;
    assert k as real > q;
    assert q * b == n as real * bMax;
    Scale(q, k as real, b);
  }

  lemma Scale(x: real, y: real, b: real)
    requires b > 0.0
    ensures x < y ==> x * b < y * b
    ensures x <= y ==> x * b <= y * b
  {
  }

  /** Two of the rounds after the k-th cannot have the same entity first in line while e waits: its
      priority would have to come from fewer than n rounds, and that of e comes from more than k. */
  lemma Contradicts(n: nat, bMax: real, be: real, bf: real, dt: real, k: int, early: nat, late: nat)
    requires 0.0 < be && 0.0 <= bf <= bMax && dt > 0.0 && k as real * be > n as real * bMax
    requires 0 <= k <= early < late && late - early < n
    ensures Growth(late - early, Step(dt, bf)) < Growth(late, Step(dt, be))
  {
    var gap := late - early;
    GrowthIs(gap, Step(dt, bf));
    GrowthIs(late, Step(dt, be));
    assert gap as real * Step(dt, bf) == (gap as real * bf) * dt
      && late as real * Step(dt, be) == (late as real * be) * dt;
    Products(gap as real, n as real, bf, bMax);
    Scale(k as real, late as real, be);
    Scale(gap as real * bf, late as real * be, dt);
  }

  lemma Positive(a: real, b: real)
    requires a > 0.0 && b > 0.0
    ensures a * b > 0.0
  {
  }

  lemma Products(a: real, b: real, c: real, d: real)
    requires 0.0 <= a <= b && 0.0 <= c <= d
    ensures a * c <= b * d
  {
    assert a * c <= a * d;
    assert a * d <= b * d;
  }

  /** In n rounds that all leave e waiting, one of the other entities is first in line twice. */
  lemma RepeatedTop(dt: real, g: Log, e: int, start: nat, n: nat) returns (early: nat, late: nat, f: int)
    requires FairLog(dt, g) && e in g.states[0] && n == |g.states[0].Keys| && start + n == |g.picks|
    requires forall r :: 0 <= r < start + n ==> e !in g.picks[r]
    ensures start <= early < late < start + n
    ensures IsTop(dt, g.states[early], g.picks[early], f) && IsTop(dt, g.states[late], g.picks[late], f)
  {
    var tops := TopsOf(dt, g, e, start, n);
    var i, j := Pigeonhole(tops, g.states[0].Keys - {e});
    early, late, f := start + i, start + j, tops[i];
  }

  lemma {:induction false} TopsOf(dt: real, g: Log, e: int, start: nat, n: nat) returns (tops: seq<int>)
    requires FairLog(dt, g) && e in g.states[0] && start + n <= |g.picks|
    requires forall r :: 0 <= r < start + n ==> e !in g.picks[r]
    ensures |tops| == n
    ensures forall i :: 0 <= i < n ==>
      tops[i] in g.states[0].Keys - {e} && IsTop(dt, g.states[start + i], g.picks[start + i], tops[i])
  {
    if n == 0 {
      tops := [];
    } else {
      var front := TopsOf(dt, g, e, start, n - 1);
      var r := start + n - 1;
      BasesStay(dt, g, e, r);
      assert Fair(dt, g.states[r], g.picks[r], g.states[r + 1]);
      var t :| IsTop(dt, g.states[r], g.picks[r], t);
      tops := front + [t];
    }
  }

  /** An entity that has waited for more than k rounds has a higher priority than one that was selected
      fewer than n rounds ago. */
  lemma WaitingIsHigher(dt: real, n: nat, bMax: real, se: Entry, sf: Entry, k: nat, early: nat, late: nat)
    requires dt > 0.0 && 0.0 < se.base && 0.0 <= sf.base <= bMax && k as real * se.base > n as real * bMax
    requires k <= early < late && late - early < n
    requires se.acc >= Growth(late, Step(dt, se.base)) && sf.acc <= Growth(late - early - 1, Step(dt, sf.base))
    ensures Grown(dt, se) > Grown(dt, sf)
  {
    Contradicts(n, bMax, se.base, sf.base, dt, k, early, late);
    var x, y := Step(dt, se.base), Step(dt, sf.base);
    Positive(se.base, dt);
    assert Growth(late - early, y) == Growth(late - early - 1, y) + y;
    assert se.acc + x > Growth(late - early, y);
    assert sf.acc + y <= Growth(late - early, y);
  }

  /** Starvation-freedom of any fair rounds */
  lemma FairIsEnough(dt: real, g: Log, bMax: real, e: int)
    requires FairLog(dt, g) && dt > 0.0 && e in g.states[0] && g.states[0][e].acc >= 0.0
    requires forall k :: k in g.states[0] ==> 0.0 < g.states[0][k].base <= bMax
    requires |g.picks| == Deadline(|g.states[0].Keys|, bMax, g.states[0][e].base)
    ensures exists r :: 0 <= r < |g.picks| && e in g.picks[r]
  {
    var n, b := |g.states[0].Keys|, g.states[0][e].base;
    var start := StartIsNat(n, bMax, b);
    if forall r :: 0 <= r < |g.picks| ==> e !in g.picks[r] {
      var early, late, f := RepeatedTop(dt, g, e, start, n);
      var se, sf := StatesAt(dt, g, e, f, early, late);
      WaitingIsHigher(dt, n, bMax, se, sf, start, early, late);
    }
  }

  /** What the waiting entity and the one twice in line have at the later of the two rounds */
  lemma StatesAt(dt: real, g: Log, e: int, f: int, early: nat, late: nat) returns (se: Entry, sf: Entry)
    requires FairLog(dt, g) && dt > 0.0 && e in g.states[0] && g.states[0][e].acc >= 0.0 && early < late < |g.picks|
    requires forall k :: k in g.states[0] ==> 0.0 < g.states[0][k].base
    requires forall r :: 0 <= r < |g.picks| ==> e !in g.picks[r]
    requires IsTop(dt, g.states[early], g.picks[early], f) && IsTop(dt, g.states[late], g.picks[late], f)
    ensures f in g.states[0] && se.base == g.states[0][e].base && sf.base == g.states[0][f].base
    ensures se.acc >= Growth(late, Step(dt, se.base)) && sf.acc <= Growth(late - early - 1, Step(dt, sf.base))
    ensures Grown(dt, se) <= Grown(dt, sf)
  {
    BasesStay(dt, g, e, late);
    BasesStay(dt, g, f, late);
    Waiting(dt, g, e, late);
    Positive(g.states[0][f].base, dt);
    SinceSelected(dt, g, f, early, late);
    se, sf := g.states[late][e], g.states[late][f];
  }

  lemma StartIsNat(n: nat, bMax: real, b: real) returns (start: nat)
    requires 0.0 < b <= bMax
    ensures start == Deadline(n, bMax, b) - n && start as real * b > n as real * bMax
  {
    var k := (n as real * bMax / b).Floor + 1;
    FloorCovers(n, bMax, b, k);
    Products(0.0, n as real, 0.0, bMax);
    if k < 0 {
      Scale(k as real, 0.0, b);
    }
    start := k;
  }

  /** Starvation-freedom: of n entities with rates up to bMax, each with a size within the budget, one of
      rate b is selected within floor(n * bMax / b) + 1 + n rounds, whatever priorities the others
      start with. */
  lemma NoStarvation(dt: real, budget: nat, size: int -> int, m: Accumulator, bMax: real, e: int)
    requires dt > 0.0 && EachFits(m, budget, size) && (forall k :: k in m ==> 0.0 < m[k].base <= bMax)
    requires e in m && m[e].acc >= 0.0
    ensures var rounds := Deadline(|m.Keys|, bMax, m[e].base);
      rounds >= 0 && exists r :: 0 <= r < rounds && e in Run(dt, budget, size, m, rounds).picks[r]
  {
    var start := StartIsNat(|m.Keys|, bMax, m[e].base);
    var rounds := start + |m.Keys|;
    RunIsFair(dt, budget, size, m, rounds);
    FairIsEnough(dt, Run(dt, budget, size, m, rounds), bMax, e);
  }
}
