/** Integer-keyed maps, folded in ascending key order as Data.IntMap does. */
module IntMap {
  import opened Bits

  type IntMap<V> = map<int, V>

  datatype Option<T> = None | Some(value: T)

  ghost function Pick<T>(s: set<T>): (x: T)
    requires s != {}
    ensures x in s
  {
    var x :| x in s;
    x
  }

  predicate IsMax(s: set<int>, k: int) {
    k in s && forall j :: j in s ==> j <= k
  }

  lemma {:induction false} MaxExists(s: set<int>)
    requires s != {}
    ensures exists k :: IsMax(s, k)
  {
    var x := Pick(s);
    if s == {x} {
      assert IsMax(s, x);
    } else {
      assert s == s - {x} + {x};
      MaxExists(s - {x});
      var k :| IsMax(s - {x}, k);
      assert IsMax(s, if k < x then x else k);
    }
  }

  /** lookupMax */
  function MaxKey(s: set<int>): (k: int)
    requires s != {}
    ensures IsMax(s, k)
  {
    MaxExists(s);
    var k :| IsMax(s, k);
    k
  }

  predicate InRange(i: int, n: nat) {
    0 <= i < n
  }

  /** The keys 0 to n - 1 */
  function FirstKeys(n: nat): set<int> {
    set i: int | 0 <= i < n && InRange(i, n)
  }

  lemma {:induction false} FirstKeysSize(n: nat)
    ensures |FirstKeys(n)| == n
  {
    if n > 0 {
      FirstKeysSize(n - 1);
      assert FirstKeys(n) == FirstKeys(n - 1) + {n - 1};
    }
  }

  /** The order in which folds visit the keys */
  function Ascending(s: set<int>): (r: seq<int>)
    ensures |r| == |s|
    ensures forall k :: k in r <==> k in s
    ensures Increasing(r)
  {
    if s == {} then []
    else
      var k := MaxKey(s);
      var front := Ascending(s - {k});
      IncreasingSnoc(front, k);
      assert s == s - {k} + {k};
      front + [k]
  }

  predicate Increasing(r: seq<int>) {
    forall i, j :: 0 <= i < j < |r| ==> r[i] < r[j]
  }

  lemma IncreasingSnoc(front: seq<int>, k: int)
    requires Increasing(front) && forall j :: j in front ==> j < k
    ensures Increasing(front + [k])
    ensures forall j :: j in front + [k] <==> j in front || j == k
  {
    forall i, j | 0 <= i < j < |front + [k]| ensures (front + [k])[i] < (front + [k])[j] {
      assert front[i] in front;
    }
  }

  lemma AscendingOfOne(s: set<int>, k: int)
    requires s == {k}
    ensures Ascending(s) == [k] && MaxKey(s) == k
  {
    var r := Ascending(s);
    assert |r| == 1 && r[0] in r;
  }

  /** The fold that looks for the least time, keeping the earlier key when times are equal */
  function OldestIn(times: IntMap<u64>, keys: seq<int>): (best: Option<int>)
    requires forall k :: k in keys ==> k in times
    ensures best.None? <==> keys == []
    ensures best.Some? ==> best.value in keys
  {
    if keys == [] then None
    else
      var k := keys[|keys| - 1];
      var b := OldestIn(times, keys[..|keys| - 1]);
      if b.None? || times[k] < times[b.value] then Some(k) else b
  }

  /** k has the least time, and the least key among those of that time. */
  predicate IsOldest(times: IntMap<u64>, k: int) {
    k in times && forall j :: j in times ==> times[k] < times[j] || (times[k] == times[j] && k <= j)
  }

  lemma {:induction false} OldestInIs(times: IntMap<u64>, keys: seq<int>, j: int)
    requires forall k :: k in keys ==> k in times
    requires Increasing(keys)
    requires j in keys
    ensures var k := OldestIn(times, keys).value; times[k] < times[j] || (times[k] == times[j] && k <= j)
    decreases keys
  {
    var front, last := keys[..|keys| - 1], keys[|keys| - 1];
    var k := OldestIn(times, keys).value;
    if front != [] {
      var b := OldestIn(times, front).value;
      if j in front {
        OldestInIs(times, front, j);
      } else {
        assert j == last;
      }
    }
  }

  function Oldest(times: IntMap<u64>): (k: int)
    requires |times| > 0
    ensures IsOldest(times, k)
  {
    var keys := Ascending(times.Keys);
    assert forall j :: j in times ==> j in keys;
    assert |times| == |times.Keys| > 0;
    OldestIsInOrder(times, keys);
    OldestIn(times, keys).value
  }

  lemma OldestIsInOrder(times: IntMap<u64>, keys: seq<int>)
    requires forall k :: k in keys <==> k in times
    requires Increasing(keys)
    requires keys != []
    ensures IsOldest(times, OldestIn(times, keys).value)
  {
    forall j | j in times
      ensures var k := OldestIn(times, keys).value; times[k] < times[j] || (times[k] == times[j] && k <= j)
    {
      OldestInIs(times, keys, j);
    }
  }

  lemma OldestUnique(times: IntMap<u64>, a: int, b: int)
    requires IsOldest(times, a) && IsOldest(times, b)
    ensures a == b
  {
  }

  /** Removing a key that is there makes a map smaller by one. */
  lemma RemovedSize<V>(m: IntMap<V>, k: int)
    requires k in m
    ensures |m - {k}| == |m| - 1
  {
    assert (m - {k}).Keys == m.Keys - {k};
  }

  lemma InsertedSize<V>(m: IntMap<V>, k: int, v: V)
    ensures |m[k := v]| == if k in m then |m| else |m| + 1
  {
    assert m[k := v].Keys == m.Keys + {k};
  }

  lemma SplitSize<V>(m: IntMap<V>, keys: set<int>)
    requires keys <= m.Keys
    ensures |m - keys| == |m| - |keys|
  {
    assert (m - keys).Keys == m.Keys - keys;
  }

  /** The sum of the values, in key order */
  function Sum(m: IntMap<int>): int
    decreases |m|
  {
    if m.Keys == {} then 0
    else
      var k := MaxKey(m.Keys);
      RemovedSize(m, k);
      Sum(m - {k}) + m[k]
  }

  lemma {:induction false} SumWithout(m: IntMap<int>, k: int)
    requires k in m
    ensures Sum(m) == Sum(m - {k}) + m[k]
    decreases |m|
  {
    var top := MaxKey(m.Keys);
    RemovedSize(m, top);
    if k != top {
      SumWithout(m - {top}, k);
      assert IsMax((m - {k}).Keys, top);
      RemovedSize(m, k);
      assert m - {top} - {k} == m - {k} - {top};
    }
  }

  lemma SumWith(m: IntMap<int>, k: int, v: int)
    requires k !in m
    ensures Sum(m[k := v]) == Sum(m) + v
  {
    SumWithout(m[k := v], k);
    assert m[k := v] - {k} == m;
  }

  /** The sum of a map is that of a part and that of the rest. */
  lemma {:induction false} SumParts(m: IntMap<int>, part: IntMap<int>)
    requires part.Keys <= m.Keys && forall k :: k in part ==> part[k] == m[k]
    ensures Sum(m) == Sum(part) + Sum(m - part.Keys)
    decreases |part|
  {
    if part.Keys == {} {
      assert m - part.Keys == m;
    } else {
      var k := MaxKey(part.Keys);
      var m', part' := m - {k}, part - {k};
      RemovedSize(part, k);
      SumWithout(m, k);
      SumWithout(part, k);
      SumParts(m', part');
      RestIs(m, part, k, m', part');
    }
  }

  lemma RestIs(m: IntMap<int>, part: IntMap<int>, k: int, m': IntMap<int>, part': IntMap<int>)
    requires k in part && m' == m - {k} && part' == part - {k}
    ensures m' - part'.Keys == m - part.Keys
  {
  }

  lemma {:induction false} SumNonNegative(m: IntMap<int>)
    requires forall k :: k in m ==> m[k] >= 0
    ensures Sum(m) >= 0
    decreases |m|
  {
    if m.Keys != {} {
      RemovedSize(m, MaxKey(m.Keys));
      SumNonNegative(m - {MaxKey(m.Keys)});
    }
  }
}
