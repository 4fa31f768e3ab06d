/** Selection of eviction candidates (src/engine/lru.rs): accesses are queued, merged into a map
    of last access times, and the oldest entries are handed out and forgotten. */
module Lru {
  import opened Wrappers
  import opened Bits

  datatype Access = Access(key: U64, time: U64)

  /** Later records overwrite earlier ones. */
  function Merge(last: map<U64, U64>, q: seq<Access>): map<U64, U64>
    decreases |q|
  {
    if q == [] then last else Merge(last, q[..|q| - 1])[q[|q| - 1].key := q[|q| - 1].time]
  }

  /** The position of the last record of a key, or -1. */
  function FinalIndex(q: seq<Access>, k: U64): (j: int)
    ensures -1 <= j < |q| && (j >= 0 ==> q[j].key == k)
    ensures forall i :: j < i < |q| ==> q[i].key != k
    decreases |q|
  {
    if q == [] then -1
    else if q[|q| - 1].key == k then |q| - 1
    else FinalIndex(q[..|q| - 1], k)
  }

  /** The merged time of a key is that of its last record. */
  lemma {:induction false} MergeFinal(last: map<U64, U64>, q: seq<Access>, k: U64)
    ensures var j, m := FinalIndex(q, k), Merge(last, q);
            && (k in m <==> j >= 0 || k in last)
            && (k in m ==> m[k] == if j >= 0 then q[j].time else last[k])
    decreases |q|
  {
    if q == [] {
    } else {
      MergeFinal(last, q[..|q| - 1], k);
    }
  }

  /** Time t is the most recent access to the key. */
  ghost predicate Newest(h: seq<Access>, k: U64, t: U64) {
    Access(k, t) in h && forall i :: 0 <= i < |h| && h[i].key == k ==> h[i].time <= t
  }

  predicate Ordered(h: seq<Access>) {
    forall i, j :: 0 <= i < j < |h| ==> h[i].time <= h[j].time
  }

  /** Every entry of the map is the most recent access to its key. */
  ghost predicate AllNewest(m: map<U64, U64>, h: seq<Access>) {
    forall k :: k in m ==> Newest(h, k, m[k])
  }

  /** The last queued record of a key, if there is one, is not earlier than any access to the key in
      the history or in the queue. */
  predicate LastIsLatest(h: seq<Access>, q: seq<Access>, k: U64) {
    var j := FinalIndex(q, k);
    j >= 0 ==>
      && (forall i :: 0 <= i < |q| && q[i].key == k ==> q[i].time <= q[j].time)
      && (forall i :: 0 <= i < |h| && h[i].key == k ==> h[i].time <= q[j].time)
  }

  /** The same, as far as the map knows the history. */
  predicate LastIsLatestKnown(last: map<U64, U64>, q: seq<Access>, k: U64) {
    var j := FinalIndex(q, k);
    j >= 0 ==>
      && (forall i :: 0 <= i < |q| && q[i].key == k ==> q[i].time <= q[j].time)
      && (k in last ==> last[k] <= q[j].time)
  }

  /** Let the map hold the most recent accesses of a history, perhaps not for all of its keys.  After
      merging the queue it holds those of the longer history exactly if the last queued record of
      each key is the latest one; for a map that knows all keys of the history, that can be read
      off the map and the queue. */
  lemma MergeNewestIff(last: map<U64, U64>, h: seq<Access>, q: seq<Access>)
    requires AllNewest(last, h)
    ensures AllNewest(Merge(last, q), h + q) <==> forall k :: LastIsLatest(h, q, k)
    ensures (forall i :: 0 <= i < |h| ==> h[i].key in last) ==>
              (AllNewest(Merge(last, q), h + q) <==> forall k :: LastIsLatestKnown(last, q, k))
  {
    var m := Merge(last, q);
    forall k ensures LastIsLatest(h, q, k) <==> (k in m ==> Newest(h + q, k, m[k])) {
      MergeFinal(last, q, k);
      if k in m {
        NewestAfterMerge(last, h, q, k);
      }
    }
    if forall i :: 0 <= i < |h| ==> h[i].key in last {
      forall k ensures LastIsLatest(h, q, k) <==> LastIsLatestKnown(last, q, k) {
        KnownHistory(last, h, q, k);
      }
    }
  }

  lemma KnownHistory(last: map<U64, U64>, h: seq<Access>, q: seq<Access>, k: U64)
    requires if k in last then Newest(h, k, last[k]) else forall i :: 0 <= i < |h| ==> h[i].key != k
    ensures LastIsLatest(h, q, k) <==> LastIsLatestKnown(last, q, k)
  {
    if k in last {
      var i :| 0 <= i < |h| && h[i] == Access(k, last[k]);
    }
  }

  lemma NewestAfterMerge(last: map<U64, U64>, h: seq<Access>, q: seq<Access>, k: U64)
    requires k in last ==> Newest(h, k, last[k])
    requires k in Merge(last, q)
    ensures Newest(h + q, k, Merge(last, q)[k]) <==> LastIsLatest(h, q, k)
  {
    var j, t := FinalIndex(q, k), Merge(last, q)[k];
    MergeFinal(last, q, k);
    InHistory(h, q, k, t);
    if j >= 0 {
      assert q[j] == Access(k, t);
    }
  }

  /** Being the most recent access of two histories in a row. */
  lemma InHistory(h: seq<Access>, q: seq<Access>, k: U64, t: U64)
    ensures Newest(h + q, k, t)
       <==> (&& (Access(k, t) in h || Access(k, t) in q)
             && (forall i :: 0 <= i < |h| && h[i].key == k ==> h[i].time <= t)
             && (forall i :: 0 <= i < |q| && q[i].key == k ==> q[i].time <= t))
  {
    assert forall i :: 0 <= i < |h| ==> (h + q)[i] == h[i];
    assert forall i :: 0 <= i < |q| ==> (h + q)[|h| + i] == q[i];
  }

  /** Records queued out of order - the clock is read before the push - can make a merge go back
      in time, within one queue or against the map. */
  lemma OutOfOrderMergeGoesBack()
    ensures Merge(map[], [Access(1, 7), Access(1, 3)]) == map[1 := 3]
    ensures Merge(map[1 := 7], [Access(1, 3)]) == map[1 := 3]
  {
    var q := [Access(1, 7), Access(1, 3)];
    assert q[..1] == [Access(1, 7)] && q[..1][..0] == [];
    assert Merge(map[], q[..1]) == map[1 := 7];
  }

  // -- Selection -------------------------------------------------------------------------------------

  function Keys(c: seq<U64>): set<U64> { set k | k in c }

  /** A right answer: as many distinct tracked keys as asked for and available, oldest first, none
      of them accessed later than a key that stays, and the rest stays. */
  ghost predicate Selected(m: map<U64, U64>, n: nat, c: seq<U64>, kept: map<U64, U64>) {
    && |c| == Min(n, |m|) && Distinct(c)
    && (forall k :: k in c ==> k in m)
    && (forall i, j :: 0 <= i < j < |c| ==> m[c[i]] <= m[c[j]])
    && kept == m - Keys(c)
    && (forall k, l :: k in c && l in kept ==> m[k] <= m[l])
  }

  /** The list holds every entry of the map once, oldest first. */
  ghost predicate Sorted(s: seq<Access>, m: map<U64, U64>) {
    Lists(s, m) && Ascending(s)
  }

  ghost predicate Lists(s: seq<Access>, m: map<U64, U64>) {
    |s| == |m| && Within(s, m) && Covers(s, m) && DistinctKeys(s)
  }

  ghost predicate Within(s: seq<Access>, m: map<U64, U64>) {
    forall i :: 0 <= i < |s| ==> s[i].key in m && m[s[i].key] == s[i].time
  }

  ghost predicate Covers(s: seq<Access>, m: map<U64, U64>) {
    forall k :: k in m ==> Access(k, m[k]) in s
  }

  ghost predicate DistinctKeys(s: seq<Access>) {
    forall i, j :: 0 <= i < j < |s| ==> s[i].key != s[j].key
  }

  ghost predicate Ascending(s: seq<Access>) {
    forall i, j :: 0 <= i < j < |s| ==> s[i].time <= s[j].time
  }

  function InsertAt(s: seq<Access>, p: nat, a: Access): (r: seq<Access>)
    requires p <= |s|
    ensures |r| == |s| + 1 && forall i :: 0 <= i < |r| ==> r[i] == if i < p then s[i] else if i == p then a else s[i - 1]
  {
    s[..p] + [a] + s[p..]
  }

  lemma InsertMember(s: seq<Access>, p: nat, a: Access, x: Access)
    requires p <= |s| && (x == a || x in s)
    ensures x in InsertAt(s, p, a)
  {
    var r := InsertAt(s, p, a);
    if x == a {
      assert r[p] == a;
    } else {
      var i :| 0 <= i < |s| && s[i] == x;
      assert r[if i < p then i else i + 1] == x;
    }
  }

  lemma InsertLists(s: seq<Access>, m: map<U64, U64>, a: Access, p: nat)
    requires Lists(s, m) && a.key !in m && p <= |s|
    ensures Lists(InsertAt(s, p, a), m[a.key := a.time])
  {
    InsertCovers(s, m, a, p);
    InsertDistinct(s, m, a, p);
  }

  lemma InsertCovers(s: seq<Access>, m: map<U64, U64>, a: Access, p: nat)
    requires Covers(s, m) && a.key !in m && p <= |s|
    ensures Covers(InsertAt(s, p, a), m[a.key := a.time])
  {
    var m' := m[a.key := a.time];
    forall k | k in m' ensures Access(k, m'[k]) in InsertAt(s, p, a) {
      InsertMember(s, p, a, Access(k, m'[k]));
    }
  }

  lemma InsertDistinct(s: seq<Access>, m: map<U64, U64>, a: Access, p: nat)
    requires Within(s, m) && DistinctKeys(s) && a.key !in m && p <= |s|
    ensures Within(InsertAt(s, p, a), m[a.key := a.time]) && DistinctKeys(InsertAt(s, p, a))
  {
  }

  /** The position after the last record that is not later. */
  method FindPosition(s: seq<Access>, a: Access) returns (p: nat)
    requires Ascending(s)
    ensures p <= |s| && Ascending(InsertAt(s, p, a))
  {
    p := |s|;
    while p > 0 && s[p - 1].time > a.time
      invariant p <= |s| && forall i :: p <= i < |s| ==> a.time <= s[i].time
    {
      p := p - 1;
    }
  }

  lemma MoveEntry(done: map<U64, U64>, rest: map<U64, U64>, k: U64)
    requires done.Keys !! rest.Keys && k in rest
    ensures done[k := rest[k]] + (rest - {k}) == done + rest
    ensures done[k := rest[k]].Keys !! (rest - {k}).Keys && |rest - {k}| < |rest|
  {
    assert (rest - {k}).Keys == rest.Keys - {k};
  }

  /** The entries of the map, sorted by time; ties come in any order. */
  method SortByTime(m: map<U64, U64>) returns (s: seq<Access>)
    ensures Sorted(s, m)
  {
    s := [];
    var rest, done := m, map[];
    while rest != map[]
      invariant done.Keys !! rest.Keys && done + rest == m && Sorted(s, done)
      decreases |rest|
    {
      var k :| k in rest;
      var a := Access(k, rest[k]);
      var p := FindPosition(s, a);
      InsertLists(s, done, a, p);
      MoveEntry(done, rest, k);
      s := InsertAt(s, p, a);
      done, rest := done[k := rest[k]], rest - {k};
    }
    assert done == m;
  }

  lemma PrefixSelected(m: map<U64, U64>, s: seq<Access>, n: nat, c: seq<U64>)
    requires Sorted(s, m) && |c| == Min(n, |s|)
    requires forall i :: 0 <= i < |c| ==> c[i] == s[i].key
    ensures Selected(m, n, c, m - Keys(c))
  {
    assert forall i :: 0 <= i < |c| ==> c[i] in Keys(c);
    forall k, l | k in c && l in m - Keys(c) ensures m[k] <= m[l] {
      var i :| 0 <= i < |c| && c[i] == k;
      var j :| 0 <= j < |s| && s[j] == Access(l, m[l]);
    }
  }

  method Oldest(m: map<U64, U64>, n: nat) returns (c: seq<U64>)
    ensures Selected(m, n, c, m - Keys(c))
  {
    var sorted := SortByTime(m);
    var take := Min(n, |sorted|);
    c := seq(take, i requires 0 <= i < take => sorted[i].key);
    PrefixSelected(m, sorted, n, c);
  }

  class LruTracker {
    var accesses: seq<Access>
    var lastAccess: map<U64, U64>
    var keyCount: U64

    constructor ()
      ensures accesses == [] && lastAccess == map[] && keyCount == 0
    {
      accesses, lastAccess, keyCount := [], map[], 0;
    }

    method RecordAccess(k: U64, now: U64)
      modifies this
      ensures accesses == old(accesses) + [Access(k, now)] && lastAccess == old(lastAccess)
      ensures keyCount == (old(keyCount) + 1) % TWO64
    {
      accesses := accesses + [Access(k, now)];
      keyCount := (keyCount + 1) % TWO64;
    }

    /** Moves the queued records into the map. */
    method DrainAccesses()
      modifies this
      ensures accesses == [] && lastAccess == Merge(old(lastAccess), old(accesses)) && keyCount == old(keyCount)
    {
      ghost var q, done := accesses, 0;
      while accesses != []
        invariant 0 <= done <= |q| && accesses == q[done..] && keyCount == old(keyCount)
        invariant lastAccess == Merge(old(lastAccess), q[..done])
        decreases |accesses|
      {
        assert q[..done + 1][..done] == q[..done];
        lastAccess := lastAccess[accesses[0].key := accesses[0].time];
        accesses := accesses[1..];
        done := done + 1;
      }
      assert q[..done] == q;
    }

    method SelectEvictionCandidates(n: nat) returns (c: seq<U64>)
      modifies this
      ensures accesses == [] && Selected(Merge(old(lastAccess), old(accesses)), n, c, lastAccess)
      ensures keyCount == |lastAccess| % TWO64
    {
      DrainAccesses();
      keyCount := |lastAccess| % TWO64;
      c := [];
      if lastAccess == map[] || n == 0 {
        assert lastAccess - Keys(c) == lastAccess;
        return;
      }
      c := Oldest(lastAccess, n);
      lastAccess := lastAccess - Keys(c);
      keyCount := |lastAccess| % TWO64;
    }
  }

  // -- Runs ------------------------------------------------------------------------------------------

  /** The tracker, and beside it the history of all accesses. */
  datatype State = State(queue: seq<Access>, last: map<U64, U64>, history: seq<Access>)

  datatype Step = Record(a: Access) | Select(n: nat, c: seq<U64>)

  /** Any right answer may be given. */
  ghost predicate Next(s: State, st: Step, t: State) {
    match st
    case Record(a) => t == State(s.queue + [a], s.last, s.history + [a])
    case Select(n, c) =>
      t.queue == [] && t.history == s.history && Selected(Merge(s.last, s.queue), n, c, t.last)
  }

  ghost predicate Leads(s: State, steps: seq<Step>, t: State)
    decreases |steps|
  {
    if steps == [] then s == t
    else exists u :: Next(s, steps[0], u) && Leads(u, steps[1..], t)
  }

  /** Every tracked time is the most recent access to its key. */
  ghost predicate Inv(s: State) {
    AllNewest(Merge(s.last, s.queue), s.history)
  }

  lemma StepInv(s: State, st: Step, t: State)
    requires Inv(s) && Next(s, st, t) && Ordered(t.history)
    ensures Inv(t)
  {
    if st.Record? {
      var h, a := t.history, st.a;
      assert t.queue[..|t.queue| - 1] == s.queue;
      assert h[|h| - 1] == a;
      forall k | k in Merge(t.last, t.queue) ensures Newest(h, k, Merge(t.last, t.queue)[k]) {
        if k != a.key {
          assert Newest(s.history, k, Merge(s.last, s.queue)[k]);
        }
      }
    }
  }

  lemma {:induction false} RunInv(s: State, steps: seq<Step>, t: State)
    requires Inv(s) && Leads(s, steps, t) && Ordered(t.history)
    ensures Inv(t)
    decreases |steps|
  {
    if steps == [] {
    } else {
      var u :| Next(s, steps[0], u) && Leads(u, steps[1..], t);
      HistoryGrows(u, steps[1..], t);
      StepInv(s, steps[0], u);
      RunInv(u, steps[1..], t);
    }
  }

  lemma {:induction false} HistoryGrows(s: State, steps: seq<Step>, t: State)
    requires Leads(s, steps, t)
    ensures |s.history| <= |t.history| && t.history[..|s.history|] == s.history
    ensures Ordered(t.history) ==> Ordered(s.history)
    decreases |steps|
  {
    if steps == [] {
    } else {
      var u :| Next(s, steps[0], u) && Leads(u, steps[1..], t);
      HistoryGrows(u, steps[1..], t);
      assert t.history[..|s.history|] == u.history[..|s.history|];
    }
  }

  /** LRU selection over runs: if accesses are queued in time order, then after any history every
      answer hands out min(n, tracked) distinct keys, and nobody who stays was last accessed
      before anybody who goes. */
  lemma OldestAreSelected(steps: seq<Step>, s: State, n: nat, c: seq<U64>, t: State, k: U64, l: U64, tk: U64, tl: U64)
    requires Leads(State([], map[], []), steps, s) && Ordered(s.history) && Next(s, Select(n, c), t)
    ensures |c| == Min(n, |Merge(s.last, s.queue)|) && Distinct(c) && |t.last| == |Merge(s.last, s.queue)| - |c|
    ensures k in c && l in t.last && Newest(s.history, k, tk) && Newest(s.history, l, tl) ==> tk <= tl
  {
    RunInv(State([], map[], []), steps, s);
    var m := Merge(s.last, s.queue);
    KeptCount(m, c);
    if k in c && l in t.last && Newest(s.history, k, tk) && Newest(s.history, l, tl) {
      NewestUnique(s.history, k, tk, m[k]);
      NewestUnique(s.history, l, tl, m[l]);
    }
  }

  lemma NewestUnique(h: seq<Access>, k: U64, t: U64, u: U64)
    requires Newest(h, k, t) && Newest(h, k, u)
    ensures t == u
  {
  }

  lemma {:induction false} KeysCount(c: seq<U64>)
    requires Distinct(c)
    ensures |Keys(c)| == |c|
    decreases |c|
  {
    if c == [] {
    } else {
      var d, k := c[..|c| - 1], c[|c| - 1];
      assert Keys(c) == Keys(d) + {k} by {
        assert c == d + [k];
      }
      KeysCount(d);
    }
  }

  lemma KeptCount(m: map<U64, U64>, c: seq<U64>)
    requires Distinct(c) && forall k :: k in c ==> k in m
    ensures |m - Keys(c)| == |m| - |c|
  {
    KeysCount(c);
    assert (m - Keys(c)).Keys == m.Keys - Keys(c);
    assert Keys(c) <= m.Keys;
  }
}
