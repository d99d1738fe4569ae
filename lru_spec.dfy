/** Abstract state of the bounded least-recently-used cache of problem_1.py:
    the keys in recency order (most recently used first, as the usage list
    holds them from head to tail) and the key-to-value dictionary.
    The heap implementation in module LruCache is proved against these
    functions. */
module LruSpec {
  import opened Wrappers

  /** `s` with every occurrence of `x` dropped, the rest in their original order. */
  function Without<T(==)>(s: seq<T>, x: T): (r: seq<T>)
    ensures |r| <= |s|
    ensures forall y :: y in r ==> y in s
  {
    if s == [] then []
    else if s[0] == x then Without(s[1..], x)
    else [s[0]] + Without(s[1..], x)
  }

  /** `Without(s, x)` holds exactly the elements of `s` other than `x`. */
  lemma {:induction false} WithoutMembers<T>(s: seq<T>, x: T)
    ensures forall y :: y in Without(s, x) ==> y in s && y != x
    ensures forall y :: y in s && y != x ==> y in Without(s, x)
  {
    if s != [] {
      WithoutMembers(s[1..], x);
      assert forall y :: y in s <==> y == s[0] || y in s[1..];
    }
  }

  lemma {:induction false} WithoutAbsent<T>(s: seq<T>, x: T)
    requires x !in s
    ensures Without(s, x) == s
  {
    if s != [] {
      WithoutAbsent(s[1..], x);
    }
  }

  /** When `s[j]` occurs nowhere else, dropping it removes exactly position `j`. */
  lemma {:induction false} WithoutAt<T>(s: seq<T>, j: nat)
    requires j < |s|
    requires forall i :: 0 <= i < |s| && i != j ==> s[i] != s[j]
    ensures Without(s, s[j]) == s[..j] + s[j + 1..]
  {
    var x := s[j];
    if j == 0 {
      assert x !in s[1..] by {
        forall i | 0 <= i < |s[1..]| ensures s[1..][i] != x {
          assert s[1..][i] == s[i + 1];
        }
      }
      WithoutAbsent(s[1..], x);
    } else {
      assert s[0] != x;
      assert s[1..][j - 1] == x;
      forall i | 0 <= i < |s[1..]| && i != j - 1 ensures s[1..][i] != s[1..][j - 1] {
        assert s[1..][i] == s[i + 1];
      }
      WithoutAt(s[1..], j - 1);
      assert s[..j] + s[j + 1..] == [s[0]] + (s[1..][..j - 1] + s[1..][j..]);
    }
  }

  lemma WithoutKeepsDistinct<T>(s: seq<T>, x: T)
    requires Distinct(s)
    ensures Distinct(Without(s, x))
  {
    if x in s {
      var j :| 0 <= j < |s| && s[j] == x;
      WithoutAt(s, j);
    } else {
      WithoutAbsent(s, x);
    }
  }

  /** The cache: its capacity, its keys from most to least recently used,
      and its dictionary. */
  datatype Lru<K> = Lru(capacity: nat, order: seq<K>, store: map<K, int>)

  /** The invariant problem_1.py keeps between calls: a positive capacity,
      a usage list holding each key once, exactly the keys of the dictionary,
      and no more entries than the capacity. */
  ghost predicate Inv<K>(c: Lru<K>) {
    && c.capacity >= 1
    && Distinct(c.order)
    && (forall k :: k in c.order ==> k in c.store)
    && (forall k :: k in c.store ==> k in c.order)
    && |c.order| == |c.store|
    && |c.store| <= c.capacity
  }

  /** `LRU_Cache(capacity)`: a requested capacity below 1 becomes 1. */
  function Init<K>(requested: int): (c: Lru<K>)
    ensures Inv(c) && c.order == [] && c.store == map[]
    ensures requested < 1 ==> c.capacity == 1
    ensures requested >= 1 ==> c.capacity == requested
  {
    Lru(if requested < 1 then 1 else requested, [], map[])
  }

  /** `get`: the new state and the value returned (-1 on a miss). */
  function Get<K>(c: Lru<K>, key: K): (Lru<K>, int) {
    if key in c.store then (c.(order := [key] + Without(c.order, key)), c.store[key])
    else (c, -1)
  }

  /** The last statements of both branches of `set`: a new entry for `key`
      goes in front of the list and into the dictionary. The list is not
      searched for `key`. */
  function Insert<K>(c: Lru<K>, key: K, value: int): Lru<K> {
    c.(order := [key] + c.order, store := c.store[key := value])
  }

  /** The first half of `set` at capacity: the least recently used key, the
      tail of the list, leaves the dictionary and the list. */
  function Evict<K>(c: Lru<K>): Lru<K>
    requires c.order != []
  {
    var oldest := c.order[|c.order| - 1];
    c.(order := Without(c.order, oldest), store := c.store - {oldest})
  }

  /** `set`, exactly as problem_1.py does it: below capacity it inserts at the
      head without looking for the key; at capacity it first evicts. */
  function Set<K>(c: Lru<K>, key: K, value: int): Lru<K>
    requires Inv(c)
  {
    if |c.store| < c.capacity then Insert(c, key, value)
    else Insert(Evict(c), key, value)
  }

  /** The calls to `set` that keep dictionary and list in step: a key not yet
      cached, or the least recently used key of a full cache. */
  ghost predicate CanSet<K>(c: Lru<K>, key: K) {
    key !in c.store || (|c.store| == c.capacity && c.order != [] && key == c.order[|c.order| - 1])
  }

  /** A hit returns the stored value and moves the key to the front; all
      other keys keep their relative order; the dictionary is untouched.
      A miss returns -1 and changes nothing. */
  lemma GetKeepsInv<K>(c: Lru<K>, key: K)
    requires Inv(c)
    ensures Inv(Get(c, key).0)
    ensures Get(c, key).0.store == c.store && Get(c, key).0.capacity == c.capacity
    ensures key in c.store ==> Get(c, key).1 == c.store[key] && Get(c, key).0.order[0] == key
    ensures Without(Get(c, key).0.order, key) == Without(c.order, key)
    ensures key !in c.store ==> Get(c, key) == (c, -1)
  {
    if key in c.store {
      var rest := Without(c.order, key);
      var j :| 0 <= j < |c.order| && c.order[j] == key;
      WithoutAt(c.order, j);
      WithoutKeepsDistinct(c.order, key);
      assert Distinct([key] + rest);
      assert Without([key] + rest, key) == Without(rest, key);
      WithoutAbsent(rest, key);
    }
  }

  /** Inserting a key not yet cached below capacity keeps the invariant and
      grows the dictionary by exactly that key. */
  lemma InsertKeepsInv<K>(c: Lru<K>, key: K, value: int)
    requires Inv(c) && key !in c.store && |c.store| < c.capacity
    ensures Inv(Insert(c, key, value))
    ensures Insert(c, key, value).store.Keys == c.store.Keys + {key}
    ensures |Insert(c, key, value).store| == |c.store| + 1
  {
    assert key !in c.order;
    DistinctCons(key, c.order);
  }

  /** Evicting drops exactly the last key of the list, from both the list
      and the dictionary, and keeps the invariant. */
  lemma EvictKeepsInv<K>(c: Lru<K>)
    requires Inv(c) && c.order != []
    ensures var oldest := c.order[|c.order| - 1];
      && Inv(Evict(c))
      && Evict(c).order == c.order[..|c.order| - 1]
      && Evict(c).store.Keys == c.store.Keys - {oldest}
      && |Evict(c).store| == |c.store| - 1
  {
    var n := |c.order|;
    var oldest := c.order[n - 1];
    WithoutAt(c.order, n - 1);
    assert c.order[..n - 1] + c.order[n - 1 + 1..] == c.order[..n - 1];
    WithoutKeepsDistinct(c.order, oldest);
    assert (c.store - {oldest}).Keys == c.store.Keys - {oldest};
  }

  /** A call allowed by `CanSet` on a full cache inserts a key that the
      eviction has just made absent. */
  lemma SetAfterEvict<K>(c: Lru<K>, key: K)
    requires Inv(c) && CanSet(c, key) && |c.store| >= c.capacity
    ensures c.order != []
    ensures key !in Evict(c).store && |Evict(c).store| < c.capacity
  {
    EvictKeepsInv(c);
  }

  /** A consistent `set` keeps the invariant and leaves `key` at the front
      with the new value. */
  lemma SetKeepsInv<K>(c: Lru<K>, key: K, value: int)
    requires Inv(c) && CanSet(c, key)
    ensures Inv(Set(c, key, value))
    ensures Set(c, key, value).capacity == c.capacity
    ensures Set(c, key, value).order[0] == key && Set(c, key, value).store[key] == value
  {
    if |c.store| < c.capacity {
      InsertKeepsInv(c, key, value);
    } else {
      SetAfterEvict(c, key);
      EvictKeepsInv(c);
      InsertKeepsInv(Evict(c), key, value);
    }
  }

  /** At capacity, exactly the tail (least recently used) key leaves both the
      dictionary and the list, the new key enters in front, and the size stays
      at the capacity. */
  lemma SetEvictsTail<K>(c: Lru<K>, key: K, value: int)
    requires Inv(c) && CanSet(c, key) && |c.store| == c.capacity
    ensures var oldest := c.order[|c.order| - 1];
      && Set(c, key, value).order == [key] + c.order[..|c.order| - 1]
      && Set(c, key, value).store.Keys == c.store.Keys - {oldest} + {key}
      && |Set(c, key, value).store| == c.capacity
      && (key != oldest ==> oldest !in Set(c, key, value).store)
  {
    SetAfterEvict(c, key);
    EvictKeepsInv(c);
    InsertKeepsInv(Evict(c), key, value);
  }

  lemma DistinctCons<T>(x: T, s: seq<T>)
    requires Distinct(s) && x !in s
    ensures Distinct([x] + s)
  {
    forall a, b | 0 <= a < b < |[x] + s| ensures ([x] + s)[a] != ([x] + s)[b] {
      if a > 0 {
        assert ([x] + s)[a] == s[a - 1] && ([x] + s)[b] == s[b - 1];
      }
    }
  }

  /** The quirk of problem_1.py: re-setting a cached key below capacity puts
      a second entry for it in the usage list, so list and dictionary no
      longer agree. This is why `CanSet` is required by the cache's `Set`. */
  lemma SetPresentBelowCapacityBreaksInv<K>(c: Lru<K>, key: K, value: int)
    requires Inv(c) && key in c.store && |c.store| < c.capacity
    ensures !Inv(Set(c, key, value))
  {
    var s := Set(c, key, value);
    assert s.store.Keys == c.store.Keys;
    assert |s.order| == |c.store| + 1;
  }

  /** A request the cache can receive. */
  datatype Op<K> = GetOp(key: K) | SetOp(key: K, value: int)

  function Apply<K>(c: Lru<K>, op: Op<K>): Lru<K>
    requires Inv(c)
  {
    match op
    case GetOp(k) => Get(c, k).0
    case SetOp(k, v) => Set(c, k, v)
  }

  ghost predicate Allowed<K>(c: Lru<K>, op: Op<K>) {
    op.SetOp? ==> CanSet(c, op.key)
  }

  lemma ApplyKeepsInv<K>(c: Lru<K>, op: Op<K>)
    requires Inv(c) && Allowed(c, op)
    ensures Inv(Apply(c, op)) && Apply(c, op).capacity == c.capacity
  {
    match op
    case GetOp(k) => GetKeepsInv(c, k);
    case SetOp(k, v) => SetKeepsInv(c, k, v);
  }

  /** Every `set` of the sequence is a consistent one. */
  ghost predicate Admissible<K>(c: Lru<K>, ops: seq<Op<K>>)
    requires Inv(c)
    decreases |ops|
  {
    ops == [] ||
    (Allowed(c, ops[0]) && (ApplyKeepsInv(c, ops[0]); Admissible(Apply(c, ops[0]), ops[1..])))
  }

  /** The cache after serving the requests in order. */
  function Run<K>(c: Lru<K>, ops: seq<Op<K>>): Lru<K>
    requires Inv(c) && Admissible(c, ops)
    decreases |ops|
  {
    if ops == [] then c
    else
      ApplyKeepsInv(c, ops[0]);
      Run(Apply(c, ops[0]), ops[1..])
  }

  /** Over any admissible sequence of `get` and `set` requests the dictionary
      never exceeds the capacity and its keys stay exactly the list's keys. */
  lemma {:induction false} RunKeepsInv<K>(c: Lru<K>, ops: seq<Op<K>>)
    requires Inv(c) && Admissible(c, ops)
    ensures Inv(Run(c, ops)) && Run(c, ops).capacity == c.capacity
    ensures |Run(c, ops).store| <= c.capacity
    ensures forall k :: k in Run(c, ops).order ==> k in Run(c, ops).store
    ensures forall k :: k in Run(c, ops).store ==> k in Run(c, ops).order
    decreases |ops|
  {
    if ops != [] {
      ApplyKeepsInv(c, ops[0]);
      RunKeepsInv(Apply(c, ops[0]), ops[1..]);
    }
  }

  /** A key just read survives the next eviction when the cache holds at
      least two keys: the eviction takes the tail, and the read moved the key
      to the front. */
  lemma ReadKeyOutlivesEviction<K>(c: Lru<K>, read: K, newKey: K, value: int)
    requires Inv(c) && read in c.store && newKey !in c.store
    requires |c.store| == c.capacity >= 2
    ensures var r := Get(c, read).0; Inv(r) && read in Set(r, newKey, value).store
  {
    GetKeepsInv(c, read);
    var r := Get(c, read).0;
    SetEvictsTail(r, newKey, value);
    assert r.order[|r.order| - 1] != read by {
      assert r.order[0] == read;
      assert Distinct(r.order);
    }
  }
}
