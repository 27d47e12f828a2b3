/** The typed key-value store of one worker: byte-string keys mapped to a
    string, a list (a deque) or a set of byte strings. */
module Kv {
  import opened Wire

  datatype RedisValue = Str(s: Bytes) | List(l: seq<Bytes>) | Set(m: set<Bytes>)

  /** `PoisonedLock` is never produced, so only `WrongType` is modelled. */
  datatype DatabaseError = WrongType

  datatype Result<+T> = Ok(value: T) | Err(error: DatabaseError)

  /** `count as usize` on a 64-bit target: a negative `i64` wraps to `count + 2^64`. */
  function AsUsize(count: i64): nat
  {
    if count < 0 then count + 0x1_0000_0000_0000_0000 else count
  }

  /** `min(len, count as usize)`: how many elements a pop removes. */
  function NumToPop(len: nat, count: i64): (n: nat)
    ensures n <= len
    ensures count >= 0 ==> n == if count < len then count else len
    ensures count < 0 && len <= MAX_I64 ==> n == len
  {
    var c := AsUsize(count);
    if len < c then len else c
  }

  /** The elements of `xs` in reverse order, last one first. */
  function Reversed(xs: seq<Bytes>): (r: seq<Bytes>)
    ensures |r| == |xs|
  {
    if xs == [] then [] else [xs[|xs| - 1]] + Reversed(xs[..|xs| - 1])
  }

  /** Reversal moves position `k` to position `|xs| - 1 - k`. */
  lemma {:induction false} ReversedAt(xs: seq<Bytes>, k: nat)
    requires k < |xs|
    ensures Reversed(xs)[k] == xs[|xs| - 1 - k]
  {
    if k > 0 {
      ReversedAt(xs[..|xs| - 1], k - 1);
    }
  }

  /** Reversal keeps every element with its multiplicity. */
  lemma {:induction false} ReversedMultiset(xs: seq<Bytes>)
    ensures multiset(Reversed(xs)) == multiset(xs)
  {
    if xs != [] {
      ReversedMultiset(xs[..|xs| - 1]);
      assert xs == xs[..|xs| - 1] + [xs[|xs| - 1]];
    }
  }

  function ToSet(xs: seq<Bytes>): set<Bytes>
  {
    set x | x in xs
  }

  predicate Distinct(xs: seq<Bytes>)
  {
    forall i, j :: 0 <= i < j < |xs| ==> xs[i] != xs[j]
  }

  /** A negative index counts from the end of a list of length `len`. */
  function Normalize(index: i64, len: nat): int
  {
    if index < 0 then len + index else index
  }

  function Clamp(x: int, lo: int, hi: int): (r: int)
    requires lo <= hi
    ensures lo <= r <= hi
    ensures lo <= x <= hi ==> r == x
    ensures x < lo ==> r == lo
    ensures x > hi ==> r == hi
  {
    if x < lo then lo else if x > hi then hi else x
  }

  /** `resolve_range`: turns LRANGE's `start`/`stop` into indices of the list.
      Only called with `len > 0`: `stop.clamp(0, len - 1)` panics when `len == 0`. */
  function ResolveRange(start: i64, stop: i64, len: nat): (r: (nat, nat))
    requires 0 < len
    ensures r.0 <= r.1 < len
    // a request inside the list, in order, is returned as is (negative indices counted from the end)
    ensures var s, e := Normalize(start, len), Normalize(stop, len);
      0 <= s <= e < len ==> r == (s, e)
    // indices are clamped into the list; a range that is inverted after clamping becomes (0, 0)
    ensures var s, e := Clamp(Normalize(start, len), 0, len), Clamp(Normalize(stop, len), 0, len - 1);
      (s <= e ==> r == (s, e)) && (s > e ==> r == (0, 0))
  {
    var s := Clamp(Normalize(start, len), 0, len);
    var e := Clamp(Normalize(stop, len), 0, len - 1);
    if s > e then (0, 0) else (s, e)
  }

  /** What LRANGE returns for list `l`: empty for an empty list, otherwise the
      slice between the resolved indices, both ends included. */
  function LRangeOf(l: seq<Bytes>, start: i64, stop: i64): (r: seq<Bytes>)
    ensures l == [] ==> r == []
    ensures l != [] ==> 1 <= |r| <= |l|
    ensures l != [] ==> exists i :: 0 <= i <= |l| - |r| && r <= l[i..]
  {
    if |l| == 0 then []
    else
      var (s, e) := ResolveRange(start, stop, |l|);
      assert l[s..e + 1] <= l[s..];
      l[s..e + 1]
  }

  /** LRANGE 0 -1 returns the whole list. */
  lemma LRangeWhole(l: seq<Bytes>)
    ensures LRangeOf(l, 0, -1) == l
  {
    if l != [] {
      assert ResolveRange(0, -1, |l|) == (0, |l| - 1);
    }
  }

  /** An in-range, ordered request returns exactly the elements from `start` to `stop`. */
  lemma LRangeInRange(l: seq<Bytes>, start: i64, stop: i64)
    requires 0 <= start <= stop < |l|
    ensures LRangeOf(l, start, stop) == l[start..stop + 1]
  {
    assert ResolveRange(start, stop, |l|) == (start as nat, stop as nat);
  }

  /** As written, a request that is inverted after clamping does not give an empty
      reply: the "empty range" sentinel (0, 0) of `resolve_range` is read by
      `lrange` as the range holding only the first element. */
  lemma LRangeInvertedGivesFirst(l: seq<Bytes>, start: i64, stop: i64)
    requires l != []
    requires Clamp(Normalize(start, |l|), 0, |l|) > Clamp(Normalize(stop, |l|), 0, |l| - 1)
    ensures LRangeOf(l, start, stop) == [l[0]]
  {
    assert ResolveRange(start, stop, |l|) == (0, 0);
  }

  /** For instance, LRANGE 2 1 on [a, b, c] gives [a]. */
  lemma LRangeInvertedExample(a: Bytes, b: Bytes, c: Bytes)
    ensures LRangeOf([a, b, c], 2, 1) == [a]
  {
    LRangeInvertedGivesFirst([a, b, c], 2, 1);
  }

  /** LRANGE as evidently intended: the elements whose index (counted from the end
      when negative) lies between `start` and `stop`, both included, cut to the
      list; an inverted or out-of-range request gives the empty list. */
  function LRangeIntended(l: seq<Bytes>, start: i64, stop: i64): (r: seq<Bytes>)
    ensures var lo, hi := Normalize(start, |l|), Normalize(stop, |l|);
      var first := if lo < 0 then 0 else lo;
      var last := if hi >= |l| then |l| - 1 else hi;
      && (r == [] <==> first > last)
      && (first <= last ==> |r| == last - first + 1 && forall k :: 0 <= k < |r| ==> r[k] == l[first + k])
  {
    var lo, hi := Normalize(start, |l|), Normalize(stop, |l|);
    var first := if lo < 0 then 0 else lo;
    var last := if hi >= |l| then |l| - 1 else hi;
    if first > last then [] else l[first..last + 1]
  }

  /** How the written LRANGE differs from the intended one: they agree whenever the
      intended reply is non-empty, and where it is empty the written one returns
      the first element of the list instead. */
  lemma LRangeWrittenVsIntended(l: seq<Bytes>, start: i64, stop: i64)
    requires l != []
    ensures LRangeOf(l, start, stop) ==
      if LRangeIntended(l, start, stop) == [] then [l[0]] else LRangeIntended(l, start, stop)
  {
    var lo, hi := Normalize(start, |l|), Normalize(stop, |l|);
    var s, e := Clamp(lo, 0, |l|), Clamp(hi, 0, |l| - 1);
    if s <= e && hi >= 0 {
      assert ResolveRange(start, stop, |l|) == (s, e);
    } else {
      assert ResolveRange(start, stop, |l|) == (0, 0);
    }
  }

  /** The loop of `lpush`: `push_front` of each value in argument order, so the
      values end up in front of the list in reverse. */
  method PushEachFront(l0: seq<Bytes>, values: seq<Bytes>) returns (list: seq<Bytes>)
    ensures list == Reversed(values) + l0
  {
    list := l0;
    var i := 0;
    while i < |values|
      invariant 0 <= i <= |values|
      invariant list == Reversed(values[..i]) + l0
    {
      assert values[..i + 1][..i] == values[..i];
      list := [values[i]] + list;
      i := i + 1;
    }
    assert values[..i] == values;
  }

  /** The loop of `rpush`: `push_back` of each value in argument order. */
  method PushEachBack(l0: seq<Bytes>, values: seq<Bytes>) returns (list: seq<Bytes>)
    ensures list == l0 + values
  {
    list := l0;
    var i := 0;
    while i < |values|
      invariant 0 <= i <= |values|
      invariant list == l0 + values[..i]
    {
      assert values[..i + 1] == values[..i] + [values[i]];
      list := list + [values[i]];
      i := i + 1;
    }
    assert values[..i] == values;
  }

  /** The loop of `sadd`: inserts every value into `s0`, counting the inserts that
      found the value new. */
  method InsertCounting(s0: set<Bytes>, values: seq<Bytes>) returns (members: set<Bytes>, added: nat)
    ensures members == s0 + ToSet(values)
    ensures added == |ToSet(values) - s0|
  {
    members, added := s0, 0;
    var i := 0;
    while i < |values|
      invariant 0 <= i <= |values|
      invariant SAddState(values, i, s0, members, added)
    {
      var v := values[i];
      var inserted := v !in members;
      SAddStep(values, i, s0, members, added);
      members := members + {v};
      if inserted {
        added := added + 1;
      }
      i := i + 1;
    }
    assert values[..i] == values;
  }

  /** What `sadd` has done after its first `i` values: the set holds the old members
      and those values, and the count is how many of them were new. */
  ghost predicate SAddState(values: seq<Bytes>, i: nat, s0: set<Bytes>, members: set<Bytes>, added: int)
    requires i <= |values|
  {
    members == s0 + ToSet(values[..i]) && added == |ToSet(values[..i]) - s0|
  }

  lemma SAddStep(values: seq<Bytes>, i: nat, s0: set<Bytes>, members: set<Bytes>, added: int)
    requires i < |values|
    requires SAddState(values, i, s0, members, added)
    ensures SAddState(values, i + 1, s0, members + {values[i]}, if values[i] in members then added else added + 1)
  {
    var v := values[i];
    var seen := ToSet(values[..i]);
    assert values[..i + 1] == values[..i] + [v];
    ToSetSnoc(values[..i], v);
    var newOnes := seen - s0;
    if v in members {
      assert (seen + {v}) - s0 == newOnes;
    } else {
      assert v !in newOnes;
      assert (seen + {v}) - s0 == newOnes + {v};
    }
  }

  lemma ToSetSnoc(xs: seq<Bytes>, v: Bytes)
    ensures ToSet(xs + [v]) == ToSet(xs) + {v}
  {
  }

  /** The store: one map from keys to typed values, changed in place by every write. */
  class KvStore {
    var db: map<Bytes, RedisValue>

    constructor ()
      ensures db == map[]
    {
      db := map[];
    }

    /** `set`: the key holds the string afterwards, whatever it held before. */
    method Set(key: Bytes, value: Bytes) returns (r: Result<()>)
      modifies this
      ensures r == Ok(())
      ensures db == old(db)[key := Str(value)]
    {
      db := db[key := Str(value)];
      r := Ok(());
    }

    /** `get`: the stored value of any type, or `None` for a missing key. */
    method Get(key: Bytes) returns (r: Result<Option<RedisValue>>)
      ensures r.Ok?
      ensures r.value.Some? <==> key in db
      ensures key in db ==> r.value.value == db[key]
    {
      if key in db {
        r := Ok(Some(db[key]));
      } else {
        r := Ok(None);
      }
    }

    /** `lpush`: each value goes to the front in argument order, so the list
        starts with the values reversed; a missing key starts as an empty list. */
    method LPush(key: Bytes, values: seq<Bytes>) returns (r: Result<int>)
      modifies this
      ensures key in old(db) && !old(db)[key].List? ==> r == Err(WrongType) && db == old(db)
      ensures key !in old(db) || old(db)[key].List? ==>
        var l0 := if key in old(db) then old(db)[key].l else [];
        && r == Ok(|l0| + |values|)
        && db == old(db)[key := List(Reversed(values) + l0)]
    {
      if key in db && !db[key].List? {
        return Err(WrongType);
      }
      var list := PushEachFront(if key in db then db[key].l else [], values);
      db := db[key := List(list)];
      r := Ok(|list|);
    }
  
    /** `lpop`: removes and returns the first min(count, length) elements; a list
        left empty is deleted. A negative count wraps to a huge `usize`: everything. */
    method LPop(key: Bytes, count: i64) returns (r: Result<seq<Bytes>>)
      modifies this
      ensures key in old(db) && !old(db)[key].List? ==> r == Err(WrongType) && db == old(db)
      ensures key !in old(db) ==> r == Ok([]) && db == old(db)
      ensures key in old(db) && old(db)[key].List? ==>
        var l := old(db)[key].l;
        var n := NumToPop(|l|, count);
        && r == Ok(l[..n])
        && db == if n == |l| then old(db) - {key} else old(db)[key := List(l[n..])]
    {
      if key !in db {
        return Ok([]);
      }
      if !db[key].List? {
        return Err(WrongType);
      }
      var list := db[key].l;
      var numPop := NumToPop(|list|, count);
      var popped := list[..numPop];
      list := list[numPop..];
      if list == [] {
        db := db - {key};
      } else {
        db := db[key := List(list)];
      }
      r := Ok(popped);
    }

    /** `rpush`: each value goes to the back in argument order; a missing key
        starts as an empty list. */
    method RPush(key: Bytes, values: seq<Bytes>) returns (r: Result<int>)
      modifies this
      ensures key in old(db) && !old(db)[key].List? ==> r == Err(WrongType) && db == old(db)
      ensures key !in old(db) || old(db)[key].List? ==>
        var l0 := if key in old(db) then old(db)[key].l else [];
        && r == Ok(|l0| + |values|)
        && db == old(db)[key := List(l0 + values)]
    {
      if key in db && !db[key].List? {
        return Err(WrongType);
      }
      var list := PushEachBack(if key in db then db[key].l else [], values);
      db := db[key := List(list)];
      r := Ok(|list|);
    }

    /** `rpop`: removes and returns the last min(count, length) elements, in list
        order; a list left empty is deleted. */
    method RPop(key: Bytes, count: i64) returns (r: Result<seq<Bytes>>)
      modifies this
      ensures key in old(db) && !old(db)[key].List? ==> r == Err(WrongType) && db == old(db)
      ensures key !in old(db) ==> r == Ok([]) && db == old(db)
      ensures key in old(db) && old(db)[key].List? ==>
        var l := old(db)[key].l;
        var n := NumToPop(|l|, count);
        && r == Ok(l[|l| - n..])
        && db == if n == |l| then old(db) - {key} else old(db)[key := List(l[..|l| - n])]
    {
      if key !in db {
        return Ok([]);
      }
      if !db[key].List? {
        return Err(WrongType);
      }
      var list := db[key].l;
      var length := |list|;
      var numPop := NumToPop(length, count);
      var popped := list[length - numPop..];
      list := list[..length - numPop];
      if list == [] {
        db := db - {key};
      } else {
        db := db[key := List(list)];
      }
      r := Ok(popped);
    }

    /** `lrange`: reads the list between two indices, as `LRangeOf` says; a missing
        key reads as the empty list. */
    method LRange(key: Bytes, start: i64, stop: i64) returns (r: Result<seq<Bytes>>)
      ensures key in db && !db[key].List? ==> r == Err(WrongType)
      ensures key !in db ==> r == Ok([])
      ensures key in db && db[key].List? ==> r == Ok(LRangeOf(db[key].l, start, stop))
    {
      if key !in db {
        return Ok([]);
      }
      if !db[key].List? {
        return Err(WrongType);
      }
      var list := db[key].l;
      var len := |list|;
      if len == 0 {
        return Ok([]);
      }
      var (startIdx, stopIdx) := ResolveRange(start, stop, len);
      var n := (stopIdx - startIdx) + 1;
      r := Ok(list[startIdx..startIdx + n]);
    }

    /** `sadd`: the set afterwards is the old set with the values added; the count
        is the number of values that were not members yet, repeats counted once. */
    method SAdd(key: Bytes, values: seq<Bytes>) returns (r: Result<int>)
      modifies this
      ensures key in old(db) && !old(db)[key].Set? ==> r == Err(WrongType) && db == old(db)
      ensures key !in old(db) || old(db)[key].Set? ==>
        var s0 := if key in old(db) then old(db)[key].m else {};
        && r == Ok(|ToSet(values) - s0|)
        && db == old(db)[key := RedisValue.Set(s0 + ToSet(values))]
    {
      if key in db && !db[key].Set? {
        return Err(WrongType);
      }
      var s0 := if key in db then db[key].m else {};
      var members, added := InsertCounting(s0, values);
      db := db[key := RedisValue.Set(members)];
      r := Ok(added);
    }

    /** `spop`: removes min(count, size) distinct members, chosen arbitrarily, and
        returns them; a set left empty is deleted. */
    method SPop(key: Bytes, count: i64) returns (r: Result<seq<Bytes>>)
      modifies this
      ensures key in old(db) && !old(db)[key].Set? ==> r == Err(WrongType) && db == old(db)
      ensures key !in old(db) ==> r == Ok([]) && db == old(db)
      ensures key in old(db) && old(db)[key].Set? ==>
        var s0 := old(db)[key].m;
        && r.Ok?
        && var rest := s0 - ToSet(r.value);
        && |r.value| == NumToPop(|s0|, count)
        && Distinct(r.value)
        && ToSet(r.value) <= s0
        && db == if rest == {} then old(db) - {key} else old(db)[key := RedisValue.Set(rest)]
    {
      if key !in db {
        return Ok([]);
      }
      if !db[key].Set? {
        return Err(WrongType);
      }
      var members := db[key].m;
      ghost var s0 := members;
      var numPop := NumToPop(|members|, count);
      var popped := [];
      var i := 0;
      while i < numPop
        modifies {}
        invariant 0 <= i <= numPop
        invariant |popped| == i && Distinct(popped)
        invariant ToSet(popped) <= s0
        invariant members == s0 - ToSet(popped)
        invariant |members| == |s0| - i
      {
        var member :| member in members;
        members := members - {member};
        popped := popped + [member];
        i := i + 1;
      }
      if members == {} {
        db := db - {key};
      } else {
        db := db[key := RedisValue.Set(members)];
      }
      r := Ok(popped);
    }

    /** `smembers`: every member exactly once, in no particular order; a missing key
        reads as the empty set. */
    method SMembers(key: Bytes) returns (r: Result<seq<Bytes>>)
      ensures key in db && !db[key].Set? ==> r == Err(WrongType)
      ensures key !in db ==> r == Ok([])
      ensures key in db && db[key].Set? ==>
        r.Ok? && ToSet(r.value) == db[key].m && Distinct(r.value) && |r.value| == |db[key].m|
    {
      if key !in db {
        return Ok([]);
      }
      if !db[key].Set? {
        return Err(WrongType);
      }
      var rest := db[key].m;
      var members := [];
      while rest != {}
        invariant ToSet(members) + rest == db[key].m
        invariant ToSet(members) !! rest
        invariant Distinct(members)
        invariant |members| + |rest| == |db[key].m|
        decreases |rest|
      {
        var m :| m in rest;
        members := members + [m];
        rest := rest - {m};
      }
      r := Ok(members);
    }
  }
}
