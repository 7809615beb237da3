/** timeout_map.cpp: keys with the time of their last update, kept as a list
    from the newest to the oldest beside an index. It behaves as a plain map
    from keys to times. */
module Timeouts {
  import opened Sequences

  /** The list without key. */
  function Erase(elements: seq<int>, key: int): (r: seq<int>)
  {
    if elements == [] then []
    else if elements[0] == key then elements[1..]
    else [elements[0]] + Erase(elements[1..], key)
  }

  predicate Distinct(elements: seq<int>) {
    forall i, j :: 0 <= i < j < |elements| ==> elements[i] != elements[j]
  }

  ghost predicate NewestFirst(elements: seq<int>, times: map<int, int>) {
    (forall i :: 0 <= i < |elements| ==> elements[i] in times)
    && forall i, j :: 0 <= i < j < |elements| ==> times[elements[j]] <= times[elements[i]]
  }

  ghost predicate OldestFirst(elements: seq<int>, times: map<int, int>) {
    (forall i :: 0 <= i < |elements| ==> elements[i] in times)
    && forall i, j :: 0 <= i < j < |elements| ==> times[elements[i]] <= times[elements[j]]
  }

  /** The list holds the keys of the map once each, newest first. */
  ghost predicate Agree(elements: seq<int>, times: map<int, int>) {
    Distinct(elements) && (forall k :: k in elements <==> k in times) && NewestFirst(elements, times)
  }

  /** No recorded time lies in the future. */
  predicate UpTo(times: map<int, int>, now: int) {
    forall k :: k in times ==> times[k] <= now
  }

  predicate Expired(times: map<int, int>, limit: int, now: int, k: int) {
    k in times && now - times[k] > limit
  }

  lemma {:induction false} EraseHas(elements: seq<int>, key: int)
    requires Distinct(elements)
    ensures forall k :: k in Erase(elements, key) <==> k in elements && k != key
  {
    if elements != [] {
      EraseHas(elements[1..], key);
      assert elements == [elements[0]] + elements[1..];
      if elements[0] == key {
        assert forall i :: 0 <= i < |elements[1..]| ==> elements[1..][i] == elements[i + 1] != key;
      }
    }
  }

  /** What is left keeps its order. */
  lemma {:induction false} EraseOrder(elements: seq<int>, times: map<int, int>, key: int)
    requires Distinct(elements) && NewestFirst(elements, times)
    ensures Distinct(Erase(elements, key)) && NewestFirst(Erase(elements, key), times)
  {
    if elements != [] && elements[0] != key {
      EraseOrder(elements[1..], times, key);
      EraseHas(elements[1..], key);
      forall k | k in Erase(elements[1..], key)
        ensures k != elements[0] && k in times && times[k] <= times[elements[0]]
      {
        var i :| 0 <= i < |elements[1..]| && elements[1..][i] == k;
        assert elements[i + 1] == k;
      }
      PutFront(elements[0], Erase(elements[1..], key), times);
    }
  }

  lemma PutFront(h: int, r: seq<int>, times: map<int, int>)
    requires Distinct(r) && NewestFirst(r, times) && h in times
    requires forall k :: k in r ==> k != h && k in times && times[k] <= times[h]
    ensures Distinct([h] + r) && NewestFirst([h] + r, times)
  {
    var e := [h] + r;
    forall i, j | 0 <= i < j < |e| ensures e[i] != e[j] && e[j] in times && times[e[j]] <= times[e[i]] {
      assert e[j] == r[j - 1] && r[j - 1] in r;
      if i > 0 {
        assert e[i] == r[i - 1];
      }
    }
  }

  lemma AgreeFront(elements: seq<int>, times: map<int, int>, key: int, now: int)
    requires Agree(elements, times) && UpTo(times, now)
    ensures Agree([key] + Erase(elements, key), times[key := now])
  {
    EraseOrder(elements, times, key);
    EraseHas(elements, key);
    var r, t := Erase(elements, key), times[key := now];
    forall i | 0 <= i < |r| ensures r[i] in times && t[r[i]] == times[r[i]] {
      assert r[i] in r;
    }
    PutFront(key, r, t);
  }

  lemma AgreeRemoved(elements: seq<int>, times: map<int, int>, key: int)
    requires Agree(elements, times)
    ensures Agree(Erase(elements, key), times - {key})
  {
    EraseOrder(elements, times, key);
    EraseHas(elements, key);
    var r := Erase(elements, key);
    forall i | 0 <= i < |r| ensures r[i] in times - {key} {
      assert r[i] in r;
    }
  }

  class TimeOutMap {
    const limit: int
    var elements: seq<int>
    var times: map<int, int>

    ghost predicate Valid()
      reads this
    {
      Agree(elements, times)
    }

    constructor (limit: int)
      ensures Valid() && this.limit == limit && times == map[]
    {
      this.limit := limit;
      elements, times := [], map[];
    }

    /** elements_.erase(iter) for the iterator stored with key. */
    method EraseKey(key: int)
      modifies this`elements
      ensures elements == Erase(old(elements), key)
    {
      var p := 0;
      ghost var front, back := [], elements;
      while p < |elements|
        invariant elements == old(elements) == front + back && p == |front|
        invariant Erase(old(elements), key) == front + Erase(back, key)
      {
        AtSplit(front, back, key);
        if elements[p] == key {
          elements := elements[..p] + elements[p + 1..];
          return;
        }
        Regroup(front, back[0], Erase(back[1..], key));
        front, back := front + [back[0]], back[1..];
        p := p + 1;
      }
    }

    /** The time of a known key becomes now; -1 if the key is unknown. */
    method Update(key: int, now: int) returns (code: int)
      requires Valid() && UpTo(times, now)
      modifies this
      ensures Valid() && code == (if key in old(times) then 0 else -1)
      ensures times == if key in old(times) then old(times)[key := now] else old(times)
    {
      if key !in times {
        return -1;
      }
      AgreeFront(elements, times, key, now);
      EraseKey(key);
      times := times[key := now];
      elements := [key] + elements;
      return 0;
    }

    method Add(key: int, now: int) returns (code: int)
      requires Valid() && UpTo(times, now)
      modifies this
      ensures Valid() && code == 0 && times == old(times)[key := now]
    {
      code := Update(key, now);
      if code < 0 {
        AgreeFront(elements, times, key, now);
        NotThere(elements, key);
        elements := [key] + elements;
        times := times[key := now];
        return 0;
      }
    }

    method Remove(key: int) returns (code: int)
      requires Valid()
      modifies this
      ensures Valid() && code == (if key in old(times) then 0 else -1)
      ensures times == old(times) - {key}
    {
      if key !in times {
        return -1;
      }
      AgreeRemoved(elements, times, key);
      EraseKey(key);
      times := times - {key};
      return 0;
    }

    /** The backward scan stops at the first key that has not expired, and
        still finds every expired key, the oldest first. */
    method GetTimeOutElements(now: int) returns (expired: seq<int>)
      requires Valid()
      ensures forall k :: k in expired <==> Expired(times, limit, now, k)
      ensures Distinct(expired) && OldestFirst(expired, times)
    {
      expired := [];
      var p := |elements|;
      while p > 0
        invariant 0 <= p <= |elements| && |expired| == |elements| - p
        invariant forall i :: 0 <= i < |expired| ==> expired[i] == elements[|elements| - 1 - i]
        invariant forall i :: p <= i < |elements| ==> Expired(times, limit, now, elements[i])
      {
        var key := elements[p - 1];
        assert key in elements;
        if now - times[key] > limit {
          expired := expired + [key];
          p := p - 1;
        } else {
          break;
        }
      }
      ScanComplete(elements, times, limit, now, p, expired);
    }
  }

  lemma {:induction false} NotThere(elements: seq<int>, key: int)
    requires key !in elements
    ensures Erase(elements, key) == elements
  {
    if elements != [] {
      assert elements[0] in elements;
      NotThere(elements[1..], key);
    }
  }

  /** Below the stopping point nothing has expired, because times only grow
      towards the front. */
  lemma ScanComplete(elements: seq<int>, times: map<int, int>, limit: int, now: int, p: nat, expired: seq<int>)
    requires Agree(elements, times) && p <= |elements| && |expired| == |elements| - p
    requires forall i :: 0 <= i < |expired| ==> expired[i] == elements[|elements| - 1 - i]
    requires forall i :: p <= i < |elements| ==> Expired(times, limit, now, elements[i])
    requires p > 0 ==> elements[p - 1] in times && !Expired(times, limit, now, elements[p - 1])
    ensures forall k :: k in expired <==> Expired(times, limit, now, k)
    ensures Distinct(expired) && OldestFirst(expired, times)
  {
    forall k | Expired(times, limit, now, k) ensures k in expired {
      assert k in elements;
      var i :| 0 <= i < |elements| && elements[i] == k;
      assert i >= p;
      assert expired[|elements| - 1 - i] == k;
    }
  }
}
