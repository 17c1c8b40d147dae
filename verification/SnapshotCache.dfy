/** The single-flight snapshot cache and its freshness header. Calls hold the
    cache lock while they check, rebuild and read the remaining age. */
module SnapshotCache {
  import opened Wrappers
  import opened Models

  /** A finished build: when it was stamped, and its gzip body and tag. */
  datatype Built<T> = Built(createdAt: Time, content: T)

  /** The three clock readings of a call, in order. `build` is what a rebuild
      yields, should the call need one; None when it fails or is cancelled. */
  datatype Call<T> = Call(checkedAt: Time, build: Option<Built<T>>, agedAt: Time)

  datatype Answer<T> = Unavailable | Served(content: T, maxAge: nat)

  function Elapsed(since: Time, now: Time): nat {
    if now >= since then now - since else 0
  }

  /** Remaining freshness in whole seconds, rounded up, never zero. */
  function RemainingMaxAge(createdAt: Time, ttl: nat, now: Time): nat {
    var elapsed := Elapsed(createdAt, now);
    var remaining := if ttl >= elapsed then ttl - elapsed else 0;
    var seconds := remaining / SECOND + (if remaining % SECOND > 0 then 1 else 0);
    if seconds >= 1 then seconds else 1
  }

  predicate Stale<T>(cached: Option<Built<T>>, ttl: nat, now: Time) {
    cached.None? || Elapsed(cached.value.createdAt, now) >= ttl
  }

  function Get<T>(cached: Option<Built<T>>, ttl: nat, call: Call<T>): (Option<Built<T>>, Answer<T>) {
    var next := if Stale(cached, ttl, call.checkedAt) then call.build else cached;
    if next.None? then (cached, Unavailable)
    else (next, Served(next.value.content, RemainingMaxAge(next.value.createdAt, ttl, call.agedAt)))
  }

  class AttemptsCache<T> {
    var cached: Option<Built<T>>
    const ttl: nat

    constructor (ttl: nat)
      ensures cached == None && this.ttl == ttl
    {
      this.cached := None;
      this.ttl := ttl;
    }

    method GetAttempts(call: Call<T>) returns (answer: Answer<T>)
      modifies this
      ensures (cached, answer) == Get(old(cached), ttl, call)
      ensures old(cached).Some? && 0 <= call.checkedAt - old(cached).value.createdAt < ttl ==>
        cached == old(cached) && answer.Served? && answer.content == cached.value.content
    {
      if cached.None? || Elapsed(cached.value.createdAt, call.checkedAt) >= ttl {
        match call.build
        case Some(snapshot) => cached := Some(snapshot);
        case None => return Unavailable;
      }
      var snapshot := cached.value;
      return Served(snapshot.content, RemainingMaxAge(snapshot.createdAt, ttl, call.agedAt));
    }
  }

  // ----- freshness

  /** While time remains, the header covers it and less than a second more. */
  lemma MaxAgeRoundsUp(createdAt: Time, ttl: nat, now: Time)
    requires createdAt <= now
    ensures RemainingMaxAge(createdAt, ttl, now) >= 1
    ensures now < createdAt + ttl ==>
      var expires := now + RemainingMaxAge(createdAt, ttl, now) * SECOND;
      createdAt + ttl <= expires < createdAt + ttl + SECOND
    ensures now >= createdAt + ttl ==> RemainingMaxAge(createdAt, ttl, now) == 1
  {
  }

  // ----- runs

  /** Calls are serialized by the cache lock, and a build is stamped within its call. */
  ghost predicate Serialized<T>(calls: seq<Call<T>>, t: Time) {
    calls == [] ||
    (t <= calls[0].checkedAt <= calls[0].agedAt
     && (calls[0].build.Some? ==> calls[0].checkedAt <= calls[0].build.value.createdAt <= calls[0].agedAt)
     && Serialized(calls[1..], calls[0].agedAt))
  }

  /** The successive values of the cache along a run, from the one it starts with. */
  ghost function Values<T>(cached: Option<Built<T>>, ttl: nat, calls: seq<Call<T>>): (values: seq<Option<Built<T>>>)
    ensures |values| == |calls| + 1
    decreases |calls|
  {
    if calls == [] then [cached]
    else [cached] + Values(Get(cached, ttl, calls[0]).0, ttl, calls[1..])
  }

  /** The second value is the first, or a build stamped at least a TTL after it. */
  ghost predicate Spaced<T>(first: Option<Built<T>>, second: Option<Built<T>>, ttl: nat) {
    second == first
    || (second.Some? && (first.Some? ==> second.value.createdAt >= first.value.createdAt + ttl))
  }

  /** What a call does. While the snapshot is younger than the TTL it stays, and
      is served, whatever a rebuild would have yielded; otherwise the rebuild
      replaces it and is served, and if there is none the call fails and nothing
      changes. The header is rounded up. */
  lemma ServedIsFresh<T>(cached: Option<Built<T>>, ttl: nat, call: Call<T>)
    requires Serialized([call], call.checkedAt)
    requires cached.Some? ==> cached.value.createdAt <= call.checkedAt
    ensures var (next, answer) := Get(cached, ttl, call);
      var young := cached.Some? && call.checkedAt < cached.value.createdAt + ttl;
      && next == (if !young && call.build.Some? then call.build else cached)
      && (answer.Served? <==> young || call.build.Some?)
      && (answer.Served? ==>
            && next.Some? && answer.content == next.value.content
            && answer.maxAge >= 1
            && (call.agedAt < next.value.createdAt + ttl ==>
                  next.value.createdAt + ttl <= call.agedAt + answer.maxAge * SECOND
                    < next.value.createdAt + ttl + SECOND)
            && (call.agedAt >= next.value.createdAt + ttl ==> answer.maxAge == 1))
  {
    var (next, answer) := Get(cached, ttl, call);
    if answer.Served? {
      MaxAgeRoundsUp(next.value.createdAt, ttl, call.agedAt);
    }
  }

  lemma OneCall<T>(cached: Option<Built<T>>, ttl: nat, calls: seq<Call<T>>, t: Time)
    requires calls != [] && Serialized(calls, t)
    requires cached.Some? ==> cached.value.createdAt <= t
    ensures var next := Get(cached, ttl, calls[0]).0;
      && Spaced(cached, next, ttl)
      && (next.Some? ==> next.value.createdAt <= calls[0].agedAt)
      && (next == cached || next == calls[0].build)
  {
    assert [calls[0]][1..] == [];
    ServedIsFresh(cached, ttl, calls[0]);
  }

  /** At most one build per TTL: each value of the cache is the one before it, or
      the build of the call in between, stamped at least a TTL later. */
  lemma {:induction false} BuildsAreSpaced<T>(
    cached: Option<Built<T>>, ttl: nat, calls: seq<Call<T>>, t: Time, i: nat)
    requires Serialized(calls, t) && i < |calls|
    requires cached.Some? ==> cached.value.createdAt <= t
    ensures var values := Values(cached, ttl, calls);
      && Spaced(values[i], values[i + 1], ttl)
      && (values[i + 1] == values[i] || values[i + 1] == calls[i].build)
    decreases |calls|
  {
    hide Get;
    OneCall(cached, ttl, calls, t);
    var next := Get(cached, ttl, calls[0]).0;
    if i > 0 {
      BuildsAreSpaced(next, ttl, calls[1..], calls[0].agedAt, i - 1);
    } else {
      assert Values(next, ttl, calls[1..])[0] == next;
    }
  }

  /** Hence any two values of the cache are equal or a TTL apart. */
  lemma {:induction false} SpacedPairs<T>(
    cached: Option<Built<T>>, ttl: nat, calls: seq<Call<T>>, t: Time, i: nat, j: nat)
    requires Serialized(calls, t) && i <= j <= |calls|
    requires cached.Some? ==> cached.value.createdAt <= t
    ensures Spaced(Values(cached, ttl, calls)[i], Values(cached, ttl, calls)[j], ttl)
    decreases j
  {
    hide Get, Values;
    if i < j {
      SpacedPairs(cached, ttl, calls, t, i, j - 1);
      BuildsAreSpaced(cached, ttl, calls, t, j - 1);
    }
  }
}
