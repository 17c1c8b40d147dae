/** The warrant canary of `src/env.rs`: parsing the dotenv file, and the cache
    keyed by the file's modification time and length. */
module Canary {
  import opened Wrappers

  /** One line of the file, as the dotenv parser yields it. */
  datatype Item = Pair(key: string, value: string) | Malformed

  /** The key of the cache; an unsupported modification time reads as the epoch. */
  datatype Stamp = Stamp(modified: int, len: nat)

  /** A file at one instant: what a metadata call and an open would find. */
  datatype File = File(stamp: Option<Stamp>, items: Option<seq<Item>>)

  datatype CanaryFileState = Value(value: string) | Removed | Unavailable

  const KEY := "CANARY"

  function ParseItems(items: seq<Item>): CanaryFileState {
    if items == [] then Removed
    else match items[0]
      case Pair(key, value) => if key == KEY then Value(value) else ParseItems(items[1..])
      case Malformed => Unavailable
  }

  function Parse(file: File): CanaryFileState {
    if file.items.None? then Unavailable else ParseItems(file.items.value)
  }

  predicate Plain(item: Item) {
    item.Pair? && item.key != KEY
  }

  /** The first item that is malformed or has the key decides. */
  lemma {:induction false} FirstItemDecides(items: seq<Item>, n: nat)
    requires n <= |items| && forall i | 0 <= i < n :: Plain(items[i])
    ensures n == |items| ==> ParseItems(items) == Removed
    ensures n < |items| && !Plain(items[n]) ==>
      ParseItems(items) == (if items[n].Malformed? then Unavailable else Value(items[n].value))
  {
    if n > 0 {
      FirstItemDecides(items[1..], n - 1);
    }
  }

  method ReadCanary(file: File) returns (state: CanaryFileState)
    ensures state == Parse(file)
    ensures file.items.Some? && (forall i | 0 <= i < |file.items.value| :: Plain(file.items.value[i]))
      ==> state == Removed
  {
    if file.items.None? {
      return Unavailable;
    }
    var items := file.items.value;
    for i := 0 to |items|
      invariant forall j | 0 <= j < i :: Plain(items[j])
    {
      FirstItemDecides(items, i);
      match items[i]
      case Pair(key, value) =>
        if key == KEY {
          return Value(value);
        }
      case Malformed =>
        return Unavailable;
    }
    FirstItemDecides(items, |items|);
    return Removed;
  }

  /** The last successful parse; `None` stands for a removed canary. */
  datatype CachedCanary = CachedCanary(stamp: Stamp, value: Option<string>)

  function StateOf(value: Option<string>): CanaryFileState {
    if value.Some? then Value(value.value) else Removed
  }

  /** A call that reads the metadata of `atStat` and, if it must, opens `atOpen`. */
  function Lookup(cached: Option<CachedCanary>, atStat: File, atOpen: File): (Option<CachedCanary>, CanaryFileState) {
    if atStat.stamp.None? then (cached, Unavailable)
    else if cached.Some? && cached.value.stamp == atStat.stamp.value then (cached, StateOf(cached.value.value))
    else
      var state := Parse(atOpen);
      match state
      case Value(value) => (Some(CachedCanary(atStat.stamp.value, Some(value))), state)
      case Removed => (Some(CachedCanary(atStat.stamp.value, None)), state)
      case Unavailable => (cached, state)
  }

  class CanaryCache {
    var cached: Option<CachedCanary>

    constructor ()
      ensures cached == None
    {
      cached := None;
    }

    method Read(atStat: File, atOpen: File) returns (state: CanaryFileState)
      modifies this
      ensures (cached, state) == Lookup(old(cached), atStat, atOpen)
      ensures state == Unavailable ==> cached == old(cached)
    {
      if atStat.stamp.None? {
        return Unavailable;
      }
      var stamp := atStat.stamp.value;
      if cached.Some? {
        if cached.value.stamp == stamp {
          return if cached.value.value.Some? then Value(cached.value.value.value) else Removed;
        }
      }
      state := ReadCanary(atOpen);
      match state
      case Value(value) => cached := Some(CachedCanary(stamp, Some(value)));
      case Removed => cached := Some(CachedCanary(stamp, None));
      case Unavailable =>
    }
  }

  // ----- agreement with direct parsing

  /** The file over time. A file without metadata cannot be opened either. */
  ghost predicate History(files: seq<File>) {
    forall i | 0 <= i < |files| && files[i].stamp.None? :: files[i].items.None?
  }

  /** The instants at which a call reads the metadata and opens the file. */
  datatype Call = Call(statAt: nat, openAt: nat)

  /** Calls hold the cache lock, so they do not overlap. */
  ghost predicate Serialized(files: seq<File>, calls: seq<Call>, t: nat) {
    calls == [] ||
    (t <= calls[0].statAt <= calls[0].openAt < |files| && Serialized(files, calls[1..], calls[0].openAt))
  }

  ghost function Answers(files: seq<File>, cached: Option<CachedCanary>, calls: seq<Call>, t: nat): seq<CanaryFileState>
    requires Serialized(files, calls, t)
    decreases |calls|
  {
    if calls == [] then []
    else
      var (cached', state) := Lookup(cached, files[calls[0].statAt], files[calls[0].openAt]);
      [state] + Answers(files, cached', calls[1..], calls[0].openAt)
  }

  /** The answer is what parsing the file directly gives at some instant of the call. */
  ghost predicate Truthful(files: seq<File>, call: Call, state: CanaryFileState)
    requires call.openAt < |files|
  {
    exists q | call.statAt <= q <= call.openAt :: state == Parse(files[q])
  }

  /** Whenever a stamp is seen twice, every canary readable in between is the
      one readable at the end. */
  ghost predicate StampsAreFaithful(files: seq<File>) {
    forall i, p, k {:trigger files[i], files[p], files[k]} | 0 <= i <= p <= k < |files| ::
      files[i].stamp.Some? && files[i].stamp == files[k].stamp && Parse(files[p]) != Unavailable
      ==> Parse(files[p]) == Parse(files[k])
  }

  /** The cached value was parsed after its stamp was read, both in the past. */
  ghost predicate Sourced(files: seq<File>, cached: Option<CachedCanary>, t: nat) {
    cached.Some? ==>
      exists i, p | 0 <= i <= p <= t && p < |files| ::
        files[i].stamp == Some(cached.value.stamp) && Parse(files[p]) == StateOf(cached.value.value)
  }

  lemma CallIsTruthful(files: seq<File>, cached: Option<CachedCanary>, call: Call, t: nat)
    requires History(files) && StampsAreFaithful(files) && Sourced(files, cached, t)
    requires t <= call.statAt <= call.openAt < |files|
    ensures var (cached', state) := Lookup(cached, files[call.statAt], files[call.openAt]);
      Truthful(files, call, state) && Sourced(files, cached', call.openAt)
  {
    var stat, open := files[call.statAt], files[call.openAt];
    var (cached', state) := Lookup(cached, stat, open);
    if stat.stamp.None? {
      assert state == Parse(stat);
    } else if cached.Some? && cached.value.stamp == stat.stamp.value {
      var i, p :| 0 <= i <= p <= t && p < |files|
        && files[i].stamp == Some(cached.value.stamp) && Parse(files[p]) == StateOf(cached.value.value);
      assert state == Parse(files[call.statAt]);
    } else {
      assert state == Parse(files[call.openAt]);
      if state != Unavailable {
        assert files[call.statAt].stamp == Some(cached'.value.stamp);
        assert Parse(files[call.openAt]) == StateOf(cached'.value.value);
      }
    }
  }

  lemma {:induction false} FaithfulStampsSuffice(
    files: seq<File>, cached: Option<CachedCanary>, calls: seq<Call>, t: nat, n: nat)
    requires History(files) && StampsAreFaithful(files) && Sourced(files, cached, t)
    requires Serialized(files, calls, t) && n < |calls|
    ensures |Answers(files, cached, calls, t)| == |calls|
    ensures calls[n].openAt < |files|
    ensures Truthful(files, calls[n], Answers(files, cached, calls, t)[n])
    decreases |calls|
  {
    hide StampsAreFaithful, Sourced, Truthful, History, Lookup;
    CallIsTruthful(files, cached, calls[0], t);
    var cached' := Lookup(cached, files[calls[0].statAt], files[calls[0].openAt]).0;
    AnswersLength(files, cached, calls, t);
    if n > 0 {
      FaithfulStampsSuffice(files, cached', calls[1..], calls[0].openAt, n - 1);
    }
  }

  lemma {:induction false} AnswersLength(files: seq<File>, cached: Option<CachedCanary>, calls: seq<Call>, t: nat)
    requires Serialized(files, calls, t)
    ensures |Answers(files, cached, calls, t)| == |calls|
    decreases |calls|
  {
    if calls != [] {
      AnswersLength(files, Lookup(cached, files[calls[0].statAt], files[calls[0].openAt]).0,
                    calls[1..], calls[0].openAt);
    }
  }

  /** Some schedule of calls, from an empty cache, gets an answer that parsing
      the file at no instant of its call would give. */
  ghost predicate SomeCallLies(files: seq<File>) {
    exists calls: seq<Call>, n: nat {:trigger calls[n], Answers(files, None, calls, 0)} ::
      && Serialized(files, calls, 0) && n < |calls| && n < |Answers(files, None, calls, 0)|
      && calls[n].openAt < |files|
      && !Truthful(files, calls[n], Answers(files, None, calls, 0)[n])
  }

  lemma UnfaithfulStampsLie(files: seq<File>, i: nat, p: nat, k: nat)
    requires i <= p <= k < |files|
    requires files[i].stamp.Some? && files[i].stamp == files[k].stamp
    requires Parse(files[p]) != Unavailable && Parse(files[p]) != Parse(files[k])
    ensures SomeCallLies(files)
  {
    var first, second := Call(i, p), Call(k, k);
    var calls := [first, second];
    assert calls[1..] == [second] && [second][1..] == [];
    assert Serialized(files, [second], p);
    assert Serialized(files, calls, 0);
    var (cached, _) := Lookup(None, files[i], files[p]);
    assert Lookup(cached, files[k], files[k]).1 == Parse(files[p]);
    var answers := Answers(files, None, calls, 0);
    assert answers == [Parse(files[p])] + Answers(files, cached, [second], p);
    assert answers[1] == Parse(files[p]);
    assert !Truthful(files, calls[1], answers[1]);
  }

  /** The cache agrees with direct parsing, for every schedule of calls, if and
      only if the stamps are faithful. */
  lemma CacheAgreesIff(files: seq<File>)
    requires History(files)
    ensures !SomeCallLies(files) <==> StampsAreFaithful(files)
  {
    if StampsAreFaithful(files) {
      forall calls: seq<Call>, n: nat | Serialized(files, calls, 0) && n < |calls| && calls[n].openAt < |files|
        ensures n < |Answers(files, None, calls, 0)| ==>
          Truthful(files, calls[n], Answers(files, None, calls, 0)[n]) {
        FaithfulStampsSuffice(files, None, calls, 0, n);
      }
    } else {
      var i, p, k :| 0 <= i <= p <= k < |files|
        && files[i].stamp.Some? && files[i].stamp == files[k].stamp
        && Parse(files[p]) != Unavailable && Parse(files[p]) != Parse(files[k]);
      UnfaithfulStampsLie(files, i, p, k);
    }
  }

  /** In particular it agrees when no stamp comes back after a change. */
  lemma NoStampRecurs(files: seq<File>)
    requires forall i, j, k {:trigger files[i], files[j], files[k]} | 0 <= i <= j <= k < |files| ::
      files[i].stamp.Some? && files[i].stamp == files[k].stamp ==> files[j] == files[k]
    ensures StampsAreFaithful(files)
  {
  }
}
