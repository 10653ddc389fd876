/** The counter store of the render statistics: an insertion-ordered map from
    a call site (`Key`) to a histogram of the diffs rendered there (`Value`).
    `Add` is one critical section of `add`, `ResetCounters` the one of
    `resetCounters`; the lock makes each an atomic step, so both are pure
    functions from the old store to the new one. */
module CounterStore {
  import opened OrderedMap

  /** Call site and type signature an event is aggregated under. */
  datatype Key = Key(prefix: string, file: string, line: nat, viewStateType: string, viewActionType: string)

  /** One distinct rendered diff. */
  datatype Diff = Diff(isInitialStateDiff: bool, text: string)

  /** The histogram of one key, with the hide flag fixed by the key's first event. */
  datatype Value = Value(differences: OMap<Diff, nat>, hideInitialStateDiffs: bool)

  type Store = OMap<Key, Value>

  /** The arguments of one `add` call: the key's fields, the diff's fields and
      the caller's hide flag. */
  datatype Event = Event(key: Key, diff: Diff, hideInitialStateDiffs: bool)

  /** Every histogram holds each diff once, at least one diff, and no zero count. */
  ghost predicate ValueValid(v: Value) {
    && Valid(v.differences)
    && |v.differences| > 0
    && forall i :: 0 <= i < |v.differences| ==> v.differences[i].1 >= 1
  }

  ghost predicate StoreValid(s: Store) {
    && Valid(s)
    && forall i :: 0 <= i < |s| ==> ValueValid(s[i].1)
  }

  /** How often `(k, d)` has been counted; 0 when either is absent. */
  function Count(s: Store, k: Key, d: Diff): nat
  {
    match Get(s, k)
    case None => 0
    case Some(v) =>
      match Get(v.differences, d)
      case None => 0
      case Some(c) => c
  }

  /** The hide flag stored for `k`, if `k` is stored. */
  function HideFlag(s: Store, k: Key): Option<bool>
  {
    match Get(s, k)
    case None => None
    case Some(v) => Some(v.hideInitialStateDiffs)
  }

  /** `resetCounters`: removes every key. */
  function ResetCounters(s: Store): (r: Store)
    ensures StoreValid(r)
    ensures forall k :: Get(r, k) == None
  {
    []
  }

  /** One count more for diff `d`: an existing diff keeps its position, a new
      one is appended with count 1. */
  function Increment(h: OMap<Diff, nat>, d: Diff): (r: OMap<Diff, nat>)
    ensures Keys(r) == if d in Keys(h) then Keys(h) else Keys(h) + [d]
    ensures Get(r, d).Some? && Get(r, d).value == (if Get(h, d).Some? then Get(h, d).value else 0) + 1
    ensures forall d' :: d' != d ==> Get(r, d') == Get(h, d')
    ensures ValueValid(Value(h, false)) ==> ValueValid(Value(r, false))
  {
    match Get(h, d)
    case Some(c) => Put(h, d, c + 1)
    case None => Put(h, d, 1)
  }

  /** `add`: counts one event. A key not yet stored is appended with a
      histogram holding only this diff and with the caller's hide flag; for
      a stored key the diff is counted in place and the stored flag stays
      (first writer wins). Every other key's entry and the key order are
      unchanged. */
  function Add(s: Store, e: Event): (r: Store)
    ensures StoreValid(s) ==> StoreValid(r)
    ensures e.key !in Keys(s) ==> r == s + [(e.key, Value([(e.diff, 1)], e.hideInitialStateDiffs))]
    ensures e.key in Keys(s) ==> Keys(r) == Keys(s) && HideFlag(r, e.key) == HideFlag(s, e.key)
    ensures e.key in Keys(s) ==>
      Get(r, e.key) == Some(Value(Increment(Get(s, e.key).value.differences, e.diff), Get(s, e.key).value.hideInitialStateDiffs))
    ensures Count(r, e.key, e.diff) == Count(s, e.key, e.diff) + 1
    ensures forall d :: d != e.diff ==> Count(r, e.key, d) == Count(s, e.key, d)
    ensures forall k :: k != e.key ==> Get(r, k) == Get(s, k)
    ensures forall i :: 0 <= i < |s| && s[i].0 != e.key ==> r[i] == s[i]
  {
    match Get(s, e.key)
    case Some(v) =>
      var r := Put(s, e.key, Value(Increment(v.differences, e.diff), v.hideInitialStateDiffs));
      AddToStoredKey(s, e, v);
      CountsAfterAddToStoredKey(s, e, v);
      r
    case None =>
      var r := Put(s, e.key, Value([(e.diff, 1)], e.hideInitialStateDiffs));
      AddNewKey(s, e);
      r
  }

  lemma AddToStoredKey(s: Store, e: Event, v: Value)
    requires Get(s, e.key) == Some(v)
    ensures var r := Put(s, e.key, Value(Increment(v.differences, e.diff), v.hideInitialStateDiffs));
      && (StoreValid(s) ==> StoreValid(r))
      && Keys(r) == Keys(s)
      && HideFlag(r, e.key) == HideFlag(s, e.key)
  {
    var nv := Value(Increment(v.differences, e.diff), v.hideInitialStateDiffs);
    var r := Put(s, e.key, nv);
    if StoreValid(s) {
      var i := Find(s, e.key);
      assert ValueValid(s[i].1) && s[i].1 == v;
      assert ValueValid(Value(v.differences, false));
      assert ValueValid(nv);
      forall j | 0 <= j < |r|
        ensures ValueValid(r[j].1)
      {
        assert r[j] == (e.key, nv) || r[j] == s[j];
      }
    }
  }

  lemma CountsAfterAddToStoredKey(s: Store, e: Event, v: Value)
    requires Get(s, e.key) == Some(v)
    ensures var r := Put(s, e.key, Value(Increment(v.differences, e.diff), v.hideInitialStateDiffs));
      && Count(r, e.key, e.diff) == Count(s, e.key, e.diff) + 1
      && forall d :: d != e.diff ==> Count(r, e.key, d) == Count(s, e.key, d)
  {
    var h := Increment(v.differences, e.diff);
    var r := Put(s, e.key, Value(h, v.hideInitialStateDiffs));
    assert Get(r, e.key) == Some(Value(h, v.hideInitialStateDiffs));
    assert Count(s, e.key, e.diff) == if Get(v.differences, e.diff).Some? then Get(v.differences, e.diff).value else 0;
    assert Count(r, e.key, e.diff) == Get(h, e.diff).value;
    forall d | d != e.diff
      ensures Count(r, e.key, d) == Count(s, e.key, d)
    {
      assert Get(h, d) == Get(v.differences, d);
    }
  }

  lemma AddNewKey(s: Store, e: Event)
    requires Get(s, e.key) == None
    ensures var r := Put(s, e.key, Value([(e.diff, 1)], e.hideInitialStateDiffs));
      && (StoreValid(s) ==> StoreValid(r))
      && r == s + [(e.key, Value([(e.diff, 1)], e.hideInitialStateDiffs))]
      && Count(r, e.key, e.diff) == 1
      && forall d :: d != e.diff ==> Count(r, e.key, d) == 0
  {
    var r := Put(s, e.key, Value([(e.diff, 1)], e.hideInitialStateDiffs));
    assert |r| == |s| + 1;
    var h: OMap<Diff, nat> := [(e.diff, 1)];
    assert Keys(h) == [e.diff];
    forall d | d != e.diff
      ensures Get(h, d) == None
    {
    }
  }

  // Sequences of events between two resets.

  /** The store after counting `es` in order, starting from `s`; a well-formed
      store (every key once, each with a non-empty histogram of distinct diffs
      and positive counts) stays well formed, whatever is added. */
  function AddAll(s: Store, es: seq<Event>): (r: Store)
    ensures StoreValid(s) ==> StoreValid(r)
  {
    if |es| == 0 then s else Add(AddAll(s, es[..|es| - 1]), es[|es| - 1])
  }

  /** Number of events in `es` with key `k` and diff `d`. */
  function Occurrences(es: seq<Event>, k: Key, d: Diff): nat
  {
    if |es| == 0 then 0
    else Occurrences(es[..|es| - 1], k, d) + (if es[|es| - 1].key == k && es[|es| - 1].diff == d then 1 else 0)
  }

  function EventKeys(es: seq<Event>): (ks: seq<Key>)
    ensures |ks| == |es|
    ensures forall i :: 0 <= i < |es| ==> ks[i] == es[i].key
  {
    seq(|es|, i requires 0 <= i < |es| => es[i].key)
  }

  /** The distinct elements of `xs`, each at the position of its first occurrence. */
  function FirstSeen<T(==)>(xs: seq<T>): seq<T>
  {
    if |xs| == 0 then []
    else
      var d := FirstSeen(xs[..|xs| - 1]);
      if xs[|xs| - 1] in d then d else d + [xs[|xs| - 1]]
  }

  lemma FirstSeenSnoc<T>(xs: seq<T>, x: T)
    ensures FirstSeen(xs + [x]) == if x in FirstSeen(xs) then FirstSeen(xs) else FirstSeen(xs) + [x]
  {
    assert (xs + [x])[..|xs|] == xs;
  }

  lemma {:induction false} FirstSeenMembers<T>(xs: seq<T>, x: T)
    ensures x in FirstSeen(xs) <==> x in xs
  {
    if |xs| > 0 {
      FirstSeenMembers(xs[..|xs| - 1], x);
      assert xs == xs[..|xs| - 1] + [xs[|xs| - 1]];
    }
  }

  /** After a reset each (key, diff) count is the number of `add` calls made
      with exactly that pair since. */
  lemma {:induction false} CountIsOccurrences(s: Store, es: seq<Event>, k: Key, d: Diff)
    ensures Count(AddAll(ResetCounters(s), es), k, d) == Occurrences(es, k, d)
  {
    if |es| > 0 {
      var init := es[..|es| - 1];
      var e := es[|es| - 1];
      CountIsOccurrences(s, init, k, d);
      var before := AddAll(ResetCounters(s), init);
      if k != e.key {
        assert Get(Add(before, e), k) == Get(before, k);
      }
    }
  }

  lemma KeysAfterAdd(s: Store, e: Event)
    ensures Keys(Add(s, e)) == if e.key in Keys(s) then Keys(s) else Keys(s) + [e.key]
  {
    if e.key !in Keys(s) {
      var v := Value([(e.diff, 1)], e.hideInitialStateDiffs);
      assert Add(s, e) == s + [(e.key, v)];
      assert Keys(s + [(e.key, v)]) == Keys(s) + [e.key];
    }
  }

  /** After a reset the keys are stored in the order of their first `add`
      call, each once: adding A, B, A, C stores A, B, C. */
  lemma {:induction false} KeysInFirstSeenOrder(s: Store, es: seq<Event>)
    ensures Keys(AddAll(ResetCounters(s), es)) == FirstSeen(EventKeys(es))
  {
    if |es| > 0 {
      var before := AddAll(ResetCounters(s), es[..|es| - 1]);
      assert AddAll(ResetCounters(s), es) == Add(before, es[|es| - 1]);
      KeysInFirstSeenOrder(s, es[..|es| - 1]);
      KeysInFirstSeenOrderStep(before, es);
    }
  }

  lemma KeysInFirstSeenOrderStep(before: Store, es: seq<Event>)
    requires |es| > 0
    requires Keys(before) == FirstSeen(EventKeys(es[..|es| - 1]))
    ensures Keys(Add(before, es[|es| - 1])) == FirstSeen(EventKeys(es))
  {
    var init := es[..|es| - 1];
    var e := es[|es| - 1];
    assert es == init + [e];
    assert EventKeys(es) == EventKeys(init) + [e.key];
    FirstSeenSnoc(EventKeys(init), e.key);
    KeysAfterAdd(before, e);
  }

  /** The diffs of the events with key `k`, in order. */
  function DiffsFor(es: seq<Event>, k: Key): seq<Diff>
  {
    if |es| == 0 then []
    else DiffsFor(es[..|es| - 1], k) + (if es[|es| - 1].key == k then [es[|es| - 1].diff] else [])
  }

  /** After a reset a key is stored exactly when some event had it, and its
      histogram lists the distinct diffs of its events in the order of their
      first occurrence: diffs D1, D2, D1 for one key print D1 before D2. */
  lemma {:induction false} DiffsInFirstSeenOrder(s: Store, es: seq<Event>, k: Key)
    ensures Get(AddAll(ResetCounters(s), es), k).Some? <==> |DiffsFor(es, k)| > 0
    ensures Get(AddAll(ResetCounters(s), es), k).Some? ==>
      Keys(Get(AddAll(ResetCounters(s), es), k).value.differences) == FirstSeen(DiffsFor(es, k))
  {
    if |es| > 0 {
      var init := es[..|es| - 1];
      DiffsInFirstSeenOrder(s, init, k);
      assert AddAll(ResetCounters(s), es) == Add(AddAll(ResetCounters(s), init), es[|es| - 1]);
      DiffsInFirstSeenOrderStep(AddAll(ResetCounters(s), init), es[|es| - 1], k, DiffsFor(init, k));
    }
  }

  lemma DiffsInFirstSeenOrderStep(before: Store, e: Event, k: Key, ds: seq<Diff>)
    requires Get(before, k).Some? <==> |ds| > 0
    requires Get(before, k).Some? ==> Keys(Get(before, k).value.differences) == FirstSeen(ds)
    ensures var ds' := ds + (if e.key == k then [e.diff] else []);
      && (Get(Add(before, e), k).Some? <==> |ds'| > 0)
      && (Get(Add(before, e), k).Some? ==> Keys(Get(Add(before, e), k).value.differences) == FirstSeen(ds'))
  {
    var after := Add(before, e);
    if e.key == k {
      FirstSeenSnoc(ds, e.diff);
      if Get(before, k).None? {
        var h: OMap<Diff, nat> := [(e.diff, 1)];
        assert after == before + [(k, Value(h, e.hideInitialStateDiffs))];
        assert Get(after, k) == Some(Value(h, e.hideInitialStateDiffs));
        assert Keys(h) == [e.diff];
        assert ds == [];
        assert FirstSeen(ds + [e.diff]) == [e.diff];
      }
    } else {
      assert ds + [] == ds;
    }
  }

  /** First writer wins: after a reset, the hide flag stored for a key is the
      one passed by the first `add` call for that key. */
  lemma {:induction false} HideFlagOfFirstEvent(s: Store, es: seq<Event>, i: nat)
    requires i < |es|
    requires forall j :: 0 <= j < i ==> es[j].key != es[i].key
    ensures HideFlag(AddAll(ResetCounters(s), es), es[i].key) == Some(es[i].hideInitialStateDiffs)
  {
    var init := es[..|es| - 1];
    var e := es[|es| - 1];
    var k := es[i].key;
    var before := AddAll(ResetCounters(s), init);
    if i == |es| - 1 {
      KeysInFirstSeenOrder(s, init);
      FirstSeenMembers(EventKeys(init), k);
      assert k !in Keys(before);
    } else {
      HideFlagOfFirstEvent(s, init, i);
      if e.key != k {
        assert Get(Add(before, e), k) == Get(before, k);
      }
    }
  }

  lemma FirstSeenExample(x: Key, y: Key, z: Key)
    requires x != y && x != z && y != z
    ensures FirstSeen([x, y, x, z]) == [x, y, z]
  {
    assert [x, y, x, z][..3] == [x, y, x];
    assert [x, y, x][..2] == [x, y];
    assert [x, y][..1] == [x];
    assert [x][..0] == [];
    assert FirstSeen([x]) == [x];
    assert FirstSeen([x, y]) == [x, y];
    assert FirstSeen([x, y, x]) == [x, y];
  }

  lemma ExampleKeysFirstSeen(es: seq<Event>)
    requires |es| == 4 && es[2].key == es[0].key
    requires es[0].key != es[1].key && es[0].key != es[3].key && es[1].key != es[3].key
    ensures FirstSeen(EventKeys(es)) == [es[0].key, es[1].key, es[3].key]
  {
    assert EventKeys(es) == [es[0].key, es[1].key, es[0].key, es[3].key];
    FirstSeenExample(es[0].key, es[1].key, es[3].key);
  }

  /** The order-preservation example: adding with keys A, B, A, C leaves the
      keys A, B, C in the store. */
  lemma OrderExample(s: Store, es: seq<Event>)
    requires |es| == 4 && es[2].key == es[0].key
    requires es[0].key != es[1].key && es[0].key != es[3].key && es[1].key != es[3].key
    ensures Keys(AddAll(ResetCounters(s), es)) == [es[0].key, es[1].key, es[3].key]
  {
    ExampleKeysFirstSeen(es);
    KeysInFirstSeenOrder(s, es);
  }
}
