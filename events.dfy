/**
  The event bus of the counter (`trigger`, `on`, `off`, src/counter.js:269-328)
  as functions on the listener lists. A callback is represented by what it
  does when called: whether it returns `false`, what it writes into the
  event's `defaultPrevented` field, and whether it calls `stop()`.
 */
module Events {
  import opened Wrappers

  /**
    A registered callback. `id` stands for the function's identity, the
    thing `off` compares with `===`; the other fields say what the function
    does when called.
   */
  datatype Listener = Listener(id: nat, returnsFalse: bool, setsPrevented: Option<bool>, callsStop: bool)

  /** `this._events`: event name to the list of callbacks in registration order. */
  type Registry = map<string, seq<Listener>>

  /** `this._events[name]`, an absent entry read as the empty list. */
  function Listeners(events: Registry, name: string): seq<Listener> {
    if name in events then events[name] else []
  }

  /** `this._events[name]`, possibly `undefined`. */
  function Lookup(events: Registry, name: string): Option<seq<Listener>> {
    if name in events then Some(events[name]) else None
  }

  /**
    The callbacks `trigger` calls, in the order it calls them: from the last
    registered to the first, up to and including the first that returns
    `false`.
   */
  function Invoked(ls: seq<Listener>): seq<Listener>
    decreases |ls|
  {
    if ls == [] then []
    else if ls[|ls| - 1].returnsFalse then [ls[|ls| - 1]]
    else [ls[|ls| - 1]] + Invoked(ls[..|ls| - 1])
  }

  /**
    What `Invoked` means: the registered callbacks read backwards, at least
    one of them when there is one, none but the last returning `false`, and
    cut short only by one that returns `false`.
   */
  lemma {:induction false} InvokedReversePrefix(ls: seq<Listener>)
    ensures var r := Invoked(ls);
            && |r| <= |ls|
            && (|ls| > 0 ==> |r| > 0)
            && (forall k :: 0 <= k < |r| ==> r[k] == ls[|ls| - 1 - k])
            && (forall k :: 0 <= k < |r| - 1 ==> !r[k].returnsFalse)
            && (|r| < |ls| ==> r[|r| - 1].returnsFalse)
    decreases |ls|
  {
    if ls != [] && !ls[|ls| - 1].returnsFalse {
      var init := ls[..|ls| - 1];
      InvokedReversePrefix(init);
      var r := Invoked(ls);
      assert r == [ls[|ls| - 1]] + Invoked(init);
      forall k | 1 <= k < |r|
        ensures r[k] == ls[|ls| - 1 - k]
      {
        assert r[k] == Invoked(init)[k - 1] == init[|init| - 1 - (k - 1)];
      }
    }
  }

  /**
    The event object's `defaultPrevented` after the callbacks `called` have
    run in order, starting from `flag`: each may overwrite the field, and one
    that returns `false` sets it and ends the walk.
   */
  function PreventedAfter(called: seq<Listener>, flag: bool): bool
    decreases |called|
  {
    if called == [] then flag
    else
      var l := called[0];
      var f := if l.setsPrevented.Some? then l.setsPrevented.value else flag;
      if l.returnsFalse then true else PreventedAfter(called[1..], f)
  }

  /** What `trigger` returns for the callbacks `ls`: the default was not prevented. */
  predicate NotPrevented(ls: seq<Listener>) {
    !PreventedAfter(Invoked(ls), false)
  }

  /** Some callback in `ls` calls `stop()`. */
  predicate AnyStops(ls: seq<Listener>) {
    exists k :: 0 <= k < |ls| && ls[k].callsStop
  }

  lemma AppendAssoc(a: seq<Listener>, b: seq<Listener>, c: seq<Listener>)
    ensures (a + b) + c == a + (b + c)
  {
  }

  /**
    One step of `trigger`'s walk: the callbacks called for the first `i + 1`
    entries are entry `i`, then, unless it returns `false`, those for the
    first `i`; and the walk's `defaultPrevented` follows suit.
   */
  lemma InvokedStep(ls: seq<Listener>, i: nat, flag: bool)
    requires i < |ls|
    ensures var l := ls[i];
            var f := if l.setsPrevented.Some? then l.setsPrevented.value else flag;
            && Invoked(ls[..i + 1]) == (if l.returnsFalse then [l] else [l] + Invoked(ls[..i]))
            && PreventedAfter(Invoked(ls[..i + 1]), flag) ==
               (if l.returnsFalse then true else PreventedAfter(Invoked(ls[..i]), f))
  {
    var l := ls[i];
    assert ls[..i + 1][..i] == ls[..i];
    if !l.returnsFalse {
      assert ([l] + Invoked(ls[..i]))[1..] == Invoked(ls[..i]);
    }
  }

  /** No callback in `ls` calls `stop()`. */
  predicate NoneStops(ls: seq<Listener>) {
    forall l :: l in ls ==> !l.callsStop
  }

  lemma AnyStopsAppend(called: seq<Listener>, l: Listener)
    ensures AnyStops(called + [l]) <==> AnyStops(called) || l.callsStop
  {
    if AnyStops(called) {
      var k :| 0 <= k < |called| && called[k].callsStop;
      assert (called + [l])[k] == called[k];
    }
    if l.callsStop {
      assert (called + [l])[|called|] == l;
    }
    if AnyStops(called + [l]) {
      var k :| 0 <= k < |called + [l]| && (called + [l])[k].callsStop;
      if k < |called| {
        assert called[k] == (called + [l])[k];
      }
    }
  }

  /** Callbacks that never call `stop()` cannot stop the counter from inside `trigger`. */
  lemma NoneStopsInvoked(ls: seq<Listener>)
    requires NoneStops(ls)
    ensures !AnyStops(Invoked(ls))
  {
    InvokedReversePrefix(ls);
    var r := Invoked(ls);
    forall k | 0 <= k < |r|
      ensures !r[k].callsStop
    {
      assert r[k] == ls[|ls| - 1 - k];
    }
  }

  lemma {:induction false} PreventedAfterEndsFalse(called: seq<Listener>, flag: bool)
    requires |called| > 0 && called[|called| - 1].returnsFalse
    ensures PreventedAfter(called, flag)
    decreases |called|
  {
    if !called[0].returnsFalse {
      var l := called[0];
      PreventedAfterEndsFalse(called[1..], if l.setsPrevented.Some? then l.setsPrevented.value else flag);
    }
  }

  lemma {:induction false} PreventedAfterNoWrites(called: seq<Listener>)
    requires forall k :: 0 <= k < |called| ==> !called[k].returnsFalse && called[k].setsPrevented.None?
    ensures !PreventedAfter(called, false)
    decreases |called|
  {
    if called != [] {
      PreventedAfterNoWrites(called[1..]);
    }
  }

  /**
    A callback that returns `false` always prevents the default, whatever the
    others write into the event object.
   */
  lemma ReturningFalsePrevents(ls: seq<Listener>, i: nat)
    requires i < |ls| && ls[i].returnsFalse
    ensures !NotPrevented(ls)
  {
    var r := Invoked(ls);
    InvokedReversePrefix(ls);
    if |r| == |ls| {
      assert r[|ls| - 1 - i] == ls[i];
    }
    PreventedAfterEndsFalse(r, false);
  }

  /**
    When no callback touches `defaultPrevented`, `trigger` reports "not
    prevented" exactly when no callback returns `false`.
   */
  lemma NotPreventedIffNoFalse(ls: seq<Listener>)
    requires forall k :: 0 <= k < |ls| ==> ls[k].setsPrevented.None?
    ensures NotPrevented(ls) <==> forall k :: 0 <= k < |ls| ==> !ls[k].returnsFalse
  {
    if exists k :: 0 <= k < |ls| && ls[k].returnsFalse {
      var k :| 0 <= k < |ls| && ls[k].returnsFalse;
      ReturningFalsePrevents(ls, k);
    } else {
      var r := Invoked(ls);
      InvokedReversePrefix(ls);
      PreventedAfterNoWrites(r);
    }
  }

  /**
    Callbacks A then B, both returning nothing: B is called before A. If B
    returns `false`, A is never called and the default is prevented.
   */
  lemma TwoListenersExample(a: Listener, b: Listener)
    requires !a.returnsFalse && a.setsPrevented.None?
    ensures !b.returnsFalse ==> Invoked([a, b]) == [b, a]
    ensures b.returnsFalse ==> Invoked([a, b]) == [b] && !NotPrevented([a, b])
  {
    assert [a, b][..1] == [a];
    assert [a][..0] == [];
    assert Invoked([a]) == [a];
  }

  // ---------------------------------------------------------------------------
  // `off`

  /** `typeof callback === "undefined" || listener === callback`. */
  predicate Matches(l: Listener, cb: Option<Listener>) {
    cb.None? || l.id == cb.value.id
  }

  /** The list with every callback that `cb` matches taken out, order kept. */
  function Without(ls: seq<Listener>, cb: Option<Listener>): (r: seq<Listener>)
    ensures |r| <= |ls|
    ensures forall x :: x in r <==> x in ls && !Matches(x, cb)
    decreases |ls|
  {
    if ls == [] then []
    else (if Matches(ls[0], cb) then [] else [ls[0]]) + Without(ls[1..], cb)
  }

  lemma {:induction false} WithoutAppend(a: seq<Listener>, b: seq<Listener>, cb: Option<Listener>)
    ensures Without(a + b, cb) == Without(a, cb) + Without(b, cb)
    decreases |a|
  {
    if a != [] {
      assert (a + b)[1..] == a[1..] + b;
      WithoutAppend(a[1..], b, cb);
    } else {
      assert a + b == b;
    }
  }

  lemma {:induction false} WithoutNoMatch(ls: seq<Listener>, cb: Option<Listener>)
    requires forall k :: 0 <= k < |ls| ==> !Matches(ls[k], cb)
    ensures Without(ls, cb) == ls
    decreases |ls|
  {
    if ls != [] {
      WithoutNoMatch(ls[1..], cb);
    }
  }

  /** `off(name, cb)` undoes `on(name, cb)` for a callback that was not registered before. */
  lemma OffUndoesOn(ls: seq<Listener>, cb: Listener)
    requires forall k :: 0 <= k < |ls| ==> ls[k].id != cb.id
    ensures Without(ls + [cb], Some(cb)) == ls
  {
    WithoutAppend(ls, [cb], Some(cb));
    WithoutNoMatch(ls, Some(cb));
  }

  /** `off(name)` without a callback empties the list. */
  lemma OffAllEmpties(ls: seq<Listener>)
    ensures Without(ls, None) == []
  {
    if Without(ls, None) != [] {
      assert Without(ls, None)[0] in Without(ls, None);
    }
  }

  /**
    The first loop of `off` pushes index `q` when the callback at `q` matches;
    past the end of the list the element reads as `undefined`, which only an
    omitted callback matches.
   */
  predicate Pushes(ls: seq<Listener>, cb: Option<Listener>, q: nat) {
    cb.None? || (q < |ls| && Matches(ls[q], cb))
  }

  /** The `result` array of `off` after its first loop has run for `0 <= i < n`. */
  function Collected(ls: seq<Listener>, cb: Option<Listener>, n: nat): seq<nat> {
    if n == 0 then [] else Collected(ls, cb, n - 1) + (if Pushes(ls, cb, n - 1) then [n - 1] else [])
  }

  /**
    Run over the whole list, the first loop collects exactly the indices of
    the matching callbacks, in increasing order.
   */
  lemma {:induction false} CollectedMatches(ls: seq<Listener>, cb: Option<Listener>, n: nat)
    requires n <= |ls|
    ensures var r := Collected(ls, cb, n);
            (forall t :: 0 <= t < |r| ==> r[t] < n && Matches(ls[r[t]], cb)) &&
            (forall t, u :: 0 <= t < u < |r| ==> r[t] < r[u]) &&
            (forall q :: 0 <= q < n && Matches(ls[q], cb) ==> q in r)
    decreases n
  {
    if n > 0 {
      CollectedMatches(ls, cb, n - 1);
    }
  }

  /** The indices listed in `indices`, as a set. */
  function Positions(indices: seq<nat>): (p: set<nat>)
    ensures forall t :: t in p <==> t in indices
  {
    set t | t in indices
  }

  /** The callbacks at the positions `j..` of `ls` whose index is not in `removed`. */
  function KeepFrom(ls: seq<Listener>, removed: set<nat>, j: nat): seq<Listener>
    requires j <= |ls|
    decreases |ls| - j
  {
    if j == |ls| then [] else (if j in removed then [] else [ls[j]]) + KeepFrom(ls, removed, j + 1)
  }

  lemma {:induction false} KeepFromGap(ls: seq<Listener>, removed: set<nat>, a: nat, b: nat)
    requires a <= b <= |ls|
    requires forall q :: a <= q < b ==> q !in removed
    ensures KeepFrom(ls, removed, a) == ls[a..b] + KeepFrom(ls, removed, b)
    decreases b - a
  {
    if a < b {
      KeepFromGap(ls, removed, a + 1, b);
      calc {
        KeepFrom(ls, removed, a);
        [ls[a]] + KeepFrom(ls, removed, a + 1);
        [ls[a]] + (ls[a + 1..b] + KeepFrom(ls, removed, b));
        { AppendAssoc([ls[a]], ls[a + 1..b], KeepFrom(ls, removed, b)); }
        ([ls[a]] + ls[a + 1..b]) + KeepFrom(ls, removed, b);
        { assert [ls[a]] + ls[a + 1..b] == ls[a..b]; }
        ls[a..b] + KeepFrom(ls, removed, b);
      }
    } else {
      assert ls[a..b] == [];
    }
  }

  /**
    One splice of the second loop of `off`: with the indices from `low` up
    already gone, removing index `j` (listed, with nothing listed between
    `j` and `low`) leaves the indices from `j` up gone.
   */
  lemma SpliceStep(ls: seq<Listener>, removed: set<nat>, j: nat, low: nat)
    requires j < low <= |ls| && j in removed
    requires forall q :: j < q < low ==> q !in removed
    ensures var cur := ls[..low] + KeepFrom(ls, removed, low);
            j < |cur| && cur[..j] + cur[j + 1..] == ls[..j] + KeepFrom(ls, removed, j)
  {
    var rest := KeepFrom(ls, removed, low);
    var cur := ls[..low] + rest;
    SliceAround(ls[..low], rest, j);
    assert cur[..j] == ls[..j] by {
      assert ls[..low][..j] == ls[..j];
    }
    assert cur[j + 1..] == ls[j + 1..low] + rest by {
      assert ls[..low][j + 1..] == ls[j + 1..low];
    }
    KeepFromGap(ls, removed, j + 1, low);
    assert KeepFrom(ls, removed, j) == KeepFrom(ls, removed, j + 1) by {
      assert [] + KeepFrom(ls, removed, j + 1) == KeepFrom(ls, removed, j + 1);
    }
  }

  /** Cutting out index `j` of `a + b` where `j` falls inside `a`. */
  lemma SliceAround(a: seq<Listener>, b: seq<Listener>, j: nat)
    requires j < |a|
    ensures (a + b)[..j] == a[..j] && (a + b)[j + 1..] == a[j + 1..] + b
  {
  }

  /** Splicing a callback out never adds one that calls `stop()`. */
  lemma SpliceNoneStops(ls: seq<Listener>, j: nat)
    requires j < |ls| && NoneStops(ls)
    ensures NoneStops(ls[..j] + ls[j + 1..])
  {
    forall l | l in ls[..j] + ls[j + 1..]
      ensures l in ls
    {
      if l in ls[..j] {
        var k :| 0 <= k < j && ls[..j][k] == l;
        assert ls[k] == l;
      } else {
        var k :| 0 <= k < |ls| - j - 1 && ls[j + 1..][k] == l;
        assert ls[j + 1 + k] == l;
      }
    }
  }

  /** Dropping the indices of the matching callbacks leaves `Without`. */
  lemma {:induction false} KeepFromMatches(ls: seq<Listener>, cb: Option<Listener>, removed: set<nat>, j: nat)
    requires j <= |ls|
    requires forall q :: j <= q < |ls| ==> (q in removed <==> Matches(ls[q], cb))
    ensures KeepFrom(ls, removed, j) == Without(ls[j..], cb)
    decreases |ls| - j
  {
    if j < |ls| {
      KeepFromMatches(ls, cb, removed, j + 1);
      assert ls[j..][1..] == ls[j + 1..];
    }
  }

  // ---------------------------------------------------------------------------
  // The loop guard of `off` as written at src/counter.js:318:
  //   i < this._events[eventName] ? this._events[eventName].length : 0
  // `<` binds tighter than `?:`, so this is `(i < list) ? list.length : 0`.

  /**
    The number that `<` makes of `this._events[name]`: `undefined` becomes
    NaN (`None`); an array becomes the string of its elements joined by
    commas, which is `""`, hence 0, for the empty array, and the source text
    of its functions, which is NaN, otherwise.
   */
  function ListAsNumber(x: Option<seq<Listener>>): Option<int> {
    if x == Some([]) then Some(0) else None
  }

  /** `i < v`, false whenever `v` is NaN. */
  predicate LessThan(i: int, v: Option<int>) {
    v.Some? && i < v.value
  }

  /** The value of the loop guard at line 318 for index `i`. */
  function OffGuardAsWritten(i: nat, x: Option<seq<Listener>>): int {
    if LessThan(i, ListAsNumber(x)) then (if x.Some? then |x.value| else 0) else 0
  }

  /** The literal guard is 0 for every index and every list, so the loop never runs. */
  lemma OffGuardAsWrittenIsZero(i: nat, x: Option<seq<Listener>>)
    ensures OffGuardAsWritten(i, x) == 0
  {
  }

  /**
    A registered callback: the intended guard `0 < list.length` holds and the
    literal one does not.
   */
  lemma OffGuardCounterexample(cb: Listener)
    ensures 0 < |[cb]| && OffGuardAsWritten(0, Some([cb])) == 0
  {
  }
}
