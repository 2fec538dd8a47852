/** The in-memory rollback log: reverse deltas of commits, and undoing the last few at once. */
module Rollbacks {
  import opened Wrappers

  type Key = nat
  type Value = seq<nat>
  type State = map<Key, Value>

  /** The prior value of each key a commit writes, `None` where there was none. */
  type Delta = map<Key, Option<Value>>

  function Prior(s: State, k: Key): Option<Value> { if k in s then Some(s[k]) else None }

  /** The state with the listed values put back. */
  ghost function Restored(s: State, d: Delta): State {
    map k | k in s.Keys + d.Keys && (if k in d then d[k].Some? else true) :: if k in d then d[k].value else s[k]
  }

  lemma RestoredAt(s: State, d: Delta, k: Key)
    ensures Prior(Restored(s, d), k) == if k in d then d[k] else Prior(s, k)
  {
  }

  lemma SameState(s: State, t: State)
    requires forall k: Key :: Prior(s, k) == Prior(t, k)
    ensures s == t
  {
    forall k: Key ensures (k in s <==> k in t) && (k in s ==> s[k] == t[k]) { assert Prior(s, k) == Prior(t, k); }
  }

  /** The delta holds the values before a commit of everything that differs after it. */
  ghost predicate Undoes(d: Delta, before: State, after: State) {
    && (forall k | k in d :: d[k] == Prior(before, k))
    && (forall k: Key | k !in d :: Prior(before, k) == Prior(after, k))
  }

  // ----- recording a delta

  datatype KeyReadWrite =
    | Read(seen: Option<Value>)
    | Write(written: Option<Value>)
    | ReadThenWrite(prior: Option<Value>, written: Option<Value>)

  ghost predicate IsWritten(actuals: seq<(Key, KeyReadWrite)>, n: nat, k: Key)
    requires n <= |actuals|
  {
    exists i | 0 <= i < n :: actuals[i].0 == k && !actuals[i].1.Read?
  }

  /** From what was speculatively looked up, what was read, and further look-ups, the prior value of
      exactly the written keys. */
  method Finalize(store: State, tentative: Delta, actuals: seq<(Key, KeyReadWrite)>) returns (d: Delta)
    requires forall k | k in tentative :: tentative[k] == Prior(store, k)
    requires forall i | 0 <= i < |actuals| && actuals[i].1.ReadThenWrite? ::
               actuals[i].1.prior == Prior(store, actuals[i].0)
    ensures forall k: Key :: k in d <==> IsWritten(actuals, |actuals|, k)
    ensures forall k | k in d :: d[k] == Prior(store, k)
  {
    var left: Delta, final: Delta, fetched: Delta := tentative, map[], map[];
    for i := 0 to |actuals|
      invariant forall k | k in left :: left[k] == Prior(store, k)
      invariant forall k | k in final :: final[k] == Prior(store, k)
      invariant forall k | k in fetched :: fetched[k] == Prior(store, k)
      invariant forall k: Key :: k in final || k in fetched <==> IsWritten(actuals, i, k)
    {
      var (k, rw) := actuals[i];
      match rw {
        case Read(_) =>
        case Write(_) =>
          if k in left {
            final := final[k := left[k]];
            left := left - {k};
          } else {
            fetched := fetched[k := Prior(store, k)];
          }
        case ReadThenWrite(prior, _) => final := final[k := prior];
      }
      assert forall x: Key :: IsWritten(actuals, i + 1, x) <==> IsWritten(actuals, i, x) || (x == k && !rw.Read?);
    }
    d := final + fetched;
  }

  // ----- the log

  type RecordId = nat

  class Rollback {
    var log: seq<(RecordId, Delta)>
    var pendingTruncate: Option<nat>
    const maxLen: nat
    /** The states between the commits in the log, oldest first; the last one is the current state. */
    ghost var states: seq<State>

    ghost predicate Valid()
      reads this
    {
      && |states| == |log| + 1
      && (forall i | 0 <= i < |log| :: Undoes(log[i].1, states[i], states[i + 1]))
      && (forall i | 0 <= i < |log| :: log[i].0 > 0)
    }

    ghost function Current(): State
      requires Valid()
      reads this
    {
      states[|log|]
    }

    constructor (maxLen: nat, ghost state: State)
      ensures Valid() && log == [] && Current() == state && this.maxLen == maxLen
    {
      this.maxLen, log, pendingTruncate, states := maxLen, [], None, [state];
    }

    /** Save the delta of a commit that leads to the given state. */
    method Commit(delta: Delta, id: RecordId, ghost after: State)
      requires Valid() && id > 0 && Undoes(delta, Current(), after)
      modifies this`log, this`states
      ensures Valid() && log == old(log) + [(id, delta)] && states == old(states) + [after]
    {
      log, states := log + [(id, delta)], states + [after];
    }

    /** Take the last `n` deltas off the log and gather the values to put back. */
    method Truncate(n: nat) returns (r: Option<Delta>)
      requires Valid() && n > 0
      modifies this
      ensures Valid() && (r.Some? <==> n <= |old(log)|)
      ensures r.None? ==> log == old(log) && states == old(states) && pendingTruncate == old(pendingTruncate)
      ensures r.Some? ==> log == old(log)[..|old(log)| - n] && states == old(states)[..|old(log)| - n + 1]
      ensures r.Some? ==> Restored(old(Current()), r.value) == Current()
      ensures r.Some? ==> pendingTruncate == Some(old(log)[|old(log)| - n].0 - 1)
    {
      if n > |log| { return None; }
      var left, traceback: Delta, earliest := n, map[], 0;
      ghost var log0, states0, now := log, states, Current();
      NothingRestored(now);
      while left > 0
        invariant 0 <= left <= n && log == log0[..|log0| - (n - left)] && states == states0[..|log0| - (n - left) + 1]
        invariant Valid() && Restored(now, traceback) == Current()
        invariant left < n ==> earliest == log0[|log0| - (n - left)].0 && earliest > 0
        decreases left
      {
        var (id, delta) := log[|log| - 1];
        StepBack(now, traceback, delta, states[|log| - 1], states[|log|]);
        log, earliest := log[..|log| - 1], id;
        states := states[..|states| - 1];
        traceback := traceback + delta;
        left := left - 1;
      }
      pendingTruncate := Some(earliest - 1);
      r := Some(traceback);
    }

    /** Begin a sync: carry out a pending truncation, or let the log go below its greatest length. */
    method WriteoutStart() returns (newStart: Option<nat>, newEnd: Option<nat>)
      requires Valid()
      modifies this
      ensures Valid() && Current() == old(Current()) && pendingTruncate == None && newEnd == old(pendingTruncate)
      ensures if old(pendingTruncate).None? && |old(log)| > maxLen
              then log == old(log)[1..] && states == old(states)[1..] && newStart == Some(old(log)[0].0 + 1)
              else log == old(log) && states == old(states) && newStart == None
    {
      newStart, newEnd := None, pendingTruncate;
      pendingTruncate := None;
      if newEnd.Some? { return; }
      if |log| > maxLen {
        newStart := Some(log[0].0 + 1);
        log, states := log[1..], states[1..];
      }
    }
  }

  lemma NothingRestored(s: State)
    ensures Restored(s, map[]) == s
  {
  }

  /** Adding an older delta, whose values win, goes one state further back. */
  lemma StepBack(now: State, traceback: Delta, delta: Delta, before: State, after: State)
    requires Restored(now, traceback) == after && Undoes(delta, before, after)
    ensures Restored(now, traceback + delta) == before
  {
    forall k: Key ensures Prior(Restored(now, traceback + delta), k) == Prior(before, k) {
      RestoredAt(now, traceback + delta, k);
      RestoredAt(now, traceback, k);
    }
    SameState(Restored(now, traceback + delta), before);
  }
}
