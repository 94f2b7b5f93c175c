/**
 The shared scheduler state of src/scheduler.rs: the heap and its push counter,
 updated under one lock.  Each method is one of the steps of SchedulerModel.
 */
module Scheduler {
  import opened Basics
  import opened SchedulerModel

  class Inner {
    var heap: set<Entry>
    var counter: nat

    constructor ()
      ensures heap == {} && counter == 0
    {
      heap, counter := {}, 0;
    }

    ghost predicate Mirrors(s: State)
      reads this
    {
      heap == s.heap && counter == s.counter && HeapInv(s)
    }

    /** The locked part of the push that schedule spawns. */
    method Push(key: string, due: real, ghost s: State)
      requires Mirrors(s) && Enabled(s, SchedulerModel.Push(key, due))
      modifies this
      ensures Mirrors(Next(s, SchedulerModel.Push(key, due)))
    {
      HeapInvKept(s, SchedulerModel.Push(key, due));
      counter := counter + 1;
      heap := heap + {Entry(due, counter, key)};
    }

    /** peek: the entry on top of the heap. */
    method Peek(ghost s: State) returns (top: Option<Entry>)
      requires Mirrors(s)
      ensures s.phase == Peeking ==> Enabled(s, SchedulerModel.Peek(top))
      ensures if heap == {} then top == None else top.Some? && IsTop(heap, top.value)
    {
      if heap == {} {
        return None;
      }
      var best :| best in heap;
      var rest := heap - {best};
      while rest != {}
        invariant rest <= heap && IsTop(heap - rest, best)
        decreases rest
      {
        var x :| x in rest;
        if Above(x, best) {
          forall y | y in heap - rest ensures Above(x, y) {
            if y != best {
              AboveIsTransitive(x, best, y);
            }
          }
          best := x;
        }
        rest := rest - {x};
      }
      return Some(best);
    }

    /** The re-check under the lock: pop the top entry if it is due by now. */
    method PopIfDue(now: real, ghost s: State) returns (popped: Option<Entry>)
      requires Mirrors(s) && s.phase == Popping && s.clock == now
      modifies this
      ensures match popped
              case Some(e) =>
                Enabled(s, SchedulerModel.Pop(e)) && Mirrors(Next(s, SchedulerModel.Pop(e)))
              case None =>
                Enabled(s, SchedulerModel.PopNothing) && Mirrors(Next(s, SchedulerModel.PopNothing))
    {
      var top := Peek(s);
      if top.Some? && top.value.due <= now {
        HeapInvKept(s, SchedulerModel.Pop(top.value));
        heap := heap - {top.value};
        return top;
      }
      forall x | x in heap ensures x.due > now {
        assert x == top.value || Above(top.value, x);
      }
      HeapInvKept(s, PopNothing);
      return None;
    }
  }
}
