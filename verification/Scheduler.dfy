/** Threads and the round-robin scheduler (kernel/threading/thread.c, kernel/threading/scheduler.c) on real pointers. */
module Scheduler {
  import opened Arithmetic
  import opened TailQueue

  datatype ThreadState = Created | Ready | Running | Blocked | Zombie

  /** A thread is its queue entry `next`, which both the list of all threads and the ready queue use, and its state. */
  type Thread = Link<ThreadState>

  class Kernel {
    const kernelThreads: Thread
    const readyQueue: Thread
    const addressZero: Thread
    var current: Thread

    /** The created threads are in the ready queue, and behind idle in the list of all, through the same links. */
    ghost predicate BootLinks(idle: Thread, created: seq<Thread>)
      reads kernelThreads`next, kernelThreads`back, readyQueue`next, readyQueue`back
      reads idle`next, idle`back, created`next, created`back
    {
      && Chain([readyQueue] + created)
      && Forward([kernelThreads, idle] + created)
      && readyQueue != kernelThreads && readyQueue != idle
    }

    /** Before the first tick: the idle thread runs outside the ready queue, and the created threads are ready. */
    ghost predicate Booted(idle: Thread, created: seq<Thread>)
      reads this`current, kernelThreads, readyQueue, idle, created
    {
      && BootLinks(idle, created)
      && current == idle && idle.item == Running
      && (forall i :: 0 <= i < |created| ==> created[i].item == Ready)
    }

    /** The ready queue, followed forwards, holds `q`; of the back pointers only the first thread's is meaningful. */
    ghost predicate Queued(q: seq<Thread>)
      reads readyQueue`next, readyQueue`back, q`next, q`back
    {
      q != [] && Forward([readyQueue] + q) && q[0].back == readyQueue
    }

    /** The running thread is the last of `q` and the others are ready. */
    ghost predicate LastRuns(q: seq<Thread>)
      reads this`current, q`item
    {
      && q != [] && current == q[|q| - 1] && current.item == Running
      && (forall i :: 0 <= i < |q| - 1 ==> q[i].item == Ready)
    }

    /** What holds between ticks. */
    ghost predicate Ticking(q: seq<Thread>)
      reads this`current, readyQueue, q
    {
      Queued(q) && LastRuns(q)
    }

    /**
     * `threading_setup`, which makes the idle thread and queues it before the ready queue is initialised, and then
     * `scheduler_setup`. The zero `tqh_last` of the queue addresses the word at address 0.
     */
    constructor ()
      ensures fresh(kernelThreads) && fresh(readyQueue) && fresh(addressZero) && fresh(current)
      ensures Booted(current, []) && addressZero.next == current
    {
      kernelThreads := new Link(Created);
      readyQueue := new Link(Created);
      addressZero := new Link(Created);
      current := new Link(Created);
      new;
      readyQueue.back := addressZero;
      Setup();
    }

    method Setup()
      requires Distinct([kernelThreads, readyQueue, addressZero, current])
      requires current.item == Created && readyQueue.back == addressZero
      modifies kernelThreads, readyQueue, addressZero, current, this`current
      ensures Booted(current, []) && current == old(current) && addressZero.next == current
    {
      var idle := current;
      ghost var links := [kernelThreads, readyQueue, addressZero, idle];
      assert links[0] == kernelThreads && links[1] == readyQueue && links[2] == addressZero && links[3] == idle;
      Init(kernelThreads);
      InsertTail(kernelThreads, idle, [kernelThreads]);
      SetReady(idle, [readyQueue]);
      idle.item := Ready;
      SetCurrent(idle);
      Init(readyQueue);
      assert [kernelThreads, idle] + [] == [kernelThreads] + [idle];
      assert [readyQueue] + [] == [readyQueue];
    }

    method AddInReadyQueue(thr: Thread, insertAtTail: bool, ghost links: seq<Thread>)
      requires readyQueue.back != null && thr != readyQueue
      requires thr.item in {Created, Running, Blocked}
      requires !insertAtTail ==> Chain(links) && readyQueue == links[0] && thr !in links
      modifies thr, readyQueue`back
      modifies (if insertAtTail then {readyQueue.back} else {readyQueue})`next
      modifies (if insertAtTail || readyQueue.next == null then {} else {readyQueue.next})`back
      ensures thr.item == Ready
      ensures insertAtTail ==>
          && thr.back == old(readyQueue.back) && readyQueue.back == thr && old(readyQueue.back).next == thr
          && (old(readyQueue.back) != thr ==> thr.next == null)
      ensures insertAtTail && old(OpenChain(links)) && readyQueue == links[0] && thr !in links ==> Chain(links + [thr])
      ensures insertAtTail && old(OpenForward(links)) && readyQueue == links[0] && thr == links[|links| - 1] ==>
          OpenForward(links) && thr.next == thr.back == thr
      ensures !insertAtTail ==> Chain([readyQueue, thr] + links[1..])
    {
      thr.item := Ready;
      if insertAtTail {
        InsertTail(readyQueue, thr, links);
      } else {
        InsertHead(readyQueue, thr, links);
      }
    }

    /** `scheduler_set_ready`: nothing to do for a thread that is ready already. */
    method SetReady(thr: Thread, ghost links: seq<Thread>)
      requires readyQueue.back != null && thr != readyQueue
      requires thr.item in {Created, Running, Blocked, Ready}
      modifies thr, readyQueue`back, readyQueue.back`next
      ensures thr.item == Ready
      ensures old(thr.item) == Ready ==> thr.next == old(thr.next) && thr.back == old(thr.back)
      ensures old(thr.item) == Ready ==> readyQueue.back == old(readyQueue.back)
      ensures old(thr.item) != Ready ==>
          && thr.back == old(readyQueue.back) && readyQueue.back == thr && old(readyQueue.back).next == thr
          && (old(readyQueue.back) != thr ==> thr.next == null)
          && (old(OpenChain(links)) && readyQueue == links[0] && thr !in links ==> Chain(links + [thr]))
    {
      if thr.item == Ready {
        return;
      }
      AddInReadyQueue(thr, true, links);
    }

    /** Listing a new thread moves the end of the ready queue as well, as the last link of both is the same. */
    method ListThread(thr: Thread, ghost idle: Thread, ghost created: seq<Thread>)
      requires BootLinks(idle, created) && thr !in [readyQueue, kernelThreads, idle] + created
      modifies kernelThreads`back, kernelThreads.back`next, thr`next, thr`back
      ensures OpenChain([readyQueue] + created) && Forward([kernelThreads, idle] + created + [thr])
    {
      ghost var ready, all := [readyQueue] + created, [kernelThreads, idle] + created;
      InsertTail(kernelThreads, thr, all);
      assert OpenChain(ready);
    }

    /** Readying it then writes the same link of the last thread once more. */
    method QueueThread(thr: Thread, ghost idle: Thread, ghost created: seq<Thread>)
      requires OpenChain([readyQueue] + created) && Forward([kernelThreads, idle] + created + [thr])
      requires thr.item == Created && thr !in [readyQueue] + created
      requires readyQueue != kernelThreads && readyQueue != idle
      modifies thr, readyQueue`back, readyQueue.back`next
      ensures BootLinks(idle, created + [thr]) && thr.item == Ready
    {
      ghost var ready, all := [readyQueue] + created, [kernelThreads, idle] + created + [thr];
      var n := |created|;
      assert ready[0].back == ready[n] && ready[0] == readyQueue;
      assert all[0] == kernelThreads && all[1] == idle && all[n + 2] == thr && (n > 0 ==> all[n + 1] == ready[n]);
      assert forall k {:trigger all[k]} :: 2 <= k < n + 2 ==> all[k] == ready[k - 1] && ready[k - 1] != ready[0];
      SetReady(thr, ready);
      assert [readyQueue] + (created + [thr]) == ready + [thr];
      assert [kernelThreads, idle] + (created + [thr]) == all;
    }

    /** `thread_create` before the first tick: the new thread goes to the end of both lists, through the same links. */
    method CreateThread(ghost idle: Thread, ghost created: seq<Thread>) returns (thr: Thread)
      requires Booted(idle, created)
      modifies kernelThreads`back, kernelThreads.back`next, readyQueue`back, readyQueue.back`next
      ensures fresh(thr)
      ensures Booted(idle, created + [thr])
    {
      hide Chain, Forward, OpenChain, OpenForward, Distinct;
      LastLinks(idle, created);
      thr := new Link(Created);
      ListThread(thr, idle, created);
      QueueThread(thr, idle, created);
    }

    /** The last link of both lists is that of the same thread, unless none has been created. */
    lemma LastLinks(idle: Thread, created: seq<Thread>)
      requires BootLinks(idle, created)
      ensures kernelThreads.back == (if created == [] then idle else created[|created| - 1])
      ensures readyQueue.back == (if created == [] then readyQueue else created[|created| - 1])
    {
      var ready, all := [readyQueue] + created, [kernelThreads, idle] + created;
      assert ready[0] == readyQueue && all[0] == kernelThreads && all[1] == idle;
      assert created != [] ==> ready[|created|] == all[|created| + 1] == created[|created| - 1];
    }

    method GetCurrent() returns (thr: Thread)
      requires current.item == Running
      ensures thr == current
    {
      thr := current;
    }

    method SetCurrent(thr: Thread)
      requires thr.item == Ready
      modifies this`current, thr`item
      ensures current == thr && thr.item == Running
    {
      current := thr;
      current.item := Running;
    }

    /** The last of the queue, inserted once more, points to itself. */
    ghost predicate Looped(q: seq<Thread>)
      reads readyQueue`next, readyQueue`back, q`next, q`back
    {
      && q != [] && OpenForward([readyQueue] + q)
      && q[|q| - 1].next == q[|q| - 1] && q[|q| - 1].back == q[|q| - 1]
      && (|q| > 1 ==> q[0].back == readyQueue)
    }

    /** A thread alone in the queue keeps pointing to itself, and runs. */
    ghost predicate Spinning(q: seq<Thread>)
      reads this`current, readyQueue, q
    {
      |q| == 1 && Looped(q) && LastRuns(q)
    }

    /** Taking the first thread and moving it to the end. */
    method MoveFirst(ghost q: seq<Thread>) returns (nextThread: Thread)
      requires q != [] && (Chain([readyQueue] + q) || Looped(q))
      modifies readyQueue`next, readyQueue`back, q`next, q`back
      ensures nextThread == q[0]
      ensures old(Chain([readyQueue] + q)) || |q| > 1 ==> Queued(q[1..] + [q[0]])
      ensures old(Looped(q)) && |q| == 1 ==> Looped(q)
    {
      hide Chain, OpenForward, OpenChain, Distinct;
      ghost var links, rest := [readyQueue] + q, [readyQueue] + q[1..];
      FirstEntry(q);
      assert readyQueue.next != null;
      nextThread := readyQueue.next;
      Remove(readyQueue, nextThread, links, 1);
      assert links[..1] + links[2..] == rest;
      ChainIsOpen(rest);
      if |q| > 1 {
        FirstRemoved(q);
      }
      InsertTail(readyQueue, nextThread, if |q| == 1 && old(Looped(q)) then links else rest);
      assert rest + [q[0]] == [readyQueue] + (q[1..] + [q[0]]);
    }

    lemma FirstEntry(q: seq<Thread>)
      requires q != [] && (Chain([readyQueue] + q) || Looped(q))
      ensures OpenForward([readyQueue] + q) && readyQueue.next == q[0] != readyQueue
      ensures q[0] !in [readyQueue] + q[1..]
      ensures Chain([readyQueue] + q) || |q| > 1 ==> q[0].back == readyQueue
      ensures |q| == 1 && Looped(q) ==> q[0].next == q[0].back == q[0] == readyQueue.back
      ensures |q| == 1 && Chain([readyQueue] + q) ==> q[0].next == null
      ensures |q| > 1 ==> q[0].next == q[1]
      ensures readyQueue !in q
    {
      var links := [readyQueue] + q;
      assert forall k {:trigger q[k]} :: 0 <= k < |q| ==> q[k] == links[k + 1];
      assert links[0] == readyQueue && links[0] != links[1] && links[0].next == links[1];
      var rest := [readyQueue] + q[1..];
      assert forall k {:trigger rest[k]} :: 0 <= k < |rest| ==> rest[k] == if k == 0 then links[0] else links[k + 1];
    }

    /** Taking the first of several entries out leaves the others. */
    twostate lemma FirstRemoved(q: seq<Thread>)
      requires |q| > 1 && old(OpenForward([readyQueue] + q)) && readyQueue !in q
      requires readyQueue.next == old(q[0].next) && readyQueue.back == old(readyQueue.back)
      requires old(q[0].next != null ==> q[0].next == q[1]) && q[1].back == readyQueue
      requires forall i :: 0 <= i < |q| ==> q[i].next == old(q[i].next)
      ensures OpenForward([readyQueue] + q[1..])
    {
      var links, rest := [readyQueue] + q, [readyQueue] + q[1..];
      assert forall k {:trigger rest[k]} :: 0 <= k < |rest| ==> rest[k] == if k == 0 then links[0] else links[k + 1];
      assert forall k {:trigger q[k]} :: 0 <= k < |q| ==> q[k] == links[k + 1];
    }

    lemma ChainIsOpen(links: seq<Thread>)
      ensures Chain(links) ==> OpenForward(links)
    {
    }

    lemma ReadyEntries(created: seq<Thread>)
      requires Chain([readyQueue] + created)
      ensures Distinct(created) && readyQueue !in created
      ensures created != [] ==> readyQueue.next == created[0] && created[0].back == readyQueue
    {
      var ready := [readyQueue] + created;
      forall k {:trigger created[k]} | 0 <= k < |created|
        ensures created[k] == ready[k + 1] && created[k] != readyQueue
      {
        assert ready[0] != ready[k + 1];
      }
      assert created != [] ==> ready[0].next == ready[1];
    }

    lemma AllEntries(idle: Thread, created: seq<Thread>)
      requires Forward([kernelThreads, idle] + created)
      ensures kernelThreads !in created && idle !in created
      ensures kernelThreads != idle && kernelThreads.next == idle
    {
      var all := [kernelThreads, idle] + created;
      assert all[0] == kernelThreads && all[1] == idle;
      forall k {:trigger created[k]} | 0 <= k < |created|
        ensures created[k] != kernelThreads && created[k] != idle
      {
        assert created[k] == all[k + 2] && all[0] != all[k + 2] && all[1] != all[k + 2];
      }
    }

    lemma BootEntries(idle: Thread, created: seq<Thread>)
      requires BootLinks(idle, created)
      ensures Distinct(created) && readyQueue !in created && idle !in created && kernelThreads !in created
      ensures kernelThreads != idle && kernelThreads != readyQueue && readyQueue != idle && kernelThreads.next == idle
      ensures created != [] ==> readyQueue.next == created[0] && created[0].back == readyQueue
    {
      hide Chain, Forward, Distinct;
      ReadyEntries(created);
      AllEntries(idle, created);
    }

    lemma BootFacts(idle: Thread, created: seq<Thread>)
      requires Booted(idle, created)
      ensures current == idle && idle.item == Running && readyQueue.back != null
      ensures OpenChain([readyQueue] + created) && idle !in [readyQueue] + created
      ensures created != [] ==> created[0] != idle && readyQueue.back == created[|created| - 1]
      ensures created == [] ==> readyQueue.back == readyQueue
    {
      BootEntries(idle, created);
      assert ([readyQueue] + created)[0].back == ([readyQueue] + created)[|created|];
    }

    /** What `schedule` finds: the boot state, with idle running outside the queue, or that between ticks. */
    ghost predicate Schedulable(q: seq<Thread>, boot: bool)
      reads this`current, kernelThreads, readyQueue, current, q
    {
      if boot then Booted(current, q) else Ticking(q) || Spinning(q)
    }

    /** The threads that take turns. */
    ghost function Turns(q: seq<Thread>, boot: bool): seq<Thread>
      reads this`current
    {
      if boot then q + [current] else q
    }

    /** Queueing the running thread: behind the others at boot, and else where it is, so that it points to itself. */
    method Enqueue(ghost q: seq<Thread>, ghost boot: bool)
      requires Schedulable(q, boot)
      modifies readyQueue`back, current, readyQueue.back`next
      ensures var all := Turns(q, boot);
              && (boot ==> Chain([readyQueue] + all)) && (!boot ==> Looped(all))
              && (forall i :: 0 <= i < |all| ==> all[i].item == Ready)
    {
      hide Chain, OpenForward, OpenChain, Distinct;
      ghost var links := [readyQueue] + q;
      if boot {
        BootFacts(current, q);
        assert links + [current] == [readyQueue] + (q + [current]);
      } else {
        EndRuns(q);
      }
      AddInReadyQueue(current, true, links);
    }

    lemma EndRuns(q: seq<Thread>)
      requires Ticking(q) || Spinning(q)
      ensures var links := [readyQueue] + q;
              && OpenForward(links) && links[|links| - 1] == current == readyQueue.back != readyQueue
              && (|q| > 1 ==> q[0].back == readyQueue && q[0] != current)
    {
      var links := [readyQueue] + q;
      assert forall k {:trigger q[k]} :: 0 <= k < |q| ==> q[k] == links[k + 1];
      assert links[0] == readyQueue && links[0] != links[|q|];
    }

    /** The queue moves of `schedule`. */
    method Requeue(ghost q: seq<Thread>, ghost boot: bool) returns (nextThread: Thread)
      requires Schedulable(q, boot)
      modifies readyQueue, current, q
      ensures var all := Turns(q, boot);
              && nextThread == all[0]
              && (forall i :: 0 <= i < |all| ==> all[i].item == Ready)
              && (boot || |q| > 1 ==> Queued(all[1..] + [all[0]]))
              && (!boot && |q| == 1 ==> Looped(q))
    {
      hide Chain, Looped, Queued, Booted, Ticking;
      ghost var all := Turns(q, boot);
      RunningNow(q, boot);
      if current.item != Blocked {
        Enqueue(q, boot);
      }
      nextThread := MoveFirst(all);
    }

    lemma RunningNow(q: seq<Thread>, boot: bool)
      requires Schedulable(q, boot)
      ensures current.item == Running && Turns(q, boot) != []
      ensures readyQueue.back == readyQueue || (q != [] && readyQueue.back == q[|q| - 1])
    {
      if boot {
        BootFacts(current, q);
      } else {
        EndRuns(q);
      }
    }

    /**
     * `schedule`. The threads that take turns go round by one place, and the first runs; a thread that was alone in the
     * queue already is left pointing to itself, so the queue has no end any more.
     */
    method Schedule(ghost q: seq<Thread>, ghost boot: bool)
      requires Schedulable(q, boot)
      modifies this`current, readyQueue, current, q
      ensures var all := old(Turns(q, boot));
              && current == all[0]
              && (boot || |q| > 1 ==> Ticking(all[1..] + [all[0]]))
              && (!boot && |q| == 1 ==> Spinning(q))
      ensures boot ==> kernelThreads.next == old(current) && old(current).next == (if q == [] then null else q[0])
      ensures boot && q != [] ==> q[0].next == null
    {
      hide Chain, Looped, Queued, Booted, Ticking, Spinning, Schedulable, LastRuns, Distinct, Turns;
      ghost var all := Turns(q, boot);
      RunningNow(q, boot);
      TurnsApart(q, boot);
      var currentThread := GetCurrent();
      var nextThread := Requeue(q, boot);
      SetCurrent(nextThread);
      if currentThread != nextThread {
        // The resumed thread's own asserts after the context switch.
        assert nextThread == current && nextThread.item == Running;
      }
      TurnTaken(q, all, boot);
    }

    /** The threads that take turns are different, and none is a head. */
    lemma TurnsApart(q: seq<Thread>, boot: bool)
      requires Schedulable(q, boot)
      ensures var all := Turns(q, boot);
              && Distinct(all) && readyQueue !in all && (boot ==> all == q + [current])
              && (boot ==> kernelThreads !in all && kernelThreads != readyQueue && kernelThreads.next == current)
              && (!boot ==> all == q)
    {
      if boot {
        BootEntries(current, q);
      } else {
        Entries(q);
      }
    }

    lemma TurnTaken(q: seq<Thread>, all: seq<Thread>, boot: bool)
      requires all != [] && Distinct(all) && current == all[0] && current.item == Running
      requires forall i :: 1 <= i < |all| ==> all[i].item == Ready
      requires boot || |q| > 1 ==> Queued(all[1..] + [all[0]])
      requires !boot && |q| == 1 ==> Looped(q)
      requires !boot ==> all == q
      ensures boot || |q| > 1 ==> Ticking(all[1..] + [all[0]])
      ensures !boot && |q| == 1 ==> Spinning(q)
      ensures Queued(all[1..] + [all[0]]) ==>
          (|all| > 1 ==> all[|all| - 1].next == all[0]) && all[0].next == null
    {
      ghost var q' := all[1..] + [all[0]];
      assert forall k {:trigger q'[k]} :: 0 <= k < |all| - 1 ==> q'[k] == all[k + 1];
      assert q'[|all| - 1] == all[0];
      if Queued(q') {
        QueuedEnd(q');
      }
    }

    lemma QueuedEnd(q: seq<Thread>)
      requires Queued(q)
      ensures q[|q| - 1].next == null && (|q| > 1 ==> q[|q| - 2].next == q[|q| - 1])
    {
      var links := [readyQueue] + q;
      assert q[|q| - 1] == links[|q|] && (|q| > 1 ==> q[|q| - 2] == links[|q| - 1]);
    }

    lemma Entries(q: seq<Thread>)
      requires Ticking(q) || Spinning(q)
      ensures Distinct(q) && readyQueue !in q
    {
      var links := [readyQueue] + q;
      forall k {:trigger q[k]} | 0 <= k < |q|
        ensures q[k] == links[k + 1] && q[k] != readyQueue
      {
        assert links[0] != links[k + 1];
      }
    }

    /** What holds from the first tick on: a queue that goes round, or a thread alone that runs for ever. */
    ghost predicate Going(q: seq<Thread>)
      reads this`current, readyQueue, q
    {
      Ticking(q) || Spinning(q)
    }

    /** The list of all threads, followed forwards. */
    ghost predicate Listed(threads: seq<Thread>)
      reads kernelThreads`next, threads`next
    {
      && threads != [] && kernelThreads.next == threads[0]
      && (forall i {:trigger threads[i].next} :: 0 <= i < |threads| - 1 ==> threads[i].next == threads[i + 1])
      && threads[|threads| - 1].next == null
    }

    /** It goes on as the ready queue does. */
    lemma ListedFrom(q: seq<Thread>, k: nat)
      requires Queued(q) && k < |q| && kernelThreads.next == q[k]
      ensures Listed(q[k..])
    {
      var links, threads := [readyQueue] + q, q[k..];
      assert forall i {:trigger threads[i]} :: 0 <= i < |threads| ==> threads[i] == links[k + 1 + i];
    }

    lemma ListedGoing(q: seq<Thread>, k: nat)
      requires Going(q) && |q| > 1 && k < |q| && kernelThreads.next == q[k]
      ensures Listed(q[k..])
    {
      hide Listed, Queued;
      ListedFrom(q, k);
    }

    /** There is one such list. */
    lemma {:induction false} ListedOnce(s: seq<Thread>, t: seq<Thread>, i: nat)
      requires Listed(s) && Listed(t) && i < |s| && i < |t|
      ensures s[i] == t[i]
    {
      if i > 0 {
        ListedOnce(s, t, i - 1);
        assert s[i - 1].next == s[i] && t[i - 1].next == t[i];
      }
    }

    lemma ListedSame(s: seq<Thread>, t: seq<Thread>)
      requires Listed(s) && Listed(t)
      ensures s == t
    {
      var n := if |s| < |t| then |s| else |t|;
      forall i | 0 <= i < n
        ensures s[i] == t[i]
      {
        ListedOnce(s, t, i);
      }
      assert s[n - 1].next == t[n - 1].next;
    }

    /**
     * Any number of further ticks: the queue goes round, and `ran` lists the threads in the order they run. The list of
     * all threads is the part of the queue from its first thread on.
     */
    method Run(ticks: nat, ghost q: seq<Thread>) returns (ran: seq<Thread>)
      requires q != [] && Going(q)
      modifies this`current, readyQueue, q
      ensures |ran| == ticks
      ensures forall j :: 0 <= j < ticks ==> ran[j] == q[j % |q|]
      ensures Going(Rotated(q, ticks)) && (|q| == 1 && ticks > 0 ==> Spinning(q))
      ensures ticks == 0 && old(Ticking(q)) ==> Ticking(q)
      ensures forall k: nat :: |q| > 1 && k < |q| && kernelThreads.next == Rotated(q, ticks)[k] ==>
          Listed(Rotated(q, ticks)[k..])
    {
      hide *;
      ran := [];
      RotatedNone(q);
      for t := 0 to ticks
        invariant |ran| == t && (forall j :: 0 <= j < t ==> ran[j] == q[j % |q|])
        invariant Going(Rotated(q, t)) && (|q| == 1 && t > 0 ==> Spinning(q))
        invariant t == 0 && old(Ticking(q)) ==> Ticking(q)
      {
        RotatedNext(q, t);
        GoingOn(Rotated(q, t));
        if |q| == 1 {
          RotatedAlone(q, t);
          RotatedAlone(q, t + 1);
        }
        Schedule(Rotated(q, t), false);
        ran := ran + [current];
        WentOn(Rotated(q, t + 1));
      }
      forall k: nat | |q| > 1 && k < |q| && kernelThreads.next == Rotated(q, ticks)[k]
        ensures Listed(Rotated(q, ticks)[k..])
      {
        ListedGoing(Rotated(q, ticks), k);
      }
    }

    lemma GoingOn(q: seq<Thread>)
      requires Going(q)
      ensures Schedulable(q, false) && Turns(q, false) == q && current in q
    {
    }

    lemma WentOn(q: seq<Thread>)
      ensures Ticking(q) || Spinning(q) <==> Going(q)
    {
    }

    /**
     * From boot: the first tick and the ones after it run the created threads in order, then idle, and so on round, so
     * any window as long as there are threads holds each of them once. With no thread created, idle runs alone. The
     * list of all threads is left with idle and the first of the created ones, as many as there have been ticks, modulo
     * the number of threads: after the first tick it is complete exactly when at most one has been created.
     */
    method RunFromBoot(ticks: nat, ghost idle: Thread, ghost created: seq<Thread>) returns (ran: seq<Thread>)
      requires Booted(idle, created) && ticks > 0
      modifies this`current, readyQueue, idle, created
      ensures |ran| == ticks
      ensures forall j :: 0 <= j < ticks ==> ran[j] == (created + [idle])[j % (|created| + 1)]
      ensures forall first: nat :: first + |created| + 1 <= ticks ==> EachOnce(created + [idle], ran, first)
      ensures Going(Rotated(created + [idle], ticks)) && (created == [] && ticks > 1 ==> Spinning([idle]))
      ensures kernelThreads.next == idle
      ensures created != [] || ticks == 1 ==> Listed([idle] + created[..ticks % (|created| + 1)])
      ensures ticks == 1 ==> (Listed([idle] + created) <==> |created| <= 1)
    {
      hide *;
      ghost var all := created + [idle];
      ghost var q := all[1..] + [all[0]];
      assert created == [] ==> q == [idle];
      BootTurns(idle, created);
      TurnsApart(created, true);
      Schedule(created, true);
      WentOn(q);
      var first := current;
      var rest := Run(ticks - 1, q);
      RotatedOnce(all, q);
      RotatedTwice(all, 1, ticks - 1);
      ran := [first] + rest;
      FirstThenRest(all, rest);
      forall first: nat | first + |all| <= ticks
        ensures EachOnce(all, ran, first)
      {
        Fairness(all, ran, first);
      }
      RotatedIdle(created, idle, ticks);
      ListedAfter(idle, created, ticks);
    }

    /** The list of all threads after some ticks, and when it is complete after the first. */
    lemma ListedAfter(idle: Thread, created: seq<Thread>, ticks: nat)
      requires ticks > 0 && kernelThreads.next == idle
      requires Going(Rotated(created + [idle], ticks)) && (ticks == 1 ==> Ticking(Rotated(created + [idle], ticks)))
      ensures created != [] || ticks == 1 ==> Listed([idle] + created[..ticks % (|created| + 1)])
      ensures ticks == 1 ==> (Listed([idle] + created) <==> |created| <= 1)
    {
      hide Queued, LastRuns, Listed, Spinning, Rotated;
      var q, m := Rotated(created + [idle], ticks), |created| + 1;
      RotatedIdle(created, idle, ticks);
      if created != [] || ticks == 1 {
        SomeTurn(q);
        ListedFrom(q, |created| - ticks % m);
      }
      if ticks == 1 {
        var listed := [idle] + created[..1 % m];
        assert |created| <= 1 ==> listed == [idle] + created;
        if Listed([idle] + created) {
          ListedSame(listed, [idle] + created);
        }
      }
    }

    lemma SomeTurn(q: seq<Thread>)
      requires (Going(q) && |q| > 1) || Ticking(q)
      ensures Queued(q)
    {
    }

    lemma BootTurns(idle: Thread, created: seq<Thread>)
      requires Booted(idle, created)
      ensures Schedulable(created, true) && Turns(created, true) == created + [idle] && current == idle
    {
    }
  }

  /** The queue after `k` moves of its first entry to the end. */
  function Rotated<T>(q: seq<T>, k: nat): (r: seq<T>)
    requires q != []
    ensures |r| == |q|
    ensures forall i {:trigger r[i]} :: 0 <= i < |r| ==> r[i] in q
  {
    q[k % |q|..] + q[..k % |q|]
  }

  lemma RotatedNone<T>(q: seq<T>)
    requires q != []
    ensures Rotated(q, 0) == q
  {
  }

  /** Where the last entry of a queue has gone, and what is behind it. */
  lemma RotatedIdle<T>(before: seq<T>, last: T, k: nat)
    ensures var q, j := Rotated(before + [last], k), k % (|before| + 1);
            j <= |before| && q[|before| - j] == last && q[|before| - j..] == [last] + before[..j]
  {
  }

  lemma RotatedAlone<T>(q: seq<T>, k: nat)
    requires |q| == 1
    ensures Rotated(q, k) == q
  {
  }

  lemma RotatedOnce<T>(q: seq<T>, r: seq<T>)
    requires q != [] && r == q[1..] + [q[0]]
    ensures r == Rotated(q, 1)
  {
    RotatedNone(q);
    RotatedNext(q, 0);
  }

  lemma RotatedNext<T>(q: seq<T>, k: nat)
    requires q != []
    ensures Rotated(q, k)[0] == q[k % |q|]
    ensures Rotated(q, k + 1) == Rotated(q, k)[1..] + [Rotated(q, k)[0]]
  {
    ModNext(k, |q|);
  }

  lemma {:induction false} RotatedTwice<T>(q: seq<T>, j: nat, k: nat)
    requires q != []
    ensures Rotated(Rotated(q, j), k) == Rotated(q, j + k)
  {
    hide Rotated;
    if k == 0 {
      RotatedNone(Rotated(q, j));
    } else {
      RotatedTwice(q, j, k - 1);
      RotatedNext(Rotated(q, j), k - 1);
      RotatedNext(q, j + k - 1);
    }
  }

  lemma RotatedAt<T>(q: seq<T>, j: nat, i: nat)
    requires q != []
    ensures Rotated(q, j)[i % |q|] == q[(j + i) % |q|]
  {
    hide Rotated;
    RotatedTwice(q, j, i);
    RotatedNext(Rotated(q, j), i);
    RotatedNext(q, j + i);
  }

  lemma FirstThenRest<T>(q: seq<T>, rest: seq<T>)
    requires q != [] && forall j :: 0 <= j < |rest| ==> rest[j] == Rotated(q, 1)[j % |q|]
    ensures forall j :: 0 <= j <= |rest| ==> ([q[0]] + rest)[j] == q[j % |q|]
  {
    hide Rotated;
    forall j | 0 <= j <= |rest|
      ensures ([q[0]] + rest)[j] == q[j % |q|]
    {
      if j > 0 {
        RotatedAt(q, 1, j - 1);
      } else {
        DivMod(0, |q|, 0);
      }
    }
  }

  /** The window of a run that starts at `first`, as long as the queue, holds each entry of the queue once. */
  ghost predicate EachOnce<T>(q: seq<T>, ran: seq<T>, first: nat)
  {
    first + |q| <= |ran| && multiset(ran[first..first + |q|]) == multiset(q)
  }

  /** In a run that goes round a queue, every window as long as the queue holds each of its threads exactly once. */
  lemma Fairness<T>(q: seq<T>, ran: seq<T>, first: nat)
    requires q != [] && first + |q| <= |ran|
    requires forall j :: 0 <= j < |ran| ==> ran[j] == q[j % |q|]
    ensures ran[first..first + |q|] == Rotated(q, first)
    ensures EachOnce(q, ran, first)
  {
    var window := ran[first..first + |q|];
    forall i | 0 <= i < |q|
      ensures window[i] == Rotated(q, first)[i]
    {
      RotatedAt(q, first, i);
      DivMod(0, |q|, i);
    }
    assert window == Rotated(q, first);
    var k := first % |q|;
    assert q == q[..k] + q[k..];
    assert multiset(q[k..] + q[..k]) == multiset(q[k..]) + multiset(q[..k]);
  }
}
