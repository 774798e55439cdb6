/** The scheduler's run queue: an intrusive linked list of tasks with a head, a tail and a rotating current task. */
module Scheduler {

  datatype TaskState = Idle | Running | Ready | Blocked

  class Task {
    var state: TaskState
    var next: Task?
    const tid: nat

    constructor (tid: nat)
      ensures state == Ready && next == null && this.tid == tid
    {
      this.tid := tid;
      state, next := Ready, null;
    }
  }

  class RunQueue {
    var current: Task?
    var readyHead: Task?
    var readyTail: Task?
    var nextTid: nat
    /** The tasks waiting, first to run first. */
    ghost var queue: seq<Task>

    /** The list from head to tail is the queue: linked in order, ended by null, without repeats, without the current task. */
    ghost predicate Linked()
      reads this, queue
    {
      && readyHead == (if queue == [] then null else queue[0])
      && readyTail == (if queue == [] then null else queue[|queue| - 1])
      && (forall i {:trigger queue[i]} :: 0 <= i < |queue| ==> queue[i].next == if i + 1 < |queue| then queue[i + 1] else null)
      && (forall i, j :: 0 <= i < j < |queue| ==> queue[i] != queue[j])
    }

    /** No task of the queue runs. */
    ghost predicate Waiting()
      reads this, queue
    {
      forall i :: 0 <= i < |queue| ==> queue[i].state != Running
    }

    /** Exactly the current task, if there is one, is running. */
    ghost predicate Valid()
      reads this, queue, current
    {
      && Linked()
      && Waiting()
      && (current != null ==> current !in queue && current.next == null && current.state == Running)
    }

    /** No two tasks have the same number, and the next number is new. */
    ghost predicate Numbered()
      reads this
    {
      && (forall t :: t in queue ==> t.tid < nextTid)
      && (forall s, t :: s in queue && t in queue && s != t ==> s.tid != t.tid)
      && (current != null ==> current.tid < nextTid && forall t :: t in queue ==> t.tid != current.tid)
    }

    /** All tasks that have not exited. */
    ghost function Tasks(): multiset<Task>
      reads this
    {
      multiset(queue) + (if current != null then multiset{current} else multiset{})
    }

    ghost function Seats(): Order<Task>
      requires current != null
      reads this
    {
      Order(current, queue)
    }

    /** scheduler_init(): the caller becomes the current task, and an idle task waits. */
    constructor ()
      ensures Valid() && current != null && fresh(current)
      ensures |queue| == 1 && fresh(queue[0]) && queue[0].state == Idle
      ensures Numbered()
    {
      current := new Task(1);
      readyHead, readyTail := null, null;
      nextTid := 2;
      queue := [];
      new;
      current.state := Running;
      var idle := Create();
      idle.state := Idle;
    }

    /** thread_create(), when its allocations succeed: a new ready task at the end. */
    method Create() returns (task: Task)
      requires Valid()
      modifies this, queue
      ensures Valid() && fresh(task) && task.state == Ready
      ensures queue == old(queue) + [task] && current == old(current)
      ensures current != null ==> Seats() == Next(old(Seats()), Created(task))
      ensures forall t :: t in old(queue) ==> t.state == old(t.state)
      ensures task.tid == old(nextTid) && nextTid == old(nextTid) + 1
      ensures old(Numbered()) ==> Numbered()
    {
      task := new Task(nextTid);
      nextTid := nextTid + 1;
      if readyHead == null {
        readyHead, readyTail := task, task;
      } else {
        readyTail.next := task;
        readyTail := task;
      }
      queue := queue + [task];
    }

    /** schedule(): the current task goes to the end and the first one runs; nothing happens without either. */
    method Schedule()
      requires Valid()
      modifies this, queue, current
      ensures Valid()
      ensures old(current == null || queue == []) ==> current == old(current) && queue == old(queue)
      ensures old(current != null && queue != []) ==>
                && current == old(queue)[0] && queue == old(queue)[1..] + [old(current)]
                && old(current).state == Ready
      ensures old(current != null) ==> current != null && Seats() == Next(old(Seats()), Scheduled)
      ensures forall t :: t in old(queue) && t != current ==> t.state == old(t.state)
      ensures Tasks() == old(Tasks())
      ensures nextTid == old(nextTid) && (old(Numbered()) ==> Numbered())
    {
      if current == null || readyHead == null {
        return;
      }
      Rotate();
    }

    /** The current task to the end, the first waiting one to the front. */
    method Rotate()
      requires Valid() && current != null && queue != []
      modifies this`readyHead, this`readyTail, this`queue, this`current, queue, current
      ensures Valid() && current == old(queue)[0] && queue == old(queue)[1..] + [old(current)]
      ensures old(current).state == Ready
      ensures forall t :: t in old(queue) && t != current ==> t.state == old(t.state)
      ensures Tasks() == old(Tasks())
    {
      ghost var was, running := queue, current;
      if current.state == Running {
        PutBack();
      }
      assert queue == was + [running];
      TakeFirst();
      Rotated(was, running);
    }

    /** The current task becomes ready, behind all others. */
    method PutBack()
      requires Linked() && Waiting() && current != null && current !in queue && current.next == null
      modifies this`readyHead, this`readyTail, this`queue, queue, current
      ensures Linked() && Waiting() && queue == old(queue) + [current] && current.state == Ready
      ensures forall t :: t in old(queue) ==> t.state == old(t.state)
    {
      current.state := Ready;
      if readyHead == null {
        readyHead, readyTail := current, current;
      } else {
        readyTail.next := current;
        readyTail := current;
      }
      queue := queue + [current];
    }

    /** The first waiting task runs. */
    method TakeFirst()
      requires Linked() && Waiting() && queue != []
      modifies this`readyHead, this`readyTail, this`queue, this`current, queue
      ensures Linked() && Waiting() && queue == old(queue)[1..] && current == old(queue)[0]
      ensures current.state == Running && current.next == null && current !in queue
      ensures forall t :: t in queue ==> t.state == old(t.state)
    {
      var next := readyHead;
      readyHead := next.next;
      if readyHead == null {
        readyTail := null;
      }
      next.next := null;
      next.state := Running;
      queue := queue[1..];
      current := next;
    }

    /** thread_exit(): the current task goes away; nothing takes its place. */
    method Exit()
      requires Valid()
      modifies this, queue, current
      ensures Valid() && current == null && queue == old(queue)
      ensures nextTid == old(nextTid) && (old(Numbered()) ==> Numbered())
    {
      if current == null {
        return;
      }
      current := null;
      Schedule();
    }
  }

  /** Behind the first of the waiting tasks and the one put back, the queue has moved up by one. */
  lemma Rotated<T>(queue: seq<T>, task: T)
    requires queue != []
    ensures (queue + [task])[0] == queue[0] && (queue + [task])[1..] == queue[1..] + [task]
    ensures multiset(queue[1..] + [task]) + multiset{queue[0]} == multiset(queue) + multiset{task}
  {
    assert queue == [queue[0]] + queue[1..];
  }

  // ---------- runs ----------

  /** The order of tasks: the one that runs, and those waiting. */
  datatype Order<T> = Order(current: T, queue: seq<T>)

  datatype Event<T> = Created(task: T) | Scheduled

  /** What the methods do to the order. */
  function Next<T>(o: Order<T>, e: Event<T>): Order<T> {
    match e
    case Created(t) => o.(queue := o.queue + [t])
    case Scheduled => if o.queue == [] then o else Order(o.queue[0], o.queue[1..] + [o.current])
  }

  function After<T>(o: Order<T>, events: seq<Event<T>>): Order<T>
    decreases |events|
  {
    if events == [] then o else After(Next(o, events[0]), events[1..])
  }

  /** How many of the events are calls of schedule(). */
  function Turns<T>(events: seq<Event<T>>): nat {
    if events == [] then 0 else (if events[0].Scheduled? then 1 else 0) + Turns(events[1..])
  }

  /**
   * A waiting task moves up by one with each schedule and runs after one more than its position,
   * whatever tasks are created in between.
   */
  lemma {:induction false} TurnComes<T>(o: Order<T>, events: seq<Event<T>>, k: nat)
    requires k < |o.queue| && Turns(events) <= k + 1
    ensures var end := After(o, events);
            if Turns(events) <= k then k - Turns(events) < |end.queue| && end.queue[k - Turns(events)] == o.queue[k]
            else end.current == o.queue[k]
    decreases |events|
  {
    if events != [] {
      var next := Next(o, events[0]);
      if events[0].Created? {
        TurnComes(next, events[1..], k);
      } else if k > 0 {
        assert next.queue[k - 1] == o.queue[k];
        TurnComes(next, events[1..], k - 1);
      } else {
        OnlyCreated(next, events[1..]);
      }
    }
  }

  /** Creating tasks alone leaves the current one running. */
  lemma {:induction false} OnlyCreated<T>(o: Order<T>, events: seq<Event<T>>)
    requires Turns(events) == 0
    ensures After(o, events).current == o.current
    decreases |events|
  {
    if events != [] {
      OnlyCreated(Next(o, events[0]), events[1..]);
    }
  }

  function Times<T>(n: nat): (events: seq<Event<T>>)
    ensures |events| == n && forall i :: 0 <= i < n ==> events[i] == Scheduled
  {
    seq(n, _ => Scheduled)
  }

  /** After as many turns as there are tasks waiting, plus one, everything is where it was. */
  lemma {:induction false} RoundRobin<T>(o: Order<T>, done: nat)
    requires done <= |o.queue|
    ensures After(o, Times(done)) ==
            if done == 0 then o else Order(o.queue[done - 1], o.queue[done..] + [o.current] + o.queue[..done - 1])
    decreases done
  {
    if done > 0 {
      RoundRobin(o, done - 1);
      OneMore(o, done - 1);
    }
  }

  lemma {:induction false} AfterConcat<T>(o: Order<T>, a: seq<Event<T>>, b: seq<Event<T>>)
    ensures After(o, a + b) == After(After(o, a), b)
    decreases |a|
  {
    if a == [] {
      assert a + b == b;
    } else {
      assert (a + b)[0] == a[0] && (a + b)[1..] == a[1..] + b;
      AfterConcat(Next(o, a[0]), a[1..], b);
    }
  }

  lemma OneMore<T>(o: Order<T>, n: nat)
    ensures After(o, Times(n + 1)) == Next(After(o, Times(n)), Scheduled)
  {
    assert Times<T>(n + 1) == Times(n) + [Scheduled];
    AfterConcat(o, Times(n), [Scheduled]);
    assert [Event<T>.Scheduled][1..] == [];
  }

  /** A full round restores the order. */
  lemma FullRound<T>(o: Order<T>)
    ensures After(o, Times(|o.queue| + 1)) == o
  {
    var n := |o.queue|;
    RoundRobin(o, n);
    OneMore(o, n);
    if n > 0 {
      assert o.queue == o.queue[..n - 1] + [o.queue[n - 1]];
      assert o.queue[n..] + [o.current] + o.queue[..n - 1] == [o.current] + o.queue[..n - 1];
    }
  }

  /** Scheduling moves tasks about and loses none; creating adds one. */
  lemma TasksConserved<T>(o: Order<T>, e: Event<T>)
    ensures var all, all' := multiset(o.queue) + multiset{o.current}, multiset(Next(o, e).queue) + multiset{Next(o, e).current};
            all' == if e.Created? then all + multiset{e.task} else all
  {
    if e.Scheduled? && o.queue != [] {
      assert o.queue == [o.queue[0]] + o.queue[1..];
    }
  }

  /** After an exit nothing runs again: every later schedule() leaves the empty seat as it is. */
  method ExitStops(q: RunQueue, turns: nat)
    requires q.Valid()
    modifies q, q.queue, q.current
    ensures q.Valid() && q.current == null && q.queue == old(q.queue)
  {
    q.Exit();
    var i := 0;
    while i < turns
      invariant q.Valid() && q.current == null && q.queue == old(q.queue)
    {
      q.Schedule();
      i := i + 1;
    }
  }
}
