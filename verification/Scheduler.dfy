/** Command queues on an intrusive doubly linked list, and the scheduler that erases while it iterates. */
module Scheduler {
  // ---------------------------------------------------------------- one queue

  datatype Command = Command(executed: bool, finish: bool)

  /** What happens to the command with a number, which counts the pushes. */
  datatype Event = Setup(k: nat) | Execute(k: nat) | Cleanup(k: nat)

  datatype Outcome = Refused | Finished

  /** What the command at the front does when it is asked. */
  datatype Decision = Decision(setup: bool, stops: bool)

  datatype QueueState = QueueState(cmds: seq<Command>, log: seq<Event>, outcomes: seq<Outcome>)

  function EventsOf(o: Outcome, k: nat): seq<Event> {
    if o.Refused? then [Setup(k)] else [Setup(k), Execute(k), Cleanup(k)]
  }

  function Logged(outcomes: seq<Outcome>): seq<Event> {
    if outcomes == [] then []
    else Logged(outcomes[..|outcomes| - 1]) + EventsOf(outcomes[|outcomes| - 1], |outcomes| - 1)
  }

  lemma LoggedSnoc(outcomes: seq<Outcome>, o: Outcome)
    ensures Logged(outcomes + [o]) == Logged(outcomes) + EventsOf(o, |outcomes|)
  {
    hide EventsOf;
    assert (outcomes + [o])[..|outcomes|] == outcomes;
  }

  /** Commands are set up, executed and cleaned up one after the other, each one once; only the front one is running. */
  ghost predicate InOrder(s: QueueState) {
    var k := |s.outcomes|;
    && s.log == Logged(s.outcomes) + (if s.cmds != [] && s.cmds[0].executed then [Setup(k), Execute(k)] else [])
    && forall i | 0 < i < |s.cmds| :: !s.cmds[i].executed
  }

  /** TryExecute. */
  function Tried(s: QueueState, d: Decision): QueueState {
    if s.cmds == [] then s
    else
      var k, top := |s.outcomes|, s.cmds[0];
      if !top.executed && !d.setup then QueueState(s.cmds[1..], s.log + [Setup(k)], s.outcomes + [Refused])
      else
        var log := s.log + if top.executed then [] else [Setup(k), Execute(k)];
        if top.finish || (!top.executed && d.stops) then
          QueueState(s.cmds[1..], log + [Cleanup(k)], s.outcomes + [Finished])
        else QueueState([Command(true, false)] + s.cmds[1..], log, s.outcomes)
  }

  /** What one attempt does to the command at the front: it is set up unless it is running already, executed only if
      the setup succeeds, and cleaned up once it is to stop. It leaves when its setup fails or it has been cleaned up. */
  predicate Attempted(s: QueueState, t: QueueState, d: Decision) {
    if s.cmds == [] then t == s
    else
      var k, top := |s.outcomes|, s.cmds[0];
      var runs := top.executed || d.setup;
      var stops := top.finish || (!top.executed && d.stops);
      && |t.log| >= |s.log| && t.log[..|s.log|] == s.log
      && (Setup(k) in t.log[|s.log|..] <==> !top.executed)
      && (Execute(k) in t.log[|s.log|..] <==> !top.executed && d.setup)
      && (Cleanup(k) in t.log[|s.log|..] <==> runs && stops)
      && (!runs ==> t.log == s.log + [Setup(k)] && t.cmds == s.cmds[1..] && t.outcomes == s.outcomes + [Refused])
      && (runs && stops ==> t.cmds == s.cmds[1..] && t.outcomes == s.outcomes + [Finished])
      && (runs && !stops ==>
            t.outcomes == s.outcomes && t.cmds != [] && t.cmds[1..] == s.cmds[1..] && t.cmds[0] == Command(true, false))
  }

  lemma TriedMeans(s: QueueState, d: Decision)
    ensures Attempted(s, Tried(s, d), d)
  {
    if s.cmds != [] {
      var k, top, t := |s.outcomes|, s.cmds[0], Tried(s, d);
      var runs, stops := top.executed || d.setup, top.finish || (!top.executed && d.stops);
      var events := (if top.executed then [] else [Setup(k)]) + (if !top.executed && d.setup then [Execute(k)] else [])
                  + (if runs && stops then [Cleanup(k)] else []);
      assert t.log == s.log + events;
      assert t.log[|s.log|..] == events;
    }
  }

  lemma TriedKeepsOrder(s: QueueState, d: Decision)
    requires InOrder(s)
    ensures InOrder(Tried(s, d))
  {
    hide Logged;
    if s.cmds != [] {
      var k, top, more := |s.outcomes|, s.cmds[0], s.cmds[1..];
      LoggedSnoc(s.outcomes, Refused);
      LoggedSnoc(s.outcomes, Finished);
      assert forall i | 0 <= i < |more| :: more[i] == s.cmds[i + 1] && !more[i].executed;
      assert Logged(s.outcomes) + [] == Logged(s.outcomes) && s.log + [] == s.log;
      assert Logged(s.outcomes) + [Setup(k), Execute(k)] + [Cleanup(k)] == Logged(s.outcomes) + EventsOf(Finished, k);
    }
  }

  /** In an ordered log the events of command `k` come after all events of the commands before it. */
  lemma {:induction false} LogIsOrdered(outcomes: seq<Outcome>, i: nat, j: nat)
    requires i < j < |Logged(outcomes)|
    ensures Logged(outcomes)[i].k <= Logged(outcomes)[j].k < |outcomes|
    ensures Logged(outcomes)[i] != Logged(outcomes)[j]
    decreases |outcomes|
  {
    var before := outcomes[..|outcomes| - 1];
    if j < |Logged(before)| {
      LogIsOrdered(before, i, j);
    } else if i < |Logged(before)| {
      LogBelow(before, i);
    }
  }

  lemma {:induction false} LogBelow(outcomes: seq<Outcome>, i: nat)
    requires i < |Logged(outcomes)|
    ensures Logged(outcomes)[i].k < |outcomes|
    decreases |outcomes|
  {
    var before := outcomes[..|outcomes| - 1];
    if i < |Logged(before)| {
      LogBelow(before, i);
    }
  }

  class CommandQueue {
    var pre: CommandQueue?
    var next: CommandQueue?
    var list: IntrusiveList?
    var cmds: seq<Command>
    var refs: nat
    ghost var log: seq<Event>
    ghost var outcomes: seq<Outcome>
    /** Its Runner still exists. */
    ghost var alive: bool

    ghost function State(): QueueState
      reads this`cmds, this`log, this`outcomes
    {
      QueueState(cmds, log, outcomes)
    }

    constructor ()
      ensures pre == next == null && list == null && cmds == [] && refs == 1 && alive && InOrder(State())
    {
      pre, next, list, cmds, refs, log, outcomes, alive := null, null, null, [], 1, [], [], true;
    }

    method TryExecute(d: Decision) returns (empty: bool)
      modifies this`cmds, this`log, this`outcomes
      ensures State() == Tried(old(State()), d) && empty == (cmds == [])
      ensures Attempted(old(State()), State(), d)
    {
      TriedMeans(State(), d);
      if cmds == [] {
        return true;
      }
      ghost var k := |outcomes|;
      var top := cmds[0];
      var gone := false;
      if !top.executed {
        log := log + [Setup(k)];
        if d.setup {
          top := top.(executed := true);
          log := log + [Execute(k)];
          if d.stops {
            top := top.(finish := true);
          }
          cmds := [top] + cmds[1..];
        } else {
          cmds := cmds[1..];
          outcomes := outcomes + [Refused];
          gone := true;
        }
      }
      if !gone && top.finish {
        log := log + [Cleanup(k)];
        cmds := cmds[1..];
        outcomes := outcomes + [Finished];
      }
      empty := cmds == [];
      assert old(log) + [Setup(k)] + [Execute(k)] == old(log) + [Setup(k), Execute(k)];
      assert old(log) + [] == old(log);
    }
  }

  // ---------------------------------------------------------------- the list

  class IntrusiveList {
    var head: CommandQueue?
    var size: nat
    ghost var items: seq<CommandQueue>

    /** Head, size, and the hooks of the items agree with the sequence of items. */
    ghost predicate Valid()
      reads this, items`pre, items`next, items`list
    {
      && size == |items| && head == (if items == [] then null else items[0])
      && (forall i, j | 0 <= i < j < |items| :: items[i] != items[j])
      && (forall i | 0 <= i < |items| :: items[i].list == this)
      && (forall i, j | 0 <= i < |items| && j == i + 1 && j < |items| :: items[i].next == items[j] && items[j].pre == items[i])
      && (items != [] ==> items[0].pre == null && items[|items| - 1].next == null)
    }

    constructor ()
      ensures Valid() && items == []
    {
      head, size, items := null, 0, [];
    }

    function Contains(item: CommandQueue): bool
      reads item
    {
      item.list == this
    }

    method PushFront(item: CommandQueue)
      requires Valid() && item !in items
      modifies this, item`pre, item`next, item`list, items`pre
      ensures Valid() && items == [item] + old(items)
      ensures forall q <- old(items) :: q.list == this
    {
      if head == null {
        item.pre := null;
        item.next := null;
        head := item;
      } else {
        item.next := head;
        item.pre := null;
        head.pre := item;
        head := item;
      }
      item.list := this;
      size := size + 1;
      items := [item] + items;
    }

    /** Removes the item at position `i` and returns the one behind it. */
    method Erase(item: CommandQueue, ghost i: nat) returns (next: CommandQueue?)
      requires Valid() && i < |items| && items[i] == item
      modifies this, items`pre, items`next, item`list
      ensures Valid() && items == old(items)[..i] + old(items)[i + 1..]
      ensures next == if i < |items| then items[i] else null
      ensures item.list == null && forall q <- items :: q.list == this
    {
      ghost var was := items;
      ghost var n := |was|;
      assert i > 0 ==> was[i - 1].next == item && item.pre == was[i - 1];
      assert i + 1 < n ==> was[i + 1].pre == item && item.next == was[i + 1];
      next := null;
      if item == head {
        if head.next != null {
          head.next.pre := null;
        }
        head := head.next;
        next := head;
      } else {
        if item.next != null {
          item.next.pre := item.pre;
        }
        if item.pre != null {
          item.pre.next := item.next;
        }
        next := item.next;
      }
      size := size - 1;
      item.next := null;
      item.pre := null;
      item.list := null;
      items := items[..i] + items[i + 1..];
      assert forall k | 0 <= k < i :: items[k] == was[k];
      assert forall k | i <= k < |items| :: items[k] == was[k + 1];
    }
  }

  // ---------------------------------------------------------------- the scheduler

  /** The items whose flags are set. */
  function Selected(items: seq<CommandQueue>, flags: seq<bool>): seq<CommandQueue>
    requires |items| == |flags|
  {
    if items == [] then []
    else
      var n := |items| - 1;
      Selected(items[..n], flags[..n]) + if flags[n] then [items[n]] else []
  }

  lemma SelectedSnoc(items: seq<CommandQueue>, flags: seq<bool>, q: CommandQueue, f: bool)
    requires |items| == |flags|
    ensures Selected(items + [q], flags + [f]) == Selected(items, flags) + if f then [q] else []
  {
    assert (items + [q])[..|items|] == items && (flags + [f])[..|flags|] == flags;
  }

  lemma {:induction false} SelectedIn(items: seq<CommandQueue>, flags: seq<bool>, q: CommandQueue)
    requires |items| == |flags|
    ensures q in Selected(items, flags) <==> exists i :: 0 <= i < |items| && items[i] == q && flags[i]
    decreases |items|
  {
    if items != [] {
      var n := |items| - 1;
      SelectedIn(items[..n], flags[..n], q);
      assert items == items[..n] + [items[n]];
      if flags[n] && items[n] == q {
        assert q in Selected(items, flags);
      }
    }
  }

  lemma NoneSelected()
    ensures Selected([], []) == []
  {
  }

  ghost function States(items: seq<CommandQueue>): (s: seq<(QueueState, bool)>)
    reads items
    ensures |s| == |items| && forall i | 0 <= i < |items| :: s[i] == View(items[i])
  {
    seq(|items|, i requires 0 <= i < |items| reads items => View(items[i]))
  }

  ghost function Views(qs: set<CommandQueue>): (m: map<CommandQueue, (QueueState, bool)>)
    reads qs
    ensures m.Keys == qs && forall q <- qs :: m[q] == View(q)
  {
    map q | q in qs :: View(q)
  }

  /** How a visit leaves a queue. */
  ghost predicate Left(now: (QueueState, bool), was: QueueState, d: Decision, kept: bool) {
    now.0 == (if now.1 then Tried(was, d) else was) && (kept <==> now.1 && now.0.cmds != [])
  }

  /** A queue's state, and whether its Runner lives. */
  ghost function View(q: CommandQueue): (QueueState, bool)
    reads q`cmds, q`log, q`outcomes, q`alive
  {
    (q.State(), q.alive)
  }

  /** A Runner lives or not as before, and queues that were not on the list are as before. */
  ghost predicate Unseen(all: seq<CommandQueue>, r: CommandQueue, was: (QueueState, bool), now: (QueueState, bool)) {
    now.1 == was.1 && (r !in all ==> now == was)
  }

  lemma UnseenAtFirst(all: seq<CommandQueue>, r: CommandQueue, v: (QueueState, bool))
    ensures Unseen(all, r, v, v)
  {
  }

  lemma SeenOrNot(all: seq<CommandQueue>, r: CommandQueue, first: (QueueState, bool), before: (QueueState, bool),
                  now: (QueueState, bool))
    requires Unseen(all, r, first, before) && now.1 == before.1 && (now == before || r in all)
    ensures Unseen(all, r, first, now)
  {
  }

  lemma AllKnown(m: RunnerMgr)
    requires m.Valid()
    ensures forall k | 0 <= k < |m.list.items| :: m.list.items[k] in m.known
  {
  }

  lemma ViewIs(q: CommandQueue)
    ensures View(q) == (q.State(), q.alive)
  {
  }

  lemma LeftBy(q: CommandQueue, was: QueueState, d: Decision, kept: bool)
    ensures Left(View(q), was, d, kept)
       <==> q.State() == (if q.alive then Tried(was, d) else was) && (kept <==> q.alive && q.cmds != [])
  {
  }

  lemma DistinctFrom(items: seq<CommandQueue>, i: nat)
    requires i < |items| && forall i, j | 0 <= i < j < |items| :: items[i] != items[j]
    ensures items[i] in items && forall k | 0 <= k < |items| && k != i :: items[k] != items[i]
  {
  }

  lemma AllLeft(all: seq<CommandQueue>)
    ensures all[0..] == all && [] + all == all
  {
  }

  lemma NoneLeft(all: seq<CommandQueue>, kept: seq<CommandQueue>)
    ensures all[|all|..] == [] && kept + [] == kept
  {
  }

  lemma OneMore(items: seq<CommandQueue>, i: nat, kept: seq<CommandQueue>)
    requires i < |items|
    ensures items[..i + 1] == items[..i] + [items[i]] && items[i..][1..] == items[i + 1..]
    ensures kept + [] + items[i + 1..] == kept + items[i + 1..]
  {
  }

  /** What the scheduler knows of a queue that is on its list or not. */
  ghost predicate Fine(q: CommandQueue, list: IntrusiveList, listed: bool)
    reads q`list, q`refs, q`alive, q`cmds, q`log, q`outcomes
  {
    && (q.list == list <==> listed)
    && q.refs == (if q.alive then 1 else 0) + (if listed then 1 else 0)
    && InOrder(q.State())
    && (q.alive && q.cmds != [] ==> listed)
  }

  lemma WithoutOne(items: seq<CommandQueue>, i: nat)
    requires i < |items| && forall i, j | 0 <= i < j < |items| :: items[i] != items[j]
    ensures forall q :: q in items[..i] + items[i + 1..] <==> q in items && q != items[i]
  {
  }

  lemma ListShape(list: IntrusiveList, i: nat)
    requires list.Valid()
    ensures list.head == if list.items == [] then null else list.items[0]
    ensures forall i, j | 0 <= i < j < |list.items| :: list.items[i] != list.items[j]
    ensures i < |list.items| ==> list.items[i].next == if i + 1 < |list.items| then list.items[i + 1] else null
  {
  }

  class RunnerMgr {
    const list: IntrusiveList
    ghost var known: set<CommandQueue>

    /** Each queue counts its Runner and the list; while its Runner lives, a queue with commands is on the list. */
    ghost predicate Valid()
      reads this, list, list.items, known
    {
      && list.Valid() && (forall q <- list.items :: q in known)
      && (forall q <- known :: Fine(q, list, q in list.items))
    }

    constructor ()
      ensures Valid() && fresh(list) && known == {} && list.items == []
    {
      list := new IntrusiveList();
      known := {};
    }

    /** A Runner is made, with its queue. */
    method NewRunner() returns (q: CommandQueue)
      requires Valid()
      modifies this
      ensures Valid() && fresh(q) && known == old(known) + {q} && q.alive && q.cmds == []
    {
      q := new CommandQueue();
      known := known + {q};
    }

    /** PushCommand and Register: the command waits behind the others, and the queue is on the list. */
    method PushCommand(q: CommandQueue)
      requires Valid() && q in known && q.alive
      modifies q, list, list.items`pre
      ensures Valid() && q.cmds == old(q.cmds) + [Command(false, false)] && q.log == old(q.log) && q.outcomes == old(q.outcomes)
      ensures list.items == if q in old(list.items) then old(list.items) else [q] + old(list.items)
    {
      hide Logged, IntrusiveList.Valid;
      q.cmds := q.cmds + [Command(false, false)];
      if !list.Contains(q) {
        list.PushFront(q);
        q.refs := q.refs + 1;
      }
    }

    /** A command is stopped from outside. */
    method Stop(q: CommandQueue, i: nat)
      requires Valid() && q in known && i < |q.cmds|
      modifies q`cmds
      ensures Valid() && q.cmds == old(q.cmds)[i := old(q.cmds)[i].(finish := true)]
    {
      hide Logged, IntrusiveList.Valid;
      q.cmds := q.cmds[i := q.cmds[i].(finish := true)];
    }

    /** The Runner ends. */
    method EndRunner(q: CommandQueue)
      requires Valid() && q in known && q.alive
      modifies q`alive, q`refs
      ensures Valid() && !q.alive && q.cmds == old(q.cmds)
    {
      q.alive := false;
      q.refs := q.refs - 1;
    }

    /** Update: every queue on the list is visited once, from front to back; those whose Runner has ended and those
        without further commands leave the list while the iteration goes on. */
    method Update(decide: nat -> Decision) returns (ghost flags: seq<bool>)
      requires Valid()
      modifies list, known
      ensures Valid() && known == old(known)
      ensures |flags| == |old(list.items)| && list.items == Selected(old(list.items), flags)
      ensures forall i | 0 <= i < |old(list.items)| ::
          Left(View(old(list.items)[i]), old(View(list.items[i])).0, decide(i), flags[i])
      ensures forall q <- known :: Unseen(old(list.items), q, old(View(q)), View(q))
    {
      hide Fine, Selected, IntrusiveList.Valid, CommandQueue.State, Left, View, Unseen, Visited, Views, States;
      ghost var all, kept: seq<CommandQueue> := list.items, [];
      flags := [];
      ghost var was, first := States(all), Views(known);
      var i, q := 0, list.head;
      ListShape(list, 0);
      VisitedAtFirst(all, was, decide, first);
      AllLeft(all);
      while q != null
        invariant Valid() && known == old(known) && i <= |all|
        invariant Visited(all, was, kept, flags, i, decide, first)
        invariant list.items == kept + all[i..] && q == if i < |all| then all[i] else null
        decreases |all| - i
      {
        assert q in list.items;
        q, kept, flags := Round(q, all, was, kept, flags, i, decide, first);
        i := i + 1;
      }
      NoneLeft(all, kept);
      VisitedAtLast(all, was, kept, flags, decide, first);
    }

    lemma VisitedAtFirst(all: seq<CommandQueue>, was: seq<(QueueState, bool)>, decide: nat -> Decision,
                         first: map<CommandQueue, (QueueState, bool)>)
      requires Valid() && all == list.items && was == States(all) && first == Views(known)
      ensures Visited(all, was, [], [], 0, decide, first)
    {
      hide Fine, Selected, CommandQueue.State, Left, View, Unseen;
      assert all[..0] == [];
      NoneSelected();
      AllKnown(this);
      forall r | r in known
        ensures Unseen(all, r, first[r], View(r))
      {
        UnseenAtFirst(all, r, View(r));
      }
    }

    lemma VisitedAtLast(all: seq<CommandQueue>, was: seq<(QueueState, bool)>, kept: seq<CommandQueue>, flags: seq<bool>,
                        decide: nat -> Decision, first: map<CommandQueue, (QueueState, bool)>)
      requires Visited(all, was, kept, flags, |all|, decide, first)
      ensures kept == Selected(all, flags) && |was| == |all| && first.Keys == known
      ensures |flags| == |all| && forall k | 0 <= k < |all| :: Left(View(all[k]), was[k].0, decide(k), flags[k])
      ensures forall r <- known :: Unseen(all, r, first[r], View(r))
    {
      hide Fine, Selected, CommandQueue.State, Left, View, Unseen;
      assert all[..|all|] == all;
    }

    /** The first `i` queues have been visited, the others not yet. */
    ghost predicate Visited(all: seq<CommandQueue>, was: seq<(QueueState, bool)>, kept: seq<CommandQueue>,
                            flags: seq<bool>, i: nat, decide: nat -> Decision,
                            first: map<CommandQueue, (QueueState, bool)>)
      reads this, all, known
    {
      && |was| == |all| && i == |flags| <= |all| && first.Keys == known
      && (forall k | 0 <= k < |all| :: all[k] in known)
      && (forall k, l | 0 <= k < l < |all| :: all[k] != all[l])
      && kept == Selected(all[..i], flags)
      && (forall k | i <= k < |all| :: View(all[k]) == was[k])
      && (forall k | 0 <= k < i :: Left(View(all[k]), was[k].0, decide(k), flags[k]))
      && forall r <- known :: Unseen(all, r, first[r], View(r))
    }

    method Round(q: CommandQueue, ghost all: seq<CommandQueue>, ghost was: seq<(QueueState, bool)>,
                 ghost kept: seq<CommandQueue>, ghost flags: seq<bool>, i: nat, decide: nat -> Decision,
                 ghost first: map<CommandQueue, (QueueState, bool)>)
      returns (next: CommandQueue?, ghost kept': seq<CommandQueue>, ghost flags': seq<bool>)
      requires Valid() && i < |all| && q == all[i] && list.items == kept + all[i..]
      requires Visited(all, was, kept, flags, i, decide, first)
      modifies list, list.items`pre, list.items`next, q
      ensures Valid() && known == old(known) && Visited(all, was, kept', flags', i + 1, decide, first)
      ensures list.items == kept' + all[i + 1..] && next == if i + 1 < |all| then all[i + 1] else null
      ensures forall r <- list.items :: r in old(list.items)
    {
      hide Logged, InOrder, Tried, Fine, Selected, IntrusiveList.Valid, CommandQueue.State, Left, View, Unseen;
      DistinctFrom(all, i);
      ViewIs(q);
      ghost var keep;
      next, keep := Visit(q, kept, all[i..], decide(i));
      LeftBy(q, was[i].0, decide(i), keep);
      forall k | 0 <= k < |all| && k != i
        ensures View(all[k]) == old(View(all[k]))
      {
        assert all[k] in known && all[k] != q;
      }
      forall r | r in known
        ensures Unseen(all, r, first[r], View(r))
      {
        SeenOrNot(all, r, first[r], old(View(r)), View(r));
      }
      SelectedSnoc(all[..i], flags, q, keep);
      OneMore(all, i, kept);
      kept' := kept + if keep then [q] else [];
      flags' := flags + [keep];
      forall k | 0 <= k < i + 1
        ensures Left(View(all[k]), was[k].0, decide(k), flags'[k])
      {
        if k < i {
          assert flags'[k] == flags[k] && old(Left(View(all[k]), was[k].0, decide(k), flags[k]));
        }
      }
    }

    /** A queue without a Runner or without commands leaves the list. */
    method Leave(q: CommandQueue, ghost at: nat) returns (next: CommandQueue?)
      requires Valid() && at < |list.items| && list.items[at] == q && !(q.alive && q.cmds != [])
      modifies list, list.items`pre, list.items`next, q`pre, q`next, q`list, q`refs
      ensures Valid() && list.items == old(list.items)[..at] + old(list.items)[at + 1..]
      ensures next == if at < |list.items| then list.items[at] else null
    {
      hide Logged, InOrder, IntrusiveList.Valid, CommandQueue.State;
      assert q in list.items;
      ListShape(list, at);
      WithoutOne(list.items, at);
      next := list.Erase(q, at);
      q.refs := q.refs - 1;
    }

    /** One round of the loop: the queue stays on the list or leaves it; the next one is returned. */
    method Visit(q: CommandQueue, ghost kept: seq<CommandQueue>, ghost rest: seq<CommandQueue>, d: Decision)
      returns (next: CommandQueue?, ghost keep: bool)
      requires Valid() && rest != [] && rest[0] == q && list.items == kept + rest
      modifies list, list.items`pre, list.items`next, q
      ensures Valid() && keep == (q.alive && q.cmds != []) && q.alive == old(q.alive)
      ensures list.items == kept + (if keep then [q] else []) + rest[1..]
      ensures next == if |rest| > 1 then rest[1] else null
      ensures q.State() == if q.alive then Tried(old(q.State()), d) else old(q.State())
      ensures forall r <- known :: r != q ==> View(r) == old(View(r))
      ensures View(q).1 == old(View(q)).1
    {
      hide Logged, InOrder, Tried, IntrusiveList.Valid;
      ghost var at := |kept|;
      assert q in list.items;
      ListShape(list, at);
      WithoutOne(list.items, at);
      assert list.items[at] == q && (|rest| > 1 ==> list.items[at + 1] == rest[1]);
      TriedKeepsOrder(q.State(), d);
      var done := true;
      if q.refs == 2 {
        done := q.TryExecute(d);
      }
      keep := !done;
      if done {
        next := Leave(q, at);
      } else {
        next := q.next;
      }
    }
  }
}
