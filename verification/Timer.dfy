/** The timer: a queue of delayed actions in the order of their due times. */
module Timer {
  /** A delayed action; one with an interval comes again. */
  datatype Action = Action(tick: int, id: nat, interval: int)

  /** What the environment does: which actions are still wanted, and what an action sets up and whose linkers it drops
      when it runs. */
  datatype World = World(wanted: set<nat>, sets: map<nat, seq<Action>>, drops: map<nat, set<nat>>)

  function SetBy(w: World, id: nat): seq<Action> {
    if id in w.sets then w.sets[id] else []
  }

  function DroppedBy(w: World, id: nat): set<nat> {
    if id in w.drops then w.drops[id] else {}
  }

  /** Actions set up by actions are due later. */
  predicate SetsLater(w: World, tick: int) {
    forall id | id in w.sets :: forall i | 0 <= i < |w.sets[id]| :: w.sets[id][i].tick > tick
  }

  predicate Sorted(q: seq<Action>) {
    forall i, j | 0 <= i < j < |q| :: q[i].tick <= q[j].tick
  }

  /** Where a new action goes: behind all that are due no later. */
  function Place(q: seq<Action>, tick: int): (k: nat)
    ensures k <= |q| && (k < |q| ==> q[k].tick > tick) && forall i | 0 <= i < k :: q[i].tick <= tick
  {
    if q == [] || q[0].tick > tick then 0 else 1 + Place(q[1..], tick)
  }

  /** The actions that are due. */
  function Due(q: seq<Action>, tick: int): seq<Action> {
    q[..Place(q, tick)]
  }

  function Later(q: seq<Action>, tick: int): seq<Action> {
    q[Place(q, tick)..]
  }

  /** Who is still wanted when the actions have had their turn. */
  function StillWanted(acts: seq<Action>, w: World): (ids: set<nat>)
    ensures ids <= w.wanted
    decreases |acts|
  {
    if acts == [] then w.wanted
    else
      var a, before := acts[|acts| - 1], StillWanted(acts[..|acts| - 1], w);
      if a.id in before then before - DroppedBy(w, a.id) else before
  }

  /** Those among the actions that are wanted when their turn comes; they are called. */
  function Called(acts: seq<Action>, w: World): (ids: seq<nat>)
    ensures forall id <- ids :: id in w.wanted
    decreases |acts|
  {
    if acts == [] then []
    else
      var a, before := acts[|acts| - 1], acts[..|acts| - 1];
      Called(before, w) + if a.id in StillWanted(before, w) then [a.id] else []
  }

  /** What the called ones set up. */
  function SetUp(acts: seq<Action>, w: World): multiset<Action>
    decreases |acts|
  {
    if acts == [] then multiset{}
    else
      var a, before := acts[|acts| - 1], acts[..|acts| - 1];
      SetUp(before, w) + if a.id in StillWanted(before, w) then multiset(SetBy(w, a.id)) else multiset{}
  }

  /** The intervals among the actions. */
  function Repeating(acts: seq<Action>): (r: seq<Action>)
    ensures forall i | 0 <= i < |r| :: r[i].interval > 0
    decreases |acts|
  {
    if acts == [] then []
    else
      var a := acts[|acts| - 1];
      Repeating(acts[..|acts| - 1]) + if a.interval > 0 then [a] else []
  }

  /** The same, due one interval after `tick`. */
  function Rearmed(acts: seq<Action>, tick: int): (r: seq<Action>)
    ensures |r| == |acts|
  {
    seq(|acts|, i requires 0 <= i < |acts| => acts[i].(tick := tick + acts[i].interval))
  }

  lemma SnocFacts(acts: seq<Action>, a: Action, w: World)
    ensures var wanted := StillWanted(acts, w);
      && StillWanted(acts + [a], w) == (if a.id in wanted then wanted - DroppedBy(w, a.id) else wanted)
      && Called(acts + [a], w) == Called(acts, w) + (if a.id in wanted then [a.id] else [])
      && SetUp(acts + [a], w) == SetUp(acts, w) + if a.id in wanted then multiset(SetBy(w, a.id)) else multiset{}
    ensures Repeating(acts + [a]) == Repeating(acts) + if a.interval > 0 then [a] else []
  {
    assert (acts + [a])[..|acts|] == acts;
  }

  lemma SortedInsert(q: seq<Action>, a: Action)
    requires Sorted(q)
    ensures var k := Place(q, a.tick); var r := q[..k] + [a] + q[k..];
      Sorted(r) && multiset(r) == multiset(q) + multiset{a}
  {
    hide Sorted;
    var k := Place(q, a.tick);
    ParcelIn(q[..k], a, q[k..]);
    assert q == q[..k] + q[k..];
    PartsSorted(q, k, a.tick);
    SortedJoin(q[..k], [a]);
    SortedJoin(q[..k] + [a], q[k..]);
  }

  /** Everything in `x` comes before everything in `y`. */
  predicate Before(x: seq<Action>, y: seq<Action>) {
    forall i, j | 0 <= i < |x| && 0 <= j < |y| :: x[i].tick <= y[j].tick
  }

  lemma PartsSorted(q: seq<Action>, k: nat, tick: int)
    requires Sorted(q) && k <= |q| && (forall i | 0 <= i < k :: q[i].tick <= tick) && (k < |q| ==> q[k].tick > tick)
    ensures Sorted(q[..k]) && Sorted(q[k..])
    ensures forall a: Action | a.tick == tick :: Sorted([a]) && Before(q[..k], [a]) && Before(q[..k] + [a], q[k..])
  {
  }

  lemma SortedJoin(x: seq<Action>, y: seq<Action>)
    requires Sorted(x) && Sorted(y) && Before(x, y)
    ensures Sorted(x + y)
  {
  }

  lemma ParcelIn(front: seq<Action>, a: Action, back: seq<Action>)
    ensures multiset(front + [a] + back) == multiset(front + back) + multiset{a}
  {
  }

  /** What an update does, action by action: the later ones stay; the due intervals come back one interval after `tick`;
      whoever is wanted and has its linker dropped by nobody is called when due; only wanted and due ones are called;
      what they set up is in the queue; and nothing else is. */
  predicate Updated(q: seq<Action>, r: seq<Action>, tick: int, w: World, called: seq<nat>) {
    && (forall a <- q :: a.tick > tick ==> a in r)
    && (forall a <- q :: a.tick <= tick && a.interval > 0 ==> Action(tick + a.interval, a.id, a.interval) in r)
    && (forall a <- q :: a.tick <= tick && a.id in w.wanted && NeverDropped(w, a.id) ==> a.id in called)
    && (forall id <- called :: id in w.wanted && exists a <- q :: a.tick <= tick && a.id == id)
    && (forall id, b | id in called && id in w.sets && b in w.sets[id] :: b in r)
    && (forall b <- r :: (b in q && b.tick > tick) || SetByOne(w, called, b) || ComesBack(q, tick, b))
  }

  predicate NeverDropped(w: World, id: nat) {
    forall d | d in w.drops :: id !in w.drops[d]
  }

  predicate SetByOne(w: World, called: seq<nat>, b: Action) {
    exists id | id in called && id in w.sets :: b in w.sets[id]
  }

  predicate ComesBack(q: seq<Action>, tick: int, b: Action) {
    exists a <- q :: a.tick <= tick && a.interval > 0 && b == Action(tick + a.interval, a.id, a.interval)
  }

  lemma DueMeans(q: seq<Action>, tick: int)
    requires Sorted(q)
    ensures forall a <- q :: if a.tick <= tick then a in Due(q, tick) else a in Later(q, tick)
    ensures (forall a <- Due(q, tick) :: a in q && a.tick <= tick) && forall a <- Later(q, tick) :: a in q && a.tick > tick
  {
    hide Place;
    DueAndLater(q, tick);
    var k := Place(q, tick);
    assert forall i | k <= i < |q| :: q[i].tick >= q[k].tick;
  }

  lemma {:induction false} CalledMeans(acts: seq<Action>, w: World)
    ensures forall a <- acts :: a.id in w.wanted && NeverDropped(w, a.id) ==> a.id in Called(acts, w)
    ensures forall id <- Called(acts, w) :: exists a <- acts :: a.id == id
    ensures forall id | NeverDropped(w, id) && id in w.wanted :: id in StillWanted(acts, w)
    decreases |acts|
  {
    if acts != [] {
      var a, before := acts[|acts| - 1], acts[..|acts| - 1];
      CalledMeans(before, w);
      assert acts == before + [a];
    }
  }

  lemma {:induction false} SetUpMeans(acts: seq<Action>, w: World)
    ensures forall b :: b in SetUp(acts, w) <==> SetByOne(w, Called(acts, w), b)
    decreases |acts|
  {
    if acts == [] {
      assert Called(acts, w) == [];
    } else {
      var a, before := acts[|acts| - 1], acts[..|acts| - 1];
      SetUpMeans(before, w);
      var here := if a.id in StillWanted(before, w) then [a.id] else [];
      assert Called(acts, w) == Called(before, w) + here;
      forall b: Action
        ensures b in SetUp(acts, w) <==> SetByOne(w, Called(acts, w), b)
      {
        SetByEither(w, Called(before, w), here, b);
        SetByThis(w, a.id, b);
      }
    }
  }

  lemma SetByEither(w: World, x: seq<nat>, y: seq<nat>, b: Action)
    ensures SetByOne(w, x + y, b) <==> SetByOne(w, x, b) || SetByOne(w, y, b)
    ensures !SetByOne(w, [], b)
  {
    assert forall id :: id in x + y <==> id in x || id in y;
  }

  lemma SetByThis(w: World, id: nat, b: Action)
    ensures SetByOne(w, [id], b) <==> b in SetBy(w, id)
  {
    if b in SetBy(w, id) {
      assert id in [id] && id in w.sets && b in w.sets[id];
    }
  }

  lemma RearmedMeans(acts: seq<Action>, tick: int)
    ensures forall b :: (b in Rearmed(Repeating(acts), tick)
      <==> exists a <- acts :: a.interval > 0 && b == Action(tick + a.interval, a.id, a.interval))
  {
    RepeatingMeans(acts);
    var s, r := Repeating(acts), Rearmed(Repeating(acts), tick);
    assert forall i | 0 <= i < |s| :: r[i] == Action(tick + s[i].interval, s[i].id, s[i].interval);
    forall b | exists a <- acts :: a.interval > 0 && b == Action(tick + a.interval, a.id, a.interval)
      ensures b in r
    {
      var a :| a in acts && a.interval > 0 && b == Action(tick + a.interval, a.id, a.interval);
      var i :| 0 <= i < |s| && s[i] == a;
      assert r[i] == b;
    }
    forall b | b in r
      ensures exists a <- acts :: a.interval > 0 && b == Action(tick + a.interval, a.id, a.interval)
    {
      var i :| 0 <= i < |r| && r[i] == b;
      assert s[i] in s;
    }
  }

  lemma {:induction false} RepeatingMeans(acts: seq<Action>)
    ensures forall a :: a in Repeating(acts) <==> a in acts && a.interval > 0
    decreases |acts|
  {
    if acts != [] {
      RepeatingMeans(acts[..|acts| - 1]);
      assert acts == acts[..|acts| - 1] + [acts[|acts| - 1]];
    }
  }

  lemma UpdateMeans(q: seq<Action>, r: seq<Action>, tick: int, w: World)
    requires Sorted(q)
    requires multiset(r) == multiset(Later(q, tick)) + SetUp(Due(q, tick), w)
                            + multiset(Rearmed(Repeating(Due(q, tick)), tick))
    ensures Updated(q, r, tick, w, Called(Due(q, tick), w))
  {
    hide Due, Later, Sorted, Called, SetUp, StillWanted, Repeating, Rearmed, SetByOne, NeverDropped;
    var due := Due(q, tick);
    var called := Called(due, w);
    DueMeans(q, tick);
    CalledMeans(due, w);
    SetUpMeans(due, w);
    RearmedMeans(due, tick);
    assert forall b :: b in multiset(r) <==>
        b in multiset(Later(q, tick)) || b in SetUp(due, w) || b in multiset(Rearmed(Repeating(due), tick));
    forall id, b | id in called && id in w.sets && b in w.sets[id]
      ensures b in r
    {
      SetByMember(w, called, id, b);
      assert b in multiset(r);
    }
    forall a | a in q && a.tick > tick
      ensures a in r
    {
      assert a in multiset(r);
    }
    forall a | a in q && a.tick <= tick && a.interval > 0
      ensures Action(tick + a.interval, a.id, a.interval) in r
    {
      var b := Action(tick + a.interval, a.id, a.interval);
      assert a in due && b in Rearmed(Repeating(due), tick);
      assert b in multiset(r);
    }
    forall b | b in r
      ensures (b in q && b.tick > tick) || SetByOne(w, called, b) || ComesBack(q, tick, b)
    {
      assert b in multiset(r);
      if b in Rearmed(Repeating(due), tick) {
        var a :| a in due && a.interval > 0 && b == Action(tick + a.interval, a.id, a.interval);
        assert a in q && a.tick <= tick;
      }
    }
  }

  lemma SetByMember(w: World, called: seq<nat>, id: nat, b: Action)
    requires id in called && id in w.sets && b in w.sets[id]
    ensures SetByOne(w, called, b)
  {
  }

  /** Calls come in the order of the queue, and whoever has had its linker dropped by then is not called any more. */
  lemma {:induction false} CalledInTurn(acts: seq<Action>, more: seq<Action>, w: World)
    ensures Called(acts, w) <= Called(acts + more, w) && StillWanted(acts + more, w) <= StillWanted(acts, w)
    ensures forall id <- Called(acts + more, w)[|Called(acts, w)|..] :: id in StillWanted(acts, w)
    decreases |more|
  {
    if more == [] {
      assert acts + more == acts;
    } else {
      var a, before := more[|more| - 1], more[..|more| - 1];
      CalledInTurn(acts, before, w);
      SnocFacts(acts + before, a, w);
      assert acts + more == acts + before + [a];
    }
  }

  lemma {:induction false} DroppedIsUnwanted(acts: seq<Action>, w: World)
    ensures forall id, d | id in Called(acts, w) && d in DroppedBy(w, id) :: d !in StillWanted(acts, w)
    decreases |acts|
  {
    if acts != [] {
      DroppedIsUnwanted(acts[..|acts| - 1], w);
    }
  }

  class TimerQueue {
    var delayqueue: seq<Action>

    constructor ()
      ensures delayqueue == []
    {
      delayqueue := [];
    }

    /** The setters: the action becomes due `delay` after `now`. */
    method Set(now: int, delay: int, id: nat, interval: int)
      requires Sorted(delayqueue)
      modifies this
      ensures Sorted(delayqueue)
      ensures multiset(delayqueue) == multiset(old(delayqueue)) + multiset{Action(now + delay, id, interval)}
    {
      Emplace(Action(now + delay, id, interval));
    }

    method Emplace(a: Action)
      requires Sorted(delayqueue)
      modifies this
      ensures var k := Place(old(delayqueue), a.tick); delayqueue == old(delayqueue)[..k] + [a] + old(delayqueue)[k..]
      ensures Sorted(delayqueue) && multiset(delayqueue) == multiset(old(delayqueue)) + multiset{a}
    {
      SortedInsert(delayqueue, a);
      var k := 0;
      while k < |delayqueue| && delayqueue[k].tick <= a.tick
        invariant k <= |delayqueue| && delayqueue == old(delayqueue)
        invariant forall i | 0 <= i < k :: delayqueue[i].tick <= a.tick
      {
        k := k + 1;
      }
      PlaceUnique(delayqueue, a.tick, k);
      delayqueue := delayqueue[..k] + [a] + delayqueue[k..];
    }

    /** Everything that a running action sets up goes behind the due ones. */
    method EmplaceAll(acts: seq<Action>, tick: int)
      requires Sorted(delayqueue) && forall i | 0 <= i < |acts| :: acts[i].tick > tick
      modifies this
      ensures Sorted(delayqueue) && multiset(delayqueue) == multiset(old(delayqueue)) + multiset(acts)
      ensures Due(delayqueue, tick) == Due(old(delayqueue), tick)
    {
      hide Sorted, Due, Place;
      assert acts[..0] == [];
      for i := 0 to |acts|
        invariant Sorted(delayqueue) && multiset(delayqueue) == multiset(old(delayqueue)) + multiset(acts[..i])
        invariant Due(delayqueue, tick) == Due(old(delayqueue), tick)
      {
        NextSetUp(acts, i);
        DueStays(delayqueue, acts[i], tick);
        Emplace(acts[i]);
      }
      assert acts[..|acts|] == acts;
    }

    /** One round of the loop: the first action runs if it is wanted, and leaves the queue. */
    method RunFirst(tick: int, w: World, wanted: set<nat>)
      returns (called: seq<nat>, again: seq<Action>, left: set<nat>)
      requires Sorted(delayqueue) && SetsLater(w, tick) && delayqueue != [] && delayqueue[0].tick <= tick
      modifies this
      ensures Sorted(delayqueue) && Due(delayqueue, tick) == Due(old(delayqueue), tick)[1..]
      ensures var a := old(delayqueue)[0];
        && called == (if a.id in wanted then [a.id] else [])
        && left == (if a.id in wanted then wanted - DroppedBy(w, a.id) else wanted)
        && again == (if a.interval > 0 then [a] else [])
        && multiset(delayqueue) == multiset(old(delayqueue)) - multiset{a}
             + if a.id in wanted then multiset(SetBy(w, a.id)) else multiset{}
    {
      hide Due, Place;
      var a := delayqueue[0];
      FirstIsDue(delayqueue, tick);
      called, again, left := [], [], wanted;
      if a.id in wanted {
        called := [a.id];
        left := wanted - DroppedBy(w, a.id);
        EmplaceAll(SetBy(w, a.id), tick);
        FirstIsDue(delayqueue, tick);
      }
      if a.interval > 0 {
        again := [a];
      }
      TakeOut(delayqueue, old(delayqueue), if a.id in wanted then multiset(SetBy(w, a.id)) else multiset{});
      delayqueue := delayqueue[1..];
    }

    /** Update: the due actions run in order and leave the queue; intervals come back one interval after `tick`. */
    method Update(tick: int, w: World) returns (called: seq<nat>)
      requires Sorted(delayqueue) && SetsLater(w, tick)
      modifies this
      ensures Sorted(delayqueue) && called == Called(Due(old(delayqueue), tick), w)
      ensures multiset(delayqueue)
           == multiset(Later(old(delayqueue), tick)) + SetUp(Due(old(delayqueue), tick), w)
              + multiset(Rearmed(Repeating(Due(old(delayqueue), tick)), tick))
      ensures forall i | 0 <= i < |delayqueue| :: delayqueue[i].tick > tick
      ensures Updated(old(delayqueue), delayqueue, tick, w, called)
    {
      hide Updated, Called, SetUp, StillWanted, DroppedBy, Repeating, Rearmed, Due, Later, Sorted, Place;
      ghost var due, ran := Due(delayqueue, tick), 0;
      ghost var later := Later(delayqueue, tick);
      NothingRun(w);
      DueAndLater(delayqueue, tick);
      var intervals: seq<Action> := [];
      called := [];
      var wanted := w.wanted;
      assert due[..0] == [] && due[0..] == due;
      while delayqueue != [] && delayqueue[0].tick <= tick
        invariant Sorted(delayqueue) && ran <= |due| && Due(delayqueue, tick) == due[ran..]
        invariant called == Called(due[..ran], w) && wanted == StillWanted(due[..ran], w)
        invariant intervals == Repeating(due[..ran])
        invariant multiset(delayqueue)
               == multiset(due[ran..]) + multiset(later) + SetUp(due[..ran], w)
        decreases |due| - ran
      {
        ghost var a := delayqueue[0];
        FirstIsDue(delayqueue, tick);
        NextDue(due, ran);
        SnocFacts(due[..ran], a, w);
        ghost var set_up := if a.id in wanted then multiset(SetBy(w, a.id)) else multiset{};
        var id, again, left := RunFirst(tick, w, wanted);
        called := called + id;
        wanted := left;
        intervals := intervals + again;
        Counts(due, ran, later, SetUp(due[..ran], w), set_up);
        ran := ran + 1;
      }
      NothingDue(delayqueue, tick);
      assert due[..ran] == due && due[ran..] == [];
      LaterThan(intervals, tick);
      EmplaceAll(Rearmed(intervals, tick), tick);
      NothingDue(delayqueue, tick);
      UpdateMeans(old(delayqueue), delayqueue, tick, w);
    }
  }

  /** An interval with this id is in the queue. */
  predicate Armed(q: seq<Action>, id: nat) {
    exists a <- q :: a.id == id && a.interval > 0
  }

  /** Updates one after the other. An interval that nobody wants any more is never called and never leaves the queue. */
  method RunUpdates(timer: TimerQueue, ticks: seq<int>, worlds: seq<World>, ghost id: nat) returns (called: seq<nat>)
    requires |ticks| == |worlds| && Sorted(timer.delayqueue) && Armed(timer.delayqueue, id)
    requires forall i | 0 <= i < |ticks| :: SetsLater(worlds[i], ticks[i]) && id !in worlds[i].wanted
    modifies timer
    ensures Sorted(timer.delayqueue) && Armed(timer.delayqueue, id) && id !in called
  {
    hide Sorted, Called, Armed, SetsLater, SetUp, Rearmed, Repeating, Due, Later;
    called := [];
    for i := 0 to |ticks|
      invariant Sorted(timer.delayqueue) && Armed(timer.delayqueue, id) && id !in called
    {
      ghost var q := timer.delayqueue;
      var more := timer.Update(ticks[i], worlds[i]);
      StaysArmed(q, timer.delayqueue, ticks[i], SetUp(Due(q, ticks[i]), worlds[i]), id);
      called := called + more;
    }
  }

  lemma StaysArmed(q: seq<Action>, r: seq<Action>, tick: int, others: multiset<Action>, id: nat)
    requires Armed(q, id)
    requires multiset(r) == multiset(Later(q, tick)) + others + multiset(Rearmed(Repeating(Due(q, tick)), tick))
    ensures Armed(r, id)
  {
    hide Due, Later, Repeating, Rearmed;
    var a :| a in q && a.id == id && a.interval > 0;
    DueAndLater(q, tick);
    if a in Later(q, tick) {
      assert a in multiset(r);
    } else {
      assert a in Due(q, tick);
      RearmedStays(Due(q, tick), tick, a);
      var b :| b in Rearmed(Repeating(Due(q, tick)), tick) && b.id == a.id && b.interval == a.interval;
      assert b in multiset(r);
    }
  }

  lemma RearmedStays(acts: seq<Action>, tick: int, a: Action)
    requires a in acts && a.interval > 0
    ensures exists b <- Rearmed(Repeating(acts), tick) :: b.id == a.id && b.interval == a.interval
  {
    RepeatingHas(acts, a);
    var s := Repeating(acts);
    var i :| 0 <= i < |s| && s[i] == a;
    assert Rearmed(s, tick)[i] == a.(tick := tick + a.interval);
  }

  lemma {:induction false} RepeatingHas(acts: seq<Action>, a: Action)
    requires a in acts && a.interval > 0
    ensures a in Repeating(acts)
    decreases |acts|
  {
    if a != acts[|acts| - 1] {
      RepeatingHas(acts[..|acts| - 1], a);
    }
  }

  lemma {:induction false} PlaceUnique(q: seq<Action>, tick: int, k: nat)
    requires k <= |q| && (k < |q| ==> q[k].tick > tick) && forall i | 0 <= i < k :: q[i].tick <= tick
    ensures k == Place(q, tick)
    decreases k
  {
    if k > 0 {
      PlaceUnique(q[1..], tick, k - 1);
    }
  }

  lemma DueStays(q: seq<Action>, a: Action, tick: int)
    requires Sorted(q) && a.tick > tick
    ensures var k := Place(q, a.tick); Due(q[..k] + [a] + q[k..], tick) == Due(q, tick)
  {
    var k, p := Place(q, a.tick), Place(q, tick);
    assert p <= k;
    var r := q[..k] + [a] + q[k..];
    PlaceUnique(r, tick, p);
    assert r[..p] == q[..p];
  }

  lemma FirstIsDue(q: seq<Action>, tick: int)
    requires Due(q, tick) != [] || (q != [] && q[0].tick <= tick)
    ensures q != [] && Due(q, tick) != [] && Due(q, tick)[0] == q[0] && Due(q[1..], tick) == Due(q, tick)[1..]
  {
  }

  lemma NothingDue(q: seq<Action>, tick: int)
    requires Sorted(q)
    ensures (q == [] || q[0].tick > tick) <==> Due(q, tick) == []
    ensures Due(q, tick) == [] ==> forall i | 0 <= i < |q| :: q[i].tick > tick
  {
  }

  lemma TakeOut(q: seq<Action>, was: seq<Action>, more: multiset<Action>)
    requires q != [] && was != [] && q[0] == was[0] && multiset(q) == multiset(was) + more
    ensures multiset(q[1..]) == multiset(was) - multiset{was[0]} + more
  {
    var a := q[0];
    assert q == [a] + q[1..] && was == [a] + was[1..];
    assert multiset(q) == multiset{a} + multiset(q[1..]) && multiset(was) == multiset{a} + multiset(was[1..]);
    Cancel(multiset(q[1..]), multiset(was[1..]) + more, a);
  }

  lemma Cancel(x: multiset<Action>, y: multiset<Action>, a: Action)
    requires multiset{a} + x == multiset{a} + y
    ensures x == y
  {
    forall b | b in x || b in y
      ensures x[b] == y[b]
    {
      assert (multiset{a} + x)[b] == (multiset{a} + y)[b];
    }
  }

  lemma NothingRun(w: World)
    ensures Called([], w) == [] && SetUp([], w) == multiset{} && Repeating([]) == [] && StillWanted([], w) == w.wanted
  {
  }

  lemma NextSetUp(acts: seq<Action>, i: nat)
    requires i < |acts|
    ensures multiset(acts[..i + 1]) == multiset(acts[..i]) + multiset{acts[i]}
  {
    assert acts[..i + 1] == acts[..i] + [acts[i]];
  }

  lemma DueAndLater(q: seq<Action>, tick: int)
    ensures q == Due(q, tick) + Later(q, tick)
  {
  }

  lemma NextDue(due: seq<Action>, ran: nat)
    requires ran < |due|
    ensures due[ran..][0] == due[ran] && due[ran..][1..] == due[ran + 1..] && due[..ran + 1] == due[..ran] + [due[ran]]
  {
  }

  lemma Counts(due: seq<Action>, ran: nat, later: seq<Action>, had: multiset<Action>, more: multiset<Action>)
    requires ran < |due|
    ensures multiset(due[ran..]) + multiset(later) + had - multiset{due[ran]} + more
         == multiset(due[ran + 1..]) + multiset(later) + (had + more)
  {
    assert due[ran..] == [due[ran]] + due[ran + 1..];
  }

  lemma LaterThan(acts: seq<Action>, tick: int)
    requires forall i | 0 <= i < |acts| :: acts[i].interval > 0
    ensures forall i | 0 <= i < |Rearmed(acts, tick)| :: Rearmed(acts, tick)[i].tick > tick
  {
  }
}
