/** The database connection pool: free, busy and pending connections, and the callers that wait for one. */
module ConnectionPool {
  type Conn = nat
  type Caller = nat

  datatype Grant = Grant(caller: Caller, conn: Conn)

  /** What the environment decides: the callers that somebody still holds, and the connections that are open. */
  datatype World = World(held: set<Caller>, open: set<Conn>)

  datatype State = State(free: seq<Conn>, busy: seq<Conn>, pending: seq<Conn>, waiting: seq<Caller>, grants: seq<Grant>)

  function Removed(s: seq<Conn>, c: Conn): (r: seq<Conn>)
    ensures forall x :: x in r <==> x in s && x != c
  {
    if s == [] then [] else (if s[0] == c then [] else [s[0]]) + Removed(s[1..], c)
  }

  predicate Distinct(s: seq<Conn>) {
    forall i, j | 0 <= i < j < |s| :: s[i] != s[j]
  }

  predicate Apart(a: seq<Conn>, b: seq<Conn>) {
    forall x <- a :: x !in b
  }

  /** Every connection is in one list, once, and there are at most `size` of them. */
  ghost predicate Inv(s: State, size: nat) {
    && Distinct(s.free) && Distinct(s.busy) && Distinct(s.pending)
    && Apart(s.free, s.busy) && Apart(s.free, s.pending) && Apart(s.busy, s.pending)
    && |s.free| + |s.busy| + |s.pending| <= size
  }

  /** No connection is free while somebody waits. */
  predicate Quiet(s: State) {
    s.free == [] || s.waiting == []
  }

  /** The first waiter gets the first free connection. A caller that nobody else holds gives it back at once, and an
      open one becomes free again. */
  function GrantOne(s: State, w: World): State
    requires !Quiet(s)
  {
    var r, c := s.free[0], s.waiting[0];
    var t := State(s.free[1..], s.busy + [r], s.pending, s.waiting[1..], s.grants + [Grant(c, r)]);
    if c in w.held then t else GiveBack(t, r, w)
  }

  function GiveBack(s: State, r: Conn, w: World): State {
    s.(busy := Removed(s.busy, r), free := s.free + if r in w.open then [r] else [])
  }

  /** Granting, one after the other, until nothing is free or nobody waits. */
  function Drain(s: State, w: World): (t: State)
    ensures Quiet(t) && |t.waiting| <= |s.waiting| && t.pending == s.pending
    decreases |s.waiting|
  {
    if Quiet(s) then s else Drain(GrantOne(s, w), w)
  }

  function Callers(gs: seq<Grant>): (cs: seq<Caller>)
    ensures |cs| == |gs| && forall i | 0 <= i < |gs| :: cs[i] == gs[i].caller
  {
    seq(|gs|, i requires 0 <= i < |gs| => gs[i].caller)
  }

  /** The connection of the grant `i` has been granted again since, to a caller that keeps it. */
  predicate KeptLater(gs: seq<Grant>, i: nat, w: World) {
    i < |gs| && exists j :: i < j < |gs| && gs[j].conn == gs[i].conn && gs[j].caller in w.held
  }

  /** What the grants from number `n` on have led to: a caller that somebody holds has its connection to itself; any
      other caller's connection is free again if it is open, and gone if it is not, unless somebody else keeps it now. */
  predicate GrantsHold(s: State, n: nat, w: World) {
    n <= |s.grants| && forall i | n <= i < |s.grants| ::
      var caller, conn := s.grants[i].caller, s.grants[i].conn;
      && (caller in w.held ==> conn in s.busy && conn !in s.free)
      && (caller !in w.held && conn in s.busy ==> conn !in s.free && KeptLater(s.grants, i, w))
      && (conn !in s.busy ==> (conn in s.free <==> conn in w.open))
  }

  /** The first new grant is of the first free connection, to the first waiter. */
  predicate FirstServed(s: State, t: State) {
    if s.free == [] || s.waiting == [] then t.grants == s.grants
    else |t.grants| > |s.grants| && t.grants[|s.grants|] == Grant(s.waiting[0], s.free[0])
  }

  lemma GrantHolds(s: State, n: nat, w: World, size: nat)
    requires Inv(s, size) && !Quiet(s) && GrantsHold(s, n, w)
    ensures GrantsHold(GrantOne(s, w), n, w)
  {
    var r, c := s.free[0], s.waiting[0];
    var t := GrantOne(s, w);
    assert t.grants == s.grants + [Grant(c, r)];
    assert r in s.free && r !in s.busy && r !in s.free[1..];
    assert forall x :: x in s.free <==> x == r || x in s.free[1..];
    forall i | n <= i < |t.grants|
      ensures var caller, conn := t.grants[i].caller, t.grants[i].conn;
        && (caller in w.held ==> conn in t.busy && conn !in t.free)
        && (caller !in w.held && conn in t.busy ==> conn !in t.free && KeptLater(t.grants, i, w))
        && (conn !in t.busy ==> (conn in t.free <==> conn in w.open))
    {
      if i < |s.grants| {
        assert t.grants[i] == s.grants[i];
        if KeptLater(s.grants, i, w) {
          var j :| i < j < |s.grants| && s.grants[j].conn == s.grants[i].conn && s.grants[j].caller in w.held;
          assert t.grants[j] == s.grants[j];
        }
        if t.grants[i].conn == r && c in w.held {
          assert t.grants[|s.grants|].conn == r;
        }
      }
    }
  }

  /** Whoever somebody holds keeps what it is granted, and whoever nobody holds does not. */
  lemma {:induction false} DrainHolds(s: State, n: nat, w: World, size: nat)
    requires Inv(s, size) && GrantsHold(s, n, w)
    ensures GrantsHold(Drain(s, w), n, w)
    decreases |s.waiting|
  {
    hide Inv, GrantsHold;
    if !Quiet(s) {
      GrantHolds(s, n, w, size);
      GrantKeeps(s, w, size);
      DrainHolds(GrantOne(s, w), n, w, size);
    }
  }

  lemma DrainServesFirst(s: State, w: World)
    ensures FirstServed(s, Drain(s, w))
  {
    hide Drain;
    DrainStep(s, w);
    if !Quiet(s) {
      DrainIsFifo(GrantOne(s, w), w);
      assert Drain(s, w).grants[|s.grants|] == GrantOne(s, w).grants[|s.grants|];
    }
  }

  lemma DrainStep(s: State, w: World)
    ensures Drain(s, w) == if Quiet(s) then s else Drain(GrantOne(s, w), w)
  {
  }

  lemma {:induction false} RemovedFacts(s: seq<Conn>, c: Conn)
    requires Distinct(s)
    ensures Distinct(Removed(s, c)) && |Removed(s, c)| == |s| - if c in s then 1 else 0
    decreases |s|
  {
    if s != [] {
      RemovedFacts(s[1..], c);
      if s[0] != c {
        DistinctCons(s[0], Removed(s[1..], c));
      }
    }
  }

  lemma DistinctCons(c: Conn, s: seq<Conn>)
    requires Distinct(s) && c !in s
    ensures Distinct([c] + s)
  {
  }

  lemma DistinctSnoc(s: seq<Conn>, c: Conn)
    requires Distinct(s) && c !in s
    ensures Distinct(s + [c])
  {
  }

  lemma GiveBackKeeps(s: State, r: Conn, w: World, size: nat)
    requires Inv(s, size) && r !in s.free && r !in s.pending && (r in w.open ==> r in s.busy)
    ensures Inv(GiveBack(s, r, w), size)
  {
    RemovedFacts(s.busy, r);
    DistinctSnoc(s.free, r);
    assert s.free + [] == s.free;
  }

  lemma GrantKeeps(s: State, w: World, size: nat)
    requires Inv(s, size) && !Quiet(s)
    ensures Inv(GrantOne(s, w), size)
  {
    var r, c := s.free[0], s.waiting[0];
    var t := State(s.free[1..], s.busy + [r], s.pending, s.waiting[1..], s.grants + [Grant(c, r)]);
    assert r in s.free;
    DistinctSnoc(s.busy, r);
    assert forall x <- s.free[1..] :: x in s.free && x != r;
    assert Inv(t, size);
    if c !in w.held {
      GiveBackKeeps(t, r, w, size);
    }
  }

  /** Granting keeps every connection in one list and the number of connections. */
  lemma {:induction false} DrainKeeps(s: State, w: World, size: nat)
    requires Inv(s, size)
    ensures Inv(Drain(s, w), size)
    decreases |s.waiting|
  {
    hide Inv;
    if !Quiet(s) {
      GrantKeeps(s, w, size);
      DrainKeeps(GrantOne(s, w), w, size);
    }
  }

  /** Whoever is granted a connection is the one who has waited longest: grants and waiters together are always the
      callers in the order of their arrival. */
  lemma {:induction false} DrainIsFifo(s: State, w: World)
    ensures var t := Drain(s, w);
      s.grants <= t.grants && Callers(t.grants) + t.waiting == Callers(s.grants) + s.waiting
    decreases |s.waiting|
  {
    if !Quiet(s) {
      var u := GrantOne(s, w);
      DrainIsFifo(u, w);
      assert u.grants == s.grants + [Grant(s.waiting[0], s.free[0])] && u.waiting == s.waiting[1..];
      assert Callers(u.grants) == Callers(s.grants) + [s.waiting[0]];
      assert s.waiting == [s.waiting[0]] + s.waiting[1..];
    }
  }

  /** No connection appears or disappears, except that a closed one is not taken back. */
  lemma {:induction false} DrainConserves(s: State, w: World)
    ensures var t := Drain(s, w);
      forall r :: r in t.free || r in t.busy ==> r in s.free || r in s.busy
    ensures var t := Drain(s, w);
      forall r | r in w.open :: r in s.free || r in s.busy ==> r in t.free || r in t.busy
    decreases |s.waiting|
  {
    if !Quiet(s) {
      var u := GrantOne(s, w);
      DrainConserves(u, w);
      var r := s.free[0];
      assert s.free == [r] + s.free[1..];
      assert forall x :: x in u.free || x in u.busy ==> x in s.free || x in s.busy;
    }
  }

  ghost predicate Known(s: State, next: Conn) {
    (forall r <- s.free :: r < next) && (forall r <- s.busy :: r < next) && (forall r <- s.pending :: r < next)
  }

  lemma DrainKnown(s: State, w: World, next: Conn)
    requires Known(s, next)
    ensures Known(Drain(s, w), next)
  {
    DrainConserves(s, w);
  }

  lemma NoGrantYet(s: State, w: World)
    ensures GrantsHold(s, |s.grants|, w)
  {
  }

  class RealConnectionPool {
    const size: nat
    var free: seq<Conn>
    var busy: seq<Conn>
    var pending: seq<Conn>
    var waiting: seq<Caller>
    var next: Conn
    ghost var grants: seq<Grant>
    ghost var arrived: seq<Caller>

    /** Between the handlers: every connection is in one list, nobody waits while one is free, and the callers have been
        served in the order of their arrival. */
    ghost predicate Valid()
      reads this
    {
      && Inv(View(), size) && Quiet(View()) && Known(View(), next)
      && Callers(grants) + waiting == arrived
    }

    constructor (size: nat)
      ensures Valid() && this.size == size && arrived == []
    {
      this.size := size;
      free, busy, pending, waiting, next, grants, arrived := [], [], [], [], 0, [], [];
    }

    ghost function View(): State
      reads this
    {
      State(free, busy, pending, waiting, grants)
    }

    /** CheckAquireList, with the release of a connection by a caller that ends inside it. */
    method CheckAquireList(w: World)
      modifies this`free, this`busy, this`waiting, this`grants
      ensures View() == Drain(old(View()), w)
      ensures FirstServed(old(View()), View())
      ensures Inv(old(View()), size) ==> GrantsHold(View(), |old(grants)|, w)
      decreases |waiting|, 0
    {
      hide GrantsHold, Inv, FirstServed;
      ghost var start := View();
      NoGrantYet(start, w);
      DrainServesFirst(start, w);
      if Inv(start, size) {
        DrainHolds(start, |start.grants|, w, size);
      }
      while free != [] && waiting != []
        invariant Drain(View(), w) == Drain(start, w) && |waiting| <= |start.waiting|
        invariant pending == start.pending
        decreases |waiting|
      {
        ghost var before := View();
        var realconn := free[0];
        free := free[1..];
        var conn := waiting[0];
        waiting := waiting[1..];
        busy := busy + [realconn];
        grants := grants + [Grant(conn, realconn)];
        if conn !in w.held {
          ReleaseRealConnection(realconn, w);
        }
        assert View() == GrantOne(before, w) || View() == Drain(GrantOne(before, w), w);
      }
    }

    /** ReleaseRealConnection: an open connection serves whoever waits. */
    method ReleaseRealConnection(r: Conn, w: World)
      modifies this`free, this`busy, this`waiting, this`grants
      ensures View() == if r in w.open then Drain(GiveBack(old(View()), r, w), w) else GiveBack(old(View()), r, w)
      decreases |waiting|, 1
    {
      busy := Removed(busy, r);
      if r in w.open {
        free := free + [r];
        CheckAquireList(w);
      } else {
        assert free + [] == free;
      }
    }

    /** CheckAquireList between the handlers' own steps. */
    method Serve(w: World)
      requires Inv(View(), size) && Known(View(), next) && Callers(grants) + waiting == arrived
      modifies this`free, this`busy, this`waiting, this`grants
      ensures Valid() && View() == Drain(old(View()), w)
      ensures FirstServed(old(View()), View()) && GrantsHold(View(), |old(grants)|, w)
    {
      hide Inv, Known, Drain, GrantsHold, FirstServed;
      ghost var s := View();
      DrainKeeps(s, w, size);
      DrainIsFifo(s, w);
      DrainKnown(s, w, next);
      CheckAquireList(w);
    }

    method CreateNewConnection() returns (c: Conn)
      requires Inv(View(), size) && Known(View(), next) && |free| + |busy| + |pending| < size
      modifies this`pending, this`next
      ensures c == old(next) && pending == old(pending) + [c] && next == c + 1
      ensures Inv(View(), size) && Known(View(), next)
    {
      c := next;
      DistinctSnoc(pending, c);
      pending := pending + [c];
      next := next + 1;
    }

    /** CheckCreateMore, and Setup for an empty pool: connections are created up to the size of the pool. */
    method CheckCreateMore() returns (created: seq<Conn>)
      requires Inv(View(), size) && Known(View(), next)
      modifies this`pending, this`next
      ensures Inv(View(), size) && Known(View(), next)
      ensures pending == old(pending) + created && |free| + |busy| + |pending| == size
      ensures forall c <- created :: c >= old(next)
    {
      hide Inv, Known;
      created := [];
      SizeKept(View(), size);
      var exist := |busy| + |free| + |pending|;
      for i := exist to size
        invariant Inv(View(), size) && Known(View(), next) && next >= old(next)
        invariant pending == old(pending) + created && |free| + |busy| + |pending| == i
        invariant forall c <- created :: c >= old(next)
      {
        var c := CreateNewConnection();
        created := created + [c];
      }
    }

    /** AquireRealConnection: a caller joins the queue; the pool is filled up afterwards. */
    method AquireRealConnection(caller: Caller, w: World) returns (created: seq<Conn>)
      requires Valid()
      modifies this
      ensures Valid() && arrived == old(arrived) + [caller]
      ensures var t := Drain(old(View()).(waiting := old(waiting) + [caller]), w);
        View() == t.(pending := t.pending + created)
      ensures |free| + |busy| + |pending| == size
      ensures GrantsHold(View(), |old(grants)|, w)
    {
      hide Inv, Known, Drain;
      waiting := waiting + [caller];
      arrived := arrived + [caller];
      WaitersDoNotMatter(old(View()), View(), size, next);
      assert Callers(grants) + waiting == arrived;
      Serve(w);
      created := CheckCreateMore();
    }

    /** OnAuthSuccess: a new connection is ready. */
    method OnAuthSuccess(sender: Conn, w: World)
      requires Valid() && sender in pending
      modifies this
      ensures Valid() && arrived == old(arrived)
      ensures View() == Drain(old(View()).(pending := Removed(old(pending), sender), free := old(free) + [sender]), w)
      ensures GrantsHold(View(), |old(grants)|, w)
    {
      hide Drain, GrantsHold, FirstServed;
      RemovedFacts(pending, sender);
      DistinctSnoc(free, sender);
      pending := Removed(pending, sender);
      free := free + [sender];
      Serve(w);
    }

    /** OnConnectFail. */
    method OnConnectFail(sender: Conn)
      requires Valid()
      modifies this`pending
      ensures Valid() && pending == Removed(old(pending), sender)
    {
      RemovedFacts(pending, sender);
      pending := Removed(pending, sender);
    }

    /** OnClose: the connection leaves whichever list it is in. */
    method OnClose(sender: Conn)
      requires Valid()
      modifies this`pending, this`free, this`busy
      ensures Valid() && pending == Removed(old(pending), sender)
      ensures free == Removed(old(free), sender) && busy == Removed(old(busy), sender)
    {
      RemovedFacts(pending, sender);
      RemovedFacts(free, sender);
      RemovedFacts(busy, sender);
      pending := Removed(pending, sender);
      free := Removed(free, sender);
      busy := Removed(busy, sender);
    }

    /** A caller returns its connection. */
    method Return(r: Conn, w: World)
      requires Valid() && r !in free && r !in pending && (r in w.open ==> r in busy)
      modifies this
      ensures Valid() && arrived == old(arrived)
      ensures View() == if r in w.open then Drain(GiveBack(old(View()), r, w), w) else GiveBack(old(View()), r, w)
      ensures GrantsHold(View(), |old(grants)|, w)
      ensures if r in w.open then old(waiting) == [] ==> r in free && r !in busy else r !in free && r !in busy
      ensures r in w.open && old(waiting) != [] && old(free) == [] ==>
        |grants| > |old(grants)| && grants[|old(grants)|] == Grant(old(waiting)[0], r)
    {
      hide Inv, Drain;
      ghost var s := GiveBack(View(), r, w);
      GiveBackKeeps(View(), r, w, size);
      DrainKeeps(s, w, size);
      DrainIsFifo(s, w);
      DrainKnown(s, w, next);
      DrainHolds(s, |s.grants|, w, size);
      DrainServesFirst(s, w);
      DrainStep(s, w);
      assert free + [] == free;
      ReleaseRealConnection(r, w);
    }

    /** Cleanup: the waiters are turned away, and what is not connected any more goes. */
    method Cleanup(w: World)
      requires Valid()
      modifies this
      ensures Valid() && waiting == [] && busy == old(busy) && grants == old(grants)
      ensures (forall r :: r in pending <==> r in old(pending) && r in w.open)
      ensures (forall r :: r in free <==> r in old(free) && r in w.open)
    {
      hide Inv;
      WaitersDoNotMatter(View(), View().(waiting := []), size, next);
      waiting := [];
      arrived := Callers(grants);
      assert Callers(grants) + [] == arrived;
      var i := 0;
      while i < |pending|
        invariant 0 <= i <= |pending| && Valid() && waiting == [] && busy == old(busy) && grants == old(grants)
        invariant free == old(free) && (forall r <- pending[..i] :: r in w.open)
        invariant forall r <- pending :: r in old(pending)
        invariant forall r <- old(pending) :: r in w.open ==> r in pending
        decreases |pending| - i
      {
        if pending[i] !in w.open {
          WithoutIndex(pending, i);
          ErasePending(View(), i, size, next);
          pending := pending[..i] + pending[i + 1..];
        } else {
          i := i + 1;
        }
      }
      i := 0;
      while i < |free|
        invariant 0 <= i <= |free| && Valid() && waiting == [] && busy == old(busy) && grants == old(grants)
        invariant forall r :: r in pending <==> r in old(pending) && r in w.open
        invariant forall r <- free[..i] :: r in w.open
        invariant forall r <- free :: r in old(free)
        invariant forall r <- old(free) :: r in w.open ==> r in free
        decreases |free| - i
      {
        if free[i] !in w.open {
          WithoutIndex(free, i);
          EraseFree(View(), i, size, next);
          free := free[..i] + free[i + 1..];
        } else {
          i := i + 1;
        }
      }
    }
  }

  lemma SizeKept(s: State, size: nat)
    requires Inv(s, size)
    ensures |s.free| + |s.busy| + |s.pending| <= size
  {
  }

  lemma WaitersDoNotMatter(s: State, t: State, size: nat, next: Conn)
    requires Inv(s, size) && Known(s, next) && t == s.(waiting := t.waiting)
    ensures Inv(t, size) && Known(t, next)
  {
  }

  lemma WithoutIndex(s: seq<Conn>, i: nat)
    requires i < |s|
    ensures forall r :: r in s <==> r == s[i] || r in s[..i] + s[i + 1..]
  {
    assert s == s[..i] + [s[i]] + s[i + 1..];
  }

  lemma ErasePending(s: State, i: nat, size: nat, next: Conn)
    requires Inv(s, size) && Known(s, next) && i < |s.pending|
    ensures var t := s.(pending := s.pending[..i] + s.pending[i + 1..]); Inv(t, size) && Known(t, next)
  {
    WithoutIndex(s.pending, i);
    var t := s.(pending := s.pending[..i] + s.pending[i + 1..]);
    forall r | r in t.pending
      ensures r < next
    {
      assert r in s.pending;
    }
  }

  lemma EraseFree(s: State, i: nat, size: nat, next: Conn)
    requires Inv(s, size) && Known(s, next) && i < |s.free|
    ensures var t := s.(free := s.free[..i] + s.free[i + 1..]); Inv(t, size) && Known(t, next)
  {
    WithoutIndex(s.free, i);
    var t := s.(free := s.free[..i] + s.free[i + 1..]);
    forall r | r in t.free
      ensures r < next
    {
      assert r in s.free;
    }
  }
}
