/** The pass over the waiting lookups when their callbacks create mailboxes: every new name starts another pass over the
    same list, before the lookup that was called is erased from it. */
module Lookups {
  import opened Matcher
  import opened Registry

  /** What the environment does during a pass: whose linkers have been dropped, and which new name a callback brings
      up, if it creates a mailbox. */
  datatype World = World(abandoned: set<nat>, brings: map<nat, string>)

  datatype Call = Call(f: Fetch, name: string)

  /** `Dangling`: the lookup is erased while its own callback still runs, and the loop that called it goes on from an
      entry that is gone. */
  datatype Pass = Done(list: seq<Fetch>, calls: seq<Call>) | Dangling(f: Fetch)

  predicate Distinct(fs: seq<Fetch>) {
    forall i, j | 0 <= i < j < |fs| :: fs[i].who != fs[j].who
  }

  function Erase(fs: seq<Fetch>, k: nat): seq<Fetch>
    requires k < |fs|
  {
    fs[..k] + fs[k + 1..]
  }

  function IndexOf(fs: seq<Fetch>, f: Fetch): (k: nat)
    requires f in fs
    ensures k < |fs| && fs[k] == f
  {
    if fs[0] == f then 0 else 1 + IndexOf(fs[1..], f)
  }

  /** The lookups whose callbacks are not running. */
  function Idle(fs: seq<Fetch>, running: set<nat>): set<Fetch> {
    set f | f in fs && f.who !in running
  }

  /** The rest of a pass for `name`, from the entry `k` on, while the callbacks of `running` are at work. */
  function PassFrom(fs: seq<Fetch>, k: nat, name: string, w: World, running: set<nat>): (r: Pass)
    requires k <= |fs| && Distinct(fs)
    ensures r.Done? ==> Distinct(r.list) && (forall g <- r.list :: g in fs)
    ensures r.Done? ==> forall g <- fs :: g.who in running ==> g in r.list
    decreases |Idle(fs, running)|, |fs| - k
  {
    if k == |fs| then Done(fs, [])
    else
      var f := fs[k];
      if GivenUp(f, w.abandoned) || Matches(f.matcher, name) then
        if f.who in running then Dangling(f)
        else
          EraseFacts(fs, k, running);
          if GivenUp(f, w.abandoned) then PassFrom(Erase(fs, k), k, name, w, running)
          else
            RunningFacts(fs, k, running);
            var inner := if f.who in w.brings then PassFrom(fs, 0, w.brings[f.who], w, running + {f.who}) else Done(fs, []);
            if inner.Dangling? then inner
            else
              var at := IndexOf(inner.list, f);
              EraseFacts(inner.list, at, running);
              FewerIdle(fs, inner.list, f, at, running);
              var rest := PassFrom(Erase(inner.list, at), at, name, w, running);
              if rest.Dangling? then rest else Done(rest.list, [Call(f, name)] + inner.calls + rest.calls)
      else PassFrom(fs, k + 1, name, w, running)
  }

  lemma EraseFacts(fs: seq<Fetch>, k: nat, running: set<nat>)
    requires k < |fs| && Distinct(fs) && fs[k].who !in running
    ensures var r := Erase(fs, k);
      && Distinct(r) && k <= |r| && (forall g :: g in r <==> g in fs && g != fs[k])
      && |Idle(r, running)| < |Idle(fs, running)|
  {
    var r := Erase(fs, k);
    forall g | g in fs && g != fs[k]
      ensures g in r
    {
      var i :| 0 <= i < |fs| && fs[i] == g;
      assert if i < k then r[i] == g else r[i - 1] == g;
    }
    assert fs[k] !in r;
    assert Idle(r, running) == Idle(fs, running) - {fs[k]};
  }

  lemma RunningFacts(fs: seq<Fetch>, k: nat, running: set<nat>)
    requires k < |fs| && fs[k].who !in running
    ensures |Idle(fs, running + {fs[k].who})| < |Idle(fs, running)|
  {
    Fewer(Idle(fs, running + {fs[k].who}), Idle(fs, running), fs[k]);
  }

  lemma FewerIdle(fs: seq<Fetch>, gs: seq<Fetch>, f: Fetch, at: nat, running: set<nat>)
    requires Distinct(gs) && (forall g <- gs :: g in fs) && at < |gs| && gs[at] == f && f in fs && f.who !in running
    ensures |Idle(Erase(gs, at), running)| < |Idle(fs, running)|
  {
    EraseFacts(gs, at, running);
    Fewer(Idle(Erase(gs, at), running), Idle(fs, running), f);
  }

  lemma Fewer(a: set<Fetch>, b: set<Fetch>, f: Fetch)
    requires a <= b && f in b && f !in a
    ensures |a| < |b|
  {
    Subsets(a, b - {f});
  }

  lemma {:induction false} Subsets(a: set<Fetch>, b: set<Fetch>)
    requires a <= b
    ensures |a| <= |b|
    decreases a
  {
    if a != {} {
      var f :| f in a;
      Subsets(a - {f}, b - {f});
    }
  }

  // ---------------------------------------------------------------- steps of a pass

  predicate IsCalled(f: Fetch, name: string, w: World) {
    !GivenUp(f, w.abandoned) && Matches(f.matcher, name)
  }

  /** What the callback of `f` does to the list. */
  function DuringCall(fs: seq<Fetch>, f: Fetch, w: World, running: set<nat>): Pass
    requires Distinct(fs)
  {
    if f.who in w.brings then PassFrom(fs, 0, w.brings[f.who], w, running + {f.who}) else Done(fs, [])
  }

  /** The pass goes on behind the erased lookup. */
  function AfterCall(f: Fetch, name: string, inner: Pass, w: World, running: set<nat>): Pass
    requires inner.Done? ==> Distinct(inner.list) && f in inner.list && f.who !in running
  {
    if inner.Dangling? then inner
    else
      var at := IndexOf(inner.list, f);
      EraseFacts(inner.list, at, running);
      var rest := PassFrom(Erase(inner.list, at), at, name, w, running);
      if rest.Dangling? then rest else Done(rest.list, [Call(f, name)] + inner.calls + rest.calls)
  }

  lemma StaysDuringCall(fs: seq<Fetch>, f: Fetch, w: World, running: set<nat>)
    requires Distinct(fs) && f in fs
    ensures var inner := DuringCall(fs, f, w, running);
      inner.Done? ==> Distinct(inner.list) && f in inner.list && forall g <- inner.list :: g in fs
  {
    hide PassFrom;
  }

  lemma PassStep(fs: seq<Fetch>, k: nat, name: string, w: World, running: set<nat>)
    requires k < |fs| && Distinct(fs)
    ensures var f := fs[k]; var r := PassFrom(fs, k, name, w, running);
      && (!GivenUp(f, w.abandoned) && !Matches(f.matcher, name) ==> r == PassFrom(fs, k + 1, name, w, running))
      && ((GivenUp(f, w.abandoned) || Matches(f.matcher, name)) && f.who in running ==> r == Dangling(f))
      && (GivenUp(f, w.abandoned) && f.who !in running ==>
            Distinct(Erase(fs, k)) && k <= |Erase(fs, k)| && r == PassFrom(Erase(fs, k), k, name, w, running))
    ensures var f := fs[k];
      IsCalled(f, name, w) && f.who !in running ==>
        var inner := DuringCall(fs, f, w, running);
        && (inner.Done? ==> Distinct(inner.list) && f in inner.list)
        && PassFrom(fs, k, name, w, running) == AfterCall(f, name, inner, w, running)
  {
    hide Erase, Matches, GivenUp;
    if fs[k].who !in running {
      EraseFacts(fs, k, running);
      StaysDuringCall(fs, fs[k], w, running);
    }
  }

  lemma PassEnd(fs: seq<Fetch>, name: string, w: World, running: set<nat>)
    requires Distinct(fs)
    ensures PassFrom(fs, |fs|, name, w, running) == Done(fs, [])
  {
  }

  // ---------------------------------------------------------------- the loop

  function Prefixed(calls: seq<Call>, r: Pass): Pass {
    if r.Dangling? then r else Done(r.list, calls + r.calls)
  }

  class LookupList {
    var asyncFetch: seq<Fetch>

    constructor ()
      ensures asyncFetch == []
    {
      asyncFetch := [];
    }

    /** CheckAsyncFetchList: a callback that brings up a name starts the loop anew on the same list. The result is
        false when the loop would go on from an erased entry. */
    method CheckAsyncFetchList(name: string, w: World, running: set<nat>) returns (whole: bool, calls: seq<Call>)
      requires Distinct(asyncFetch) && forall f <- asyncFetch :: f.matcher != ""
      modifies this
      ensures match PassFrom(old(asyncFetch), 0, name, w, running)
        case Done(list, cs) => whole && asyncFetch == list && calls == cs
        case Dangling(_) => !whole
      ensures whole && running == {} ==> forall f <- old(asyncFetch) ::
        if f.linked && f.who in w.abandoned then f !in asyncFetch && !HasCall(calls, f)
        else if Matches(f.matcher, name) then f !in asyncFetch && HasCall(calls, f)
        else f in asyncFetch <==> !HasCall(calls, f)
      decreases |Idle(asyncFetch, running)|
    {
      if running == {} {
        PassAnswers(asyncFetch, name, w);
      }
      hide PassFrom, Matches, Idle, Erase, Distinct, DuringCall;
      ghost var all := asyncFetch;
      calls := [];
      var it: nat := 0;
      NothingBefore(PassFrom(all, 0, name, w, running));
      while it < |asyncFetch|
        invariant it <= |asyncFetch| && Distinct(asyncFetch) && (forall f <- asyncFetch :: f.matcher != "")
        invariant PassFrom(all, 0, name, w, running) == Prefixed(calls, PassFrom(asyncFetch, it, name, w, running))
        invariant |Idle(asyncFetch, running)| <= |Idle(all, running)|
        decreases |Idle(asyncFetch, running)|, |asyncFetch| - it
      {
        var f := asyncFetch[it];
        PassStep(asyncFetch, it, name, w, running);
        if f.linked && f.who in w.abandoned {
          if f.who in running {
            return false, calls;
          }
          EraseFacts(asyncFetch, it, running);
          asyncFetch := Erase(asyncFetch, it);
        } else {
          var matches := IsProcessNameMatch(f.matcher, name);
          if !matches {
            it := it + 1;
          } else if f.who in running {
            return false, calls;
          } else {
            var ok, at, more := Answer(f, it, name, w, running, all, calls);
            if !ok {
              return false, calls;
            }
            calls := calls + more;
            it := at;
          }
        }
      }
      PassEnd(asyncFetch, name, w, running);
      NothingBehind(calls);
      whole := true;
    }

    /** The callback of the lookup `f` at `it`, and its erasure. */
    method Answer(f: Fetch, it: nat, name: string, w: World, running: set<nat>, ghost all: seq<Fetch>,
                  ghost done: seq<Call>)
      returns (ok: bool, at: nat, more: seq<Call>)
      requires Distinct(asyncFetch) && forall g <- asyncFetch :: g.matcher != ""
      requires it < |asyncFetch| && asyncFetch[it] == f && IsCalled(f, name, w) && f.who !in running
      requires Distinct(all) && |Idle(asyncFetch, running)| <= |Idle(all, running)|
      requires PassFrom(all, 0, name, w, running) == Prefixed(done, PassFrom(asyncFetch, it, name, w, running))
      modifies this
      ensures !ok ==> PassFrom(all, 0, name, w, running).Dangling?
      ensures ok ==>
        && Distinct(asyncFetch) && (forall g <- asyncFetch :: g.matcher != "") && at <= |asyncFetch|
        && |Idle(asyncFetch, running)| < old(|Idle(asyncFetch, running)|)
        && PassFrom(all, 0, name, w, running) == Prefixed(done + more, PassFrom(asyncFetch, at, name, w, running))
      decreases |Idle(asyncFetch, running)|, 0
    {
      hide PassFrom, Matches, Idle, Erase, Distinct, IsCalled;
      ghost var fs := asyncFetch;
      PassStep(fs, it, name, w, running);
      RunningFacts(fs, it, running);
      StaysDuringCall(fs, f, w, running);
      ghost var inner := DuringCall(fs, f, w, running);
      more := [Call(f, name)];
      ok := true;
      var answers: seq<Call> := [];
      if f.who in w.brings {
        ok, answers := CheckAsyncFetchList(w.brings[f.who], w, running + {f.who});
      }
      if ok {
        at := IndexOf(asyncFetch, f);
        EraseFacts(asyncFetch, at, running);
        FewerIdle(fs, asyncFetch, f, at, running);
        asyncFetch := Erase(asyncFetch, at);
        more := more + answers;
        PrefixedTwice(done, more, PassFrom(asyncFetch, at, name, w, running));
      } else {
        at := 0;
      }
    }
  }

  lemma NothingBefore(r: Pass)
    ensures Prefixed([], r) == r
  {
    if r.Done? {
      assert [] + r.calls == r.calls;
    }
  }

  lemma NothingBehind(calls: seq<Call>)
    ensures calls + [] == calls
  {
  }

  lemma PrefixedTwice(a: seq<Call>, b: seq<Call>, r: Pass)
    ensures Prefixed(a, Prefixed(b, r)) == Prefixed(a + b, r)
  {
    if r.Done? {
      assert a + (b + r.calls) == a + b + r.calls;
    }
  }

  // ---------------------------------------------------------------- nobody is lost or called twice

  predicate HasCall(calls: seq<Call>, g: Fetch) {
    exists i :: 0 <= i < |calls| && calls[i].f == g
  }

  /** Everybody in `fs` waits on, has given up, or has been called; the calls are for different lookups, which are gone
      from the list, and every one of them matched the name that it was called with. */
  ghost predicate Accounted(fs: seq<Fetch>, r: Pass, w: World, running: set<nat>) {
    r.Done? ==>
      && (forall i, j | 0 <= i < j < |r.calls| :: r.calls[i].f.who != r.calls[j].f.who)
      && (forall i | 0 <= i < |r.calls| ::
            var c := r.calls[i];
            c.f in fs && c.f !in r.list && c.f.who !in running && IsCalled(c.f, c.name, w))
      && (forall g <- fs :: g in r.list || GivenUp(g, w.abandoned) || HasCall(r.calls, g))
      && (forall g <- r.list :: g in fs)
  }

  /** Whatever the callbacks bring up: unless a lookup is erased under its own callback, everybody is accounted for. */
  lemma {:induction false} PassAccountsForAll(fs: seq<Fetch>, k: nat, name: string, w: World, running: set<nat>)
    requires k <= |fs| && Distinct(fs)
    ensures Accounted(fs, PassFrom(fs, k, name, w, running), w, running)
    decreases |Idle(fs, running)|, |fs| - k
  {
    hide PassFrom, Matches, GivenUp, Idle, Erase, DuringCall, Accounted;
    if k == |fs| {
      PassEnd(fs, name, w, running);
      NothingAccounted(fs, w, running);
      return;
    }
    var f := fs[k];
    PassStep(fs, k, name, w, running);
    if f.who in running {
      if GivenUp(f, w.abandoned) || Matches(f.matcher, name) {
        NobodyToAccount(fs, f, w, running);
      } else {
        PassAccountsForAll(fs, k + 1, name, w, running);
      }
    } else if GivenUp(f, w.abandoned) {
      EraseFacts(fs, k, running);
      PassAccountsForAll(Erase(fs, k), k, name, w, running);
      AccountedWithout(fs, Erase(fs, k), f, PassFrom(fs, k, name, w, running), w, running);
    } else if Matches(f.matcher, name) {
      CallAccounted(fs, k, name, w, running);
    } else {
      PassAccountsForAll(fs, k + 1, name, w, running);
    }
  }

  lemma NothingAccounted(fs: seq<Fetch>, w: World, running: set<nat>)
    ensures Accounted(fs, Done(fs, []), w, running)
  {
  }

  lemma NobodyToAccount(fs: seq<Fetch>, f: Fetch, w: World, running: set<nat>)
    ensures Accounted(fs, Dangling(f), w, running)
  {
  }

  lemma AccountedWithout(fs: seq<Fetch>, gs: seq<Fetch>, f: Fetch, r: Pass, w: World, running: set<nat>)
    requires Accounted(gs, r, w, running) && GivenUp(f, w.abandoned) && forall g :: g in gs <==> g in fs && g != f
    ensures Accounted(fs, r, w, running)
  {
    hide IsCalled, HasCall, GivenUp;
  }

  lemma CallAccounted(fs: seq<Fetch>, k: nat, name: string, w: World, running: set<nat>)
    requires k < |fs| && Distinct(fs) && IsCalled(fs[k], name, w) && fs[k].who !in running
    ensures Accounted(fs, PassFrom(fs, k, name, w, running), w, running)
    decreases |Idle(fs, running)|, |fs| - k, 0
  {
    hide PassFrom, Matches, GivenUp, Idle, IsCalled, Erase, Accounted;
    var f := fs[k];
    PassStep(fs, k, name, w, running);
    RunningFacts(fs, k, running);
    var inner := DuringCall(fs, f, w, running);
    if f.who in w.brings {
      PassAccountsForAll(fs, 0, w.brings[f.who], w, running + {f.who});
    } else {
      NothingAccounted(fs, w, running + {f.who});
    }
    if inner.Dangling? {
      NobodyToAccount(fs, inner.f, w, running);
    } else {
      StaysDuringCall(fs, f, w, running);
      var at := IndexOf(inner.list, f);
      EraseFacts(inner.list, at, running);
      FewerIdle(fs, inner.list, f, at, running);
      PassAccountsForAll(Erase(inner.list, at), at, name, w, running);
      var rest := PassFrom(Erase(inner.list, at), at, name, w, running);
      if rest.Dangling? {
        NobodyToAccount(fs, rest.f, w, running);
      } else {
        CallsJoin(fs, f, name, inner, Erase(inner.list, at), rest, w, running);
      }
    }
  }

  lemma CallsJoin(fs: seq<Fetch>, f: Fetch, name: string, inner: Pass, gs: seq<Fetch>, rest: Pass, w: World,
                  running: set<nat>)
    requires inner.Done? && rest.Done? && f in fs && IsCalled(f, name, w) && f.who !in running && Distinct(fs)
    requires Accounted(fs, inner, w, running + {f.who}) && Accounted(gs, rest, w, running)
    requires forall g :: g in gs <==> g in inner.list && g != f
    ensures Accounted(fs, Done(rest.list, [Call(f, name)] + inner.calls + rest.calls), w, running)
  {
    hide IsCalled, HasCall, GivenUp, Distinct;
    var calls := [Call(f, name)] + inner.calls + rest.calls;
    var n := |inner.calls|;
    forall i | 0 <= i < |calls|
      ensures calls[i] == if i == 0 then Call(f, name) else if i <= n then inner.calls[i - 1] else rest.calls[i - n - 1]
    {
    }
    forall g | g in fs
      ensures g in rest.list || GivenUp(g, w.abandoned) || HasCall(calls, g)
    {
      HasCallLater(f, name, inner.calls, rest.calls, g);
    }
    forall i, j | 0 <= i < j < |calls|
      ensures calls[i].f.who != calls[j].f.who
    {
      DifferentCalls(fs, calls[i].f, calls[j].f);
    }
  }

  lemma HasCallLater(f: Fetch, name: string, a: seq<Call>, b: seq<Call>, g: Fetch)
    ensures var calls := [Call(f, name)] + a + b;
      HasCall(calls, g) <==> g == f || HasCall(a, g) || HasCall(b, g)
  {
    var calls := [Call(f, name)] + a + b;
    if HasCall(a, g) {
      var i :| 0 <= i < |a| && a[i].f == g;
      assert calls[1 + i] == a[i];
    }
    if HasCall(b, g) {
      var i :| 0 <= i < |b| && b[i].f == g;
      assert calls[1 + |a| + i] == b[i];
    }
    assert calls[0].f == f;
  }

  lemma DifferentCalls(fs: seq<Fetch>, f: Fetch, g: Fetch)
    requires Distinct(fs) && f in fs && g in fs && f != g
    ensures f.who != g.who
  {
  }

  // ---------------------------------------------------------------- who is left

  function PlaceOf(fs: seq<Fetch>, f: Fetch): nat {
    if f in fs then IndexOf(fs, f) else |fs|
  }

  /** `gs` are some of `fs`, in the same order. */
  predicate KeepsOrder(fs: seq<Fetch>, gs: seq<Fetch>) {
    (forall g <- gs :: g in fs) && forall i, j | 0 <= i < j < |gs| :: PlaceOf(fs, gs[i]) < PlaceOf(fs, gs[j])
  }

  lemma PlaceIsIndex(fs: seq<Fetch>)
    requires Distinct(fs)
    ensures forall i | 0 <= i < |fs| :: PlaceOf(fs, fs[i]) == i
  {
    forall i | 0 <= i < |fs|
      ensures PlaceOf(fs, fs[i]) == i
    {
      IndexIsUnique(fs, i);
    }
  }

  lemma EraseKeepsOrder(fs: seq<Fetch>, k: nat)
    requires Distinct(fs) && k < |fs|
    ensures KeepsOrder(fs, fs) && KeepsOrder(fs, Erase(fs, k))
  {
    hide Distinct, PlaceOf;
    PlaceIsIndex(fs);
    var gs := Erase(fs, k);
    assert forall i | 0 <= i < |gs| :: gs[i] == fs[if i < k then i else i + 1];
  }

  lemma SameKeepsOrder(fs: seq<Fetch>)
    requires Distinct(fs)
    ensures KeepsOrder(fs, fs)
  {
    hide PlaceOf;
    PlaceIsIndex(fs);
  }

  lemma OrderIsTransitive(fs: seq<Fetch>, gs: seq<Fetch>, hs: seq<Fetch>)
    requires KeepsOrder(fs, gs) && KeepsOrder(gs, hs)
    ensures KeepsOrder(fs, hs)
  {
    forall i, j | 0 <= i < j < |hs|
      ensures PlaceOf(fs, hs[i]) < PlaceOf(fs, hs[j])
    {
      var a, b := PlaceOf(gs, hs[i]), PlaceOf(gs, hs[j]);
      assert hs[i] in gs && hs[j] in gs && a < b && gs[a] == hs[i] && gs[b] == hs[j];
    }
  }

  /** A pass leaves the others in their order. */
  lemma {:induction false} PassKeepsOrder(fs: seq<Fetch>, k: nat, name: string, w: World, running: set<nat>)
    requires k <= |fs| && Distinct(fs)
    ensures var r := PassFrom(fs, k, name, w, running); r.Done? ==> KeepsOrder(fs, r.list)
    decreases |Idle(fs, running)|, |fs| - k
  {
    hide PassFrom, Matches, GivenUp, Idle, Erase, KeepsOrder;
    SameKeepsOrder(fs);
    if k == |fs| {
      PassEnd(fs, name, w, running);
      return;
    }
    var f := fs[k];
    PassStep(fs, k, name, w, running);
    if !GivenUp(f, w.abandoned) && !Matches(f.matcher, name) {
      PassKeepsOrder(fs, k + 1, name, w, running);
    } else if f.who !in running {
      EraseFacts(fs, k, running);
      EraseKeepsOrder(fs, k);
      if GivenUp(f, w.abandoned) {
        PassKeepsOrder(Erase(fs, k), k, name, w, running);
        var r := PassFrom(fs, k, name, w, running);
        if r.Done? {
          OrderIsTransitive(fs, Erase(fs, k), r.list);
        }
      } else {
        CallKeepsOrder(fs, k, name, w, running);
      }
    }
  }

  lemma DuringKeepsOrder(fs: seq<Fetch>, f: Fetch, w: World, running: set<nat>)
    requires Distinct(fs) && f in fs && f.who !in running
    ensures var inner := DuringCall(fs, f, w, running); inner.Done? ==> KeepsOrder(fs, inner.list)
    decreases |Idle(fs, running)|, 0, 0
  {
    hide PassFrom, Idle, KeepsOrder;
    SameKeepsOrder(fs);
    if f.who in w.brings {
      RunningFacts(fs, IndexOf(fs, f), running);
      PassKeepsOrder(fs, 0, w.brings[f.who], w, running + {f.who});
    }
  }

  lemma CallKeepsOrder(fs: seq<Fetch>, k: nat, name: string, w: World, running: set<nat>)
    requires k < |fs| && Distinct(fs) && IsCalled(fs[k], name, w) && fs[k].who !in running
    ensures var r := PassFrom(fs, k, name, w, running); r.Done? ==> KeepsOrder(fs, r.list)
    decreases |Idle(fs, running)|, |fs| - k, 0
  {
    hide PassFrom, Matches, GivenUp, Idle, Erase, KeepsOrder, DuringCall;
    var f := fs[k];
    PassStep(fs, k, name, w, running);
    DuringKeepsOrder(fs, f, w, running);
    StaysDuringCall(fs, f, w, running);
    var inner := DuringCall(fs, f, w, running);
    if inner.Done? {
      var at := IndexOf(inner.list, f);
      EraseFacts(inner.list, at, running);
      FewerIdle(fs, inner.list, f, at, running);
      EraseKeepsOrder(inner.list, at);
      PassKeepsOrder(Erase(inner.list, at), at, name, w, running);
      var rest := PassFrom(Erase(inner.list, at), at, name, w, running);
      if rest.Done? {
        OrderIsTransitive(fs, inner.list, Erase(inner.list, at));
        OrderIsTransitive(fs, Erase(inner.list, at), rest.list);
      }
    }
  }

  /** Nobody among the first `k` has given up or matches. */
  predicate CleanUpTo(fs: seq<Fetch>, k: nat, name: string, w: World) {
    k <= |fs| && forall i | 0 <= i < k :: !GivenUp(fs[i], w.abandoned) && !Matches(fs[i].matcher, name)
  }

  lemma CleanAround(fs: seq<Fetch>, gs: seq<Fetch>, k: nat, at: nat, name: string, w: World)
    requires Distinct(fs) && k < |fs| && at < |gs| && gs[at] == fs[k] && KeepsOrder(fs, gs) && CleanUpTo(fs, k, name, w)
    ensures CleanUpTo(Erase(gs, at), at, name, w)
  {
    hide Matches, GivenUp, PlaceOf;
    PlaceIsIndex(fs);
    forall i | 0 <= i < at
      ensures !GivenUp(gs[i], w.abandoned) && !Matches(gs[i].matcher, name)
    {
      assert PlaceOf(fs, gs[i]) < PlaceOf(fs, gs[at]) == k;
      assert gs[i] in fs;
      var m :| 0 <= m < |fs| && fs[m] == gs[i];
      assert m < k;
    }
  }

  /** When a pass is over, nobody in the list has given up or matches. */
  lemma {:induction false} PassLeavesClean(fs: seq<Fetch>, k: nat, name: string, w: World, running: set<nat>)
    requires Distinct(fs) && CleanUpTo(fs, k, name, w)
    ensures var r := PassFrom(fs, k, name, w, running); r.Done? ==> CleanUpTo(r.list, |r.list|, name, w)
    decreases |Idle(fs, running)|, |fs| - k
  {
    hide PassFrom, Matches, GivenUp, Idle, KeepsOrder, DuringCall;
    if k == |fs| {
      PassEnd(fs, name, w, running);
      return;
    }
    var f := fs[k];
    PassStep(fs, k, name, w, running);
    if !GivenUp(f, w.abandoned) && !Matches(f.matcher, name) {
      PassLeavesClean(fs, k + 1, name, w, running);
    } else if f.who !in running {
      EraseFacts(fs, k, running);
      if GivenUp(f, w.abandoned) {
        SameKeepsOrder(fs);
        CleanAround(fs, fs, k, k, name, w);
        PassLeavesClean(Erase(fs, k), k, name, w, running);
      } else {
        DuringKeepsOrder(fs, f, w, running);
        StaysDuringCall(fs, f, w, running);
        var inner := DuringCall(fs, f, w, running);
        if inner.Done? {
          var at := IndexOf(inner.list, f);
          EraseFacts(inner.list, at, running);
          FewerIdle(fs, inner.list, f, at, running);
          CleanAround(fs, inner.list, k, at, name, w);
          PassLeavesClean(Erase(inner.list, at), at, name, w, running);
        }
      }
    }
  }

  /** A whole pass forgets exactly those whose linkers have been dropped, and calls every other one that matches; the
      rest wait on, unless a name that a callback brought up was theirs. */
  lemma PassAnswers(fs: seq<Fetch>, name: string, w: World)
    requires Distinct(fs)
    ensures var r := PassFrom(fs, 0, name, w, {});
      r.Done? ==> forall f <- fs ::
        if f.linked && f.who in w.abandoned then f !in r.list && !HasCall(r.calls, f)
        else if Matches(f.matcher, name) then f !in r.list && HasCall(r.calls, f)
        else f in r.list <==> !HasCall(r.calls, f)
  {
    hide PassFrom, Matches;
    PassAccountsForAll(fs, 0, name, w, {});
    PassLeavesClean(fs, 0, name, w, {});
    var r := PassFrom(fs, 0, name, w, {});
    if r.Done? {
      forall f | f in r.list
        ensures !GivenUp(f, w.abandoned) && !Matches(f.matcher, name)
      {
        var i :| 0 <= i < |r.list| && r.list[i] == f;
      }
    }
  }

  // ---------------------------------------------------------------- when the pass is the plain one

  /** The callback of `f` brings up a name that `g` waits for. */
  predicate Disturbs(f: Fetch, g: Fetch, w: World) {
    f.who in w.brings && IsCalled(g, w.brings[f.who], w)
  }

  /** No lookup that the pass for `name` calls brings up a name that one of those still in the list waits for, itself
      included; those called before it are not in the list any more. */
  predicate Peaceful(fs: seq<Fetch>, name: string, w: World) {
    PeacefulFrom(fs, 0, name, w)
  }

  /** The same for the lookups from the entry `k` on. */
  predicate PeacefulFrom(fs: seq<Fetch>, k: nat, name: string, w: World) {
    forall i, j | k <= i < |fs| && 0 <= j < |fs| && IsCalled(fs[i], name, w) && (j < i ==> !IsCalled(fs[j], name, w)) ::
      !Disturbs(fs[i], fs[j], w)
  }

  /** The same for the lookups `b` still to be visited, `a` being those that have been visited and stay. */
  predicate PeacefulRest(a: seq<Fetch>, b: seq<Fetch>, name: string, w: World)
    decreases |b|
  {
    if b == [] then true
    else if IsCalled(b[0], name, w) then
      (forall g <- a + b :: !Disturbs(b[0], g, w)) && PeacefulRest(a, b[1..], name, w)
    else PeacefulRest(a + [b[0]], b[1..], name, w)
  }

  lemma {:induction false} PeacefulFromHere(a: seq<Fetch>, b: seq<Fetch>, name: string, w: World)
    requires forall g <- a :: !IsCalled(g, name, w)
    ensures PeacefulRest(a, b, name, w) <==> PeacefulFrom(a + b, |a|, name, w)
    decreases |b|
  {
    hide IsCalled, Disturbs, PeacefulFrom;
    if b == [] {
      NothingLeft(a + b, name, w);
    } else if IsCalled(b[0], name, w) {
      PeacefulFromHere(a, b[1..], name, w);
      OneGone(a, b, name, w);
    } else {
      PeacefulFromHere(a + [b[0]], b[1..], name, w);
      assert a + [b[0]] + b[1..] == a + b && (a + b)[|a|] == b[0];
      OneKept(a + b, |a|, name, w);
    }
  }

  lemma NothingLeft(fs: seq<Fetch>, name: string, w: World)
    ensures PeacefulFrom(fs, |fs|, name, w)
  {
  }

  lemma OneKept(fs: seq<Fetch>, k: nat, name: string, w: World)
    requires k < |fs| && !IsCalled(fs[k], name, w)
    ensures PeacefulFrom(fs, k, name, w) <==> PeacefulFrom(fs, k + 1, name, w)
  {
  }

  /** The condition on the list with its first called lookup, and on the list without it. */
  lemma OneGone(a: seq<Fetch>, b: seq<Fetch>, name: string, w: World)
    requires b != [] && IsCalled(b[0], name, w) && forall g <- a :: !IsCalled(g, name, w)
    ensures PeacefulFrom(a + b, |a|, name, w)
       <==> (forall g <- a + b :: !Disturbs(b[0], g, w)) && PeacefulFrom(a + b[1..], |a|, name, w)
  {
    hide IsCalled, Disturbs, PeacefulFrom;
    Shifted(a, b);
    var fs, gs := a + b, a + b[1..];
    if PeacefulFrom(fs, |a|, name, w) {
      FirstIsPeaceful(fs, |a|, name, w);
      WithoutFirst(fs, gs, |a|, name, w);
    }
    if (forall g <- fs :: !Disturbs(b[0], g, w)) && PeacefulFrom(gs, |a|, name, w) {
      WithFirst(fs, gs, |a|, name, w);
    }
  }

  /** `gs` is `fs` without its entry `k`. */
  predicate Lacks(fs: seq<Fetch>, gs: seq<Fetch>, k: nat) {
    && k < |fs| && |gs| == |fs| - 1
    && (forall i | 0 <= i < k :: gs[i] == fs[i]) && forall i | k < i < |fs| :: gs[i - 1] == fs[i]
  }

  lemma Shifted(a: seq<Fetch>, b: seq<Fetch>)
    requires b != []
    ensures Lacks(a + b, a + b[1..], |a|) && (a + b)[|a|] == b[0]
    ensures forall i | 0 <= i < |a| :: (a + b)[i] in a
  {
  }

  lemma FirstIsPeaceful(fs: seq<Fetch>, k: nat, name: string, w: World)
    requires k < |fs| && PeacefulFrom(fs, k, name, w) && IsCalled(fs[k], name, w)
    requires forall i | 0 <= i < k :: !IsCalled(fs[i], name, w)
    ensures forall g <- fs :: !Disturbs(fs[k], g, w)
  {
    hide IsCalled, Disturbs;
    forall g | g in fs
      ensures !Disturbs(fs[k], g, w)
    {
      var j :| 0 <= j < |fs| && fs[j] == g;
      assert !Disturbs(fs[k], fs[j], w);
    }
  }

  lemma WithoutFirst(fs: seq<Fetch>, gs: seq<Fetch>, k: nat, name: string, w: World)
    requires Lacks(fs, gs, k) && PeacefulFrom(fs, k, name, w)
    ensures PeacefulFrom(gs, k, name, w)
  {
    hide IsCalled, Disturbs;
    forall i, j | k <= i < |gs| && 0 <= j < |gs| && IsCalled(gs[i], name, w) && (j < i ==> !IsCalled(gs[j], name, w))
      ensures !Disturbs(gs[i], gs[j], w)
    {
      var m := if j < k then j else j + 1;
      assert gs[i] == fs[i + 1] && gs[j] == fs[m];
      assert !Disturbs(fs[i + 1], fs[m], w);
    }
  }

  lemma WithFirst(fs: seq<Fetch>, gs: seq<Fetch>, k: nat, name: string, w: World)
    requires Lacks(fs, gs, k) && PeacefulFrom(gs, k, name, w) && IsCalled(fs[k], name, w)
    requires forall g <- fs :: !Disturbs(fs[k], g, w)
    ensures PeacefulFrom(fs, k, name, w)
  {
    hide IsCalled, Disturbs;
    forall i, j | k <= i < |fs| && 0 <= j < |fs| && IsCalled(fs[i], name, w) && (j < i ==> !IsCalled(fs[j], name, w))
      ensures !Disturbs(fs[i], fs[j], w)
    {
      if i == k {
        assert fs[j] in fs;
      } else {
        var m := if j < k then j else j - 1;
        assert j != k && gs[i - 1] == fs[i] && gs[m] == fs[j];
        assert !Disturbs(gs[i - 1], gs[m], w);
      }
    }
  }

  function NotGivenUp(fs: seq<Fetch>, w: World): (r: seq<Fetch>)
    ensures |r| <= |fs| && forall g :: g in r <==> g in fs && !GivenUp(g, w.abandoned)
  {
    if fs == [] then []
    else (if GivenUp(fs[0], w.abandoned) then [] else [fs[0]]) + NotGivenUp(fs[1..], w)
  }

  lemma {:induction false} StillDistinct(a: seq<Fetch>, b: seq<Fetch>, w: World)
    requires Distinct(a + b)
    ensures Distinct(a + NotGivenUp(b, w))
    decreases |b|
  {
    hide Distinct;
    if b == [] {
      assert a + b == a && a + NotGivenUp(b, w) == a;
    } else if GivenUp(b[0], w.abandoned) {
      assert a + b[1..] == Erase(a + b, |a|);
      EraseFacts(a + b, |a|, {});
      StillDistinct(a, b[1..], w);
      assert NotGivenUp(b, w) == NotGivenUp(b[1..], w);
    } else {
      assert a + [b[0]] + b[1..] == a + b;
      StillDistinct(a + [b[0]], b[1..], w);
      assert a + [b[0]] + NotGivenUp(b[1..], w) == a + NotGivenUp(b, w);
    }
  }

  lemma {:induction false} SameForRest(b: seq<Fetch>, name: string, w: World)
    ensures var c := NotGivenUp(b, w);
      && Waiting(c, name, w.abandoned) == Waiting(b, name, w.abandoned)
      && Called(c, name, w.abandoned) == Called(b, name, w.abandoned)
    decreases |b|
  {
    hide Matches, GivenUp, NotGivenUp;
    FirstOrNot(b, w);
    if b != [] {
      SameForRest(b[1..], name, w);
    }
  }

  lemma {:induction false} PeacefulForRest(a: seq<Fetch>, b: seq<Fetch>, name: string, w: World)
    ensures PeacefulRest(a, NotGivenUp(b, w), name, w) <==> PeacefulRest(a, b, name, w)
    decreases |b|
  {
    hide Matches, GivenUp, NotGivenUp, Disturbs;
    FirstOrNot(b, w);
    if b != [] {
      PeacefulForRest(a, b[1..], name, w);
      if GivenUp(b[0], w.abandoned) {
        SkipsGivenUp(a, b, name, w);
      } else {
        PeacefulForRest(a + [b[0]], b[1..], name, w);
        NobodyIsDisturbed(a, b, b[0], w);
      }
    }
  }

  lemma FirstOrNot(b: seq<Fetch>, w: World)
    ensures b == [] ==> NotGivenUp(b, w) == []
    ensures b != [] && GivenUp(b[0], w.abandoned) ==> NotGivenUp(b, w) == NotGivenUp(b[1..], w)
    ensures var c := NotGivenUp(b, w);
      b != [] && !GivenUp(b[0], w.abandoned) ==> c != [] && c[0] == b[0] && c[1..] == NotGivenUp(b[1..], w)
  {
    hide GivenUp;
  }

  lemma NobodyIsDisturbed(a: seq<Fetch>, b: seq<Fetch>, f: Fetch, w: World)
    ensures (forall g <- a + b :: !Disturbs(f, g, w)) <==> forall g <- a + NotGivenUp(b, w) :: !Disturbs(f, g, w)
  {
    hide Matches, NotGivenUp;
    assert forall g <- a + b :: g in a + NotGivenUp(b, w) || GivenUp(g, w.abandoned);
    assert forall g <- a + NotGivenUp(b, w) :: g in a + b;
  }

  /** A lookup that has been given up makes no difference among those that stay. */
  lemma {:induction false} PutsNothingIn(a: seq<Fetch>, f: Fetch, c: seq<Fetch>, b: seq<Fetch>, name: string, w: World)
    requires GivenUp(f, w.abandoned)
    ensures PeacefulRest(a + [f] + c, b, name, w) <==> PeacefulRest(a + c, b, name, w)
    decreases |b|
  {
    hide Matches, GivenUp;
    if b != [] {
      PutsNothingIn(a, f, c, b[1..], name, w);
      PutsNothingIn(a, f, c + [b[0]], b[1..], name, w);
      assert a + [f] + c + [b[0]] == a + [f] + (c + [b[0]]) && a + c + [b[0]] == a + (c + [b[0]]);
      assert forall g :: g in a + [f] + c + b <==> g in a + c + b || g == f;
    }
  }

  lemma SkipsGivenUp(a: seq<Fetch>, b: seq<Fetch>, name: string, w: World)
    requires b != [] && GivenUp(b[0], w.abandoned)
    ensures PeacefulRest(a, b, name, w) <==> PeacefulRest(a, b[1..], name, w)
  {
    PutsNothingIn(a, b[0], [], b[1..], name, w);
    assert a + [b[0]] + [] == a + [b[0]] && a + [] == a;
  }

  function CallsOf(fs: seq<Fetch>, name: string): (calls: seq<Call>)
    ensures |calls| == |fs| && forall i | 0 <= i < |fs| :: calls[i] == Call(fs[i], name)
  {
    seq(|fs|, i requires 0 <= i < |fs| => Call(fs[i], name))
  }

  /** A pass that calls nobody only forgets those who have given up. */
  lemma {:induction false} QuietPass(a: seq<Fetch>, b: seq<Fetch>, name: string, w: World, running: set<nat>)
    requires Distinct(a + b) && forall g <- b :: !IsCalled(g, name, w)
    requires forall g <- b :: g.who in running ==> !GivenUp(g, w.abandoned)
    ensures PassFrom(a + b, |a|, name, w, running) == Done(a + NotGivenUp(b, w), [])
    decreases |b|
  {
    hide PassFrom, Matches, GivenUp, DuringCall, NotGivenUp, Distinct, Erase;
    FirstOrNot(b, w);
    if b == [] {
      PassEnd(a + b, name, w, running);
      assert a + b == a && a + NotGivenUp(b, w) == a;
    } else {
      var f := b[0];
      FrontAndRest(a, b);
      assert f in b && forall g <- b[1..] :: g in b;
      PassStep(a + b, |a|, name, w, running);
      if GivenUp(f, w.abandoned) {
        EraseMiddle(a, f, b[1..]);
        QuietPass(a, b[1..], name, w, running);
      } else {
        QuietPass(a + [f], b[1..], name, w, running);
        FirstIsKept(b, w);
        FrontAndRest(a, NotGivenUp(b, w));
      }
    }
  }

  /** A pass that finds somebody to call either breaks off or calls somebody with its own name first. */
  lemma {:induction false} FirstCall(fs: seq<Fetch>, k: nat, name: string, w: World, running: set<nat>, j: nat)
    requires Distinct(fs) && k <= j < |fs| && IsCalled(fs[j], name, w)
    ensures var r := PassFrom(fs, k, name, w, running); r.Dangling? || (r.calls != [] && r.calls[0].name == name)
    decreases j - k
  {
    hide PassFrom, Matches, GivenUp, DuringCall, Distinct;
    var f := fs[k];
    PassStep(fs, k, name, w, running);
    if GivenUp(f, w.abandoned) && f.who !in running {
      assert j > k && Erase(fs, k)[j - 1] == fs[j];
      FirstCall(Erase(fs, k), k, name, w, running, j - 1);
    } else if !GivenUp(f, w.abandoned) && !Matches(f.matcher, name) {
      FirstCall(fs, k + 1, name, w, running, j);
    }
  }

  /** A pass that comes to a lookup whose callback is running breaks off. */
  lemma {:induction false} MeetsRunning(fs: seq<Fetch>, k: nat, name: string, w: World, running: set<nat>, j: nat)
    requires Distinct(fs) && k <= j < |fs| && IsCalled(fs[j], name, w) && fs[j].who in running
    requires forall i | k <= i < j :: !GivenUp(fs[i], w.abandoned) && !Matches(fs[i].matcher, name)
    ensures PassFrom(fs, k, name, w, running) == Dangling(fs[j])
    decreases j - k
  {
    hide PassFrom, Matches, GivenUp, DuringCall, Distinct;
    PassStep(fs, k, name, w, running);
    if k < j {
      MeetsRunning(fs, k + 1, name, w, running, j);
    }
  }

  /** The pass for `name` with `a` visited and `b` still to come does what a pass without new names does. */
  predicate Plain(a: seq<Fetch>, b: seq<Fetch>, name: string, w: World)
    requires Distinct(a + b)
  {
    PassFrom(a + b, |a|, name, w, {})
      == Done(a + Waiting(b, name, w.abandoned), CallsOf(Called(b, name, w.abandoned), name))
  }

  lemma {:induction false} PlainIffPeaceful(a: seq<Fetch>, b: seq<Fetch>, name: string, w: World)
    requires Distinct(a + b) && forall g <- a :: !GivenUp(g, w.abandoned) && !Matches(g.matcher, name)
    ensures Plain(a, b, name, w) <==> PeacefulRest(a, b, name, w)
    decreases |b|
  {
    hide PassFrom, Matches, GivenUp, DuringCall, Disturbs, Distinct, Erase, Waiting, Called, PeacefulRest;
    if b == [] {
      NoneToCome(a, name, w);
    } else {
      var f := b[0];
      FrontAndRest(a, b);
      PassStep(a + b, |a|, name, w, {});
      if GivenUp(f, w.abandoned) {
        EraseMiddle(a, f, b[1..]);
        PlainIffPeaceful(a, b[1..], name, w);
        NotCalledFirst(b, name, w);
        SkipsGivenUp(a, b, name, w);
      } else if Matches(f.matcher, name) {
        PlainCall(a, b, name, w);
      } else {
        PlainIffPeaceful(a + [f], b[1..], name, w);
        NotCalledFirst(b, name, w);
        FrontAndRest(a, Waiting(b, name, w.abandoned));
        KeptRest(a, b, name, w);
      }
    }
  }

  lemma NoneToCome(a: seq<Fetch>, name: string, w: World)
    requires Distinct(a + [])
    ensures Plain(a, [], name, w) && PeacefulRest(a, [], name, w)
  {
    assert a + [] == a;
    PassEnd(a, name, w, {});
    assert CallsOf([], name) == [];
  }

  lemma NotCalledFirst(b: seq<Fetch>, name: string, w: World)
    requires b != [] && !IsCalled(b[0], name, w)
    ensures Called(b, name, w.abandoned) == Called(b[1..], name, w.abandoned)
    ensures var r, more := Waiting(b, name, w.abandoned), Waiting(b[1..], name, w.abandoned);
      if GivenUp(b[0], w.abandoned) then r == more else r != [] && r[0] == b[0] && r[1..] == more
  {
    hide Matches, GivenUp;
  }

  lemma KeptRest(a: seq<Fetch>, b: seq<Fetch>, name: string, w: World)
    requires b != [] && !IsCalled(b[0], name, w)
    ensures PeacefulRest(a, b, name, w) <==> PeacefulRest(a + [b[0]], b[1..], name, w)
  {
    hide Matches, GivenUp, Disturbs;
  }

  lemma PlainCall(a: seq<Fetch>, b: seq<Fetch>, name: string, w: World)
    requires Distinct(a + b) && forall g <- a :: !GivenUp(g, w.abandoned) && !Matches(g.matcher, name)
    requires b != [] && IsCalled(b[0], name, w)
    ensures Plain(a, b, name, w) <==> PeacefulRest(a, b, name, w)
    decreases |b|, 1
  {
    hide PassFrom, Matches, GivenUp, DuringCall, Disturbs, Distinct, Plain, PeacefulRest;
    var f, fs := b[0], a + b;
    if exists g <- fs :: Disturbs(f, g, w) {
      var g :| g in fs && Disturbs(f, g, w);
      DisturbedCall(a, b, name, w, g);
      DisturbedRest(a, b, name, w, g);
    } else {
      UndisturbedCall(a, b, name, w);
    }
  }

  lemma DisturbedRest(a: seq<Fetch>, b: seq<Fetch>, name: string, w: World, g: Fetch)
    requires b != [] && IsCalled(b[0], name, w) && g in a + b && Disturbs(b[0], g, w)
    ensures !PeacefulRest(a, b, name, w)
  {
    hide Disturbs, IsCalled;
  }

  /** A callback that brings up a name somebody waits for: that name is called, or the pass breaks off. */
  lemma DisturbedCall(a: seq<Fetch>, b: seq<Fetch>, name: string, w: World, g: Fetch)
    requires Distinct(a + b) && forall g <- a :: !GivenUp(g, w.abandoned) && !Matches(g.matcher, name)
    requires b != [] && IsCalled(b[0], name, w) && g in a + b && Disturbs(b[0], g, w)
    ensures !Plain(a, b, name, w)
  {
    hide PassFrom, Matches, GivenUp, Distinct;
    var f, fs := b[0], a + b;
    var n := w.brings[f.who];
    assert fs[|a|] == f;
    PassStep(fs, |a|, name, w, {});
    var inner := DuringCall(fs, f, w, {});
    assert {} + {f.who} == {f.who};
    if n == name {
      assert forall i | 0 <= i < |a| :: fs[i] == a[i];
      MeetsRunning(fs, 0, name, w, {f.who}, |a|);
    } else {
      var j :| 0 <= j < |fs| && fs[j] == g;
      FirstCall(fs, 0, n, w, {f.who}, j);
      if inner.Done? {
        var r := PassFrom(fs, |a|, name, w, {});
        if r.Done? {
          assert r.calls[1] == inner.calls[0] && r.calls[1].name == n;
        }
      }
    }
  }

  lemma IndexIsUnique(fs: seq<Fetch>, k: nat)
    requires Distinct(fs) && k < |fs|
    ensures IndexOf(fs, fs[k]) == k
  {
    var i := IndexOf(fs, fs[k]);
    assert fs[i].who == fs[k].who;
  }

  lemma UndisturbedCall(a: seq<Fetch>, b: seq<Fetch>, name: string, w: World)
    requires Distinct(a + b) && forall g <- a :: !GivenUp(g, w.abandoned) && !Matches(g.matcher, name)
    requires b != [] && IsCalled(b[0], name, w) && forall g <- a + b :: !Disturbs(b[0], g, w)
    ensures Plain(a, b, name, w) <==> PeacefulRest(a, b, name, w)
    decreases |b|, 0
  {
    hide PassFrom, Matches, GivenUp, Disturbs, Distinct, PeacefulRest, NotGivenUp, DuringCall, Plain;
    var f := b[0];
    FrontAndRest(a, b);
    var c := if f.who in w.brings then NotGivenUp(b[1..], w) else b[1..];
    if f.who in w.brings {
      UndisturbedPass(a, b, name, w);
      StillDistinct(a + [f], b[1..], w);
      SameForRest(b[1..], name, w);
      PeacefulForRest(a, b[1..], name, w);
    } else {
      NothingDuring(a + b, f, w);
    }
    CallThenRest(a, f, c, a + b, name, w);
    PlainIffPeaceful(a, c, name, w);
    CalledFirst(a, b, name, w);
    PlainThen(a, b, c, name, w);
  }

  lemma FrontAndRest(a: seq<Fetch>, b: seq<Fetch>)
    requires b != []
    ensures a + [b[0]] + b[1..] == a + b && (a + b)[|a|] == b[0]
  {
  }

  lemma NothingDuring(fs: seq<Fetch>, f: Fetch, w: World)
    requires Distinct(fs) && f.who !in w.brings
    ensures DuringCall(fs, f, w, {}) == Done(fs, [])
  {
  }

  /** The pass is the plain one when its rest is. */
  lemma PlainThen(a: seq<Fetch>, b: seq<Fetch>, c: seq<Fetch>, name: string, w: World)
    requires Distinct(a + b) && Distinct(a + c) && b != []
    requires Waiting(b, name, w.abandoned) == Waiting(c, name, w.abandoned)
    requires CallsOf(Called(b, name, w.abandoned), name)
          == [Call(b[0], name)] + CallsOf(Called(c, name, w.abandoned), name)
    requires var rest := PassFrom(a + c, |a|, name, w, {});
      PassFrom(a + b, |a|, name, w, {})
        == if rest.Dangling? then rest else Done(rest.list, [Call(b[0], name)] + rest.calls)
    ensures Plain(a, b, name, w) <==> Plain(a, c, name, w)
  {
    hide PassFrom, Waiting, Called, CallsOf, Distinct;
    var rest := PassFrom(a + c, |a|, name, w, {});
    if rest.Done? {
      SameTail(Call(b[0], name), rest.calls, CallsOf(Called(c, name, w.abandoned), name));
    }
  }

  lemma SameTail(x: Call, s: seq<Call>, t: seq<Call>)
    ensures [x] + s == [x] + t <==> s == t
  {
    assert ([x] + s)[1..] == s && ([x] + t)[1..] == t;
  }

  /** The pass during the call leaves the lookups as they are, but for those that have been given up. */
  lemma UndisturbedPass(a: seq<Fetch>, b: seq<Fetch>, name: string, w: World)
    requires Distinct(a + b) && forall g <- a :: !GivenUp(g, w.abandoned) && !Matches(g.matcher, name)
    requires b != [] && IsCalled(b[0], name, w) && forall g <- a + b :: !Disturbs(b[0], g, w)
    requires b[0].who in w.brings
    ensures DuringCall(a + b, b[0], w, {}) == Done(a + [b[0]] + NotGivenUp(b[1..], w), [])
  {
    hide PassFrom, Matches, GivenUp, Distinct;
    hide NotGivenUp;
    var f, fs := b[0], a + b;
    assert fs[|a|] == f && {} + {f.who} == {f.who} && [] + fs == fs;
    SameWho(fs, f);
    QuietPass([], fs, w.brings[f.who], w, {f.who});
    KeepsFront(a, b, w);
    FirstIsKept(b, w);
    assert a + ([f] + NotGivenUp(b[1..], w)) == a + [f] + NotGivenUp(b[1..], w);
    assert [] + NotGivenUp(fs, w) == NotGivenUp(fs, w);
  }

  lemma FirstIsKept(b: seq<Fetch>, w: World)
    requires b != [] && !GivenUp(b[0], w.abandoned)
    ensures NotGivenUp(b, w) == [b[0]] + NotGivenUp(b[1..], w)
  {
  }

  lemma SameWho(fs: seq<Fetch>, f: Fetch)
    requires Distinct(fs) && f in fs
    ensures forall g <- fs :: g.who == f.who ==> g == f
  {
  }

  lemma {:induction false} KeepsFront(a: seq<Fetch>, b: seq<Fetch>, w: World)
    requires forall g <- a :: !GivenUp(g, w.abandoned)
    ensures NotGivenUp(a + b, w) == a + NotGivenUp(b, w)
    decreases |a|
  {
    hide NotGivenUp, GivenUp;
    if a == [] {
      assert a + b == b && a + NotGivenUp(b, w) == NotGivenUp(b, w);
    } else {
      assert a[0] in a && (a + b)[0] == a[0] && (a + b)[1..] == a[1..] + b;
      KeepsFront(a[1..], b, w);
      FirstIsKept(a + b, w);
      assert a == [a[0]] + a[1..];
      assert [a[0]] + (a[1..] + NotGivenUp(b, w)) == a + NotGivenUp(b, w);
    }
  }

  /** After the call the pass goes on with `c` behind the erased lookup. */
  lemma CallThenRest(a: seq<Fetch>, f: Fetch, c: seq<Fetch>, fs: seq<Fetch>, name: string, w: World)
    requires Distinct(fs) && |a| < |fs| && fs[|a|] == f && IsCalled(f, name, w) && Distinct(a + [f] + c)
    requires DuringCall(fs, f, w, {}) == Done(a + [f] + c, [])
    ensures Distinct(a + c)
    ensures var rest := PassFrom(a + c, |a|, name, w, {});
      PassFrom(fs, |a|, name, w, {}) == if rest.Dangling? then rest else Done(rest.list, [Call(f, name)] + rest.calls)
  {
    hide PassFrom, Matches, GivenUp, Distinct, DuringCall, Erase;
    PassStep(fs, |a|, name, w, {});
    var gs := a + [f] + c;
    EraseMiddle(a, f, c);
    IndexIsUnique(gs, |a|);
    EraseFacts(gs, |a|, {});
    var rest := PassFrom(a + c, |a|, name, w, {});
    if rest.Done? {
      assert [Call(f, name)] + [] + rest.calls == [Call(f, name)] + rest.calls;
    }
  }

  lemma EraseMiddle(a: seq<Fetch>, f: Fetch, c: seq<Fetch>)
    ensures var gs := a + [f] + c; gs[|a|] == f && Erase(gs, |a|) == a + c
  {
  }

  lemma CalledFirst(a: seq<Fetch>, b: seq<Fetch>, name: string, w: World)
    requires b != [] && IsCalled(b[0], name, w)
    ensures Waiting(b, name, w.abandoned) == Waiting(b[1..], name, w.abandoned)
    ensures Called(b, name, w.abandoned) == [b[0]] + Called(b[1..], name, w.abandoned)
    ensures CallsOf(Called(b, name, w.abandoned), name)
         == [Call(b[0], name)] + CallsOf(Called(b[1..], name, w.abandoned), name)
    ensures (forall g <- a + b :: !Disturbs(b[0], g, w)) ==>
              (PeacefulRest(a, b, name, w) <==> PeacefulRest(a, b[1..], name, w))
  {
    hide Matches, GivenUp, Disturbs;
  }

  /** A pass with callbacks that bring up names does what one without them does if and only if none of these names is
      waited for by a lookup that is then still in the list. */
  lemma PassIsPlain(fs: seq<Fetch>, name: string, w: World)
    requires Distinct(fs)
    ensures PassFrom(fs, 0, name, w, {})
         == Done(Waiting(fs, name, w.abandoned), CallsOf(Called(fs, name, w.abandoned), name))
       <==> Peaceful(fs, name, w)
  {
    hide PassFrom, Matches, GivenUp, Distinct, PeacefulRest, PeacefulFrom;
    assert [] + fs == fs;
    PlainIffPeaceful([], fs, name, w);
    PeacefulFromHere([], fs, name, w);
    assert [] + Waiting(fs, name, w.abandoned) == Waiting(fs, name, w.abandoned);
  }

  /** A lookup for `a*` whose callback answers the name `a1` by creating `a2`: it is called again, and erased, while its
      callback runs. */
  lemma CalledAgain()
    ensures var f := Fetch("a*", 0, false);
      PassFrom([f], 0, "a1", World({}, map[0 := "a2"]), {}) == Dangling(f)
  {
    var f, w := Fetch("a*", 0, false), World({}, map[0 := "a2"]);
    StarOne("a1");
    StarOne("a2");
    PassStep([f], 0, "a1", w, {});
    PassStep([f], 0, "a2", w, {0});
    assert {} + {0} == {0};
  }

  lemma StarOne(p: string)
    requires |p| == 2 && p[0] == 'a'
    ensures Matches("a*", p)
  {
    assert "a*"[1..] == "*";
  }
}
