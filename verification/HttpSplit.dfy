/** Cutting the input of the parser into buffers changes nothing, except right after a protocol upgrade. */
module HttpSplit {
  import opened HttpMachine
  import opened HttpSafety
  import opened HttpExecute

  /** A run over `a + b` is the run over `a` followed by the run over `b`. */
  lemma {:induction false} FoldAppend(p: Parser, a: string, b: string)
    ensures var r := Fold(p, a);
      Fold(p, a + b) == if r.stopped then r else Then(|a|, r.ev, Fold(r.p, b))
    ensures var r := Fold(p, a); r.used <= |a| && (!r.stopped ==> r.used == |a|)
    decreases |a|
  {
    hide StepByte;
    if a == [] {
      assert a + b == b;
      ThenNothing(Fold(p, b));
    } else {
      assert (a + b)[1..] == a[1..] + b;
      var s := StepByte(p, a[0]);
      StepUses(p, a[0]);
      if !s.stopped {
        FoldAppend(s.p, a[1..], b);
        var r := Fold(s.p, a[1..]);
        if !r.stopped {
          ThenThen(1, s.ev, |a| - 1, r.ev, Fold(r.p, b));
        }
      }
    }
  }

  lemma {:induction false} ReexecuteUses(p: Parser, ch: char)
    ensures var r := Reexecute(p, ch);
      if r.p.err.Ok? then r.used == 1 else r.stopped && r.used == 0
    decreases Rank(p.state)
  {
    hide Switch;
    var m := Switch(p, ch);
    if m.p.err.Ok? && m.again {
      ReexecuteUses(m.p, ch);
    }
  }

  lemma StepUses(p: Parser, ch: char)
    ensures var r := StepByte(p, ch);
      if r.p.err.Ok? then r.used == 1 else r.stopped && r.used == 0
  {
    hide Reexecute;
    ReexecuteUses(Count(p), ch);
  }

  lemma {:induction false} FoldUses(p: Parser, data: string)
    requires p.err.Ok?
    ensures var r := Fold(p, data);
      && r.used <= |data|
      && (!r.p.err.Ok? ==> r.stopped && r.used < |data|)
      && (!r.stopped ==> r.used == |data|)
      && (data != [] && r.used == 0 ==> !r.p.err.Ok?)
    decreases |data|
  {
    hide StepByte;
    if data != [] {
      StepUses(p, data[0]);
      var s := StepByte(p, data[0]);
      if !s.stopped {
        FoldUses(s.p, data[1..]);
      }
    }
  }

  /** Two calls of the parser, the second made only if the first took its whole buffer without error. */
  function TwoCalls(p: Parser, a: string, b: string): Run {
    var r := Fold(p, a);
    if r.used == |a| && r.p.err.Ok? then Then(|a|, r.ev, Fold(r.p, b)) else r
  }

  /** An upgrade finished exactly with the last byte of the buffer. */
  predicate UpgradeAtEnd(r: Run, data: string) {
    r.stopped && r.p.err.Ok? && r.used == |data|
  }

  /** The byte `ch` ends the headers of a message that asks for an upgrade. */
  predicate EndsUpgrade(p: Parser, ch: char) {
    ch == LF &&
    if p.state.HeadersDone? then p.upgrade
    else (p.state.HeaderFieldStart? || p.state.HeaderValueLws? || p.state.HeadersAlmostDone?)
         && p.flags.upgrade && !p.flags.trailing
  }

  lemma SwitchEndsUpgrade(p: Parser, ch: char)
    requires p.err.Ok?
    ensures var m := Switch(p, ch);
      if !m.p.err.Ok? then !EndsUpgrade(p, ch)
      else if m.again then EndsUpgrade(m.p, ch) <==> EndsUpgrade(p, ch)
      else m.exit <==> EndsUpgrade(p, ch)
  {
    hide SwitchVersion, SwitchStatus, SwitchField, SwitchHeaderValueStart, SwitchHeaderValue, SwitchBody, Token,
         NewMessage;
    if VersionState(p.state) || StatusState(p.state) {
      OrdinaryStart(p, ch);
    } else if p.state.HeaderField? || p.state.HeaderValueStart? || p.state.HeaderValue? {
      OrdinaryHeader(p, ch);
    } else {
      OrdinaryBody(p, ch);
    }
  }

  lemma OrdinaryStart(p: Parser, ch: char)
    ensures !SwitchVersion(p, ch).exit && !SwitchVersion(p, ch).again
    ensures !SwitchStatus(p, ch).exit && !SwitchStatus(p, ch).again
  {
  }

  lemma OrdinaryHeader(p: Parser, ch: char)
    ensures !SwitchField(p, ch).exit && !SwitchField(p, ch).again
    ensures !SwitchHeaderValueStart(p, ch).exit && !SwitchHeaderValueStart(p, ch).again
    ensures !SwitchHeaderValue(p, ch).exit
    ensures SwitchHeaderValue(p, ch).again ==> SwitchHeaderValue(p, ch).p.state.HeaderAlmostDone?
  {
    hide Token, FieldStep, ValueStep, Lower, AddDigit;
  }

  lemma OrdinaryBody(p: Parser, ch: char)
    ensures !SwitchBody(p, ch).exit
    ensures SwitchBody(p, ch).again ==> SwitchBody(p, ch).p.state.MessageDone?
  {
    hide AddDigit, Unhex, NewMessage;
  }

  lemma {:induction false} ReexecuteEndsUpgrade(p: Parser, ch: char)
    requires p.err.Ok?
    ensures var r := Reexecute(p, ch); r.stopped && r.p.err.Ok? <==> EndsUpgrade(p, ch)
    decreases Rank(p.state)
  {
    hide Switch, EndsUpgrade;
    SwitchEndsUpgrade(p, ch);
    var m := Switch(p, ch);
    if m.p.err.Ok? && m.again {
      ReexecuteEndsUpgrade(m.p, ch);
    }
  }

  lemma StepEndsUpgrade(p: Parser, ch: char)
    requires p.err.Ok?
    ensures var r := StepByte(p, ch);
      r.stopped && r.p.err.Ok? <==> EndsUpgrade(p, ch) && p.nread < MaxHeaderSize
  {
    hide Reexecute;
    if Count(p).err.Ok? {
      ReexecuteEndsUpgrade(Count(p), ch);
    }
  }

  /** The last byte of the buffer is read without error, and it ends the headers of a message with an upgrade. */
  predicate EndsWithUpgrade(p: Parser, a: string) {
    a != [] &&
    var r := Fold(p, a[..|a| - 1]);
    !r.stopped && r.p.nread < MaxHeaderSize && EndsUpgrade(r.p, a[|a| - 1])
  }

  lemma UpgradeIsAtTheEnd(p: Parser, a: string)
    requires p.err.Ok?
    ensures UpgradeAtEnd(Fold(p, a), a) <==> EndsWithUpgrade(p, a)
  {
    hide Fold, StepByte, EndsUpgrade;
    if a == [] {
      FoldNothing(p);
    } else {
      var front, last := a[..|a| - 1], a[|a| - 1];
      assert a == front + [last];
      FoldAppend(p, front, [last]);
      FoldUses(p, front);
      var r := Fold(p, front);
      if !r.stopped {
        StepEndsUpgrade(r.p, last);
        StepUses(r.p, last);
        FoldOne(r.p, last);
      }
    }
  }

  lemma FoldNothing(p: Parser)
    ensures Fold(p, []) == Run(p, [], false, 0)
  {
  }

  lemma FoldOne(p: Parser, ch: char)
    ensures var r, s := Fold(p, [ch]), StepByte(p, ch);
      r.stopped == s.stopped && r.p == s.p && (s.stopped ==> r.used == s.used)
  {
    hide StepByte;
    var s := StepByte(p, ch);
    assert [ch][1..] == [];
    FoldNothing(s.p);
  }

  /** Splitting a buffer in two is invisible if and only if the first part does not end with the headers of a message
      that asks for an upgrade. */
  lemma SplitIsInvisible(p: Parser, a: string, b: string)
    requires p.err.Ok? && b != []
    ensures TwoCalls(p, a, b) == Fold(p, a + b) <==> !EndsWithUpgrade(p, a)
    ensures TwoCalls(p, a, b) == Fold(p, a + b) <==> !UpgradeAtEnd(Fold(p, a), a)
  {
    hide Fold, StepByte, EndsWithUpgrade;
    FoldAppend(p, a, b);
    UpgradeIsAtTheEnd(p, a);
    var r := Fold(p, a);
    FoldUses(p, a);
    if UpgradeAtEnd(r, a) {
      FoldUses(r.p, b);
      assert Fold(p, a + b) == r;
      assert TwoCalls(p, a, b).used == |a| + Fold(r.p, b).used;
    }
  }

  function Concat(pieces: seq<string>): string {
    if pieces == [] then [] else pieces[0] + Concat(pieces[1..])
  }

  /** The client side: every window of received bytes goes through the parser in turn. */
  class HttpClient {
    const parser: HttpParser

    constructor ()
      ensures fresh(parser) && parser.p == Init(false) && parser.calls == []
    {
      parser := new HttpParser(false);
    }

    /** False: a window was not parsed to its end, and the rest is given up. After an error nothing is parsed or
        reported any more. */
    method OnReceive(pieces: seq<string>) returns (ok: bool)
      requires parser.p.err.Ok? ==> Inv(parser.p)
      requires forall piece <- pieces :: piece != []
      modifies parser
      ensures parser.p.err.Ok? ==> Inv(parser.p)
      ensures !old(parser.p).err.Ok? ==>
        parser.p == old(parser.p) && parser.calls == old(parser.calls) && ok == (pieces == [])
      ensures var r := Fold(old(parser.p), Concat(pieces));
        old(parser.p).err.Ok? && !(r.stopped && r.p.err.Ok?) ==>
          && parser.p == r.p && ok == !r.stopped
          && Flat(parser.calls) <= Flat(old(parser.calls)) + r.ev
          && (ok ==> Flat(parser.calls) == Flat(old(parser.calls)) + r.ev && Inv(parser.p))
    {
      hide Fold, Then, Flat;
      ghost var whole, base, ev := Fold(parser.p, Concat(pieces)), Flat(parser.calls), [];
      ghost var used: nat := 0;
      assert pieces[0..] == pieces;
      ThenNothing(whole);
      for i := 0 to |pieces|
        invariant parser.p.err.Ok? ==> Inv(parser.p)
        invariant old(parser.p).err.Ok? <==> parser.p.err.Ok?
        invariant !parser.p.err.Ok? ==> parser.p == old(parser.p) && parser.calls == old(parser.calls) && i == 0
        invariant parser.p.err.Ok? && !(whole.stopped && whole.p.err.Ok?) ==>
                    whole == Then(used, ev, Fold(parser.p, Concat(pieces[i..]))) && Flat(parser.calls) == base + ev
      {
        var piece := pieces[i];
        assert piece in pieces;
        ghost var p0, rest := parser.p, Concat(pieces[i + 1..]);
        assert pieces[i..][1..] == pieces[i + 1..];
        assert Concat(pieces[i..]) == piece + rest;
        var n := parser.Execute(piece);
        ghost var r := Fold(p0, piece);
        FoldAppend(p0, piece, rest);
        if p0.err.Ok? {
          FoldUses(p0, piece);
        }
        SumOfCopy(base, ev, r.ev);
        if n != |piece| {
          RunEndsHere(used, ev, r);
          return false;
        }
        assert p0.err.Ok?;
        ThenThen(used, ev, |piece|, r.ev, Fold(parser.p, rest));
        if r.stopped {
          RunEndsHere(used, ev, r);
        }
        ev, used := ev + r.ev, used + |piece|;
      }
      assert pieces[|pieces|..] == [];
      ThenDone(used, ev, parser.p);
      return true;
    }
  }

  lemma RunEndsHere(n: nat, ev: seq<Event>, r: Run)
    ensures var t := Then(n, ev, r); t.stopped == r.stopped && t.p == r.p && t.ev == ev + r.ev
  {
  }
}
