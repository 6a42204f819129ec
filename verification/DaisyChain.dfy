/** rbb_daisychain.py: several remote_bitbang TAPs driven as one scan chain. A whole batch
    of commands runs through one TAP before the next TAP sees any of it. */
module DaisyChain {
  newtype byte = x: int | 0 <= x < 0x100

  const READ: byte := 0x52  // 'R'
  const ZERO: byte := 0x30  // '0'
  const ONE: byte := 0x31  // '1'
  const SEVEN: byte := 0x37  // '7'

  /** The scan commands '0' to '7'. */
  predicate IsScan(c: byte) {
    ZERO <= c <= SEVEN
  }

  /** `c` with its TDI bit taken from the TDO value `v`. */
  function WithTdi(c: byte, v: byte): (r: byte)
    ensures IsScan(c) ==> IsScan(r)
  {
    c - c % 2 + (if v == ONE then 1 else 0)
  }

  /** A TAP as a state machine: what a command does, and what a read does and answers. */
  datatype Device<!S> = Device(step: (S, byte) -> S, read: S -> (S, byte))

  function CountReads(commands: seq<byte>): nat {
    if commands == [] then 0 else (if commands[0] == READ then 1 else 0) + CountReads(commands[1..])
  }

  function CountScans(commands: seq<byte>): nat {
    if commands == [] then 0 else (if IsScan(commands[0]) then 1 else 0) + CountScans(commands[1..])
  }

  /** One command for one TAP: its next state and what it answers. */
  function Do<S>(d: Device<S>, s: S, c: byte): (S, seq<byte>) {
    if c == READ then (d.read(s).0, [d.read(s).1]) else (d.step(s, c), [])
  }

  /** A batch for one TAP. */
  function RunTap<S>(d: Device<S>, s: S, commands: seq<byte>): (r: (S, seq<byte>))
    ensures |r.1| == CountReads(commands)
    decreases commands
  {
    if commands == [] then (s, [])
    else
      var (s1, out1) := Do(d, s, commands[0]);
      var (s2, out2) := RunTap(d, s1, commands[1..]);
      (s2, out1 + out2)
  }

  // ----- Chain.execute on values -----

  /** What one client command becomes for a TAP, given the TDO value `v` of the TAP before
      it: all but the last TAP drop the client's reads and are read after every scan. */
  function Rewrite(first: bool, last: bool, c: byte, v: byte): (r: seq<byte>)
    ensures CountReads(r) == if last then (if c == READ then 1 else 0) else (if IsScan(c) then 1 else 0)
  {
    var c' := if !first && IsScan(c) then WithTdi(c, v) else c;
    if last then OneRead(c'); [c']
    else if IsScan(c') then
      assert [c', READ][1..] == [READ];
      OneRead(READ);
      [c', READ]
    else if c' != READ then OneRead(c'); [c']
    else []
  }

  lemma OneRead(c: byte)
    ensures CountReads([c]) == if c == READ then 1 else 0
  {
    assert [c][1..] == [];
  }

  /** Whether a command takes a TDO value of the previous TAP off the list. */
  predicate Takes(first: bool, c: byte) {
    !first && IsScan(c)
  }

  function Head(first: bool, c: byte, values: seq<byte>): byte
    requires Takes(first, c) ==> values != []
  {
    if Takes(first, c) then values[0] else ZERO
  }

  function Rest(first: bool, c: byte, values: seq<byte>): seq<byte>
    requires Takes(first, c) ==> values != []
  {
    if Takes(first, c) then values[1..] else values
  }

  /** The values a TAP finds are as many as it will take. */
  predicate Supply(first: bool, commands: seq<byte>, values: seq<byte>) {
    |values| == if first then 0 else CountScans(commands)
  }

  /** The batch one TAP receives. */
  function TapCommands(first: bool, last: bool, commands: seq<byte>, values: seq<byte>): (r: seq<byte>)
    requires Supply(first, commands, values)
    ensures CountReads(r) == if last then CountReads(commands) else CountScans(commands)
    decreases commands
  {
    if commands == [] then []
    else
      var c := commands[0];
      var head := Rewrite(first, last, c, Head(first, c, values));
      var tail := TapCommands(first, last, commands[1..], Rest(first, c, values));
      CountReadsAppend(head, tail);
      head + tail
  }

  /** The batch at command k, from the loop's point of view. */
  lemma TapCommandsAt(first: bool, last: bool, commands: seq<byte>, k: nat, values: seq<byte>)
    requires k < |commands| && Supply(first, commands[k..], values)
    ensures Takes(first, commands[k]) ==> values != []
    ensures Supply(first, commands[k + 1..], Rest(first, commands[k], values))
    ensures TapCommands(first, last, commands[k..], values)
            == Rewrite(first, last, commands[k], Head(first, commands[k], values))
               + TapCommands(first, last, commands[k + 1..], Rest(first, commands[k], values))
  {
    assert commands[k..][1..] == commands[k + 1..];
  }

  lemma TapCommandsEnd(first: bool, last: bool, commands: seq<byte>, values: seq<byte>)
    requires Supply(first, commands[|commands|..], values)
    ensures values == [] && TapCommands(first, last, commands[|commands|..], values) == []
  {
  }

  lemma RunTapAt<S>(d: Device<S>, s: S, commands: seq<byte>, k: nat)
    requires k < |commands|
    ensures var (s1, out1) := Do(d, s, commands[k]);
            var (s2, out2) := RunTap(d, s1, commands[k + 1..]);
            RunTap(d, s, commands[k..]) == (s2, out1 + out2)
  {
    assert commands[k..][1..] == commands[k + 1..];
  }

  /** The chain from TAP i on, from the loop's point of view. */
  lemma BatchRunAt<S>(ds: seq<Device<S>>, ss: seq<S>, i: nat, commands: seq<byte>, values: seq<byte>)
    requires i < |ds| == |ss| && Supply(i == 0, commands, values)
    ensures var last := i == |ds| - 1;
            var (s, out) := RunTap(ds[i], ss[i], TapCommands(i == 0, last, commands, values));
            var (states, result) := BatchRun(ds[i..], ss[i..], commands, values, i == 0);
            if last then states == [s] && result == out
            else
              && Supply(false, commands, out)
              && var (rest, result') := BatchRun(ds[i + 1..], ss[i + 1..], commands, out, false);
                 states == [s] + rest && result == result'
  {
    assert ds[i..][1..] == ds[i + 1..] && ss[i..][1..] == ss[i + 1..];
  }

  lemma {:induction false} CountReadsAppend(a: seq<byte>, b: seq<byte>)
    ensures CountReads(a + b) == CountReads(a) + CountReads(b)
  {
    if a == [] {
      assert a + b == b;
    } else {
      assert (a + b)[1..] == a[1..] + b;
      CountReadsAppend(a[1..], b);
    }
  }

  /** TAP after TAP, each one running its whole batch. */
  function BatchRun<S>(ds: seq<Device<S>>, ss: seq<S>, commands: seq<byte>, values: seq<byte>, first: bool): (r: (seq<S>, seq<byte>))
    requires |ds| == |ss| && Supply(first, commands, values)
    ensures |r.0| == |ds|
    decreases |ds|
  {
    if ds == [] then ([], values)
    else
      var last := |ds| == 1;
      var (s, out) := RunTap(ds[0], ss[0], TapCommands(first, last, commands, values));
      if last then ([s], out)
      else
        var (rest, result) := BatchRun(ds[1..], ss[1..], commands, out, false);
        ([s] + rest, result)
  }

  // ----- The lockstep chain -----

  /** One client command for the whole chain: it passes through all TAPs before the next
      command does, each TAP after the first shifting in the TDO value that the TAP before
      it shows right after the same scan. */
  function LockCommand<S>(ds: seq<Device<S>>, ss: seq<S>, c: byte, v: byte, first: bool): (r: (seq<S>, seq<byte>))
    requires |ds| == |ss| > 0
    ensures |r.0| == |ds|
    decreases |ds|
  {
    var c' := if !first && IsScan(c) then WithTdi(c, v) else c;
    if |ds| == 1 then
      var (s, out) := Do(ds[0], ss[0], c');
      ([s], out)
    else
      var s1 := if c' == READ then ss[0] else ds[0].step(ss[0], c');
      var (s2, tdo) := if IsScan(c) then ds[0].read(s1) else (s1, ZERO);
      var (rest, out) := LockCommand(ds[1..], ss[1..], c, tdo, false);
      ([s2] + rest, out)
  }

  function LockFrom<S>(ds: seq<Device<S>>, ss: seq<S>, commands: seq<byte>, values: seq<byte>, first: bool): (r: (seq<S>, seq<byte>))
    requires |ds| == |ss| > 0 && Supply(first, commands, values)
    ensures |r.0| == |ds|
    decreases commands
  {
    if commands == [] then (ss, [])
    else
      var c := commands[0];
      var (ss1, out1) := LockCommand(ds, ss, c, Head(first, c, values), first);
      var (ss2, out2) := LockFrom(ds, ss1, commands[1..], Rest(first, c, values), first);
      (ss2, out1 + out2)
  }

  /** All TAPs in lockstep over a batch from the client. */
  function Lockstep<S>(ds: seq<Device<S>>, ss: seq<S>, commands: seq<byte>): (r: (seq<S>, seq<byte>))
    requires |ds| == |ss|
    ensures |r.0| == |ds|
  {
    if ds == [] then ([], []) else LockFrom(ds, ss, commands, [], true)
  }

  // ----- The two agree -----

  lemma {:induction false} RunTapAppend<S>(d: Device<S>, s: S, a: seq<byte>, b: seq<byte>)
    ensures var (s1, out1) := RunTap(d, s, a);
            var (s2, out2) := RunTap(d, s1, b);
            RunTap(d, s, a + b) == (s2, out1 + out2)
    decreases a
  {
    if a == [] {
      assert a + b == b;
      assert [] + RunTap(d, s, b).1 == RunTap(d, s, b).1;
    } else {
      assert (a + b)[1..] == a[1..] + b;
      var (s0, out0) := Do(d, s, a[0]);
      RunTapAppend(d, s0, a[1..], b);
      var (s1, out1) := RunTap(d, s0, a[1..]);
      var (s2, out2) := RunTap(d, s1, b);
      assert out0 + (out1 + out2) == (out0 + out1) + out2;
    }
  }

  lemma RunTapOne<S>(d: Device<S>, s: S, c: byte)
    ensures RunTap(d, s, [c]) == Do(d, s, c)
  {
    assert [c][1..] == [];
    assert RunTap(d, Do(d, s, c).0, []) == (Do(d, s, c).0, []);
    assert Do(d, s, c).1 + [] == Do(d, s, c).1;
  }

  lemma RunTapTwo<S>(d: Device<S>, s: S, c: byte)
    requires c != READ
    ensures RunTap(d, s, [c, READ]) == Do(d, d.step(s, c), READ)
  {
    assert [c, READ] == [c] + [READ];
    RunTapAppend(d, s, [c], [READ]);
    RunTapOne(d, s, c);
    RunTapOne(d, d.step(s, c), READ);
    assert [] + Do(d, d.step(s, c), READ).1 == Do(d, d.step(s, c), READ).1;
  }

  /** One command: what the first TAP does with its rewritten form, and what the others get. */
  lemma RewriteStep<S>(ds: seq<Device<S>>, ss: seq<S>, c: byte, v: byte, first: bool)
    requires |ds| == |ss| > 1
    ensures var (s, out) := RunTap(ds[0], ss[0], Rewrite(first, false, c, v));
            var lock := LockCommand(ds[1..], ss[1..], c, Head(false, c, out), false);
            && |out| == (if IsScan(c) then 1 else 0)
            && LockCommand(ds, ss, c, v, first) == ([s] + lock.0, lock.1)
  {
    var d, s, c' := ds[0], ss[0], if !first && IsScan(c) then WithTdi(c, v) else c;
    if IsScan(c) {
      RunTapTwo(d, s, c');
    } else if c != READ {
      RunTapOne(d, s, c);
    }
  }

  /** Over a batch, the first TAP of a longer chain can be run ahead of the others. */
  lemma {:induction false} RunAhead<S>(ds: seq<Device<S>>, ss: seq<S>, commands: seq<byte>, values: seq<byte>, first: bool)
    requires |ds| == |ss| > 1 && Supply(first, commands, values)
    ensures var (s, out) := RunTap(ds[0], ss[0], TapCommands(first, false, commands, values));
            var (rest, result) := LockFrom(ds[1..], ss[1..], commands, out, false);
            LockFrom(ds, ss, commands, values, first) == ([s] + rest, result)
    decreases commands
  {
    if commands == [] {
      assert [ss[0]] + ss[1..] == ss;
    } else {
      var c, cs := commands[0], commands[1..];
      var v, vs := Head(first, c, values), Rest(first, c, values);
      var head, tail := Rewrite(first, false, c, v), TapCommands(first, false, cs, vs);
      RunTapAppend(ds[0], ss[0], head, tail);
      RewriteStep(ds, ss, c, v, first);
      var (s1, out1) := RunTap(ds[0], ss[0], head);
      var (s2, out2) := RunTap(ds[0], s1, tail);
      var ss1 := LockCommand(ds, ss, c, v, first).0;
      RunAhead(ds, ss1, cs, vs, first);
      assert ss1[1..] == LockCommand(ds[1..], ss[1..], c, Head(false, c, out1), false).0;
      assert Head(false, c, out1 + out2) == Head(false, c, out1) && Rest(false, c, out1 + out2) == out2;
    }
  }

  /** A single TAP, last in its chain, just runs its batch. */
  lemma {:induction false} LastTap<S>(d: Device<S>, s: S, commands: seq<byte>, values: seq<byte>, first: bool)
    requires Supply(first, commands, values)
    ensures var (s', out) := RunTap(d, s, TapCommands(first, true, commands, values));
            LockFrom([d], [s], commands, values, first) == ([s'], out)
    decreases commands
  {
    if commands != [] {
      var c, cs := commands[0], commands[1..];
      var v, vs := Head(first, c, values), Rest(first, c, values);
      var head, tail := Rewrite(first, true, c, v), TapCommands(first, true, cs, vs);
      RunTapAppend(d, s, head, tail);
      RunTapOne(d, s, head[0]);
      assert head == [head[0]];
      LastTap(d, RunTap(d, s, head).0, cs, vs, first);
    }
  }

  /** Running the batch through one TAP after the other is the same as stepping all TAPs
      together. */
  lemma {:induction false} BatchIsLockstep<S>(ds: seq<Device<S>>, ss: seq<S>, commands: seq<byte>, values: seq<byte>, first: bool)
    requires |ds| == |ss| > 0 && Supply(first, commands, values)
    ensures BatchRun(ds, ss, commands, values, first) == LockFrom(ds, ss, commands, values, first)
    decreases |ds|
  {
    if |ds| == 1 {
      LastTap(ds[0], ss[0], commands, values, first);
      assert ds == [ds[0]] && ss == [ss[0]];
    } else {
      var out := RunTap(ds[0], ss[0], TapCommands(first, false, commands, values)).1;
      RunAhead(ds, ss, commands, values, first);
      BatchIsLockstep(ds[1..], ss[1..], commands, out, false);
    }
  }

  lemma EmptyChain<S>(ds: seq<Device<S>>, ss: seq<S>, commands: seq<byte>)
    requires |ds| == |ss|
    ensures ds == [] ==> BatchRun(ds, ss, commands, [], true) == ([], [])
  {
  }

  lemma ChainIsLockstep<S>(ds: seq<Device<S>>, ss: seq<S>, commands: seq<byte>)
    requires |ds| == |ss|
    ensures BatchRun(ds, ss, commands, [], true) == Lockstep(ds, ss, commands)
  {
    if ds != [] {
      BatchIsLockstep(ds, ss, commands, [], true);
    }
  }

  /** How the client's bytes are cut into batches does not matter. */
  lemma {:induction false} BatchesCompose<S>(ds: seq<Device<S>>, ss: seq<S>, a: seq<byte>, b: seq<byte>)
    requires |ds| == |ss|
    ensures var (ss1, out1) := Lockstep(ds, ss, a);
            var (ss2, out2) := Lockstep(ds, ss1, b);
            Lockstep(ds, ss, a + b) == (ss2, out1 + out2)
    decreases a
  {
    if a == [] {
      assert a + b == b;
      if ds != [] {
        assert [] + Lockstep(ds, ss, b).1 == Lockstep(ds, ss, b).1;
      }
    } else if ds != [] {
      assert (a + b)[1..] == a[1..] + b;
      var (ss0, out0) := LockCommand(ds, ss, a[0], ZERO, true);
      BatchesCompose(ds, ss0, a[1..], b);
      var (ss1, out1) := Lockstep(ds, ss0, a[1..]);
      var (ss2, out2) := Lockstep(ds, ss1, b);
      assert Lockstep(ds, ss, a) == (ss1, out0 + out1);
      assert Lockstep(ds, ss, a + b) == (ss2, out0 + (out1 + out2));
      assert out0 + (out1 + out2) == (out0 + out1) + out2;
    } else {
      var none: seq<byte> := [];
      assert none + none == none;
    }
  }

  /** The client gets one answer for each read it sent, whatever the chain. */
  lemma {:induction false} OneAnswerPerRead<S>(ds: seq<Device<S>>, ss: seq<S>, commands: seq<byte>, values: seq<byte>, first: bool)
    requires |ds| == |ss| > 0 && Supply(first, commands, values)
    ensures |BatchRun(ds, ss, commands, values, first).1| == CountReads(commands)
    decreases |ds|
  {
    if |ds| > 1 {
      var out := RunTap(ds[0], ss[0], TapCommands(first, false, commands, values)).1;
      OneAnswerPerRead(ds[1..], ss[1..], commands, out, false);
    }
  }

  // ----- The objects -----

  lemma CountReadsAt(commands: seq<byte>, k: nat)
    requires k <= |commands|
    ensures k < |commands| ==>
              CountReads(commands[k..]) == (if commands[k] == READ then 1 else 0) + CountReads(commands[k + 1..])
    ensures k == |commands| ==> CountReads(commands[k..]) == 0
  {
    if k < |commands| {
      assert commands[k..][1..] == commands[k + 1..];
    }
  }

  /** A connection to one TAP; `pending` is what the TAP has sent and nobody received yet. */
  class Tap<S> {
    const device: Device<S>
    var state: S
    var pending: seq<byte>

    constructor (device: Device<S>, state: S)
      ensures this.device == device && this.state == state && pending == []
    {
      this.device := device;
      this.state := state;
      pending := [];
    }

    /** The far end: the TAP goes through the commands and sends its answers. */
    method Send(commands: seq<byte>)
      modifies this
      ensures state == RunTap(device, old(state), commands).0
      ensures pending == old(pending) + RunTap(device, old(state), commands).1
    {
      hide Do, CountReads;
      var i := 0;
      assert commands[0..] == commands;
      while i < |commands|
        invariant 0 <= i <= |commands|
        invariant var (s, out) := RunTap(device, state, commands[i..]);
                  && s == RunTap(device, old(state), commands).0
                  && pending + out == old(pending) + RunTap(device, old(state), commands).1
      {
        RunTapAt(device, state, commands, i);
        var (s, out) := Do(device, state, commands[i]);
        ghost var rest := RunTap(device, s, commands[i + 1..]).1;
        assert pending + (out + rest) == (pending + out) + rest;
        state := s;
        pending := pending + out;
        i := i + 1;
      }
      assert pending + [] == pending;
    }

    /** socket.recv: blocks until something is there, then gives some of it. */
    method Receive(limit: nat) returns (chunk: seq<byte>)
      requires limit > 0 && pending != []
      modifies this`pending
      ensures 0 < |chunk| <= limit && chunk + pending == old(pending)
    {
      var n: nat :| 0 < n <= limit && n <= |pending|;
      chunk := pending[..n];
      pending := pending[n..];
    }

    /** Sends the batch and collects one answer for each read in it, in whatever portions
        they arrive. The assertion on their number always holds. */
    method Execute(commands: seq<byte>) returns (result: seq<byte>)
      requires pending == []
      modifies this
      ensures pending == [] && (state, result) == RunTap(device, old(state), commands)
      ensures |result| == CountReads(commands)
    {
      hide CountReads, RunTap;
      ghost var goal := RunTap(device, state, commands);
      Send(commands);
      ghost var out := pending;
      assert [] + out == out;
      var readCount, k := 0, 0;
      assert commands[0..] == commands;
      while k < |commands|
        invariant 0 <= k <= |commands| && state == goal.0 && pending == out
        invariant readCount + CountReads(commands[k..]) == CountReads(commands)
      {
        CountReadsAt(commands, k);
        if commands[k] == READ {
          readCount := readCount + 1;
        }
        k := k + 1;
      }
      CountReadsAt(commands, k);
      result := [];
      while |result| < readCount
        invariant result + pending == out && |result| <= readCount
        invariant state == goal.0 && out == goal.1 && |out| == readCount
        decreases readCount - |result|
      {
        ghost var before := result;
        var chunk := Receive(readCount - |result|);
        assert (before + chunk) + pending == before + (chunk + pending);
        result := result + chunk;
      }
      assert |result| == readCount && pending == [] && result + [] == result;
    }
  }

  lemma NothingSupplied(commands: seq<byte>)
    ensures Supply(true, commands, [])
  {
  }

  class Chain<S> {
    var taps: seq<Tap<S>>

    constructor ()
      ensures taps == []
    {
      taps := [];
    }

    /** The TAPs are different, and nothing is left over on any connection. */
    ghost predicate Valid()
      reads this, taps
    {
      && (forall i, j :: 0 <= i < j < |taps| ==> taps[i] != taps[j])
      && (forall i :: 0 <= i < |taps| ==> taps[i].pending == [])
    }

    ghost function Devices(): (r: seq<Device<S>>)
      reads this
      ensures |r| == |taps|
    {
      seq(|taps|, i requires 0 <= i < |taps| reads this => taps[i].device)
    }

    ghost function States(): (r: seq<S>)
      reads this, taps
      ensures |r| == |taps|
    {
      seq(|taps|, i requires 0 <= i < |taps| reads this, taps => taps[i].state)
    }

    method Append(tap: Tap<S>)
      requires Valid() && tap !in taps && tap.pending == []
      modifies this
      ensures Valid() && taps == old(taps) + [tap]
    {
      taps := taps + [tap];
    }

    /** One turn of the inner loop: what a command becomes, and the values left. */
    method TapCommand(i: nat, command0: byte, values0: seq<byte>) returns (emitted: seq<byte>, values: seq<byte>)
      requires i < |taps| && (Takes(i == 0, command0) ==> values0 != [])
      ensures emitted == Rewrite(i == 0, i == |taps| - 1, command0, Head(i == 0, command0, values0))
      ensures values == Rest(i == 0, command0, values0)
    {
      var command := command0;
      emitted, values := [], values0;
      if i > 0 && ZERO <= command <= SEVEN {
        var v := values[0];
        values := values[1..];
        command := command - command % 2;
        if v == ONE {
          command := command + 1;
        }
      }
      if i < |taps| - 1 {
        if command != READ {
          emitted := emitted + [command];
        }
        if ZERO <= command <= SEVEN {
          emitted := emitted + [READ];
        }
      } else {
        emitted := emitted + [command];
      }
    }

    /** The inner loop: the batch for the TAP at position i. No value is left over. */
    method TapBatch(i: nat, commands: seq<byte>, values0: seq<byte>) returns (tmpCommands: seq<byte>)
      requires i < |taps| && Supply(i == 0, commands, values0)
      ensures tmpCommands == TapCommands(i == 0, i == |taps| - 1, commands, values0)
    {
      hide Rewrite, Head, Rest, Supply, Takes, TapCommands;
      ghost var first, last := i == 0, i == |taps| - 1;
      tmpCommands := [];
      var values := values0;
      var k := 0;
      assert commands[0..] == commands;
      assert [] + TapCommands(first, last, commands, values0) == TapCommands(first, last, commands, values0);
      while k < |commands|
        invariant 0 <= k <= |commands|
        invariant Supply(first, commands[k..], values)
        invariant TapCommands(first, last, commands, values0) == tmpCommands + TapCommands(first, last, commands[k..], values)
      {
        TapCommandsAt(first, last, commands, k, values);
        var emitted;
        emitted, values := TapCommand(i, commands[k], values);
        ghost var tail := TapCommands(first, last, commands[k + 1..], values);
        assert tmpCommands + (emitted + tail) == (tmpCommands + emitted) + tail;
        tmpCommands := tmpCommands + emitted;
        k := k + 1;
      }
      assert commands[k..] == commands[|commands|..];
      TapCommandsEnd(first, last, commands, values);
      assert values == [] && tmpCommands + [] == tmpCommands;
    }

    /** One turn of the outer loop: the TAP at position i gets its batch. */
    method RunOne(i: nat, commands: seq<byte>, values0: seq<byte>) returns (values: seq<byte>)
      requires Valid() && i < |taps| && Supply(i == 0, commands, values0)
      modifies taps[i]
      ensures Valid()
      ensures (taps[i].state, values)
              == RunTap(taps[i].device, old(taps[i].state), TapCommands(i == 0, i == |taps| - 1, commands, values0))
    {
      hide RunTap, TapCommands, Supply;
      var tmpCommands := TapBatch(i, commands, values0);
      values := taps[i].Execute(tmpCommands);
    }

    /** Chain.execute. The assertion that no value is left over always holds. */
    method Execute(commands: seq<byte>) returns (result: seq<byte>)
      requires Valid()
      modifies taps
      ensures Valid() && unchanged(this)
      ensures (States(), result) == Lockstep(Devices(), old(States()), commands)
    {
      hide BatchRun, RunTap, TapCommands, Lockstep, LockFrom, CountScans, Supply;
      NothingSupplied(commands);
      var values: seq<byte> := [];
      var i := 0;
      ghost var ds, ss := Devices(), States();
      ghost var done: seq<S> := [];
      ghost var goal := BatchRun(ds, ss, commands, [], true);
      assert ds[0..] == ds && ss[0..] == ss && [] + goal.0 == goal.0;
      while i < |taps|
        invariant 0 <= i <= |taps|
        invariant Valid()
        invariant |done| == i && forall k :: 0 <= k < i ==> taps[k].state == done[k]
        invariant forall k :: i <= k < |taps| ==> taps[k].state == ss[k]
        invariant i < |taps| ==> Supply(i == 0, commands, values)
        invariant i < |taps| ==> (var (rest, out) := BatchRun(ds[i..], ss[i..], commands, values, i == 0);
                                  goal == (done + rest, out))
        invariant i == |taps| > 0 ==> goal == (done, values)
        invariant |taps| == 0 ==> values == []
      {
        BatchRunAt(ds, ss, i, commands, values);
        values := RunOne(i, commands, values);
        ghost var s := taps[i].state;
        if i + 1 < |taps| {
          ghost var rest := BatchRun(ds[i + 1..], ss[i + 1..], commands, values, false).0;
          assert done + ([s] + rest) == (done + [s]) + rest;
        }
        done := done + [s];
        i := i + 1;
      }
      assert States() == done;
      EmptyChain(ds, ss, commands);
      ChainIsLockstep(ds, ss, commands);
      result := values;
    }
  }
}
