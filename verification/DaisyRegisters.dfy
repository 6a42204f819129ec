/** What the chain does for shift registers: clocked ones make one long register, and ones
    that shift with every scan command a shorter one. */
module DaisyRegisters {
  import opened DaisyChain

  // ----- The bits of a scan command -----
  // '0' to '7' stand for TCK, TMS and TDI, from the highest bit down.

  predicate Tck(c: byte) {
    (c as int - 0x30) / 4 % 2 == 1
  }

  predicate Tms(c: byte) {
    (c as int - 0x30) / 2 % 2 == 1
  }

  predicate Tdi(c: byte) {
    (c as int - 0x30) % 2 == 1
  }

  /** A TDO value as an answer. */
  function Show(bit: bool): byte {
    if bit then 0x31 else 0x30
  }

  /** A scan command goes on with its TCK and TMS bits, and the TDO value as its TDI bit. */
  lemma WithTdiBits(c: byte, bit: bool)
    requires IsScan(c)
    ensures var c' := WithTdi(c, Show(bit));
            IsScan(c') && Tck(c') == Tck(c) && Tms(c') == Tms(c) && Tdi(c') == bit
  {
  }

  // ----- Clocked registers -----

  type Cells = s: seq<bool> | |s| > 0 witness [false]

  function Last(cells: Cells): bool {
    cells[|cells| - 1]
  }

  function ShiftIn(bit: bool, cells: Cells): Cells {
    [bit] + cells[..|cells| - 1]
  }

  /** The state machine that TMS drives, in which of its states a register shifts, and what
      other commands do to it. */
  datatype Controller<!C> = Controller(next: (C, bool) -> C, shifts: C -> bool, other: (C, byte) -> C)

  /** A TAP: what it saw of TCK last, and the TDO value it shows. */
  datatype Register<C> = Register(state: C, cells: Cells, tck: bool, tdo: bool)

  /** A rising edge of TCK shifts, a falling one changes TDO. */
  function Clock<C>(controller: Controller<C>, r: Register<C>, c: byte): Register<C> {
    if c == READ then r
    else if !IsScan(c) then r.(state := controller.other(r.state, c))
    else if Tck(c) == r.tck then r
    else if r.tck then r.(tck := false, tdo := Last(r.cells))
    else
      var cells := if controller.shifts(r.state) then ShiftIn(Tdi(c), r.cells) else r.cells;
      r.(state := controller.next(r.state, Tms(c)), cells := cells, tck := true)
  }

  function Clocked<C>(controller: Controller<C>): Device<Register<C>> {
    Device((r: Register<C>, c: byte) => Clock(controller, r, c), (r: Register<C>) => (r, Show(r.tdo)))
  }

  /** One register with the cells of all of them, from the client's TDI on. */
  function Joined<C>(rs: seq<Register<C>>): (r: Register<C>)
    requires |rs| > 0
  {
    if |rs| == 1 then rs[0]
    else
      var rest := Joined(rs[1..]);
      Register(rs[0].state, rs[0].cells + rest.cells, rs[0].tck, rest.tdo)
  }

  /** A register that is in this state, and shows its last cell while TCK is low. */
  ghost predicate Settled<C>(r: Register<C>, state: C, tck: bool) {
    r.state == state && r.tck == tck && (tck || r.tdo == Last(r.cells))
  }

  /** Registers that have seen the same TCK and TMS. */
  ghost predicate Together<C>(rs: seq<Register<C>>, state: C, tck: bool) {
    forall i :: 0 <= i < |rs| ==> Settled(rs[i], state, tck)
  }

  ghost predicate AllAre<S>(ds: seq<Device<S>>, d: Device<S>) {
    forall i :: 0 <= i < |ds| ==> ds[i] == d
  }

  /** Two registers, one behind the other. */
  function Pair<C>(a: Register<C>, b: Register<C>): Register<C> {
    Register(a.state, a.cells + b.cells, a.tck, b.tdo)
  }

  lemma JoinedFirst<C>(r: Register<C>, rest: seq<Register<C>>)
    ensures Joined([r] + rest) == if rest == [] then r else Pair(r, Joined(rest))
  {
    assert ([r] + rest)[1..] == rest;
  }

  lemma {:induction false} JoinedSettled<C>(rs: seq<Register<C>>, state: C, tck: bool)
    requires |rs| > 0 && Together(rs, state, tck)
    ensures Settled(Joined(rs), state, tck)
  {
    if |rs| > 1 { JoinedSettled(rs[1..], state, tck); }
  }

  /** A shift of the long register is a shift of the first part, and one of the others that
      takes in the last cell of the first. */
  lemma ShiftParts(bit: bool, a: Cells, b: Cells)
    ensures ShiftIn(bit, a + b) == ShiftIn(bit, a) + ShiftIn(Last(a), b)
  {
    var n := |a| - 1;
    assert (a + b)[..|a + b| - 1] == a[..n] + [a[n]] + b[..|b| - 1];
  }

  /** One command, as a TAP gets it. */
  function Received(c: byte, v: byte, first: bool): byte {
    if !first && IsScan(c) then WithTdi(c, v) else c
  }

  lemma ReceivedBits(c: byte, v: byte, first: bool)
    ensures var c' := Received(c, v, first);
            && (IsScan(c') <==> IsScan(c)) && (c' == READ <==> c == READ) && (!IsScan(c) ==> c' == c)
            && (IsScan(c) ==> Tck(c') == Tck(c) && Tms(c') == Tms(c))
  {
  }

  /** A clock edge for two registers: the second gets what the first shows after it. */
  lemma ClockPair<C>(controller: Controller<C>, a: Register<C>, b: Register<C>, state: C, tck: bool, c: byte, v: byte, first: bool)
    requires Settled(a, state, tck) && Settled(b, state, tck)
    ensures var c1 := Received(c, v, first);
            var a' := Clock(controller, a, c1);
            var b' := Clock(controller, b, Received(c, if IsScan(c) then Show(a'.tdo) else ZERO, false));
            && Clock(controller, Pair(a, b), c1) == Pair(a', b')
            && Settled(a', a'.state, a'.tck) && a'.state == b'.state && a'.tck == b'.tck
  {
    hide Tck, Tms, Tdi, IsScan, WithTdi;
    var c1 := Received(c, v, first);
    ReceivedBits(c, v, first);
    ShiftParts(Tdi(c1), a.cells, b.cells);
    if IsScan(c) {
      WithTdiBits(c, Clock(controller, a, c1).tdo);
      ReceivedBits(c, Show(Clock(controller, a, c1).tdo), false);
    } else {
      ReceivedBits(c, ZERO, false);
    }
  }

  lemma ClockOne<C>(controller: Controller<C>, a: Register<C>, state: C, tck: bool, c: byte)
    requires Settled(a, state, tck)
    ensures var a' := Clock(controller, a, c); Settled(a', a'.state, a'.tck)
  {
  }

  lemma DoClocked<C>(controller: Controller<C>, r: Register<C>, c: byte)
    ensures Do(Clocked(controller), r, c) == (Clock(controller, r, c), if c == READ then [Show(r.tdo)] else [])
  {
  }

  /** The first TAP of several takes the command, the others get it with its TDO value. */
  lemma LockTurn<C>(controller: Controller<C>, ds: seq<Device<Register<C>>>, rs: seq<Register<C>>, c: byte, v: byte, first: bool)
    requires |ds| == |rs| > 0 && ds[0] == Clocked(controller)
    ensures var c' := Received(c, v, first);
            var a := Clock(controller, rs[0], c');
            LockCommand(ds, rs, c, v, first) ==
            if |rs| == 1 then ([a], Do(ds[0], rs[0], c').1)
            else
              var (rest, out) := LockCommand(ds[1..], rs[1..], c, if IsScan(c) then Show(a.tdo) else ZERO, false);
              ([a] + rest, out)
  {
    ReceivedBits(c, v, first);
    DoClocked(controller, rs[0], Received(c, v, first));
  }

  lemma {:induction false} CommandJoined<C>(controller: Controller<C>, ds: seq<Device<Register<C>>>, rs: seq<Register<C>>,
                                                state: C, tck: bool, c: byte, v: byte, first: bool)
    requires |ds| == |rs| > 0 && AllAre(ds, Clocked(controller)) && Together(rs, state, tck)
    ensures var (rs', out) := LockCommand(ds, rs, c, v, first);
            var one := Do(Clocked(controller), Joined(rs), Received(c, v, first));
            (Joined(rs'), out) == one && Together(rs', one.0.state, one.0.tck)
    decreases |ds|
  {
    hide Clock, Joined, LockCommand, Do, Pair, Received, Settled;
    var a, rest, c' := rs[0], rs[1..], Received(c, v, first);
    assert rs == [a] + rest;
    assert Settled(a, state, tck);
    LockTurn(controller, ds, rs, c, v, first);
    JoinedFirst(a, rest);
    DoClocked(controller, Joined(rs), c');
    DoClocked(controller, a, c');
    ClockOne(controller, a, state, tck, c');
    var a' := Clock(controller, a, c');
    if |ds| == 1 {
      assert [a'] + [] == [a'];
      JoinedFirst(a', []);
    } else {
      var tdo := if IsScan(c) then Show(a'.tdo) else ZERO;
      CommandJoined(controller, ds[1..], rest, state, tck, c, tdo, false);
      var rest' := LockCommand(ds[1..], rest, c, tdo, false).0;
      JoinedFirst(a', rest');
      JoinedSettled(rest, state, tck);
      var b := Joined(rest);
      DoClocked(controller, b, Received(c, tdo, false));
      ClockPair(controller, a, b, state, tck, c, v, first);
      ReceivedBits(c, v, first);
      ReceivedBits(c, tdo, false);
      PairShows(a, b);
      PairShows(a', Joined(rest'));
    }
  }

  lemma PairShows<C>(a: Register<C>, b: Register<C>)
    ensures Pair(a, b).tdo == b.tdo && Pair(a, b).state == a.state && Pair(a, b).tck == a.tck
  {
  }

  /** The chain of clocked registers is one clocked register with all their cells. */
  lemma {:induction false} ChainIsOneRegister<C>(controller: Controller<C>, ds: seq<Device<Register<C>>>, rs: seq<Register<C>>,
                                                     state: C, tck: bool, commands: seq<byte>)
    requires |ds| == |rs| > 0 && AllAre(ds, Clocked(controller)) && Together(rs, state, tck)
    ensures var (rs', out) := Lockstep(ds, rs, commands);
            var one := RunTap(Clocked(controller), Joined(rs), commands);
            (Joined(rs'), out) == one && Together(rs', one.0.state, one.0.tck)
    decreases commands
  {
    hide Joined, Together, LockCommand, Do;
    if commands == [] {
      JoinedSettled(rs, state, tck);
    } else {
      var c := commands[0];
      CommandJoined(controller, ds, rs, state, tck, c, ZERO, true);
      var one := Do(Clocked(controller), Joined(rs), c).0;
      ChainIsOneRegister(controller, ds, LockCommand(ds, rs, c, ZERO, true).0, one.state, one.tck, commands[1..]);
    }
  }

  function TotalCells<C>(rs: seq<Register<C>>): nat {
    if rs == [] then 0 else |rs[0].cells| + TotalCells(rs[1..])
  }

  lemma {:induction false} JoinedLength<C>(rs: seq<Register<C>>)
    requires |rs| > 0
    ensures |Joined(rs).cells| == TotalCells(rs)
  {
    if |rs| > 1 { JoinedLength(rs[1..]); } else { assert TotalCells(rs[1..]) == 0; }
  }

  /** Chain.execute on such TAPs. */
  method ExecuteRegisters<C>(chain: Chain<Register<C>>, ghost controller: Controller<C>, ghost state: C, ghost tck: bool,
                             commands: seq<byte>) returns (result: seq<byte>)
    requires chain.Valid() && |chain.taps| > 0
    requires AllAre(chain.Devices(), Clocked(controller)) && Together(chain.States(), state, tck)
    modifies chain.taps
    ensures chain.Valid() && unchanged(chain)
    ensures (Joined(chain.States()), result) == RunTap(Clocked(controller), Joined(old(chain.States())), commands)
    ensures Together(chain.States(), Joined(chain.States()).state, Joined(chain.States()).tck)
  {
    hide Joined, Together, AllAre, Lockstep, RunTap;
    ChainIsOneRegister(controller, chain.Devices(), chain.States(), state, tck, commands);
    result := chain.Execute(commands);
  }

  // ----- Scanning through the chain -----

  /** A register after it has taken in the bits, and the bits it has shown before each. */
  function Fed(bits: seq<bool>, cells: Cells): Cells {
    if bits == [] then cells else Fed(bits[1..], ShiftIn(bits[0], cells))
  }

  function Shown(bits: seq<bool>, cells: Cells): seq<byte> {
    if bits == [] then [] else [Show(Last(cells))] + Shown(bits[1..], ShiftIn(bits[0], cells))
  }

  function Reversed(bits: seq<bool>): (r: seq<bool>)
    ensures |r| == |bits|
  {
    if bits == [] then [] else Reversed(bits[1..]) + [bits[0]]
  }

  /** The bits and the cells make one queue: the register keeps its front end, and shows it
      from the back. */
  function Queue(bits: seq<bool>, cells: Cells): (q: Cells)
    ensures |q| == |bits| + |cells|
  {
    Reversed(bits) + cells
  }

  lemma QueueStep(bits: seq<bool>, cells: Cells)
    requires bits != []
    ensures Queue(bits[1..], ShiftIn(bits[0], cells)) == Queue(bits, cells)[..|bits| + |cells| - 1]
    ensures Last(Queue(bits, cells)) == Last(cells)
  {
  }

  lemma {:induction false} FedQueue(bits: seq<bool>, cells: Cells)
    ensures Fed(bits, cells) == Queue(bits, cells)[..|cells|]
  {
    hide Queue, ShiftIn;
    if bits != [] {
      var rest := Queue(bits[1..], ShiftIn(bits[0], cells));
      QueueStep(bits, cells);
      FedQueue(bits[1..], ShiftIn(bits[0], cells));
      assert |ShiftIn(bits[0], cells)| == |cells| by { ShiftLength(bits[0], cells); }
      assert rest[..|cells|] == Queue(bits, cells)[..|cells|];
    } else {
      assert Queue([], cells) == cells by { QueueNothing(cells); }
    }
  }

  lemma QueueNothing(cells: Cells)
    ensures Queue([], cells) == cells
  {
  }

  lemma ShiftLength(bit: bool, cells: Cells)
    ensures |ShiftIn(bit, cells)| == |cells| && ShiftIn(bit, cells)[0] == bit
  {
  }

  lemma {:induction false} ShownQueue(bits: seq<bool>, cells: Cells)
    ensures |Shown(bits, cells)| == |bits|
    ensures forall j :: 0 <= j < |bits| ==> Shown(bits, cells)[j] == Show(Queue(bits, cells)[|bits| + |cells| - 1 - j])
  {
    hide Queue, ShiftIn, Show;
    if bits != [] {
      var cells' := ShiftIn(bits[0], cells);
      QueueStep(bits, cells);
      ShiftLength(bits[0], cells);
      ShownQueue(bits[1..], cells');
      forall j | 0 <= j < |bits| ensures Shown(bits, cells)[j] == Show(Queue(bits, cells)[|bits| + |cells| - 1 - j]) {
        if j > 0 {
          assert Shown(bits, cells)[j] == Shown(bits[1..], cells')[j - 1];
        }
      }
    }
  }

  /** The commands that scan one bit: TCK low, a read, TCK high. */
  function ScanBit(bit: bool): seq<byte> {
    if bit then [0x31, READ, 0x35] else [0x30, READ, 0x34]
  }

  function ScanBits(bits: seq<bool>): seq<byte> {
    if bits == [] then [] else ScanBit(bits[0]) + ScanBits(bits[1..])
  }

  /** A controller that goes on shifting while TMS is low. */
  predicate KeepsShifting<C(==)>(controller: Controller<C>, state: C) {
    controller.shifts(state) && controller.next(state, false) == state
  }

  lemma ClockBit<C>(controller: Controller<C>, r: Register<C>, state: C, tck: bool, bit: bool)
    requires Settled(r, state, tck) && KeepsShifting(controller, state)
    ensures var low := Clock(controller, r, if bit then 0x31 else 0x30);
            var high := Clock(controller, low, if bit then 0x35 else 0x34);
            && low.cells == r.cells && low.tdo == Last(r.cells)
            && high.cells == ShiftIn(bit, r.cells) && Settled(high, state, true)
  {
  }

  lemma RunBit<C>(controller: Controller<C>, r: Register<C>, bit: bool)
    ensures var low := Clock(controller, r, if bit then 0x31 else 0x30);
            RunTap(Clocked(controller), r, ScanBit(bit))
            == (Clock(controller, low, if bit then 0x35 else 0x34), [Show(low.tdo)])
  {
    hide Clock, RunTap;
    var d := Clocked(controller);
    var down, up: byte := if bit then 0x31 else 0x30, if bit then 0x35 else 0x34;
    var low := Clock(controller, r, down);
    assert ScanBit(bit) == [down, READ] + [up];
    RunTapTwo(d, r, down);
    RunTapAppend(d, r, [down, READ], [up]);
    DoClocked(controller, low, READ);
    NoClock(controller, low);
    RunTapOne(d, low, up);
    DoClocked(controller, low, up);
    assert [Show(low.tdo)] + [] == [Show(low.tdo)];
  }

  lemma NoClock<C>(controller: Controller<C>, r: Register<C>)
    ensures Clock(controller, r, READ) == r
  {
  }

  lemma {:induction false} RunBits<C>(controller: Controller<C>, r: Register<C>, state: C, tck: bool, bits: seq<bool>)
    requires Settled(r, state, tck) && KeepsShifting(controller, state)
    ensures var (r', out) := RunTap(Clocked(controller), r, ScanBits(bits));
            r'.cells == Fed(bits, r.cells) && out == Shown(bits, r.cells)
    decreases bits
  {
    hide Clock, RunTap, Settled, KeepsShifting;
    var d := Clocked(controller);
    if bits == [] {
      RunNothing(d, r);
    } else {
      ClockBit(controller, r, state, tck, bits[0]);
      RunBit(controller, r, bits[0]);
      RunTapAppend(d, r, ScanBit(bits[0]), ScanBits(bits[1..]));
      RunBits(controller, RunTap(d, r, ScanBit(bits[0])).0, state, true, bits[1..]);
    }
  }

  lemma RunNothing<S>(d: Device<S>, s: S)
    ensures RunTap(d, s, []) == (s, [])
  {
  }

  /** Scanning as many bits as all TAPs have cells: the client gets the contents of the whole
      chain, from its far end on, and the chain holds the bits. */
  lemma ScanThrough<C>(controller: Controller<C>, ds: seq<Device<Register<C>>>, rs: seq<Register<C>>,
                       state: C, tck: bool, bits: seq<bool>)
    requires |ds| == |rs| > 0 && AllAre(ds, Clocked(controller)) && Together(rs, state, tck)
    requires KeepsShifting(controller, state) && |bits| == TotalCells(rs)
    ensures var (rs', out) := Lockstep(ds, rs, ScanBits(bits));
            var n, cells := |bits|, Joined(rs).cells;
            && Joined(rs').cells == Reversed(bits)
            && |cells| == n == |out| && forall j :: 0 <= j < n ==> out[j] == Show(cells[n - 1 - j])
  {
    hide Joined, Together, AllAre, Settled, KeepsShifting, Lockstep, RunTap;
    ChainIsOneRegister(controller, ds, rs, state, tck, ScanBits(bits));
    JoinedSettled(rs, state, tck);
    JoinedLength(rs);
    RunBits(controller, Joined(rs), state, tck, bits);
    FedQueue(bits, Joined(rs).cells);
    ShownQueue(bits, Joined(rs).cells);
  }

  // ----- Registers that shift with every scan command -----

  /** A device without clock edges: each scan command shifts, and a read shows the last cell
      there is after it. */
  function Triggered(): Device<Cells> {
    var step: (Cells, byte) -> Cells := (cells: Cells, c: byte) => if IsScan(c) then ShiftIn(Tdi(c), cells) else cells;
    var read: Cells -> (Cells, byte) := (cells: Cells) => (cells, Show(Last(cells)));
    Device<Cells>.Device(step, read)
  }

  /** Each register starts with the last cell of the one before it, as after any scan. */
  predicate Overlapping(cs: seq<Cells>) {
    forall i :: 1 <= i < |cs| ==> cs[i][0] == Last(cs[i - 1])
  }

  /** The cells of all of them, those shared counted once ... */
  function Merged(cs: seq<Cells>): Cells
    requires |cs| > 0
  {
    if |cs| == 1 then cs[0] else cs[0] + Merged(cs[1..])[1..]
  }

  /** ... or each counted. */
  function Whole(cs: seq<Cells>): Cells
    requires |cs| > 0
  {
    if |cs| == 1 then cs[0] else cs[0] + Whole(cs[1..])
  }

  lemma MergedFirst(a: Cells, rest: seq<Cells>)
    ensures Merged([a] + rest) == if rest == [] then a else a + Merged(rest)[1..]
    ensures rest != [] ==> Merged(rest)[0] == rest[0][0]
  {
    assert ([a] + rest)[1..] == rest;
  }

  lemma {:induction false} MergedLength(cs: seq<Cells>)
    requires |cs| > 0
    ensures |Merged(cs)| == |Whole(cs)| - (|cs| - 1)
  {
    if |cs| > 1 { MergedLength(cs[1..]); }
  }

  lemma ShiftShared(bit: bool, a: Cells, b: Cells)
    requires b[0] == Last(a)
    ensures var a' := ShiftIn(bit, a);
            ShiftIn(bit, a + b[1..]) == a' + ShiftIn(Last(a'), b)[1..]
  {
    var b' := ShiftIn(Last(ShiftIn(bit, a)), b);
    assert b'[1..] == b[..|b| - 1];
    assert a[..|a| - 1] + [b[0]] == a;
  }

  /** The first register takes the command, the others get it with its new last cell. */
  lemma TriggeredTurn(ds: seq<Device<Cells>>, cs: seq<Cells>, c: byte, v: byte, first: bool)
    requires |ds| == |cs| > 0 && ds[0] == Triggered()
    ensures var (a, out1) := Do(Triggered(), cs[0], Received(c, v, first));
            LockCommand(ds, cs, c, v, first) ==
            if |cs| == 1 then ([a], out1)
            else
              var (rest, out) := LockCommand(ds[1..], cs[1..], c, if IsScan(c) then Show(Last(a)) else ZERO, false);
              ([a] + rest, out)
  {
    hide WithTdi, ShiftIn;
    ReceivedBits(c, v, first);
  }

  lemma DoTriggered(cells: Cells, c: byte)
    ensures Do(Triggered(), cells, c) ==
            (if IsScan(c) then ShiftIn(Tdi(c), cells) else cells, if c == READ then [Show(Last(cells))] else [])
  {
  }

  lemma LastOfMerged(a: Cells, b: Cells)
    requires b[0] == Last(a)
    ensures Last(a + b[1..]) == Last(b)
  {
  }

  lemma {:induction false} CommandMerged(ds: seq<Device<Cells>>, cs: seq<Cells>, c: byte, v: byte, first: bool)
    requires |ds| == |cs| > 0 && AllAre(ds, Triggered()) && Overlapping(cs)
    ensures var (cs', out) := LockCommand(ds, cs, c, v, first);
            && Overlapping(cs') && cs'[0] == Do(Triggered(), cs[0], Received(c, v, first)).0
            && (Merged(cs'), out) == Do(Triggered(), Merged(cs), Received(c, v, first))
    decreases |cs|
  {
    hide Merged, Tdi, WithTdi, IsScan, ShiftIn, LockCommand, Do, Received, Show, Last;
    var a, rest, c' := cs[0], cs[1..], Received(c, v, first);
    assert cs == [a] + rest;
    TriggeredTurn(ds, cs, c, v, first);
    MergedFirst(a, rest);
    DoTriggered(a, c');
    DoTriggered(Merged(cs), c');
    ReceivedBits(c, v, first);
    var a' := Do(Triggered(), a, c').0;
    if |cs| == 1 {
      MergedFirst(a', []);
      assert [a'] + [] == [a'];
    } else {
      var b := Merged(rest);
      var tdo := if IsScan(c) then Show(Last(a')) else ZERO;
      var c2 := Received(c, tdo, false);
      CommandMerged(ds[1..], rest, c, tdo, false);
      var rest' := LockCommand(ds[1..], rest, c, tdo, false).0;
      MergedFirst(a', rest');
      assert rest[0] == cs[1];
      assert cs[1][0] == Last(cs[0]);
      DoTriggered(rest[0], c2);
      DoTriggered(b, c2);
      ReceivedBits(c, tdo, false);
      LastOfMerged(a, b);
      if IsScan(c) {
        ReceivedTdi(c, Last(a'));
        ShiftShared(Tdi(c'), a, b);
        ShiftLength(Last(a'), rest[0]);
      }
      OverlappingFirst(a', rest');
    }
  }

  lemma ReceivedTdi(c: byte, bit: bool)
    requires IsScan(c)
    ensures Tdi(Received(c, Show(bit), false)) == bit
  {
    WithTdiBits(c, bit);
  }

  lemma OverlappingFirst(a: Cells, rest: seq<Cells>)
    requires rest != [] && Overlapping(rest) && rest[0][0] == Last(a)
    ensures Overlapping([a] + rest)
  {
  }

  /** Such a chain is one register too, but each boundary costs it a cell: a TAP is read after
      it has shifted, so the next one takes in the same bit in the same scan. */
  lemma {:induction false} TriggeredChain(ds: seq<Device<Cells>>, cs: seq<Cells>, commands: seq<byte>)
    requires |ds| == |cs| > 0 && AllAre(ds, Triggered()) && Overlapping(cs)
    ensures var (cs', out) := Lockstep(ds, cs, commands);
            Overlapping(cs') && (Merged(cs'), out) == RunTap(Triggered(), Merged(cs), commands)
    decreases commands
  {
    hide Merged, Overlapping, LockCommand, Do, Triggered;
    if commands != [] {
      CommandMerged(ds, cs, commands[0], ZERO, true);
      TriggeredChain(ds, LockCommand(ds, cs, commands[0], ZERO, true).0, commands[1..]);
    }
  }

  // ----- Exactly when no cell is lost -----

  function Lengths(cs: seq<Cells>): seq<nat> {
    if cs == [] then [] else [|cs[0]|] + Lengths(cs[1..])
  }

  /** The chain answers as one register with each cell counted does. */
  ghost predicate AsLong(cs: seq<Cells>, commands: seq<byte>)
    requires |cs| > 0
  {
    forall ds: seq<Device<Cells>> :: |ds| == |cs| && AllAre(ds, Triggered()) ==>
      Lockstep(ds, cs, commands).1 == RunTap(Triggered(), Whole(cs), commands).1
  }

  /** Scan commands with the bits as TDI. */
  function Scans(bits: seq<bool>): seq<byte> {
    if bits == [] then [] else [Show(bits[0])] + Scans(bits[1..])
  }

  lemma {:induction false} RunScans(bits: seq<bool>, cells: Cells)
    ensures RunTap(Triggered(), cells, Scans(bits)) == (Fed(bits, cells), [])
    decreases bits
  {
    hide ShiftIn, Triggered, Do;
    if bits != [] {
      DoTriggered(cells, Show(bits[0]));
      RunScans(bits[1..], ShiftIn(bits[0], cells));
      var none: seq<byte> := [];
      assert none + none == none;
      assert Tdi(Show(bits[0])) == bits[0];
    }
  }

  predicate Clear(cells: seq<bool>) {
    forall i :: 0 <= i < |cells| ==> !cells[i]
  }

  function Zeros(n: nat): (z: seq<bool>)
    ensures |z| == n && Clear(z)
  {
    seq(n, _ => false)
  }

  /** A one and n zeros, and a read. */
  function Probe(n: nat): seq<byte> {
    Scans([true] + Zeros(n)) + [READ]
  }

  /** In a cleared register the one has come to cell n. */
  lemma ProbeAnswer(cells: Cells, n: nat)
    requires Clear(cells) && n < |cells|
    ensures RunTap(Triggered(), cells, Probe(n)).1 == [Show(n == |cells| - 1)]
  {
    hide RunTap, Do, Triggered, Fed, Queue, Scans;
    var bits := [true] + Zeros(n);
    var after := Fed(bits, cells);
    RunTapAppend(Triggered(), cells, Scans(bits), [READ]);
    RunScans(bits, cells);
    RunTapOne(Triggered(), after, READ);
    DoTriggered(after, READ);
    FedQueue(bits, cells);
    ProbeQueue(cells, n);
    assert [] + [Show(Last(after))] == [Show(Last(after))];
  }

  lemma ProbeQueue(cells: Cells, n: nat)
    requires Clear(cells) && n < |cells|
    ensures Queue([true] + Zeros(n), cells)[|cells| - 1] == (n == |cells| - 1)
  {
    hide Reversed;
    var bits := [true] + Zeros(n);
    assert Reversed(bits)[n] by { ReversedLast(bits); }
  }

  lemma ReversedLast(bits: seq<bool>)
    requires bits != []
    ensures Reversed(bits)[|bits| - 1] == bits[0]
  {
  }

  ghost predicate AllClear(cs: seq<Cells>) {
    forall i :: 0 <= i < |cs| ==> Clear(cs[i])
  }

  lemma {:induction false} WholeClear(cs: seq<Cells>)
    requires |cs| > 0 && AllClear(cs)
    ensures Clear(Whole(cs)) && Clear(Merged(cs)) && Overlapping(cs)
  {
    if |cs| > 1 { WholeClear(cs[1..]); }
  }

  predicate Positive(lengths: seq<nat>) {
    forall i :: 0 <= i < |lengths| ==> lengths[i] > 0
  }

  lemma {:induction false} SomeClear(lengths: seq<nat>) returns (cs: seq<Cells>)
    requires Positive(lengths)
    ensures Lengths(cs) == lengths && |cs| == |lengths| && AllClear(cs)
  {
    cs := [];
    if lengths != [] {
      var rest := SomeClear(lengths[1..]);
      var cells: Cells := Zeros(lengths[0]);
      cs := [cells] + rest;
      assert cs[1..] == rest;
    }
  }

  lemma {:induction false} LengthsLength(cs: seq<Cells>)
    ensures |Lengths(cs)| == |cs|
  {
    if cs != [] { LengthsLength(cs[1..]); }
  }

  /** Registers of these lengths answer as one of their total length, whatever they hold and
      whatever is sent, if and only if there is only one of them. */
  lemma TriggeredExactly(lengths: seq<nat>)
    requires |lengths| > 0 && Positive(lengths)
    ensures (forall cs: seq<Cells>, commands :: |cs| > 0 && Lengths(cs) == lengths ==> AsLong(cs, commands))
            <==> |lengths| == 1
  {
    hide Lockstep, RunTap, Lengths, Triggered, Probe, Clear;
    if |lengths| == 1 {
      forall cs: seq<Cells>, commands | |cs| > 0 && Lengths(cs) == lengths ensures AsLong(cs, commands) {
        LengthsLength(cs);
        forall ds: seq<Device<Cells>> | |ds| == |cs| && AllAre(ds, Triggered())
          ensures Lockstep(ds, cs, commands).1 == RunTap(Triggered(), Whole(cs), commands).1
        {
          TriggeredChain(ds, cs, commands);
        }
      }
    } else {
      var cs := SomeClear(lengths);
      var n := |Merged(cs)| - 1;
      var ds: seq<Device<Cells>> := seq(|cs|, _ => Triggered());
      WholeClear(cs);
      MergedLength(cs);
      TriggeredChain(ds, cs, Probe(n));
      ProbeAnswer(Merged(cs), n);
      ProbeAnswer(Whole(cs), n);
      assert Show(true) != Show(false);
      assert Lockstep(ds, cs, Probe(n)).1[0] != RunTap(Triggered(), Whole(cs), Probe(n)).1[0];
      assert !AsLong(cs, Probe(n));
    }
  }
}
