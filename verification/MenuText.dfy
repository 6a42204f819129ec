/** What conf_write writes: which values and in which order, and which headings and ends. */
module MenuText {
  import opened Expr
  import opened Menu
  import opened MenuWalk

  // ----- Values -----

  /** The symbols of the values in a text. */
  function ValuesIn(events: seq<Event>): seq<Sym> {
    if events == [] then [] else (if events[0].Value? then [events[0].sym] else []) + ValuesIn(events[1..])
  }

  /** The symbols to write, once for each of their entries, in the order of the entries. */
  function Candidates(cfg: Config, f: Forest<Item>): seq<Sym> {
    match f
    case Empty => []
    case Node(m, k, r) => Own(cfg, m) + Candidates(cfg, k) + Candidates(cfg, r)
  }

  function Own(cfg: Config, m: Item): seq<Sym> {
    if m.sym.Some? && !m.choice && cfg.write(m.sym.value) then [m.sym.value] else []
  }

  /** The first occurrence of each. */
  function Firsts(syms: seq<Sym>, written: set<Sym>): seq<Sym> {
    if syms == [] then []
    else if syms[0] in written then Firsts(syms[1..], written)
    else [syms[0]] + Firsts(syms[1..], written + {syms[0]})
  }

  function Elements(syms: seq<Sym>): set<Sym> {
    set s | s in syms
  }

  lemma {:induction false} ValuesAppend(a: seq<Event>, b: seq<Event>)
    ensures ValuesIn(a + b) == ValuesIn(a) + ValuesIn(b)
  {
    if a == [] {
      assert a + b == b;
    } else {
      assert (a + b)[1..] == a[1..] + b;
      ValuesAppend(a[1..], b);
      Regroup(if a[0].Value? then [a[0].sym] else [], ValuesIn(a[1..]), ValuesIn(b));
    }
  }

  lemma {:induction false} FirstsAppend(a: seq<Sym>, b: seq<Sym>, written: set<Sym>)
    ensures Firsts(a + b, written) == Firsts(a, written) + Firsts(b, written + Elements(a))
  {
    if a == [] {
      assert a + b == b && written + Elements(a) == written;
    } else {
      assert (a + b)[1..] == a[1..] + b;
      var w := if a[0] in written then written else written + {a[0]};
      assert w + Elements(a[1..]) == written + Elements(a);
      FirstsAppend(a[1..], b, w);
      Regroup([a[0]], Firsts(a[1..], w), Firsts(b, written + Elements(a)));
    }
  }

  lemma FirstsOfThree(a: seq<Sym>, b: seq<Sym>, c: seq<Sym>, w: set<Sym>)
    ensures Firsts(a + b + c, w) == Firsts(a, w) + Firsts(b, w + Elements(a)) + Firsts(c, w + Elements(a) + Elements(b))
    ensures w + Elements(a + b + c) == w + Elements(a) + Elements(b) + Elements(c)
  {
    FirstsAppend(a, b, w);
    FirstsAppend(a + b, c, w);
    assert w + Elements(a + b) == w + Elements(a) + Elements(b);
  }

  lemma ValuesOfFour(a: seq<Event>, b: seq<Event>, c: seq<Event>, d: seq<Event>)
    ensures ValuesIn(c) == [] ==> ValuesIn(a + b + c + d) == ValuesIn(a) + ValuesIn(b) + ValuesIn(d)
  {
    hide ValuesIn;
    ValuesAppend(a, b);
    ValuesAppend(a + b, c);
    ValuesAppend(a + b + c, d);
  }

  lemma EntryValues(cfg: Config, m: Item, written: set<Sym>)
    ensures var (e, w) := Emit(cfg, m, written);
            ValuesIn(e) == Firsts(Own(cfg, m), written) && w == written + Elements(Own(cfg, m))
    ensures ValuesIn(Close(cfg, m)) == [] && ValuesIn([]) == []
  {
    var own := Own(cfg, m);
    assert Elements(own) == if own == [] then {} else {m.sym.value};
    assert Firsts(own, written) == if own == [] || own[0] in written then [] else own;
  }

  /** The values are those of the symbols to write, each at its first entry. */
  lemma {:induction false} ValuesInOrder(cfg: Config, f: Forest<Item>, written: set<Sym>)
    ensures ValuesIn(Render(cfg, f, written).0) == Firsts(Candidates(cfg, f), written)
    ensures Render(cfg, f, written).1 == written + Elements(Candidates(cfg, f))
  {
    match f {
      case Empty =>
      case Node(m, k, r) =>
        hide Emit, Close, Elements, Firsts, ValuesIn, Own;
        var (e1, w1) := Emit(cfg, m, written);
        var (e2, w2) := Render(cfg, k, w1);
        var (e3, w3) := Render(cfg, r, w2);
        EntryValues(cfg, m, written);
        ValuesInOrder(cfg, k, w1);
        ValuesInOrder(cfg, r, w2);
        ValuesOfFour(e1, e2, if k.Node? then Close(cfg, m) else [], e3);
        FirstsOfThree(Own(cfg, m), Candidates(cfg, k), Candidates(cfg, r), written);
    }
  }

  // ----- Headings and ends -----

  function MarksIn(events: seq<Event>): seq<Event> {
    if events == [] then [] else (if events[0].Value? then [] else [events[0]]) + MarksIn(events[1..])
  }

  /** A visible entry without a symbol has a heading and, if there are entries below it, an
      end after them, whatever is written in between. */
  function Outline(cfg: Config, f: Forest<Item>): seq<Event> {
    match f
    case Empty => []
    case Node(m, k, r) =>
      var marked := m.sym.None? && cfg.visible(m);
      (if marked then [Heading(m.id)] else []) + Outline(cfg, k)
      + (if marked && k != Empty then [End(m.id)] else []) + Outline(cfg, r)
  }

  lemma {:induction false} MarksAppend(a: seq<Event>, b: seq<Event>)
    ensures MarksIn(a + b) == MarksIn(a) + MarksIn(b)
  {
    if a == [] {
      assert a + b == b;
    } else {
      assert (a + b)[1..] == a[1..] + b;
      MarksAppend(a[1..], b);
      Regroup(if a[0].Value? then [] else [a[0]], MarksIn(a[1..]), MarksIn(b));
    }
  }

  lemma EntryMarks(cfg: Config, m: Item, written: set<Sym>)
    ensures var marked := m.sym.None? && cfg.visible(m);
            && MarksIn(Emit(cfg, m, written).0) == (if marked then [Heading(m.id)] else [])
            && MarksIn(Close(cfg, m)) == (if marked then [End(m.id)] else []) && MarksIn([]) == []
  {
    assert [Heading(m.id)][1..] == [] && [End(m.id)][1..] == [];
  }

  lemma {:induction false} MarksAreOutline(cfg: Config, f: Forest<Item>, written: set<Sym>)
    ensures MarksIn(Render(cfg, f, written).0) == Outline(cfg, f)
  {
    match f {
      case Empty =>
      case Node(m, k, r) =>
        hide Emit, Close, MarksIn;
        var (e1, w1) := Emit(cfg, m, written);
        var (e2, w2) := Render(cfg, k, w1);
        var (e3, w3) := Render(cfg, r, w2);
        var close := if k.Node? then Close(cfg, m) else [];
        EntryMarks(cfg, m, written);
        MarksAreOutline(cfg, k, w1);
        MarksAreOutline(cfg, r, w2);
        MarksAppend(e1, e2);
        MarksAppend(e1 + e2, close);
        MarksAppend(e1 + e2 + close, e3);
    }
  }
}
