/** conf_write: the menu tree is walked without recursion, along the `list`, `next` and
    `parent` fields, while the configuration is written. */
module MenuWalk {
  import opened Expr
  import opened Menu
  import opened MenuTree

  /** What is written for an entry: a heading, a symbol's value, or the end of a menu. */
  datatype Event = Heading(id: nat) | Value(sym: Sym) | End(id: nat)

  /** What the symbols and conditions evaluate to: menu_is_visible, and SYMBOL_WRITE after
      sym_calc_value. */
  datatype Config = Config(visible: Item -> bool, write: Sym -> bool)

  /** What an entry writes, given the symbols already written, and those after it. */
  function Emit(cfg: Config, m: Item, written: set<Sym>): (seq<Event>, set<Sym>) {
    match m.sym
    case None => (if cfg.visible(m) then [Heading(m.id)] else [], written)
    case Some(s) =>
      if !m.choice && s !in written && cfg.write(s) then ([Value(s)], written + {s}) else ([], written)
  }

  function Close(cfg: Config, m: Item): seq<Event> {
    if m.sym.None? && cfg.visible(m) then [End(m.id)] else []
  }

  /** The text for a list of entries: each entry, what is below it and, if there is
      something, the end of the menu. */
  function Render(cfg: Config, f: Forest<Item>, written: set<Sym>): (seq<Event>, set<Sym>) {
    match f
    case Empty => ([], written)
    case Node(m, k, r) =>
      var (e1, w1) := Emit(cfg, m, written);
      var (e2, w2) := Render(cfg, k, w1);
      var (e3, w3) := Render(cfg, r, w2);
      (e1 + e2 + (if k.Node? then Close(cfg, m) else []) + e3, w3)
  }

  // ----- What is written -----

  /** The symbols that `f` has to write. */
  predicate Writes(cfg: Config, f: Forest<Item>, s: Sym) {
    match f
    case Empty => false
    case Node(m, k, r) => (m.sym == Some(s) && !m.choice && cfg.write(s)) || Writes(cfg, k, s) || Writes(cfg, r, s)
  }

  function Occurrences(events: seq<Event>, s: Sym): nat {
    if events == [] then 0 else (if events[0] == Value(s) then 1 else 0) + Occurrences(events[1..], s)
  }

  lemma {:induction false} OccurrencesAppend(a: seq<Event>, b: seq<Event>, s: Sym)
    ensures Occurrences(a + b, s) == Occurrences(a, s) + Occurrences(b, s)
  {
    if a == [] {
      assert a + b == b;
    } else {
      assert (a + b)[1..] == a[1..] + b;
      OccurrencesAppend(a[1..], b, s);
    }
  }

  lemma OccurrencesOne(e: Event, s: Sym)
    ensures Occurrences([e], s) == if e == Value(s) then 1 else 0
  {
    assert [e][1..] == [];
  }

  /** Every symbol that is to be written is written exactly once, however many entries it
      has, and no other is. */
  lemma {:induction false} WrittenOnce(cfg: Config, f: Forest<Item>, written: set<Sym>, s: Sym)
    ensures Occurrences(Render(cfg, f, written).0, s) == if s !in written && Writes(cfg, f, s) then 1 else 0
    ensures s in Render(cfg, f, written).1 <==> s in written || Writes(cfg, f, s)
  {
    match f {
      case Empty =>
      case Node(m, k, r) =>
        hide Emit, Close, Occurrences;
        var (e1, w1) := Emit(cfg, m, written);
        var (e2, w2) := Render(cfg, k, w1);
        var (e3, w3) := Render(cfg, r, w2);
        var close := if k.Node? then Close(cfg, m) else [];
        WrittenOnce(cfg, k, w1, s);
        WrittenOnce(cfg, r, w2, s);
        EntryWrites(cfg, m, written, s);
        OccurrencesAppend(e1, e2, s);
        OccurrencesAppend(e1 + e2, close, s);
        OccurrencesAppend(e1 + e2 + close, e3, s);
    }
  }

  lemma EntryWrites(cfg: Config, m: Item, written: set<Sym>, s: Sym)
    ensures var own := m.sym == Some(s) && !m.choice && cfg.write(s);
            var (e, w) := Emit(cfg, m, written);
            && Occurrences(e, s) == (if s !in written && own then 1 else 0)
            && (s in w <==> s in written || own)
    ensures Occurrences(Close(cfg, m), s) == 0 && Occurrences([], s) == 0
  {
    OccurrencesOne(Heading(m.id), s);
    OccurrencesOne(End(m.id), s);
    if m.sym.Some? { OccurrencesOne(Value(m.sym.value), s); }
  }

  // ----- The walk -----

  /** What is left to do above the current list: for each entry on the way up to the root,
      the entries after it. */
  datatype Stack = Root(root: Entry) | Below(menu: Entry, rest: Forest<Entry>, up: Stack) {
    /** The parent of the current list. */
    ghost function Parent(): Entry {
      if Root? then root else menu
    }
  }

  ghost function StackEntries(stack: Stack): set<Entry> {
    match stack
    case Root(root) => {root}
    case Below(m, rest, up) => {m} + Entries(rest) + StackEntries(up)
  }

  /** The frames lie on the way from the current list up to `root`, which has no entries
      after it and no parent. */
  ghost predicate OnTheWay(stack: Stack, root: Entry)
    reads StackEntries(stack)
  {
    match stack
    case Root(r) => r == root && r.next == null && r.parent == null
    case Below(m, rest, up) =>
      m != root && root !in Entries(rest) && m.parent == up.Parent() && Linked(rest, m.next, up.Parent(), null) && OnTheWay(up, root)
  }

  /** The text still to come once the current list is done. */
  ghost function RenderAbove(cfg: Config, stack: Stack, written: set<Sym>): seq<Event>
    reads StackEntries(stack)
  {
    match stack
    case Root(_) => []
    case Below(m, rest, up) =>
      var (e, w) := Render(cfg, Items(rest), written);
      Close(cfg, m.item) + e + RenderAbove(cfg, up, w)
  }

  ghost function IdsAbove(stack: Stack): seq<nat>
    reads StackEntries(stack)
  {
    match stack
    case Root(_) => []
    case Below(m, rest, up) => Ids(Items(rest)) + IdsAbove(up)
  }

  /** Entries left to visit, and frames left to climb. */
  ghost function CountAbove(stack: Stack): nat {
    match stack
    case Root(_) => 0
    case Below(_, rest, up) => Count(rest) + CountAbove(up)
  }

  /** Everything still to come when `cur` is the current list. */
  ghost function ToCome(cfg: Config, cur: Forest<Entry>, stack: Stack, written: set<Sym>): seq<Event>
    reads Entries(cur), StackEntries(stack)
  {
    var (e, w) := Render(cfg, Items(cur), written);
    e + RenderAbove(cfg, stack, w)
  }

  /** One entry on the way up: its end, and what comes after it, if anything. */
  lemma OneUp(cfg: Config, stack: Stack, root: Entry, written: set<Sym>)
    requires OnTheWay(stack, root) && stack.Below?
    ensures stack.menu != root && stack.menu.parent == stack.up.Parent() && OnTheWay(stack.up, root)
    ensures Linked(stack.rest, stack.menu.next, stack.up.Parent(), null) && root !in Entries(stack.rest)
    ensures RenderAbove(cfg, stack, written) == Close(cfg, stack.menu.item) + ToCome(cfg, stack.rest, stack.up, written)
    ensures IdsAbove(stack) == Ids(Items(stack.rest)) + IdsAbove(stack.up)
    ensures CountAbove(stack) == Count(stack.rest) + CountAbove(stack.up)
    ensures stack.menu.next == null ==>
              && RenderAbove(cfg, stack, written) == Close(cfg, stack.menu.item) + RenderAbove(cfg, stack.up, written)
              && IdsAbove(stack) == IdsAbove(stack.up) && CountAbove(stack) == CountAbove(stack.up)
  {
    hide Close, Ids;
    var m, rest, up := stack.menu, stack.rest, stack.up;
    var (e, w) := Render(cfg, Items(rest), written);
    Regroup(Close(cfg, m.item), e, RenderAbove(cfg, up, w));
    assert m.next == null ==> rest == Empty;
    NothingBefore(RenderAbove(cfg, up, written));
    NothingBefore(IdsAbove(up));
    IdsOfNothing();
  }

  lemma IdsOfNothing()
    ensures Ids(Empty) == []
  {
  }

  lemma AtTheRoot(cfg: Config, stack: Stack, root: Entry, written: set<Sym>)
    requires OnTheWay(stack, root) && stack.Root?
    ensures stack.root == root && root.next == null && root.parent == null
    ensures RenderAbove(cfg, stack, written) == [] && IdsAbove(stack) == [] && CountAbove(stack) == 0
  {
  }

  lemma CloseDone(cfg: Config, m: Item, ends: seq<Event>)
    ensures ends + Close(cfg, m) == if m.sym.None? && cfg.visible(m) then ends + [End(m.id)] else ends
  {
  }

  lemma Regroup4<T>(a: seq<T>, b: seq<T>, c: seq<T>, d: seq<T>)
    ensures (a + b + c) + d == a + (b + (c + d))
  {
  }

  lemma NothingBefore<T>(a: seq<T>)
    ensures [] + a == a
  {
  }

  lemma NothingAfter<T>(a: seq<T>)
    ensures a + [] == a
  {
  }

  /** After an entry comes the list below it, or else the next entry, or else the way up. */
  lemma OneDown(cur: Forest<Entry>, menu: Entry, stack: Stack, root: Entry)
    requires Linked(cur, menu, stack.Parent(), null) && OnTheWay(stack, root) && root !in Entries(cur)
    ensures cur.Node? && cur.data == menu && menu.parent == stack.Parent()
    ensures Linked(cur.kids, menu.list, menu, null) && Linked(cur.rest, menu.next, stack.Parent(), null)
    ensures root !in Entries(cur.kids) && root !in Entries(cur.rest)
    ensures OnTheWay(Below(menu, cur.rest, stack), root)
    ensures (menu.list == null <==> cur.kids == Empty) && (menu.next == null <==> cur.rest == Empty)
  {
  }

  lemma RenderDown(cfg: Config, cur: Forest<Entry>, stack: Stack, written: set<Sym>)
    requires cur.Node?
    ensures var (e, w) := Emit(cfg, cur.data.item, written);
            var down := Below(cur.data, cur.rest, stack);
            && (cur.kids.Node? ==> ToCome(cfg, cur, stack, written) == e + ToCome(cfg, cur.kids, down, w))
            && (cur.kids.Empty? ==> ToCome(cfg, cur, stack, written) == e + ToCome(cfg, cur.rest, stack, w))
            && (cur.rest.Empty? ==> ToCome(cfg, cur.rest, stack, w) == RenderAbove(cfg, stack, w))
  {
    hide Emit, Close;
    var m, k, r := cur.data, cur.kids, cur.rest;
    var (e1, w1) := Emit(cfg, m.item, written);
    var (e2, w2) := Render(cfg, Items(k), w1);
    var (e3, w3) := Render(cfg, Items(r), w2);
    var close, above := Close(cfg, m.item), RenderAbove(cfg, stack, w3);
    assert Items(cur) == Node(m.item, Items(k), Items(r));
    assert Items(k) == Empty <==> k == Empty;
    assert Render(cfg, Items(cur), written) == (e1 + e2 + (if k.Node? then close else []) + e3, w3);
    if k.Node? {
      assert RenderAbove(cfg, Below(m, r, stack), w2) == close + e3 + above;
      assert (e1 + e2 + close + e3) + above == e1 + (e2 + (close + e3 + above));
    } else {
      assert e2 == [] && w2 == w1;
      assert (e1 + [] + [] + e3) + above == e1 + (e3 + above);
    }
    NothingBefore(RenderAbove(cfg, stack, w1));
  }

  lemma OrderDown(cur: Forest<Entry>, stack: Stack)
    requires cur.Node?
    ensures var down := Below(cur.data, cur.rest, stack);
            && Ids(Items(cur)) + IdsAbove(stack) == [cur.data.item.id] + (Ids(Items(cur.kids)) + IdsAbove(down))
            && Count(cur.kids) + CountAbove(down) < Count(cur) + CountAbove(stack)
            && (cur.kids.Empty? ==> Ids(Items(cur.kids)) + IdsAbove(down) == Ids(Items(cur.rest)) + IdsAbove(stack))
            && (cur.rest.Empty? ==> Ids(Items(cur.rest)) + IdsAbove(stack) == IdsAbove(stack))
    ensures Count(cur.rest) < Count(cur)
  {
    var id, ik, ir, above := [cur.data.item.id], Ids(Items(cur.kids)), Ids(Items(cur.rest)), IdsAbove(stack);
    assert Ids(Items(cur)) == id + ik + ir;
    assert IdsAbove(Below(cur.data, cur.rest, stack)) == ir + above;
    Regroup4(id, ik, ir, above);
    NothingBefore(ir + above);
    NothingBefore(above);
  }

  lemma Start(cfg: Config, root: Entry, kids: Forest<Entry>)
    requires Tree(kids, root.list, root, null) && root !in Entries(kids)
    requires root.next == null && root.parent == null
    ensures OnTheWay(Root(root), root) && Linked(kids, root.list, root, null)
    ensures Render(cfg, Items(kids), {}).0 == ToCome(cfg, kids, Root(root), {})
    ensures Ids(Items(kids)) == Ids(Items(kids)) + IdsAbove(Root(root))
    ensures root.list == null ==> Render(cfg, Items(kids), {}).0 == [] && Ids(Items(kids)) == []
  {
    var e, ids := Render(cfg, Items(kids), {}).0, Ids(Items(kids));
    assert e + [] == e && ids + [] == ids;
    assert root.list == null <==> kids == Empty;
  }

  lemma EmitDone(cfg: Config, m: Item, out0: seq<Event>, out: seq<Event>, written0: set<Sym>, written: set<Sym>)
    requires if m.sym.None? then written == written0 && out == if cfg.visible(m) then out0 + [Heading(m.id)] else out0
             else if !m.choice && m.sym.value !in written0 && cfg.write(m.sym.value) then
               written == written0 + {m.sym.value} && out == out0 + [Value(m.sym.value)]
             else written == written0 && out == out0
    ensures written == Emit(cfg, m, written0).1 && out == out0 + Emit(cfg, m, written0).0
  {
  }

  /** conf_write: the text is that of the tree below the root, and the walk visits its
      entries in preorder. */
  method ConfWrite(cfg: Config, root: Entry, ghost kids: Forest<Entry>) returns (out: seq<Event>, ghost visited: seq<nat>)
    requires Tree(kids, root.list, root, null) && root !in Entries(kids)
    requires root.next == null && root.parent == null
    ensures out == Render(cfg, old(Items(kids)), {}).0
    ensures visited == Ids(old(Items(kids)))
  {
    hide Linked, OnTheWay, RenderAbove, IdsAbove, CountAbove, ToCome, Ids, Items, Render, Emit, Count, Close, Entries;
    out, visited := [], [];
    var written: set<Sym> := {};
    var menu := root.list;
    ghost var cur, stack := kids, Stack.Root(root);
    ghost var text, order := Render(cfg, Items(kids), {}).0, Ids(Items(kids));
    Start(cfg, root, kids);
    NothingBefore(text);
    NothingBefore(order);
    NothingAfter(out);
    NothingAfter(visited);
    while menu != null
      invariant menu != null ==> Linked(cur, menu, stack.Parent(), null) && OnTheWay(stack, root) && root !in Entries(cur)
      invariant text == out + (if menu == null then [] else ToCome(cfg, cur, stack, written))
      invariant order == visited + (if menu == null then [] else Ids(Items(cur)) + IdsAbove(stack))
      decreases menu != null, Count(cur) + CountAbove(stack)
    {
      OneDown(cur, menu, stack, root);
      RenderDown(cfg, cur, stack, written);
      OrderDown(cur, stack);
      ghost var out0, visited0, written0 := out, visited, written;
      var m := menu.item;
      if m.sym.None? {
        if cfg.visible(m) {
          out := out + [Heading(m.id)];
        }
      } else if !m.choice && m.sym.value !in written {
        if cfg.write(m.sym.value) {
          written := written + {m.sym.value};
          out := out + [Value(m.sym.value)];
        }
      }
      EmitDone(cfg, m, out0, out, written0, written);
      visited := visited + [m.id];
      ghost var e := Emit(cfg, m, written0).0;
      if menu.list != null {
        ghost var down := Below(menu, cur.rest, stack);
        Regroup(out0, e, ToCome(cfg, cur.kids, down, written));
        Regroup(visited0, [m.id], Ids(Items(cur.kids)) + IdsAbove(down));
        cur, stack := cur.kids, down;
        menu := menu.list;
      } else if menu.next != null {
        Regroup(out0, e, ToCome(cfg, cur.rest, stack, written));
        Regroup(visited0, [m.id], Ids(Items(cur.rest)) + IdsAbove(stack));
        cur := cur.rest;
        menu := menu.next;
      } else {
        // the way up: ends are written until an entry with a successor is found
        Regroup(out0, e, RenderAbove(cfg, stack, written));
        Regroup(visited0, [m.id], IdsAbove(stack));
        ghost var left, up := CountAbove(stack), stack;
        menu := menu.parent;
        ghost var climbing := true;
        while menu != null
          invariant climbing ==> OnTheWay(up, root) && (menu != null ==> menu == up.Parent()) && (menu == null ==> up.Root?)
          invariant climbing ==> text == out + RenderAbove(cfg, up, written) && order == visited + IdsAbove(up)
          invariant climbing ==> CountAbove(up) == left
          decreases menu != null, up
        {
          if up.Below? {
            OneUp(cfg, up, root, written);
            Regroup(out, Close(cfg, menu.item), if menu.next == null then RenderAbove(cfg, up.up, written)
                                                else ToCome(cfg, up.rest, up.up, written));
            CloseDone(cfg, menu.item, out);
          } else {
            AtTheRoot(cfg, up, root, written);
          }
          if menu.item.sym.None? && cfg.visible(menu.item) && menu != root {
            out := out + [End(menu.item.id)];
          }
          if menu.next != null {
            cur, stack := up.rest, up.up;
            menu := menu.next;
            climbing := false;
            break;
          }
          up := if up.Below? then up.up else up;
          menu := menu.parent;
        }
        if climbing {
          AtTheRoot(cfg, up, root, written);
        }
        NothingAfter(out);
        NothingAfter(visited);
      }
    }
    NothingAfter(out);
    NothingAfter(visited);
  }

  // ----- Both together -----

  lemma RootAlone(f: Forest<Entry>, root: Entry)
    requires f.Node? && Tree(f, root, null, null) && Items(f).rest == Empty
    ensures root.parent == null && root.next == null && f.rest == Empty
    ensures Tree(f.kids, root.list, root, null) && root !in Entries(f.kids) && Items(f.kids) == Items(f).kids
  {
    Unpack(f, root, null, null);
    ItemsCount(f.rest);
  }

  lemma FinalizedRoot(modules: Sym, root: Item, kids: Forest<Item>)
    ensures var r := Menu.Finalize(modules, Node(root, kids, Empty));
            r.rest == Empty && Ids(r.kids) == Ids(kids)
  {
    var r := Menu.Finalize(modules, Node(root, kids, Empty));
    FinalizeKeepsOrder(modules, Node(root, kids, Empty));
    assert r.rest == Empty;
    NothingAfter([root.id] + Ids(r.kids));
    NothingAfter([root.id] + Ids(kids));
    assert Ids(r) == [root.id] + Ids(r.kids) + [] && Ids(Node(root, kids, Empty)) == [root.id] + Ids(kids) + [];
    assert ([root.id] + Ids(r.kids))[1..] == Ids(r.kids) && ([root.id] + Ids(kids))[1..] == Ids(kids);
  }

  lemma RootItems(root: Entry, kids: Forest<Entry>)
    requires Tree(kids, root.list, root, null) && root !in Entries(kids) && root.next == null && root.parent == null
    ensures var f := Node(root, kids, Empty);
            && Tree(f, root, null, null) && Entries(f) == {root} + Entries(kids)
            && Items(f) == Node(root.item, Items(kids), Empty)
  {
  }

  lemma IdsOfRoot(root: Item, kids: Forest<Item>)
    ensures Ids(Node(root, kids, Empty)) == [root.id] + Ids(kids)
  {
    NothingAfter([root.id] + Ids(kids));
  }

  /** The tree menu_finalize leaves behind is one conf_write can walk: after both, every
      entry there was before has been finalized once and visited once, in the order of the
      Kconfig files. */
  method FinalizeAndWrite(modules: Sym, cfg: Config, root: Entry, ghost kids: Forest<Entry>, ghost world: set<Entry>)
      returns (out: seq<Event>, ghost calls: seq<nat>, ghost visited: seq<nat>)
    requires Tree(kids, root.list, root, null) && root !in Entries(kids) && {root} + Entries(kids) <= world
    requires root.next == null && root.parent == null
    modifies root, Entries(kids)
    ensures calls == [old(root.item.id)] + Ids(old(Items(kids))) && visited == Ids(old(Items(kids)))
    ensures out == Render(cfg, Menu.Finalize(modules, Node(old(root.item), old(Items(kids)), Empty)).kids, {}).0
  {
    hide Tree, Linked, Distinct, Entries, Items, Menu.Finalize, Render, Ids;
    ghost var rootItem, items := root.item, Items(kids);
    RootItems(root, kids);
    ghost var f;
    f, calls := FinalizeEntry(modules, root, Node(root, kids, Empty), null, world);
    CallsOncePerEntry(modules, rootItem, items);
    IdsOfRoot(rootItem, items);
    FinalizedRoot(modules, rootItem, items);
    RootAlone(f, root);
    out, visited := ConfWrite(cfg, root, f.kids);
  }
}
