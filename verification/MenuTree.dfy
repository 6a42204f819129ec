/** menu_finalize on the linked menu entries: `list`, `next` and `parent` are relinked in
    place. */
module MenuTree {
  import opened Expr
  import opened Menu

  class Entry {
    var next: Entry?
    var parent: Entry?
    var list: Entry?
    var item: Item
  }

  /** The entries of a forest. */
  ghost function Entries(f: Forest<Entry>): set<Entry> {
    match f
    case Empty => {}
    case Node(m, k, r) => {m} + Entries(k) + Entries(r)
  }

  /** No entry occurs twice. */
  ghost predicate Distinct(f: Forest<Entry>) {
    match f
    case Empty => true
    case Node(m, k, r) =>
      && m !in Entries(k) && m !in Entries(r) && Entries(k) !! Entries(r)
      && Distinct(k) && Distinct(r)
  }

  /** The entries are linked as `f` says: the list starts at `head`, ends at `tail`, and
      `parent` is the parent of each entry on it. */
  ghost predicate Linked(f: Forest<Entry>, head: Entry?, parent: Entry?, tail: Entry?)
    reads Entries(f)
  {
    match f
    case Empty => head == tail
    case Node(m, k, r) =>
      && head == m && m.parent == parent
      && Linked(k, m.list, m, null) && Linked(r, m.next, parent, tail)
  }

  /** What the entries hold. */
  ghost function Items(f: Forest<Entry>): Forest<Item>
    reads Entries(f)
  {
    match f
    case Empty => Empty
    case Node(m, k, r) => Node(m.item, Items(k), Items(r))
  }

  ghost predicate Tree(f: Forest<Entry>, head: Entry?, parent: Entry?, tail: Entry?)
    reads Entries(f)
  {
    Distinct(f) && Linked(f, head, parent, tail)
  }

  // ----- Forests -----

  /** Two lists, the first ending where the second starts, make one list ... */
  lemma {:induction false} Join(a: Forest<Entry>, b: Forest<Entry>, head: Entry?, mid: Entry?, parent: Entry?, tail: Entry?)
    requires Tree(a, head, parent, mid) && Tree(b, mid, parent, tail) && Entries(a) !! Entries(b)
    ensures Tree(Append(a, b), head, parent, tail)
    ensures Items(Append(a, b)) == Append(Items(a), Items(b))
    ensures Entries(Append(a, b)) == Entries(a) + Entries(b)
  {
    if a.Node? {
      Join(a.rest, b, a.data.next, mid, parent, tail);
    }
  }

  /** A list of one entry. */
  ghost predicate Single(f: Forest<Entry>) {
    f.Node? && f.rest == Empty
  }

  function One<T>(f: Forest<T>): Forest<T>
    requires f.Node?
  {
    Node(f.data, f.kids, Empty)
  }

  /** A loop that has come to the first entry of `rem` moves on to the next. */
  lemma StepOver(done: Forest<Entry>, rem: Forest<Entry>, head: Entry?, menu: Entry, parent: Entry?)
    requires rem.Node? && Tree(done, head, parent, menu) && Tree(rem, menu, parent, null)
    requires Entries(done) !! Entries(rem)
    ensures Items(rem).Node?
    ensures var done' := Append(done, One(rem));
            && Tree(done', head, parent, menu.next) && Tree(rem.rest, menu.next, parent, null)
            && Entries(done') == Entries(done) + Entries(One(rem)) && Entries(done') !! Entries(rem.rest)
            && Entries(done') + Entries(rem.rest) == Entries(done) + Entries(rem)
            && Items(rem) == Node(menu.item, Items(rem.kids), Items(rem.rest))
            && Items(done') == Append(Items(done), One(Items(rem)))
            && Append(done', rem.rest) == Append(done, rem)
  {
    Join(done, One(rem), head, menu, parent, menu.next);
    AppendAppend(done, One(rem), rem.rest);
  }

  /** A list starts where its first entry is; the empty one starts where it ends. */
  lemma TreeHead(f: Forest<Entry>, head: Entry?, parent: Entry?)
    requires Tree(f, head, parent, null)
    ensures if head == null then f == Empty && Items(f) == Empty else f.Node? && f.data == head && head in Entries(f)
    ensures Count(Items(f)) == Count(f)
  {
    ItemsCount(f);
  }

  /** What it means for the first entry and the rest of a list. */
  lemma Unpack(f: Forest<Entry>, head: Entry, parent: Entry?, tail: Entry?)
    requires f.Node? && Tree(f, head, parent, tail)
    ensures f.data == head && head.parent == parent
    ensures Tree(f.kids, head.list, head, null) && Tree(f.rest, head.next, parent, tail)
    ensures Entries(f) == {head} + Entries(f.kids) + Entries(f.rest)
    ensures head !in Entries(f.kids) && head !in Entries(f.rest) && Entries(f.kids) !! Entries(f.rest)
    ensures Items(f) == Node(head.item, Items(f.kids), Items(f.rest))
    ensures (head.list == null <==> f.kids == Empty) && (Items(f.kids) == Empty <==> f.kids == Empty)
    ensures f.rest == Empty ==> head.next == tail
  {
    assert Linked(f.kids, head.list, head, null);
  }

  lemma Pack(head: Entry, kids: Forest<Entry>, rest: Forest<Entry>, parent: Entry?, tail: Entry?)
    requires head.parent == parent
    requires Tree(kids, head.list, head, null) && Tree(rest, head.next, parent, tail)
    requires head !in Entries(kids) && head !in Entries(rest) && Entries(kids) !! Entries(rest)
    ensures Tree(Node(head, kids, rest), head, parent, tail)
    ensures Entries(Node(head, kids, rest)) == {head} + Entries(kids) + Entries(rest)
    ensures Items(Node(head, kids, rest)) == Node(head.item, Items(kids), Items(rest))
  {
  }

  lemma {:induction false} ItemsCount(f: Forest<Entry>)
    ensures Count(Items(f)) == Count(f)
  {
    if f.Node? { ItemsCount(f.kids); ItemsCount(f.rest); }
  }

  lemma TreeEmpty(head: Entry?, parent: Entry?)
    ensures Tree(Empty, head, parent, head) && Entries(Empty) == {} && Items(Empty) == Empty
  {
  }

  // ----- The loops -----
  // The parameter `world` is the set of all entries there are.

  /** Passes the dependencies of the parent on to each entry of its list. */
  method InheritList(modules: Sym, above: Option<Expr>, parent: Entry, ghost kids: Forest<Entry>, ghost world: set<Entry>)
    requires Tree(kids, parent.list, parent, null) && Entries(kids) <= world
    modifies Entries(kids)`item
    ensures Tree(kids, parent.list, parent, null)
    ensures Items(kids) == InheritAll(modules, above, old(Items(kids)))
  {
    hide Inherit, Linked, Distinct, Entries, Items;
    var menu := parent.list;
    ghost var done: Forest<Entry>, rem := Empty, kids;
    TreeEmpty(menu, parent);
    ghost var goal := InheritAll(modules, above, Items(kids));
    while menu != null
      invariant Tree(done, parent.list, parent, menu) && Tree(rem, menu, parent, null)
      invariant Entries(done) !! Entries(rem) && Entries(done) + Entries(rem) == Entries(kids)
      invariant Append(done, rem) == kids
      invariant goal == Append(Items(done), InheritAll(modules, above, Items(rem)))
      decreases Count(rem)
    {
      TreeHead(rem, menu, parent);
      ItemsNode(rem);
      SetItem(menu, Inherit(modules, above, menu.item), rem, parent, world);
      StepOver(done, rem, parent.list, menu, parent);
      AppendAppend(Items(done), One(Items(rem)), InheritAll(modules, above, Items(rem.rest)));
      done, rem := Append(done, One(rem)), rem.rest;
      menu := menu.next;
    }
    TreeHead(rem, menu, parent);
    AppendNothing(done);
    AppendNothing(Items(done));
  }

  /** Writes the item of the first entry of a list. */
  method SetItem(menu: Entry, item: Item, ghost f: Forest<Entry>, ghost parent: Entry, ghost world: set<Entry>)
    requires f.Node? && Tree(f, menu, parent, null) && Entries(f) <= world
    modifies menu`item
    ensures menu.item == item && Tree(f, menu, parent, null)
    ensures Items(f) == Node(item, old(Items(f.kids)), old(Items(f.rest)))
  {
    hide Linked, Distinct, Entries, Items;
    Unpack(f, menu, parent, null);
    menu.item := item;
    Pack(menu, f.kids, f.rest, parent, null);
  }

  /** Finalizes each entry of the list of `parent`, following the list as it changes. */
  method FinalizeList(modules: Sym, parent: Entry, ghost kids: Forest<Entry>, ghost world: set<Entry>)
      returns (ghost done: Forest<Entry>, ghost calls: seq<nat>)
    requires Tree(kids, parent.list, parent, null) && parent !in Entries(kids) && Entries(kids) <= world
    modifies Entries(kids)
    ensures Tree(done, parent.list, parent, null) && Entries(done) == Entries(kids)
    ensures Items(done) == FinalizeAll(modules, old(Items(kids)))
    ensures calls == CallsAll(modules, old(Items(kids)))
    decreases Count(kids), 3
  {
    hide Menu.Finalize, Calls, CallsAll, Linked, Distinct, Entries, Items, Tree;
    var menu := parent.list;
    ghost var rem := kids;
    done, calls := Empty, [];
    TreeEmpty(menu, parent);
    ghost var goal, order := FinalizeAll(modules, Items(kids)), CallsAll(modules, Items(kids));
    assert calls + order == order;
    while menu != null
      invariant Tree(done, parent.list, parent, menu) && Tree(rem, menu, parent, null)
      invariant Entries(done) !! Entries(rem) && Entries(done) + Entries(rem) == Entries(kids)
      invariant Count(rem) <= Count(kids)
      invariant goal == Append(Items(done), FinalizeAll(modules, Items(rem)))
      invariant order == calls + CallsAll(modules, Items(rem))
      decreases Count(rem)
    {
      TreeHead(rem, menu, parent);
      ItemsNode(rem);
      CallsTurn(modules, Items(rem), calls);
      ghost var made;
      rem, made := FinalizeEntry(modules, menu, rem, parent, world);
      calls := calls + made;
      StepOver(done, rem, parent.list, menu, parent);
      AppendAppend(Items(done), One(Items(rem)), FinalizeAll(modules, Items(rem.rest)));
      done, rem := Append(done, One(rem)), rem.rest;
      menu := menu.next;
    }
    TreeHead(rem, menu, parent);
    AppendNothing(Items(done));
    CallsTurn(modules, Empty, calls);
  }

  /** The entries taken so far: none, or `last` after the others. */
  ghost predicate Taken(before: Forest<Entry>, last: Forest<Entry>, head: Entry?, lastMenu: Entry?, p: Entry, menu: Entry?)
    reads Entries(before), Entries(last)
  {
    if lastMenu == null then before == Empty && last == Empty && menu == head
    else
      && Single(last) && last.data == lastMenu && lastMenu in Entries(last)
      && Tree(before, head, p, lastMenu) && Tree(last, lastMenu, p, menu)
  }

  lemma TakenNone(p: Entry, menu: Entry?)
    ensures Taken(Empty, Empty, menu, null, p, menu)
  {
  }

  lemma TakenMore(before: Forest<Entry>, last: Forest<Entry>, head: Entry?, lastMenu: Entry, p: Entry)
    requires Single(last) && last.data == lastMenu && lastMenu in Entries(last)
    requires Tree(before, head, p, lastMenu) && Tree(last, lastMenu, p, lastMenu.next)
    ensures Taken(before, last, head, lastMenu, p, lastMenu.next)
  {
  }

  lemma TakenList(before: Forest<Entry>, last: Forest<Entry>, head: Entry?, lastMenu: Entry?, p: Entry, menu: Entry?)
    requires Taken(before, last, head, lastMenu, p, menu) && Entries(before) !! Entries(last)
    ensures Tree(Append(before, last), head, p, menu)
    ensures Entries(Append(before, last)) == Entries(before) + Entries(last)
    ensures Items(Append(before, last)) == Append(Items(before), Items(last))
  {
    if lastMenu != null {
      Join(before, last, head, lastMenu, p, menu);
    }
  }

  lemma SubmenuTurn(modules: Sym, p: Item, f: Forest<Item>, before: Forest<Item>, last: Forest<Item>)
    requires p.sym.Some?
    ensures f.Node? && Belongs(p, f.data) ==>
              var first := Menu.Finalize(modules, f);
              var (t, l) := Submenu(modules, p, first.rest);
              && Submenu(modules, p, f) == (Append(One(first), t), l)
              && Append(before, Append(last, Append(One(first), t))) == Append(Append(before, last), Append(One(first), t))
    ensures f.Empty? || !Belongs(p, f.data) ==>
              Submenu(modules, p, f) == (Empty, f) && Append(before, Append(last, Empty)) == Append(before, last)
  {
    if f.Node? && Belongs(p, f.data) {
      var first := Menu.Finalize(modules, f);
      AppendAppend(before, last, Append(One(first), Submenu(modules, p, first.rest).0));
    } else {
      AppendNothing(last);
    }
  }

  /** The search for entries that belong below symbol entry `p`: they are finalized and get
      `p` as their parent, ... */
  method CollectSubmenu(modules: Sym, p: Entry, ghost rest: Forest<Entry>, ghost parent: Entry?, ghost world: set<Entry>)
      returns (lastMenu: Entry?, ghost menu: Entry?, ghost before: Forest<Entry>, ghost last: Forest<Entry>,
               ghost left: Forest<Entry>, ghost calls: seq<nat>)
    requires p.item.sym.Some? && p.list == null
    requires Tree(rest, p.next, parent, null) && p !in Entries(rest) && Entries(rest) <= world
    modifies Entries(rest)
    ensures Taken(before, last, p.next, lastMenu, p, menu) && Tree(left, menu, parent, null)
    ensures Entries(before) !! Entries(last) && Entries(before) + Entries(last) !! Entries(left)
    ensures Entries(before) + Entries(last) + Entries(left) == Entries(rest)
    ensures (Append(Items(before), Items(last)), Items(left)) == Submenu(modules, p.item, old(Items(rest)))
    ensures calls == CallsSubmenu(modules, p.item, old(Items(rest)))
    decreases Count(rest), 3
  {
    hide Menu.Finalize, Calls, CallsSubmenu, Submenu, Belongs, Linked, Distinct, Entries, Items, Taken, Tree;
    var next := p.next;
    lastMenu := null;
    before, last, left, calls := Empty, Empty, rest, [];
    TreeEmpty(next, p);
    TakenNone(p, next);
    ghost var goal, order := Submenu(modules, p.item, Items(rest)), CallsSubmenu(modules, p.item, Items(rest));
    assert calls + order == order;
    while next != null && Belongs(p.item, next.item)
      invariant p.next == old(p.next) && p.list == null && p.item == old(p.item)
      invariant Taken(before, last, p.next, lastMenu, p, next)
      invariant Tree(left, next, parent, null)
      invariant Entries(before) !! Entries(last) && Entries(before) + Entries(last) !! Entries(left)
      invariant Entries(before) + Entries(last) + Entries(left) == Entries(rest)
      invariant Count(left) <= Count(rest)
      invariant var (t, l) := Submenu(modules, p.item, Items(left));
                goal == (Append(Items(before), Append(Items(last), t)), l)
      invariant order == calls + CallsSubmenu(modules, p.item, Items(left))
      decreases Count(left)
    {
      TreeHead(left, next, parent);
      ItemsNode(left);
      SubmenuTurn(modules, p.item, Items(left), Items(before), Items(last));
      CallsSubmenuTurn(modules, p.item, Items(left), calls);
      TakenList(before, last, p.next, lastMenu, p, next);
      before := Append(before, last);
      ghost var made;
      last, left, made := TakeEntry(modules, next, p, left, parent, world);
      calls := calls + made;
      TakenMore(before, last, p.next, next, p);
      lastMenu := next;
      next := next.next;
    }
    TreeHead(left, next, parent);
    if next != null {
      ItemsNode(left);
    }
    SubmenuTurn(modules, p.item, Items(left), Items(before), Items(last));
    CallsSubmenuTurn(modules, p.item, Items(left), calls);
    menu := next;
  }

  /** ... and the list is cut after the last of them. */
  method TakeSubmenu(modules: Sym, p: Entry, ghost rest: Forest<Entry>, ghost parent: Entry?, ghost world: set<Entry>)
      returns (ghost taken: Forest<Entry>, ghost left: Forest<Entry>, ghost calls: seq<nat>)
    requires p.item.sym.Some? && p.list == null
    requires Tree(rest, p.next, parent, null) && p !in Entries(rest) && Entries(rest) <= world
    modifies p`list, p`next, Entries(rest)
    ensures Tree(taken, p.list, p, null) && Tree(left, p.next, parent, null)
    ensures Entries(taken) !! Entries(left) && Entries(taken) + Entries(left) == Entries(rest)
    ensures (Items(taken), Items(left)) == Submenu(modules, p.item, old(Items(rest)))
    ensures AllMention(p.item.sym.value, Items(taken))
    ensures calls == CallsSubmenu(modules, p.item, old(Items(rest)))
    decreases Count(rest), 4
  {
    hide Submenu, CallsSubmenu, AllMention, Linked, Distinct, Entries, Items, Taken, Tree;
    SubmenuMentions(modules, p.item, Items(rest));
    var lastMenu;
    ghost var menu, before, last;
    lastMenu, menu, before, last, left, calls := CollectSubmenu(modules, p, rest, parent, world);
    taken := CutAfter(p, lastMenu, menu, before, last, world);
  }

  /** Finalizes one entry and puts it below `p`. */
  method TakeEntry(modules: Sym, menu: Entry, p: Entry, ghost f: Forest<Entry>, ghost parent: Entry?, ghost world: set<Entry>)
      returns (ghost last: Forest<Entry>, ghost left: Forest<Entry>, ghost calls: seq<nat>)
    requires f.Node? && Tree(f, menu, parent, null) && Entries(f) <= world
    modifies Entries(f)
    ensures Single(last) && last.data == menu && menu in Entries(last)
    ensures Tree(last, menu, p, menu.next) && Tree(left, menu.next, parent, null)
    ensures Entries(last) !! Entries(left) && Entries(last) + Entries(left) == Entries(f) && Count(left) < Count(f)
    ensures var first := Menu.Finalize(modules, old(Items(f)));
            Items(last) == One(first) && Items(left) == first.rest
    ensures calls == Calls(modules, old(Items(f)))
    decreases Count(f), 2
  {
    hide Menu.Finalize, Calls, Linked, Distinct, Entries, Items;
    ghost var r;
    r, calls := FinalizeEntry(modules, menu, f, parent, world);
    TreeHead(r, menu, parent);
    AdoptFirst(menu, r, parent, p, world);
    last, left := One(r), r.rest;
    Unpack(last, menu, p, menu.next);
  }

  /** Makes the entries taken the list below `p`, which goes on after them. */
  method CutAfter(p: Entry, lastMenu: Entry?, ghost menu: Entry?, ghost before: Forest<Entry>, ghost last: Forest<Entry>,
                  ghost world: set<Entry>) returns (ghost taken: Forest<Entry>)
    requires p.list == null && Taken(before, last, p.next, lastMenu, p, menu)
    requires p !in Entries(before) && p !in Entries(last)
    requires Entries(before) !! Entries(last) && Entries(before) + Entries(last) <= world
    modifies p`list, p`next, Entries(last)`next
    ensures Tree(taken, p.list, p, null) && p.next == menu
    ensures Entries(taken) == Entries(before) + Entries(last)
    ensures Items(taken) == Append(old(Items(before)), old(Items(last)))
  {
    hide Linked, Distinct, Entries, Items;
    taken := Append(before, last);
    TreeEmpty(null, p);
    if lastMenu != null {
      Unpack(last, lastMenu, p, menu);
      p.list := p.next;
      p.next := lastMenu.next;
      GoOn(lastMenu, null, last, Empty, p, menu, world);
      Join(before, last, p.list, lastMenu, p, null);
    }
  }

  /** Gives the first entry of a list another parent. */
  method AdoptFirst(menu: Entry, ghost f: Forest<Entry>, ghost above: Entry?, parent: Entry, ghost world: set<Entry>)
    requires f.Node? && Tree(f, menu, above, null) && Entries(f) <= world
    modifies menu`parent
    ensures Tree(One(f), menu, parent, menu.next) && Tree(f.rest, menu.next, above, null)
    ensures Entries(f) == Entries(One(f)) + Entries(f.rest) && Entries(One(f)) !! Entries(f.rest)
    ensures Items(f) == old(Items(f)) && Items(f).Node? && Items(One(f)) == One(Items(f)) && Items(f.rest) == Items(f).rest
  {
    hide Linked, Distinct, Entries, Items;
    Unpack(f, menu, above, null);
    TreeEmpty(menu.next, parent);
    menu.parent := parent;
    Pack(menu, f.kids, Empty, parent, menu.next);
    ItemsNode(f);
  }

  lemma ItemsNode(f: Forest<Entry>)
    requires f.Node?
    ensures Items(f) == Node(f.data.item, Items(f.kids), Items(f.rest))
  {
  }

  /** Lets a list of one entry go on with another list. */
  method GoOn(menu: Entry, target: Entry?, ghost one: Forest<Entry>, ghost rest: Forest<Entry>, ghost parent: Entry,
              ghost end: Entry?, ghost world: set<Entry>)
    requires Single(one) && Tree(one, menu, parent, end) && Tree(rest, target, parent, null)
    requires Entries(one) !! Entries(rest) && Entries(one) + Entries(rest) <= world
    modifies menu`next
    ensures menu.next == target && Tree(Node(menu, one.kids, rest), menu, parent, null)
    ensures Entries(Node(menu, one.kids, rest)) == Entries(one) + Entries(rest)
    ensures Items(Node(menu, one.kids, rest)) == Append(old(Items(one)), old(Items(rest)))
  {
    hide Linked, Distinct, Entries, Items;
    Unpack(one, menu, parent, end);
    TreeEmpty(end, parent);
    menu.next := target;
    Pack(menu, one.kids, rest, parent, null);
  }

  /** Makes the list below an entry the list behind it. */
  method Promote(menu: Entry, ghost all: Forest<Entry>, ghost parent: Entry, ghost world: set<Entry>)
    requires menu.parent == parent && menu !in Entries(all) && Tree(all, menu.list, parent, null) && Entries(all) <= world
    modifies menu`next, menu`list
    ensures Tree(Node(menu, Empty, all), menu, parent, null)
    ensures Entries(Node(menu, Empty, all)) == {menu} + Entries(all)
    ensures Items(Node(menu, Empty, all)) == Node(old(menu.item), Empty, old(Items(all)))
  {
    hide Linked, Distinct, Entries, Items;
    TreeEmpty(null, menu);
    menu.next := menu.list;
    menu.list := null;
    Pack(menu, Empty, all, parent, null);
  }

  /** Makes `parent` the parent of all entries of a list, and finds the last of them. */
  method Reparent(head: Entry, ghost kids: Forest<Entry>, ghost above: Entry, parent: Entry, ghost world: set<Entry>)
      returns (lastMenu: Entry, ghost before: Forest<Entry>, ghost last: Forest<Entry>)
    requires Tree(kids, head, above, null) && Entries(kids) <= world
    modifies Entries(kids)`parent
    ensures Tree(before, head, parent, lastMenu) && Tree(last, lastMenu, parent, null) && Single(last)
    ensures lastMenu.next == null && last.data == lastMenu
    ensures Entries(before) !! Entries(last) && Entries(before) + Entries(last) == Entries(kids)
    ensures Append(Items(before), Items(last)) == old(Items(kids))
  {
    hide Linked, Distinct, Entries, Items;
    lastMenu := head;
    before := Empty;
    ghost var rem := kids;
    TreeEmpty(head, parent);
    TreeHead(rem, head, above);
    AdoptFirst(lastMenu, rem, above, parent, world);
    while lastMenu.next != null
      invariant rem.Node? && rem.data == lastMenu
      invariant Tree(before, head, parent, lastMenu) && Tree(One(rem), lastMenu, parent, lastMenu.next)
      invariant Tree(rem.rest, lastMenu.next, above, null)
      invariant Entries(before) !! Entries(rem) && Entries(before) + Entries(rem) == Entries(kids)
      invariant Entries(rem) == Entries(One(rem)) + Entries(rem.rest) && Entries(One(rem)) !! Entries(rem.rest)
      invariant Items(rem).Node? && Items(One(rem)) == One(Items(rem)) && Items(rem.rest) == Items(rem).rest
      invariant Append(Items(before), Items(rem)) == old(Items(kids))
      decreases Count(rem)
    {
      Join(before, One(rem), head, lastMenu, parent, lastMenu.next);
      AppendAppend(Items(before), One(Items(rem)), Items(rem.rest));
      before, rem := Append(before, One(rem)), rem.rest;
      lastMenu := lastMenu.next;
      TreeHead(rem, lastMenu, above);
      AdoptFirst(lastMenu, rem, above, parent, world);
    }
    TreeHead(rem.rest, null, above);
    last := rem;
  }

  /** Gives up the sublists of entries without a prompt text, in the list of `parent`. */
  method FlattenList(parent: Entry, ghost kids: Forest<Entry>, ghost world: set<Entry>) returns (ghost done: Forest<Entry>)
    requires Tree(kids, parent.list, parent, null) && parent !in Entries(kids) && Entries(kids) <= world
    modifies Entries(kids)
    ensures Tree(done, parent.list, parent, null) && Entries(done) == Entries(kids)
    ensures Items(done) == FlattenAll(old(Items(kids)))
    ensures Level(Items(done)) == Spread(old(Items(kids)))
  {
    hide Linked, Distinct, Entries, Items;
    hide Level, Spread;
    var menu := parent.list;
    ghost var rem := kids;
    done := Empty;
    TreeEmpty(menu, parent);
    ghost var goal := FlattenAll(Items(kids));
    FlattenSpreads(Items(kids));
    while menu != null
      invariant Tree(done, parent.list, parent, menu) && Tree(rem, menu, parent, null)
      invariant Entries(done) !! Entries(rem) && Entries(done) + Entries(rem) == Entries(kids)
      invariant goal == Append(Items(done), FlattenAll(Items(rem)))
      decreases Count(rem)
    {
      TreeHead(rem, menu, parent);
      ItemsNode(rem);
      Unpack(rem, menu, parent, null);
      if menu.list != null && Flat(menu.item) {
        rem := FlattenEntry(menu, rem, parent, world);
      }
      StepOver(done, rem, parent.list, menu, parent);
      AppendAppend(Items(done), One(Items(rem)), FlattenAll(Items(rem.rest)));
      done, rem := Append(done, One(rem)), rem.rest;
      menu := menu.next;
    }
    TreeHead(rem, menu, parent);
    AppendNothing(Items(done));
  }

  /** Moves the list below `menu` up behind it. */
  method FlattenEntry(menu: Entry, ghost f: Forest<Entry>, parent: Entry, ghost world: set<Entry>) returns (ghost r: Forest<Entry>)
    requires f.Node? && f.data == menu && menu.list != null && Tree(f, menu, parent, null) && Entries(f) <= world
    modifies Entries(f)
    ensures Tree(r, menu, parent, null) && Entries(r) == Entries(f) && Count(r) == Count(f)
    ensures r.Node? && r.data == menu && r.kids == Empty
    ensures Items(r) == Node(old(menu.item), Empty, Append(old(Items(f.kids)), old(Items(f.rest))))
  {
    hide Linked, Distinct, Entries, Items;
    var lastMenu;
    ghost var before, last;
    TreeHead(f, menu, parent);
    Unpack(f, menu, parent, null);
    lastMenu, before, last := Reparent(menu.list, f.kids, menu, parent, world);
    TreeHead(last, lastMenu, parent);
    ghost var beforeItems, lastItems := Items(before), Items(last);
    GoOn(lastMenu, menu.next, last, f.rest, parent, null, world);
    ghost var linked := Node(lastMenu, last.kids, f.rest);
    Join(before, linked, menu.list, lastMenu, parent, null);
    AppendAppend(beforeItems, lastItems, Items(f.rest));
    r := Node(menu, Empty, Append(before, linked));
    Promote(menu, Append(before, linked), parent, world);
    TreeHead(r, menu, parent);
  }

  // ----- menu_finalize -----

  /** Gathers what goes below `p`: its own list, each entry finalized under what `p` passes
      on, or the entries after a symbol that belong below it. */
  method GatherList(modules: Sym, p: Entry, ghost f: Forest<Entry>, ghost parent: Entry?, ghost world: set<Entry>)
      returns (ghost kids: Forest<Entry>, ghost rest: Forest<Entry>, ghost below: seq<nat>)
    requires f.Node? && Tree(f, p, parent, null) && Entries(f) <= world
    modifies Entries(f)
    ensures p.item == old(p.item) && p.parent == parent
    ensures Tree(kids, p.list, p, null) && Tree(rest, p.next, parent, null)
    ensures p !in Entries(kids) && p !in Entries(rest) && Entries(kids) !! Entries(rest)
    ensures Entries(kids) + Entries(rest) + {p} == Entries(f)
    ensures (Items(kids), Items(rest)) == Gathered(modules, old(Items(f)))
    ensures Calls(modules, old(Items(f))) == [p.item.id] + below
    decreases Count(f), 0
  {
    hide Tree, Linked, Distinct, Entries, Items, ParentDep, FinalizeAll, FlattenAll, InheritAll, Submenu;
    hide Menu.Finalize, Calls, CallsAll, CallsSubmenu, AllMention, Belongs, Inherit;
    kids, rest, below := f.kids, f.rest, [];
    TreeHead(f, p, parent);
    TreeEmpty(null, p);
    Unpack(f, p, parent, null);
    CallsOf(modules, Items(f));
    if p.list != null {
      InheritList(modules, ParentDep(p.item), p, kids, world);
      kids, below := FinalizeList(modules, p, kids, world);
    } else if p.item.sym.Some? {
      kids, rest, below := TakeSubmenu(modules, p, rest, parent, world);
    }
  }

  /** menu_finalize: `f` is the list that starts at `p`, and becomes `r`; `calls` are the
      entries that menu_finalize has been called on. */
  method FinalizeEntry(modules: Sym, p: Entry, ghost f: Forest<Entry>, ghost parent: Entry?, ghost world: set<Entry>)
      returns (ghost r: Forest<Entry>, ghost calls: seq<nat>)
    requires f.Node? && Tree(f, p, parent, null) && Entries(f) <= world
    modifies Entries(f)
    ensures r.Node? && r.data == p && Tree(r, p, parent, null) && Entries(r) == Entries(f) && Count(r) == Count(f)
    ensures Items(r) == Menu.Finalize(modules, old(Items(f)))
    ensures Flattened(Items(r).kids) && Level(Items(r).kids) == Spread(Gathered(modules, old(Items(f))).0)
    ensures calls == Calls(modules, old(Items(f)))
    decreases Count(f), 1
  {
    hide Tree, Linked, Distinct, Entries, Items, FlattenAll, Menu.Finalize, Calls, Flattened, Level, Spread, Gathered;
    TreeHead(f, p, parent);
    ItemsNode(f);
    FinalizeFlattens(modules, Items(f));
    FinalizeSpreads(modules, Items(f));
    ghost var kids, rest, below;
    kids, rest, below := GatherList(modules, p, f, parent, world);
    calls := [p.item.id] + below;
    kids := FlattenList(p, kids, world);
    r := Node(p, kids, rest);
    Pack(p, kids, rest, parent, null);
    TreeHead(r, p, parent);
  }
}
