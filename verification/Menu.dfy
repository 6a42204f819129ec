/** menu_finalize on values: how the menu tree is rebuilt. */
module Menu {
  import opened Expr
  import opened ExprDups
  import opened ExprDupsProofs
  import opened ExprTransform
  import opened ExprLevel
  import opened ExprEqOrder
  import opened SubmenuTests

  /** A list of entries with their sublists: `kids` is what the `list` field of the first
      entry leads to, `rest` what its `next` field leads to. */
  datatype Forest<T> = Empty | Node(data: T, kids: Forest<T>, rest: Forest<T>)

  function Count<T>(f: Forest<T>): nat {
    match f
    case Empty => 0
    case Node(_, k, r) => 1 + Count(k) + Count(r)
  }

  /** The entries of `a`, then those of `b`, side by side. */
  function Append<T>(a: Forest<T>, b: Forest<T>): (f: Forest<T>)
    ensures Count(f) == Count(a) + Count(b)
  {
    match a
    case Empty => b
    case Node(m, k, r) => Node(m, k, Append(r, b))
  }

  lemma {:induction false} AppendNothing<T>(a: Forest<T>)
    ensures Append(a, Empty) == a
  {
    if a.Node? { AppendNothing(a.rest); }
  }

  lemma {:induction false} AppendAppend<T>(a: Forest<T>, b: Forest<T>, c: Forest<T>)
    ensures Append(Append(a, b), c) == Append(a, Append(b, c))
  {
    if a.Node? { AppendAppend(a.rest, b, c); }
  }

  /** What menu_finalize looks at: the prompt's condition and whether there is a text, the
      symbol, whether that is a choice, and the dependencies. */
  datatype Prompt = Prompt(text: bool, visible: Option<Expr>)

  datatype Item = Item(id: nat, sym: Option<Sym>, choice: bool, dep: Option<Expr>, prompt: Option<Prompt>)

  // ----- Dependencies -----

  /** expr_alloc_and. */
  function AllocAnd(a: Option<Expr>, b: Option<Expr>): Option<Expr> {
    if a.None? then b else if b.None? then a else Some(Bin(And, a.value, b.value))
  }

  function Simplify(modules: Sym, e: Option<Expr>): Option<Expr> {
    if e.None? then None else Some(Transform(RewriteM(modules, e.value)))
  }

  /** `e`, rewritten and simplified, under the condition `above`. */
  function Under(modules: Sym, above: Option<Expr>, e: Option<Expr>): Option<Expr> {
    match AllocAnd(above, Simplify(modules, e))
    case None => None
    case Some(both) => Some(EliminateDups(both))
  }

  /** What the entries below `parent` depend on in addition: the choice itself, or what
      the parent depends on. */
  function ParentDep(parent: Item): Option<Expr> {
    if parent.choice && parent.sym.Some? then Some(Symbol(parent.sym.value)) else parent.dep
  }

  /** The dependencies and the prompt of an entry after those of its parent have been
      passed on to it. */
  function Inherit(modules: Sym, above: Option<Expr>, m: Item): Item {
    var dep := Under(modules, above, m.dep);
    match m.prompt
    case None => m.(dep := dep)
    case Some(p) =>
      var visible := Under(modules, dep, p.visible);
      var final := if m.sym.Some? && m.sym.value.Type() != Tri && visible.Some?
                   then Some(TransBool(visible.value)) else visible;
      m.(dep := dep, prompt := Some(p.(visible := final)))
  }

  function InheritAll(modules: Sym, above: Option<Expr>, f: Forest<Item>): (r: Forest<Item>)
    ensures Count(r) == Count(f)
  {
    match f
    case Empty => Empty
    case Node(m, k, r) => Node(Inherit(modules, above, m), k, InheritAll(modules, above, r))
  }

  /** What menu_finalize looks at to place an entry, and what it compares that with. */
  function Tested(m: Item): Option<Expr> {
    if m.prompt.Some? then m.prompt.value.visible else m.dep
  }

  function TestedAgainst(p: Item): Option<Expr> {
    if p.prompt.Some? then p.prompt.value.visible else None
  }

  /** Whether an entry that follows symbol entry `p` belongs into a submenu of it. */
  predicate Belongs(p: Item, m: Item)
    requires p.sym.Some?
  {
    var dep, base := Tested(m), TestedAgainst(p);
    dep.Some? && Contains(dep.value, p.sym.value) && (Depends(dep.value, p.sym.value) || Superset(dep.value, base))
  }

  // ----- menu_finalize -----

  /** menu_finalize on the first entry of `f`; the entries after it may move below it. */
  function Finalize(modules: Sym, f: Forest<Item>): (r: Forest<Item>)
    requires f.Node?
    ensures r.Node? && r.data == f.data && Count(r) == Count(f)
    decreases Count(f), 0
  {
    var (kids, rest) :=
      if f.kids.Node? then (FinalizeAll(modules, InheritAll(modules, ParentDep(f.data), f.kids)), f.rest)
      else if f.data.sym.Some? then Submenu(modules, f.data, f.rest)
      else (Empty, f.rest);
    Node(f.data, FlattenAll(kids), rest)
  }

  /** menu_finalize on each entry of a list, following the list as it changes. */
  function FinalizeAll(modules: Sym, f: Forest<Item>): (r: Forest<Item>)
    ensures Count(r) == Count(f)
    decreases Count(f), 1
  {
    if f.Empty? then Empty
    else
      var first := Finalize(modules, f);
      Node(first.data, first.kids, FinalizeAll(modules, first.rest))
  }

  /** The entries after symbol entry `p` that go below it, finalized, and the others. */
  function Submenu(modules: Sym, p: Item, f: Forest<Item>): (r: (Forest<Item>, Forest<Item>))
    requires p.sym.Some?
    ensures Count(r.0) + Count(r.1) == Count(f)
    decreases Count(f), 1
  {
    if f.Empty? || !Belongs(p, f.data) then (Empty, f)
    else
      var first := Finalize(modules, f);
      var (taken, left) := Submenu(modules, p, first.rest);
      (Node(first.data, first.kids, taken), left)
  }

  predicate Flat(m: Item) {
    m.prompt.None? || !m.prompt.value.text
  }

  /** Entries without a prompt text give their sublist up to the list they are in. */
  function FlattenAll(f: Forest<Item>): (r: Forest<Item>)
    ensures Count(r) == Count(f)
    decreases Count(f)
  {
    match f
    case Empty => Empty
    case Node(m, k, r) =>
      if k.Node? && Flat(m) then Node(m, Empty, FlattenAll(Append(k, r)))
      else Node(m, k, FlattenAll(r))
  }

  // ----- No entry is lost, duplicated or moved -----

  function Ids(f: Forest<Item>): seq<nat> {
    match f
    case Empty => []
    case Node(m, k, r) => [m.id] + Ids(k) + Ids(r)
  }

  lemma Regroup<T>(a: seq<T>, b: seq<T>, c: seq<T>)
    ensures (a + b) + c == a + (b + c)
  {
  }

  lemma {:induction false} IdsAppend(a: Forest<Item>, b: Forest<Item>)
    ensures Ids(Append(a, b)) == Ids(a) + Ids(b)
  {
    if a.Node? {
      IdsAppend(a.rest, b);
      Regroup([a.data.id] + Ids(a.kids), Ids(a.rest), Ids(b));
    }
  }

  lemma {:induction false} InheritKeepsIds(modules: Sym, above: Option<Expr>, f: Forest<Item>)
    ensures Ids(InheritAll(modules, above, f)) == Ids(f)
  {
    if f.Node? { InheritKeepsIds(modules, above, f.rest); }
  }

  lemma {:induction false} FlattenKeepsIds(f: Forest<Item>)
    ensures Ids(FlattenAll(f)) == Ids(f)
    decreases Count(f)
  {
    match f {
      case Empty =>
      case Node(m, k, r) =>
        if k.Node? && Flat(m) {
          FlattenKeepsIds(Append(k, r));
          IdsAppend(k, r);
          Regroup([m.id], Ids(k), Ids(r));
          assert [m.id] + [] == [m.id];
        } else {
          FlattenKeepsIds(r);
        }
    }
  }

  /** The preorder sequence of the entries stays the same. */
  lemma {:induction false} FinalizeKeepsOrder(modules: Sym, f: Forest<Item>)
    requires f.Node?
    ensures Ids(Finalize(modules, f)) == Ids(f)
    decreases Count(f), 0
  {
    if f.kids.Node? {
      var kids := InheritAll(modules, ParentDep(f.data), f.kids);
      InheritKeepsIds(modules, ParentDep(f.data), f.kids);
      FinalizeAllKeepsOrder(modules, kids);
      FlattenKeepsIds(FinalizeAll(modules, kids));
    } else if f.data.sym.Some? {
      SubmenuKeepsOrder(modules, f.data, f.rest);
      var (taken, left) := Submenu(modules, f.data, f.rest);
      FlattenKeepsIds(taken);
      Regroup([f.data.id], Ids(taken), Ids(left));
      assert [f.data.id] + [] == [f.data.id];
    }
  }

  lemma {:induction false} FinalizeAllKeepsOrder(modules: Sym, f: Forest<Item>)
    ensures Ids(FinalizeAll(modules, f)) == Ids(f)
    decreases Count(f), 1
  {
    if f.Node? {
      var first := Finalize(modules, f);
      FinalizeKeepsOrder(modules, f);
      FinalizeAllKeepsOrder(modules, first.rest);
    }
  }

  lemma {:induction false} SubmenuKeepsOrder(modules: Sym, p: Item, f: Forest<Item>)
    requires p.sym.Some?
    ensures Ids(Submenu(modules, p, f).0) + Ids(Submenu(modules, p, f).1) == Ids(f)
    decreases Count(f), 1
  {
    if f.Empty? || !Belongs(p, f.data) {
      assert [] + Ids(f) == Ids(f);
    } else {
      var first := Finalize(modules, f);
      FinalizeKeepsOrder(modules, f);
      SubmenuKeepsOrder(modules, p, first.rest);
      var (taken, left) := Submenu(modules, p, first.rest);
      Regroup([first.data.id] + Ids(first.kids), Ids(taken), Ids(left));
    }
  }

  /** The entries menu_finalize is called on, in the order of the calls. */
  function Calls(modules: Sym, f: Forest<Item>): seq<nat>
    requires f.Node?
    decreases Count(f), 0
  {
    [f.data.id] +
    if f.kids.Node? then CallsAll(modules, InheritAll(modules, ParentDep(f.data), f.kids))
    else if f.data.sym.Some? then CallsSubmenu(modules, f.data, f.rest)
    else []
  }

  function CallsAll(modules: Sym, f: Forest<Item>): seq<nat>
    decreases Count(f), 1
  {
    if f.Empty? then [] else Calls(modules, f) + CallsAll(modules, Finalize(modules, f).rest)
  }

  function CallsSubmenu(modules: Sym, p: Item, f: Forest<Item>): seq<nat>
    requires p.sym.Some?
    decreases Count(f), 1
  {
    if f.Empty? || !Belongs(p, f.data) then []
    else Calls(modules, f) + CallsSubmenu(modules, p, Finalize(modules, f).rest)
  }

  lemma CallsTurn(modules: Sym, f: Forest<Item>, done: seq<nat>)
    ensures f.Node? ==> done + CallsAll(modules, f) == (done + Calls(modules, f)) + CallsAll(modules, Finalize(modules, f).rest)
    ensures f.Empty? ==> done + CallsAll(modules, f) == done
  {
    if f.Node? {
      Regroup(done, Calls(modules, f), CallsAll(modules, Finalize(modules, f).rest));
    }
  }

  lemma CallsSubmenuTurn(modules: Sym, p: Item, f: Forest<Item>, done: seq<nat>)
    requires p.sym.Some?
    ensures f.Node? && Belongs(p, f.data) ==>
              done + CallsSubmenu(modules, p, f)
              == (done + Calls(modules, f)) + CallsSubmenu(modules, p, Finalize(modules, f).rest)
    ensures f.Empty? || !Belongs(p, f.data) ==> done + CallsSubmenu(modules, p, f) == done
  {
    if f.Node? && Belongs(p, f.data) {
      Regroup(done, Calls(modules, f), CallsSubmenu(modules, p, Finalize(modules, f).rest));
    }
  }

  lemma CallsOf(modules: Sym, f: Forest<Item>)
    requires f.Node?
    ensures Calls(modules, f) ==
            [f.data.id] +
            if f.kids.Node? then CallsAll(modules, InheritAll(modules, ParentDep(f.data), f.kids))
            else if f.data.sym.Some? then CallsSubmenu(modules, f.data, f.rest)
            else []
  {
  }

  /** The calls are made in the order of the final tree ... */
  lemma {:induction false} CallsInOrder(modules: Sym, f: Forest<Item>)
    requires f.Node?
    ensures Calls(modules, f) == [f.data.id] + Ids(Finalize(modules, f).kids)
    decreases Count(f), 0
  {
    if f.kids.Node? {
      var kids := InheritAll(modules, ParentDep(f.data), f.kids);
      CallsAllInOrder(modules, kids);
      FlattenKeepsIds(FinalizeAll(modules, kids));
    } else if f.data.sym.Some? {
      CallsSubmenuInOrder(modules, f.data, f.rest);
      FlattenKeepsIds(Submenu(modules, f.data, f.rest).0);
    }
  }

  lemma {:induction false} CallsAllInOrder(modules: Sym, f: Forest<Item>)
    ensures CallsAll(modules, f) == Ids(FinalizeAll(modules, f))
    decreases Count(f), 1
  {
    if f.Node? {
      CallsInOrder(modules, f);
      CallsAllInOrder(modules, Finalize(modules, f).rest);
    }
  }

  lemma {:induction false} CallsSubmenuInOrder(modules: Sym, p: Item, f: Forest<Item>)
    requires p.sym.Some?
    ensures CallsSubmenu(modules, p, f) == Ids(Submenu(modules, p, f).0)
    decreases Count(f), 1
  {
    if f.Node? && Belongs(p, f.data) {
      CallsInOrder(modules, f);
      CallsSubmenuInOrder(modules, p, Finalize(modules, f).rest);
    }
  }

  /** ... so finalizing a whole tree calls menu_finalize on each entry exactly once, each
      before the entries below it. */
  lemma CallsOncePerEntry(modules: Sym, root: Item, kids: Forest<Item>)
    ensures Calls(modules, Node(root, kids, Empty)) == Ids(Node(root, kids, Empty))
  {
    var f := Node(root, kids, Empty);
    CallsInOrder(modules, f);
    FinalizeKeepsOrder(modules, f);
    var r := Finalize(modules, f);
    assert r.rest == Empty;
    assert Ids(r) == [root.id] + Ids(r.kids) + [];
  }

  // ----- What moves where -----

  /** All entries of the list itself belong below `p`. */
  predicate AllBelong(p: Item, f: Forest<Item>)
    requires p.sym.Some?
  {
    f.Node? ==> Belongs(p, f.data) && AllBelong(p, f.rest)
  }

  /** A submenu takes only entries that belong there, and goes on as long as they do. */
  lemma {:induction false} SubmenuMaximal(modules: Sym, p: Item, f: Forest<Item>)
    requires p.sym.Some?
    ensures var (taken, left) := Submenu(modules, p, f);
            AllBelong(p, taken) && (left.Node? ==> !Belongs(p, left.data))
    decreases Count(f)
  {
    hide Belongs, Finalize;
    if f.Node? && Belongs(p, f.data) {
      SubmenuMaximal(modules, p, Finalize(modules, f).rest);
    }
  }

  // ----- What moves where, in the entry's own fields -----

  /** The condition that decides on an entry, its prompt's if it has a prompt, is there and
      fulfils `test`. */
  ghost predicate Decided(m: Item, test: Expr -> bool) {
    if m.prompt.Some? then m.prompt.value.visible.Some? && test(m.prompt.value.visible.value)
    else m.dep.Some? && test(m.dep.value)
  }

  /** An entry is only taken below a symbol that occurs in its condition ... */
  lemma BelongsMentions(p: Item, m: Item)
    requires p.sym.Some? && Belongs(p, m)
    ensures Decided(m, e => Mentions(e, p.sym.value))
  {
    hide Contains, Depends, Superset, Mentions;
    ContainsMentions(Tested(m).value, p.sym.value);
  }

  /** ... is always taken if one operand of its condition needs the symbol ... */
  lemma BelongsIfNeeded(p: Item, m: Item)
    requires p.sym.Some? && Decided(m, e => exists l :: l in Leaves(And, e) && Needs(l, p.sym.value))
    ensures Belongs(p, m)
  {
    hide Contains, Depends, Superset, Needs, Leaves;
    var e := Tested(m).value;
    DependsExactly(e, p.sym.value);
    DependsContains(e, p.sym.value);
  }

  /** ... or adds to the condition of the symbol's own prompt, as far as that is compared
      without finding duplicates; ... */
  lemma BelongsIfMore(p: Item, m: Item, x: Expr, base: Expr)
    requires p.sym.Some? && p.prompt.Some? && p.prompt.value.visible == Some(base)
    requires Decided(m, e => e == Bin(And, x, base) && Mentions(e, p.sym.value))
    requires var more := AskedNotNo(Bin(And, x, base));
             Irreducible(more) && NoConstants(more)
    ensures Belongs(p, m)
  {
    hide Contains, Depends, Superset, Mentions, AskedNotNo, Irreducible, NoConstants;
    SupersetOfMore(x, base);
    ContainsMentions(Bin(And, x, base), p.sym.value);
  }

  /** ... and where the symbol has no condition to compare with, occurring is enough. */
  lemma BelongsUnconditioned(p: Item, m: Item)
    requires p.sym.Some? && (p.prompt.None? || p.prompt.value.visible.None?)
    ensures Belongs(p, m) <==> Decided(m, e => Mentions(e, p.sym.value))
  {
    hide Contains, Depends, Superset, Mentions;
    if Tested(m).Some? {
      ContainsMentions(Tested(m).value, p.sym.value);
      SupersetOfNothing(Tested(m).value);
    }
  }

  /** The symbol occurs in the condition of every entry of the list itself. */
  ghost predicate AllMention(sym: Sym, f: Forest<Item>) {
    f.Node? ==> Decided(f.data, e => Mentions(e, sym)) && AllMention(sym, f.rest)
  }

  /** A submenu stops before the first entry that does not mention the symbol, and never
      before one that needs it. */
  lemma {:induction false} SubmenuMentions(modules: Sym, p: Item, f: Forest<Item>)
    requires p.sym.Some?
    ensures var (taken, left) := Submenu(modules, p, f);
            && AllMention(p.sym.value, taken)
            && (left.Node? ==> !Decided(left.data, e => exists l :: l in Leaves(And, e) && Needs(l, p.sym.value)))
    decreases Count(f)
  {
    hide Belongs, Finalize, Decided, Mentions, Leaves, Needs;
    if f.Node? {
      if Belongs(p, f.data) {
        BelongsMentions(p, f.data);
        SubmenuMentions(modules, p, Finalize(modules, f).rest);
      } else if Decided(f.data, e => exists l :: l in Leaves(And, e) && Needs(l, p.sym.value)) {
        BelongsIfNeeded(p, f.data);
      }
    }
  }

  /** The entries of a list, each with the list below it. */
  function Level(f: Forest<Item>): seq<(Item, Forest<Item>)> {
    match f
    case Empty => []
    case Node(m, k, r) => [(m, k)] + Level(r)
  }

  /** The level that flattening makes of a list: an entry with a prompt text keeps its list,
      any other is followed by it, and so on down. */
  function Spread(f: Forest<Item>): seq<(Item, Forest<Item>)> {
    match f
    case Empty => []
    case Node(m, k, r) =>
      if m.prompt.Some? && m.prompt.value.text then [(m, k)] + Spread(r)
      else [(m, Empty)] + Spread(k) + Spread(r)
  }

  lemma {:induction false} SpreadAppend(a: Forest<Item>, b: Forest<Item>)
    ensures Spread(Append(a, b)) == Spread(a) + Spread(b)
  {
    match a {
      case Empty => assert [] + Spread(b) == Spread(b);
      case Node(m, k, r) =>
        SpreadAppend(r, b);
        if m.prompt.Some? && m.prompt.value.text {
          Regroup([(m, k)], Spread(r), Spread(b));
        } else {
          Regroup([(m, Empty)] + Spread(k), Spread(r), Spread(b));
        }
    }
  }

  /** The loop that moves lists up one step at a time makes that level. */
  lemma {:induction false} FlattenSpreads(f: Forest<Item>)
    ensures Level(FlattenAll(f)) == Spread(f)
    decreases Count(f)
  {
    match f {
      case Empty =>
      case Node(m, k, r) =>
        if k.Node? && Flat(m) {
          FlattenSpreads(Append(k, r));
          SpreadAppend(k, r);
          Regroup([(m, Empty)], Spread(k), Spread(r));
        } else {
          FlattenSpreads(r);
        }
    }
  }

  /** What menu_finalize does before it flattens: the list below the first entry, and the
      one after it. */
  function Gathered(modules: Sym, f: Forest<Item>): (Forest<Item>, Forest<Item>)
    requires f.Node?
  {
    if f.kids.Node? then (FinalizeAll(modules, InheritAll(modules, ParentDep(f.data), f.kids)), f.rest)
    else if f.data.sym.Some? then Submenu(modules, f.data, f.rest)
    else (Empty, f.rest)
  }

  /** The level below a finalized entry. */
  lemma FinalizeSpreads(modules: Sym, f: Forest<Item>)
    requires f.Node?
    ensures var (kids, rest) := Gathered(modules, f);
            && Level(Finalize(modules, f).kids) == Spread(kids)
            && Finalize(modules, f) == Node(f.data, FlattenAll(kids), rest)
  {
    hide Level, Spread;
    FlattenSpreads(Gathered(modules, f).0);
  }

  /** Every entry with entries below it has a prompt with a text, at any depth. */
  predicate Flattened(f: Forest<Item>) {
    f.Node? ==>
      && (f.kids.Node? ==> f.data.prompt.Some? && f.data.prompt.value.text)
      && Flattened(f.kids) && Flattened(f.rest)
  }

  predicate FlattenedBelow(f: Forest<Item>) {
    f.Node? ==> Flattened(f.kids) && FlattenedBelow(f.rest)
  }

  lemma {:induction false} FlattenedAppend(a: Forest<Item>, b: Forest<Item>)
    requires Flattened(a) && FlattenedBelow(b)
    ensures FlattenedBelow(Append(a, b))
  {
    if a.Node? { FlattenedAppend(a.rest, b); }
  }

  lemma {:induction false} FlattenAllFlattens(f: Forest<Item>)
    requires FlattenedBelow(f)
    ensures Flattened(FlattenAll(f))
    decreases Count(f)
  {
    match f {
      case Empty =>
      case Node(m, k, r) =>
        if k.Node? && Flat(m) {
          FlattenedAppend(k, r);
          FlattenAllFlattens(Append(k, r));
        } else {
          FlattenAllFlattens(r);
        }
    }
  }

  /** Everything below a finalized entry is flattened. */
  lemma {:induction false} FinalizeFlattens(modules: Sym, f: Forest<Item>)
    requires f.Node?
    ensures Flattened(Finalize(modules, f).kids)
    decreases Count(f), 0
  {
    if f.kids.Node? {
      var kids := InheritAll(modules, ParentDep(f.data), f.kids);
      FinalizeAllFlattens(modules, kids);
      FlattenAllFlattens(FinalizeAll(modules, kids));
    } else if f.data.sym.Some? {
      SubmenuFlattens(modules, f.data, f.rest);
      FlattenAllFlattens(Submenu(modules, f.data, f.rest).0);
    }
  }

  lemma {:induction false} FinalizeAllFlattens(modules: Sym, f: Forest<Item>)
    ensures FlattenedBelow(FinalizeAll(modules, f))
    decreases Count(f), 1
  {
    if f.Node? {
      FinalizeFlattens(modules, f);
      FinalizeAllFlattens(modules, Finalize(modules, f).rest);
    }
  }

  lemma {:induction false} SubmenuFlattens(modules: Sym, p: Item, f: Forest<Item>)
    requires p.sym.Some?
    ensures FlattenedBelow(Submenu(modules, p, f).0)
    decreases Count(f), 1
  {
    if f.Node? && Belongs(p, f.data) {
      FinalizeFlattens(modules, f);
      SubmenuFlattens(modules, p, Finalize(modules, f).rest);
    }
  }

  // ----- What the tree means -----

  predicate ItemApart(v: Valuation, m: Item) {
    ApartOpt(v, m.dep) && (m.prompt.Some? ==> ApartOpt(v, m.prompt.value.visible))
  }

  lemma SimplifySound(v: Valuation, modules: Sym, e: Option<Expr>)
    requires Sound(v) && ApartOpt(v, e)
    ensures ApartOpt(v, Simplify(modules, e)) && ValueOpt(v, Simplify(modules, e)) == Limited(v, modules, e)
  {
    hide Sound, Apart, Transform, RewriteM;
    if e.Some? {
      RewriteMSound(v, modules, e.value);
      RewriteMApart(v, modules, e.value);
      TransformSound(v, RewriteM(modules, e.value));
      TransformApart(v, RewriteM(modules, e.value));
    }
  }

  lemma AllocAndValue(v: Valuation, a: Option<Expr>, b: Option<Expr>)
    ensures ValueOpt(v, AllocAnd(a, b)) == Min(ValueOpt(v, a), ValueOpt(v, b))
    ensures ApartOpt(v, a) && ApartOpt(v, b) ==> ApartOpt(v, AllocAnd(a, b))
  {
    hide Order;
  }

  function Limited(v: Valuation, modules: Sym, e: Option<Expr>): Tristate {
    if e.None? then YES else ValueLimited(v, Min(MOD, v.tri(modules)), e.value)
  }

  /** A condition passed on: the minimum of what is above and its own, with `m` limited by
      MODULES. */
  lemma UnderSound(v: Valuation, modules: Sym, above: Option<Expr>, e: Option<Expr>)
    requires Sound(v) && ApartOpt(v, above) && ApartOpt(v, e)
    ensures ValueOpt(v, Under(modules, above, e)) == Min(ValueOpt(v, above), Limited(v, modules, e))
    ensures ApartOpt(v, Under(modules, above, e))
  {
    hide Sound, Apart, EliminateDups;
    SimplifySound(v, modules, e);
    AllocAndValue(v, above, Simplify(modules, e));
    var both := AllocAnd(above, Simplify(modules, e));
    if both.Some? {
      EliminateDupsSound(v, both.value);
    }
  }

  function DroppedOpt(v: Valuation, e: Option<Expr>): Tristate {
    if e.None? then YES else ValueDropped(v, e.value)
  }

  /** What an entry ends up with: its own conditions, with `m` limited by MODULES, and those
      of the entry above; and a prompt is only visible where the entry is available. For the
      prompt of a symbol that is not tristate, A!=n is read as A besides. */
  lemma InheritMeaning(v: Valuation, modules: Sym, above: Option<Expr>, m: Item)
    requires Sound(v) && ApartOpt(v, above) && ItemApart(v, m)
    ensures var r := Inherit(modules, above, m);
            var available := Min(ValueOpt(v, above), Limited(v, modules, m.dep));
            && ItemApart(v, r)
            && ValueOpt(v, r.dep) == available && r.id == m.id && r.sym == m.sym && r.choice == m.choice
            && (r.prompt.Some? <==> m.prompt.Some?)
            && (m.prompt.Some? ==>
                  var visible := Under(modules, r.dep, m.prompt.value.visible);
                  && ValueOpt(v, visible) == Min(available, Limited(v, modules, m.prompt.value.visible))
                  && (m.sym.None? || m.sym.value.Type() == Tri || visible.None? || !DropsAt(v, visible.value)
                      ==> ValueOpt(v, r.prompt.value.visible) == ValueOpt(v, visible))
                  && (m.sym.Some? && m.sym.value.Type() != Tri
                      ==> ValueOpt(v, r.prompt.value.visible) == DroppedOpt(v, visible)))
  {
    hide Under, TransBool, Apart, Sound;
    UnderSound(v, modules, above, m.dep);
    var r := Inherit(modules, above, m);
    if m.prompt.Some? {
      UnderSound(v, modules, r.dep, m.prompt.value.visible);
      var visible := Under(modules, r.dep, m.prompt.value.visible);
      if visible.Some? {
        TransBoolApart(v, visible.value);
        TransBoolMeaning(v, visible.value);
        if !DropsAt(v, visible.value) {
          TransBoolSound(v, visible.value);
        }
      }
    }
  }

  /** Every entry of `f`, at any depth, is at most `bound`. */
  predicate AllBelow(v: Valuation, bound: Tristate, f: Forest<Item>) {
    match f
    case Empty => true
    case Node(m, k, r) => ValueOpt(v, m.dep) <= bound && AllBelow(v, bound, k) && AllBelow(v, bound, r)
  }

  /** The entries of `f` themselves are. */
  predicate TopBelow(v: Valuation, bound: Tristate, f: Forest<Item>) {
    match f
    case Empty => true
    case Node(m, _, r) => ValueOpt(v, m.dep) <= bound && TopBelow(v, bound, r)
  }

  /** What is asked of every entry, at any depth: no tristate equals a constant it is tested
      against, and a choice that is set is available: its symbol is no higher than `bound`. */
  predicate Fit(v: Valuation, bound: Tristate, f: Forest<Item>) {
    match f
    case Empty => true
    case Node(m, k, r) =>
      && ItemApart(v, m) && (m.choice && m.sym.Some? ==> v.tri(m.sym.value) <= bound)
      && Fit(v, bound, k) && Fit(v, bound, r)
  }

  lemma {:induction false} InheritBelow(v: Valuation, modules: Sym, above: Option<Expr>, b: Tristate, f: Forest<Item>)
    requires Sound(v) && ApartOpt(v, above) && Fit(v, b, f)
    ensures TopBelow(v, ValueOpt(v, above), InheritAll(modules, above, f))
    ensures Fit(v, b, InheritAll(modules, above, f))
  {
    hide Sound, ApartOpt, ItemApart, Inherit, Under;
    if f.Node? {
      InheritMeaning(v, modules, above, f.data);
      InheritBelow(v, modules, above, b, f.rest);
    }
  }

  lemma {:induction false} BelowAppend(v: Valuation, b: Tristate, x: Forest<Item>, y: Forest<Item>)
    ensures AllBelow(v, b, Append(x, y)) <==> AllBelow(v, b, x) && AllBelow(v, b, y)
    ensures Fit(v, b, Append(x, y)) <==> Fit(v, b, x) && Fit(v, b, y)
  {
    if x.Node? { BelowAppend(v, b, x.rest, y); }
  }

  lemma {:induction false} FlattenBelow(v: Valuation, b: Tristate, f: Forest<Item>)
    ensures AllBelow(v, b, FlattenAll(f)) == AllBelow(v, b, f)
    ensures Fit(v, b, FlattenAll(f)) == Fit(v, b, f)
    decreases Count(f)
  {
    hide ItemApart;
    match f {
      case Empty =>
      case Node(m, k, r) =>
        if k.Node? && Flat(m) {
          FlattenBelow(v, b, Append(k, r));
          BelowAppend(v, b, k, r);
        } else {
          FlattenBelow(v, b, r);
        }
    }
  }

  lemma {:induction false} TopBelowWeaken(v: Valuation, a: Tristate, b: Tristate, f: Forest<Item>)
    requires a <= b && TopBelow(v, a, f)
    ensures TopBelow(v, b, f)
  {
    if f.Node? { TopBelowWeaken(v, a, b, f.rest); }
  }

  lemma ParentApart(v: Valuation, m: Item)
    requires ItemApart(v, m)
    ensures ApartOpt(v, ParentDep(m))
  {
  }

  /** menu_finalize on the first of some entries that are all at most `b`: so is everything
      that ends up below it, and the entries that stay behind it are as before. */
  lemma {:induction false} FinalizeBelow(v: Valuation, modules: Sym, b: Tristate, f: Forest<Item>)
    requires Sound(v) && f.Node? && TopBelow(v, b, f) && Fit(v, b, f)
    ensures var r := Finalize(modules, f);
            AllBelow(v, b, r.kids) && Fit(v, b, r.kids) && TopBelow(v, b, r.rest) && Fit(v, b, r.rest)
    decreases Count(f), 0
  {
    hide Sound, ItemApart, ApartOpt;
    if f.kids.Node? {
      var above := ParentDep(f.data);
      var kids := InheritAll(modules, above, f.kids);
      ParentApart(v, f.data);
      InheritBelow(v, modules, above, b, f.kids);
      TopBelowWeaken(v, ValueOpt(v, above), b, kids);
      FinalizeAllBelow(v, modules, b, kids);
      FlattenBelow(v, b, FinalizeAll(modules, kids));
    } else if f.data.sym.Some? {
      SubmenuBelow(v, modules, b, f.data, f.rest);
      FlattenBelow(v, b, Submenu(modules, f.data, f.rest).0);
    }
  }

  lemma {:induction false} FinalizeAllBelow(v: Valuation, modules: Sym, b: Tristate, f: Forest<Item>)
    requires Sound(v) && TopBelow(v, b, f) && Fit(v, b, f)
    ensures AllBelow(v, b, FinalizeAll(modules, f)) && Fit(v, b, FinalizeAll(modules, f))
    decreases Count(f), 1
  {
    hide Sound, ItemApart, Finalize;
    if f.Node? {
      FinalizeBelow(v, modules, b, f);
      FinalizeAllBelow(v, modules, b, Finalize(modules, f).rest);
    }
  }

  lemma {:induction false} SubmenuBelow(v: Valuation, modules: Sym, b: Tristate, p: Item, f: Forest<Item>)
    requires Sound(v) && p.sym.Some? && TopBelow(v, b, f) && Fit(v, b, f)
    ensures var (taken, left) := Submenu(modules, p, f);
            AllBelow(v, b, taken) && Fit(v, b, taken) && TopBelow(v, b, left) && Fit(v, b, left)
    decreases Count(f), 1
  {
    hide Sound, ItemApart, Finalize, Belongs;
    if f.Node? && Belongs(p, f.data) {
      FinalizeBelow(v, modules, b, f);
      SubmenuBelow(v, modules, b, p, Finalize(modules, f).rest);
    }
  }

  /** The whole tree: whatever ends up below an entry with a list is available at most as
      far as that entry is. */
  lemma FinalizedInherits(v: Valuation, modules: Sym, root: Item, kids: Forest<Item>)
    requires Sound(v) && kids.Node? && ItemApart(v, root)
    requires Fit(v, ValueOpt(v, ParentDep(root)), kids)
    ensures AllBelow(v, ValueOpt(v, ParentDep(root)), Finalize(modules, Node(root, kids, Empty)).kids)
  {
    hide Sound, ItemApart, ApartOpt, Fit, AllBelow, TopBelow, InheritAll, FinalizeAll, FlattenAll;
    var above, f := ParentDep(root), Node(root, kids, Empty);
    var b := ValueOpt(v, above);
    var list := InheritAll(modules, above, kids);
    ParentApart(v, root);
    InheritBelow(v, modules, above, b, kids);
    FinalizeAllBelow(v, modules, b, list);
    FlattenBelow(v, b, FinalizeAll(modules, list));
  }

  /** Automatic submenus are sound: an entry taken below symbol entry `p` is not available
      where the symbol is n and its prompt is hidden. */
  lemma BelongsSound(v: Valuation, p: Item, m: Item)
    requires Sound(v) && p.sym.Some? && p.sym.value.Logical() && Belongs(p, m)
    requires ItemApart(v, p) && ItemApart(v, m)
    requires LogicalOperandsOpt(Tested(m)) && NoNegatedModOpt(v, Tested(m))
    requires LogicalOperandsOpt(TestedAgainst(p)) && NoNegatedModOpt(v, TestedAgainst(p))
    ensures ValueOpt(v, Tested(m)) != NO ==> v.tri(p.sym.value) != NO || ValueOpt(v, TestedAgainst(p)) != NO
  {
    hide Sound, Apart, Superset, Depends, Contains;
    var dep, base := Tested(m), TestedAgainst(p);
    if Depends(dep.value, p.sym.value) {
      if v.tri(p.sym.value) == NO {
        DependsSound(v, dep.value, p.sym.value);
      }
    } else {
      SupersetSound(v, dep.value, base);
    }
  }

  /** What menu_finalize looks at negates only these symbols, and has no operand that is
      neither boolean nor tristate. */
  predicate TestedOver(p: Item, m: Item, syms: set<Sym>) {
    && LogicalOperandsOpt(Tested(m)) && NegatesOpt(Tested(m), syms)
    && LogicalOperandsOpt(TestedAgainst(p)) && NegatesOpt(TestedAgainst(p), syms)
  }

  /** An entry taken below `p` is unavailable where it should be. */
  predicate Rightly(v: Valuation, p: Item, m: Item)
    requires p.sym.Some?
  {
    ValueOpt(v, Tested(m)) != NO ==> v.tri(p.sym.value) != NO || ValueOpt(v, TestedAgainst(p)) != NO
  }

  /** A symbol C with the prompt condition A=n, and an entry that needs !A && (C || Q): the
      entry is taken below C, and is m where A is m, C is n and Q is y. */
  lemma BelongsCounterexample(a: Sym, c: Sym, q: Sym, syms: set<Sym>) returns (v: Valuation, p: Item, m: Item)
    requires CanMislead(a, c, q) && a in syms
    ensures Sound(v) && p.sym == Some(c) && Belongs(p, m) && ItemApart(v, p) && ItemApart(v, m) && TestedOver(p, m, syms)
    ensures !Rightly(v, p, m)
  {
    hide Sound, Superset, Apart, Contains, Depends, LogicalOperands, Negates, Entry, Prompted;
    v := SupersetCounterexample(a, c, q);
    p := Item(0, Some(c), false, None, Some(Prompt(true, Some(Prompted(a)))));
    m := Item(1, None, false, Some(Entry(a, c, q)), None);
  }

  /** Automatic submenus are sound for all entries whose conditions negate these symbols
      only, under all valuations, if and only if none of the symbols can be m. */
  lemma BelongsExact(syms: set<Sym>)
    ensures (forall v, p: Item, m ::
               (Sound(v) && p.sym.Some? && p.sym.value.Logical() && Belongs(p, m)
                && ItemApart(v, p) && ItemApart(v, m) && TestedOver(p, m, syms))
               ==> Rightly(v, p, m))
            <==> NeverMod(syms)
  {
    hide Sound, Belongs, Apart, ItemApart, LogicalOperands, Negates;
    if NeverMod(syms) {
      forall v, p: Item, m | Sound(v) && p.sym.Some? && p.sym.value.Logical() && Belongs(p, m)
          && ItemApart(v, p) && ItemApart(v, m) && TestedOver(p, m, syms)
        ensures Rightly(v, p, m)
      {
        if Tested(m).Some? { NegatesNoMod(v, Tested(m).value, false, syms); }
        if TestedAgainst(p).Some? { NegatesNoMod(v, TestedAgainst(p).value, false, syms); }
        BelongsSound(v, p, m);
      }
    } else {
      var a :| a in syms && (a.Type() == Tri || a == Mod);
      var c, q := Others(a);
      var v, p, m := BelongsCounterexample(a, c, q, syms);
      assert !Rightly(v, p, m);
    }
  }

  /** The assumptions of this section can be met: a tristate that is tested against y, m, n
      and text only, in a tree with a choice and an automatic submenu. */
  lemma FitIsMet(a: Sym, x: Tristate) returns (v: Valuation, root: Item, kids: Forest<Item>)
    requires a.Type() == Tri
    ensures Sound(v) && v.tri(a) == x && ItemApart(v, root) && Fit(v, ValueOpt(v, ParentDep(root)), kids)
    ensures kids.Node? && kids.data.choice && kids.rest.Node? && kids.rest.data.sym == Some(a)
    ensures kids.rest.rest.Node? && Belongs(kids.rest.data, kids.rest.rest.data)
  {
    v := SoundExists(a, x, a, x);
    var text := Constant("text");
    assert ReadsAs(text) == None;
    CompareWithConstant(v, a, text);
    var dep := Compare(Ne, a, text);
    var on := Compare(Ne, a, No);
    root := Item(0, None, false, Some(dep), None);
    var choice := Item(1, Some(a), true, Some(dep), None);
    var entry, below := Item(2, Some(a), false, Some(dep), None), Item(3, None, false, Some(on), None);
    kids := Node(choice, Empty, Node(entry, Empty, Node(below, Empty, Empty)));
    assert Apart(v, dep) && Apart(v, on);
    assert Value(v, dep) == YES;
    assert Fit(v, YES, Node(below, Empty, Empty));
    assert Fit(v, YES, Node(entry, Empty, Node(below, Empty, Empty)));
  }
}
