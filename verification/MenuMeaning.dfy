/** What menu_finalize makes of the conditions in the whole tree: however entries are moved,
    each ends up available, and its prompt shown, as its place in the original tree says. */
module MenuMeaning {
  import opened Expr
  import opened ExprTransform
  import opened Menu

  /** An entry: where it is available and, unless its symbol is of another type than tristate,
      where its prompt is shown. */
  datatype Meaning = Meaning(id: nat, available: Tristate, shown: Option<Tristate>)

  predicate HasPlainPrompt(m: Item) {
    m.prompt.Some? && (m.sym.None? || m.sym.value.Type() == Tri)
  }

  function MeaningOf(v: Valuation, m: Item): Meaning {
    Meaning(m.id, ValueOpt(v, m.dep), if HasPlainPrompt(m) then Some(ValueOpt(v, m.prompt.value.visible)) else None)
  }

  /** The entries of a tree in order. */
  function Meanings(v: Valuation, f: Forest<Item>): seq<Meaning> {
    match f
    case Empty => []
    case Node(m, k, r) => [MeaningOf(v, m)] + Meanings(v, k) + Meanings(v, r)
  }

  /** What an entry passes on: a choice the value of its symbol, any other its own. */
  function Passed(v: Valuation, m: Item, available: Tristate): Tristate {
    if m.choice && m.sym.Some? then v.tri(m.sym.value) else available
  }

  /** What the Kconfig files say: an entry is available as far as its dependencies and what is
      above it are, and its prompt shown as far as its condition and the entry are. */
  function Intended(v: Valuation, modules: Sym, above: Tristate, f: Forest<Item>): seq<Meaning>
    decreases f
  {
    match f
    case Empty => []
    case Node(m, k, r) =>
      var available := Min(above, Limited(v, modules, m.dep));
      var shown := if HasPlainPrompt(m) then Some(Min(available, Limited(v, modules, m.prompt.value.visible))) else None;
      [Meaning(m.id, available, shown)]
      + Intended(v, modules, Passed(v, m, available), k) + Intended(v, modules, above, r)
  }

  /** A list to which conditions have been passed on, but not below its entries. */
  function Halfway(v: Valuation, modules: Sym, f: Forest<Item>): seq<Meaning> {
    match f
    case Empty => []
    case Node(m, k, r) =>
      [MeaningOf(v, m)] + Intended(v, modules, Passed(v, m, ValueOpt(v, m.dep)), k) + Halfway(v, modules, r)
  }

  // ----- Moving entries -----

  lemma {:induction false} MeaningsAppend(v: Valuation, a: Forest<Item>, b: Forest<Item>)
    ensures Meanings(v, Append(a, b)) == Meanings(v, a) + Meanings(v, b)
  {
    if a.Node? {
      MeaningsAppend(v, a.rest, b);
      Regroup([MeaningOf(v, a.data)] + Meanings(v, a.kids), Meanings(v, a.rest), Meanings(v, b));
    } else {
      assert [] + Meanings(v, b) == Meanings(v, b);
    }
  }

  lemma {:induction false} FlattenMeans(v: Valuation, f: Forest<Item>)
    ensures Meanings(v, FlattenAll(f)) == Meanings(v, f)
    decreases Count(f)
  {
    hide MeaningOf;
    match f {
      case Empty =>
      case Node(m, k, r) =>
        if k.Node? && Flat(m) {
          FlattenMeans(v, Append(k, r));
          MeaningsAppend(v, k, r);
          Regroup([MeaningOf(v, m)], Meanings(v, k), Meanings(v, r));
          assert [MeaningOf(v, m)] + [] == [MeaningOf(v, m)];
        } else {
          FlattenMeans(v, r);
        }
    }
  }

  // ----- Passing conditions on -----

  lemma InheritedMeaning(v: Valuation, modules: Sym, above: Option<Expr>, m: Item)
    requires Sound(v) && ApartOpt(v, above) && ItemApart(v, m)
    ensures var available := Min(ValueOpt(v, above), Limited(v, modules, m.dep));
            var r := Inherit(modules, above, m);
            && MeaningOf(v, r) == Meaning(m.id, available, if HasPlainPrompt(m) then
                                            Some(Min(available, Limited(v, modules, m.prompt.value.visible))) else None)
            && ValueOpt(v, r.dep) == available && Passed(v, r, available) == Passed(v, m, available)
  {
    hide Sound, ApartOpt, ItemApart, Under, Limited, ValueOpt;
    InheritMeaning(v, modules, above, m);
  }

  lemma {:induction false} InheritAllMeans(v: Valuation, modules: Sym, above: Option<Expr>, f: Forest<Item>)
    requires Sound(v) && ApartOpt(v, above) && Fit(v, YES, f)
    ensures Halfway(v, modules, InheritAll(modules, above, f)) == Intended(v, modules, ValueOpt(v, above), f)
  {
    hide Sound, ApartOpt, ItemApart, Inherit, MeaningOf, HasPlainPrompt, Passed;
    if f.Node? {
      InheritedMeaning(v, modules, above, f.data);
      InheritAllMeans(v, modules, above, f.rest);
    }
  }

  lemma {:induction false} TopBelowYes(v: Valuation, f: Forest<Item>)
    ensures TopBelow(v, YES, f)
  {
    if f.Node? { TopBelowYes(v, f.rest); }
  }

  lemma ParentPasses(v: Valuation, m: Item)
    ensures ValueOpt(v, ParentDep(m)) == Passed(v, m, ValueOpt(v, m.dep))
  {
  }

  /** The conditions and their values are there for each list that is started on. */
  lemma StartedOn(v: Valuation, modules: Sym, f: Forest<Item>)
    requires Sound(v) && f.Node? && Fit(v, YES, f)
    ensures Fit(v, YES, InheritAll(modules, ParentDep(f.data), f.kids))
    ensures Halfway(v, modules, InheritAll(modules, ParentDep(f.data), f.kids))
            == Intended(v, modules, Passed(v, f.data, ValueOpt(v, f.data.dep)), f.kids)
    ensures Fit(v, YES, Finalize(modules, f).rest)
  {
    hide Sound, ApartOpt, ItemApart, Finalize, InheritAll, Halfway, Intended, ParentDep, Passed;
    ParentApart(v, f.data);
    ParentPasses(v, f.data);
    InheritBelow(v, modules, ParentDep(f.data), YES, f.kids);
    InheritAllMeans(v, modules, ParentDep(f.data), f.kids);
    TopBelowYes(v, f);
    FinalizeBelow(v, modules, YES, f);
  }

  // ----- menu_finalize -----

  lemma {:induction false} FinalizeMeans(v: Valuation, modules: Sym, f: Forest<Item>)
    requires Sound(v) && f.Node? && Fit(v, YES, f)
    ensures var r := Finalize(modules, f);
            [MeaningOf(v, f.data)] + Meanings(v, r.kids) + Halfway(v, modules, r.rest) == Halfway(v, modules, f)
    decreases Count(f), 0
  {
    hide Sound, ItemApart, MeaningOf, Passed, ParentDep, Belongs;
    if f.kids.Node? {
      var kids := InheritAll(modules, ParentDep(f.data), f.kids);
      StartedOn(v, modules, f);
      FinalizeAllMeans(v, modules, kids);
      FlattenMeans(v, FinalizeAll(modules, kids));
    } else if f.data.sym.Some? {
      var (taken, left) := Submenu(modules, f.data, f.rest);
      SubmenuMeans(v, modules, f.data, f.rest);
      FlattenMeans(v, taken);
      Regroup([MeaningOf(v, f.data)], Meanings(v, taken), Halfway(v, modules, left));
      assert [MeaningOf(v, f.data)] + [] == [MeaningOf(v, f.data)];
    }
  }

  lemma {:induction false} FinalizeAllMeans(v: Valuation, modules: Sym, f: Forest<Item>)
    requires Sound(v) && Fit(v, YES, f)
    ensures Meanings(v, FinalizeAll(modules, f)) == Halfway(v, modules, f)
    decreases Count(f), 1
  {
    hide Sound, ItemApart, MeaningOf, Finalize;
    if f.Node? {
      StartedOn(v, modules, f);
      FinalizeMeans(v, modules, f);
      FinalizeAllMeans(v, modules, Finalize(modules, f).rest);
    }
  }

  lemma {:induction false} SubmenuMeans(v: Valuation, modules: Sym, p: Item, f: Forest<Item>)
    requires Sound(v) && p.sym.Some? && Fit(v, YES, f)
    ensures var (taken, left) := Submenu(modules, p, f);
            Meanings(v, taken) + Halfway(v, modules, left) == Halfway(v, modules, f)
    decreases Count(f), 1
  {
    hide Sound, ItemApart, MeaningOf, Finalize, Belongs;
    if f.Empty? || !Belongs(p, f.data) {
      assert [] + Halfway(v, modules, f) == Halfway(v, modules, f);
    } else {
      var first := Finalize(modules, f);
      StartedOn(v, modules, f);
      FinalizeMeans(v, modules, f);
      SubmenuMeans(v, modules, p, first.rest);
      var (taken, left) := Submenu(modules, p, first.rest);
      Regroup([MeaningOf(v, first.data)] + Meanings(v, first.kids), Meanings(v, taken), Halfway(v, modules, left));
    }
  }

  /** The whole tree: every entry below the root, in order, means what it did. */
  lemma FinalizeKeepsMeaning(v: Valuation, modules: Sym, root: Item, kids: Forest<Item>)
    requires Sound(v) && ItemApart(v, root) && Fit(v, YES, kids)
    ensures Meanings(v, Finalize(modules, Node(root, kids, Empty)).kids)
            == Intended(v, modules, Passed(v, root, ValueOpt(v, root.dep)), kids)
  {
    hide Sound, ItemApart, MeaningOf, Passed, ParentDep, ValueOpt, Halfway, Intended, Meanings, FinalizeAll;
    var f := Node(root, kids, Empty);
    if kids.Node? {
      FitRoot(v, root, kids);
      StartedOn(v, modules, f);
      var list := InheritAll(modules, ParentDep(root), kids);
      FinalizeAllMeans(v, modules, list);
      FlattenMeans(v, FinalizeAll(modules, list));
    } else {
      NothingMeant(v, modules, Passed(v, root, ValueOpt(v, root.dep)));
      assert FlattenAll(Empty) == Empty;
    }
  }

  lemma FitRoot(v: Valuation, root: Item, kids: Forest<Item>)
    requires ItemApart(v, root) && Fit(v, YES, kids)
    ensures Fit(v, YES, Node(root, kids, Empty))
  {
  }

  lemma NothingMeant(v: Valuation, modules: Sym, above: Tristate)
    ensures Meanings(v, Empty) == [] == Intended(v, modules, above, Empty)
  {
  }
}
