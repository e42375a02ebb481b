/**
 CppGenerator.BuildEmitOrder: a depth-first emit order of types and unions that puts a declaration
 after the ones it refers to and breaks cycles at the declaration already being visited.
 */
module EmitOrder {
  import opened Basics
  import opened Graph

  /** A packable type with the types each member refers to, or a union with its alternatives. */
  datatype PackableType = PackableType(name: string, members: seq<seq<string>>)

  datatype UnionDef = UnionDef(name: string, alternatives: seq<string>)

  /** What emitOrder holds. */
  datatype Declaration = TypeDecl(packable: PackableType) | UnionDecl(union: UnionDef)
  {
    function Name(): (n: string) { if TypeDecl? then packable.name else union.name }
  }

  function Names(ds: seq<Declaration>): (ns: seq<string>)
    ensures |ns| == |ds| && forall i | 0 <= i < |ds| :: ns[i] == ds[i].Name()
  {
    if ds == [] then [] else [ds[0].Name()] + Names(ds[1..])
  }

  lemma {:induction false} NamesSnoc(ds: seq<Declaration>, d: Declaration)
    ensures Names(ds + [d]) == Names(ds) + [d.Name()]
  {
    if ds != [] {
      assert (ds + [d])[1..] == ds[1..] + [d];
      NamesSnoc(ds[1..], d);
    }
  }

  function TypeNames(ts: seq<PackableType>): (ns: seq<string>)
  {
    if ts == [] then [] else [ts[0].name] + TypeNames(ts[1..])
  }

  function UnionNames(us: seq<UnionDef>): (ns: seq<string>)
  {
    if us == [] then [] else [us[0].name] + UnionNames(us[1..])
  }

  /** Enumerable.ToDictionary, keyed by name. */
  function TypesByName(ts: seq<PackableType>): (m: map<string, PackableType>)
    ensures m.Keys == Elements(TypeNames(ts))
    ensures forall n :: n in m ==> m[n] in ts && m[n].name == n
  {
    if ts == [] then map[] else TypesByName(ts[1..])[ts[0].name := ts[0]]
  }

  function UnionsByName(us: seq<UnionDef>): (m: map<string, UnionDef>)
    ensures m.Keys == Elements(UnionNames(us))
    ensures forall n :: n in m ==> m[n] in us && m[n].name == n
  {
    if us == [] then map[] else UnionsByName(us[1..])[us[0].name := us[0]]
  }

  lemma {:induction false} TypeFound(ts: seq<PackableType>, t: PackableType)
    requires Unique(TypeNames(ts)) && t in ts
    ensures t.name in TypesByName(ts) && TypesByName(ts)[t.name] == t
  {
    UniqueTail(TypeNames(ts));
    if t != ts[0] {
      TypeFound(ts[1..], t);
      assert t.name in TypeNames(ts[1..]);
    }
  }

  lemma {:induction false} UnionFound(us: seq<UnionDef>, u: UnionDef)
    requires Unique(UnionNames(us)) && u in us
    ensures u.name in UnionsByName(us) && UnionsByName(us)[u.name] == u
  {
    UniqueTail(UnionNames(us));
    if u != us[0] {
      UnionFound(us[1..], u);
      assert u.name in UnionNames(us[1..]);
    }
  }

  lemma UniqueTail(s: seq<string>)
    requires Unique(s) && s != []
    ensures Unique(s[1..]) && s[0] !in s[1..]
  {
  }

  /** The references of a declaration; a type hides a union of the same name. */
  function ReferenceGraph(types: map<string, PackableType>, unions: map<string, UnionDef>): (g: graph)
    ensures g.Keys == types.Keys + unions.Keys
  {
    map n | n in types.Keys + unions.Keys ::
      if n in types then Elements(Flatten(types[n].members)) else Elements(unions[n].alternatives)
  }

  /** Enumerable.Distinct: first occurrences, in order. */
  function Distinct(s: seq<string>): (d: seq<string>)
    ensures forall x :: x in d <==> x in s
    ensures Unique(d)
  {
    if s == [] then []
    else
      var init, x := Distinct(s[..|s| - 1]), s[|s| - 1];
      assert s == s[..|s| - 1] + [x];
      if x in init then init else init + [x]
  }

  function Elements(s: seq<string>): (e: set<string>)
  {
    set x | x in s
  }

  /** `order` lists what `a` refers to before `a`, except along a cycle through `a`. */
  ghost predicate Ordered(g: graph, order: seq<string>)
  {
    forall i, b :: 0 <= i < |order| && b in Successors(g, order[i]) && b in g && b != order[i]
                   ==> b in order[..i] || Reaches(g, b, order[i])
  }

  lemma UniqueSnoc(order: seq<string>, name: string)
    requires Unique(order) && name !in order
    ensures Unique(order + [name]) && Elements(order + [name]) == Elements(order) + {name}
  {
  }

  lemma OrderedSnoc(g: graph, order: seq<string>, name: string)
    requires Ordered(g, order)
    requires forall d :: d in Successors(g, name) && d in g && d != name ==> d in order || Reaches(g, d, name)
    ensures Ordered(g, order + [name])
  {
    var after := order + [name];
    forall i, b | 0 <= i < |after| && b in Successors(g, after[i]) && b in g && b != after[i]
      ensures b in after[..i] || Reaches(g, b, after[i])
    {
      if i < |order| {
        assert after[..i] == order[..i] && after[i] == order[i];
      } else {
        assert after[..i] == order;
      }
    }
  }

  // -- The order of what is independent -----------------------------------------------------------

  /** Where `x` is first listed; the length of the list if it is not. */
  function Position(order: seq<string>, x: string): (p: nat)
    ensures p <= |order| && (p < |order| <==> x in order)
  {
    if order == [] || order[0] == x then 0 else 1 + Position(order[1..], x)
  }

  lemma {:induction false} PositionExtends(order: seq<string>, after: seq<string>, x: string)
    requires order <= after
    ensures Position(after, x) >= Position(order, x)
    ensures x in order ==> Position(after, x) == Position(order, x)
    decreases |order|
  {
    if order != [] && order[0] != x {
      PositionExtends(order[1..], after[1..], x);
    }
  }

  /** Visiting `x` lists it, and nothing but what it leads to. */
  ghost predicate Stage(g: graph, before: seq<string>, after: seq<string>, x: string)
  {
    before <= after && x in after && forall n | n in after :: n in before || Reaches(g, x, n)
  }

  /** The lists before the first and after each of the visits. */
  ghost predicate Stages(g: graph, lists: seq<seq<string>>, names: seq<string>)
  {
    |lists| == |names| + 1 && forall k | 0 <= k < |names| :: Stage(g, lists[k], lists[k + 1], names[k])
  }

  lemma StagesSnoc(g: graph, lists: seq<seq<string>>, names: seq<string>, after: seq<string>, x: string)
    requires Stages(g, lists, names) && Stage(g, lists[|names|], after, x)
    ensures Stages(g, lists + [after], names + [x])
  {
  }

  lemma TakeOneMore(past: seq<string>, names: seq<string>, i: nat)
    requires i < |names|
    ensures past + names[..i + 1] == past + names[..i] + [names[i]]
  {
  }

  lemma {:induction false} AllListed(g: graph, lists: seq<seq<string>>, names: seq<string>, j: nat)
    requires Stages(g, lists, names) && j <= |names|
    ensures forall k | 0 <= k < j :: names[k] in lists[j]
  {
    if j > 0 {
      AllListed(g, lists, names, j - 1);
      assert Stage(g, lists[j - 1], lists[j], names[j - 1]);
    }
  }

  lemma {:induction false} StageReached(g: graph, lists: seq<seq<string>>, names: seq<string>, i: nat, n: string)
    returns (k: nat)
    requires Stages(g, lists, names) && lists[0] == [] && i < |names| && n in lists[i + 1]
    ensures k <= i && Reaches(g, names[k], n)
  {
    assert Stage(g, lists[i], lists[i + 1], names[i]);
    if i > 0 && n in lists[i] {
      k := StageReached(g, lists, names, i - 1, n);
    } else {
      k := i;
    }
  }

  lemma {:induction false} StagesGrow(g: graph, lists: seq<seq<string>>, names: seq<string>, i: nat, j: nat)
    requires Stages(g, lists, names) && i <= j <= |names|
    ensures lists[i] <= lists[j]
    decreases j
  {
    if i < j {
      StagesGrow(g, lists, names, i, j - 1);
      assert Stage(g, lists[j - 1], lists[j], names[j - 1]);
    }
  }

  /** Each name is listed before anything that neither it nor an earlier one leads to. */
  ghost predicate InTurn(g: graph, order: seq<string>, names: seq<string>)
  {
    forall i, y | 0 <= i < |names| && (forall k | 0 <= k <= i :: !Reaches(g, names[k], y)) ::
      Position(order, names[i]) < Position(order, y)
  }

  lemma ListedInTurn(g: graph, lists: seq<seq<string>>, names: seq<string>)
    requires Stages(g, lists, names) && lists[0] == []
    ensures InTurn(g, lists[|names|], names)
  {
    var order := lists[|names|];
    forall i, y | 0 <= i < |names| && (forall k | 0 <= k <= i :: !Reaches(g, names[k], y))
      ensures Position(order, names[i]) < Position(order, y)
    {
      NotListedYet(g, lists, names, i, y);
      StagesGrow(g, lists, names, i + 1, |names|);
      assert Stage(g, lists[i], lists[i + 1], names[i]);
      PositionExtends(lists[i + 1], order, names[i]);
      PositionExtends(lists[i + 1], order, y);
    }
  }

  lemma NotListedYet(g: graph, lists: seq<seq<string>>, names: seq<string>, i: nat, y: string)
    requires Stages(g, lists, names) && lists[0] == [] && i < |names|
    requires forall k | 0 <= k <= i :: !Reaches(g, names[k], y)
    ensures y !in lists[i + 1]
  {
    if y in lists[i + 1] {
      var k := StageReached(g, lists, names, i, y);
    }
  }

  class Generator {
    const types: seq<PackableType>
    const unions: seq<UnionDef>
    const typeByName: map<string, PackableType>
    const unionByName: map<string, UnionDef>
    var emitted: set<string>
    var visiting: set<string>
    var emitOrder: seq<Declaration>

    ghost function Refs(): (g: graph)
    {
      ReferenceGraph(typeByName, unionByName)
    }

    /** Between two visits: what was emitted so far is duplicate-free and ordered. */
    ghost predicate Inv()
      reads this
    {
      && emitted == Elements(Names(emitOrder)) && Unique(Names(emitOrder))
      && emitted <= Refs().Keys
      && Ordered(Refs(), Names(emitOrder))
      && (forall d :: d in emitOrder ==> Declared(d))
      && (forall n :: n in typeByName ==> typeByName[n].name == n)
      && (forall n :: n in unionByName ==> unionByName[n].name == n)
    }

    /** The declaration its name stands for: a type, or a union if no type has the name. */
    ghost predicate Declared(d: Declaration)
    {
      match d
      case TypeDecl(t) => t.name in typeByName && typeByName[t.name] == t
      case UnionDecl(u) => u.name !in typeByName && u.name in unionByName && unionByName[u.name] == u
    }

    constructor (types: seq<PackableType>, unions: seq<UnionDef>)
      requires Unique(TypeNames(types)) && Unique(UnionNames(unions))
      ensures this.types == types && typeByName == TypesByName(types)
      ensures this.unions == unions && unionByName == UnionsByName(unions)
      ensures Inv() && visiting == {} && emitOrder == []
    {
      this.types, this.unions := types, unions;
      typeByName, unionByName := TypesByName(types), UnionsByName(unions);
      emitted, visiting, emitOrder := {}, {}, [];
    }

    /** Emits a declaration whose references are all emitted or lead back to it. */
    method Emit(decl: Declaration)
      requires Inv() && Declared(decl) && decl.Name() in Refs()
      requires forall d :: d in Refs()[decl.Name()] && d in Refs() && d != decl.Name() ==>
                 d in emitted || Reaches(Refs(), d, decl.Name())
      modifies `emitted, `emitOrder
      ensures Inv() && decl.Name() in emitted && old(emitted) <= emitted
      ensures Names(old(emitOrder)) <= Names(emitOrder) && emitted <= old(emitted) + {decl.Name()}
    {
      if decl.Name() !in emitted {
        ghost var order := Names(emitOrder);
        NamesSnoc(emitOrder, decl);
        OrderedSnoc(Refs(), order, decl.Name());
        UniqueSnoc(order, decl.Name());
        emitted := emitted + {decl.Name()};
        emitOrder := emitOrder + [decl];
        assert Names(emitOrder) == order + [decl.Name()];
      }
    }

    /** Nothing but what the name leads to was emitted since. */
    ghost predicate OnlyLedTo(before: set<string>, name: string)
      reads this
    {
      forall n | n in emitted :: n in before || Reaches(Refs(), name, n)
    }

    method Visit(name: string)
      requires Inv()
      requires forall v :: v in visiting ==> Reaches(Refs(), v, name)
      modifies `emitted, `visiting, `emitOrder
      ensures Inv() && visiting == old(visiting)
      ensures name in Refs() && name !in visiting ==> name in emitted
      ensures Progress(name, old(emitted), Names(old(emitOrder)))
      decreases Refs().Keys - visiting, 1
    {
      if name in emitted || name in visiting {
        return;
      }
      ghost var outer := visiting;
      visiting := visiting + {name};
      ReachesSelf(Refs(), name);
      if name in typeByName {
        VisitDeclaration(TypeDecl(typeByName[name]), Distinct(Flatten(typeByName[name].members)), true);
      } else if name in unionByName {
        VisitDeclaration(UnionDecl(unionByName[name]), unionByName[name].alternatives, false);
      }
      visiting := visiting - {name};
      assert visiting == outer;
    }

    /** First what a declaration refers to, then the declaration. */
    method VisitDeclaration(decl: Declaration, deps: seq<string>, skipSelf: bool)
      requires Inv() && Declared(decl) && decl.Name() in Refs() && decl.Name() in visiting
      requires forall v :: v in visiting ==> Reaches(Refs(), v, decl.Name())
      requires Elements(deps) == Refs()[decl.Name()]
      modifies `emitted, `visiting, `emitOrder
      ensures Inv() && visiting == old(visiting) && decl.Name() in emitted
      ensures Progress(decl.Name(), old(emitted), Names(old(emitOrder)))
      decreases Refs().Keys - visiting, 4
    {
      VisitAll(decl.Name(), deps, skipSelf);
      ReachesSelf(Refs(), decl.Name());
      Emit(decl);
    }

    /** What was emitted since, which only grows, is what the name leads to. */
    ghost predicate Progress(name: string, seen: set<string>, order: seq<string>)
      reads this
    {
      seen <= emitted && order <= Names(emitOrder) && OnlyLedTo(seen, name)
    }

    /** The references are emitted, or lead back. */
    ghost predicate Met(name: string, deps: seq<string>)
      reads this
    {
      forall d :: d in deps && d in Refs() && d != name ==> d in emitted || Reaches(Refs(), d, name)
    }

    /** The loop over the references of `name`; a type does not visit itself. */
    method VisitAll(name: string, deps: seq<string>, skipSelf: bool)
      requires Inv() && name in Refs() && name in visiting
      requires forall v :: v in visiting ==> Reaches(Refs(), v, name)
      requires forall d :: d in deps ==> d in Refs()[name]
      modifies `emitted, `visiting, `emitOrder
      ensures Inv() && visiting == old(visiting) && Met(name, deps)
      ensures Progress(name, old(emitted), Names(old(emitOrder)))
      decreases Refs().Keys - visiting, 3
    {
      ghost var stack, past := visiting, [];
      for i := 0 to |deps|
        invariant Inv() && visiting == stack && past == deps[..i] && Met(name, past)
        invariant Progress(name, old(emitted), Names(old(emitOrder)))
      {
        past := VisitReference(name, deps[i], skipSelf, past, old(emitted), Names(old(emitOrder)));
      }
      assert past == deps;
    }

    /** One round of the loop. */
    method VisitReference(name: string, dep: string, skipSelf: bool, ghost past: seq<string>, ghost seen: set<string>,
                          ghost order: seq<string>) returns (ghost now: seq<string>)
      requires Inv() && name in Refs() && name in visiting && dep in Refs()[name]
      requires forall v :: v in visiting ==> Reaches(Refs(), v, name)
      requires Met(name, past) && Progress(name, seen, order)
      modifies `emitted, `visiting, `emitOrder
      ensures Inv() && visiting == old(visiting) && now == past + [dep] && Met(name, now)
      ensures Progress(name, seen, order)
      decreases Refs().Keys - visiting, 2
    {
      if !skipSelf || dep != name {
        forall v | v in visiting ensures Reaches(Refs(), v, dep) {
          ReachesStep(Refs(), v, name, dep);
        }
        Visit(dep);
        LedToThrough(old(emitted), name, dep);
      }
      now := past + [dep];
    }

    lemma LedToThrough(before: set<string>, name: string, dep: string)
      requires name in Refs() && dep in Refs()[name] && OnlyLedTo(before, dep)
      ensures OnlyLedTo(before, name)
    {
      forall n | n in emitted ensures n in before || Reaches(Refs(), name, n) {
        if n !in before {
          ReachesFrom(Refs(), name, dep, n);
        }
      }
    }

    /** Visits declarations from an empty stack, in order, after those in `past`. */
    method VisitRoots(names: seq<string>, ghost past: seq<string>, ghost before: seq<seq<string>>)
      returns (ghost done: seq<string>, ghost lists: seq<seq<string>>)
      requires Inv() && visiting == {} && Visited(past, before)
      requires forall n | n in names :: n in Refs()
      modifies `emitted, `visiting, `emitOrder
      ensures Inv() && visiting == {} && Visited(done, lists) && done == past + names
    {
      done, lists := past, before;
      for i := 0 to |names|
        invariant Inv() && visiting == {} && Visited(done, lists) && done == past + names[..i]
      {
        TakeOneMore(past, names, i);
        done, lists := VisitRoot(names[i], done, lists);
      }
      assert names[..|names|] == names;
    }

    /** The lists so far, from none to the present one. */
    ghost predicate Visited(names: seq<string>, lists: seq<seq<string>>)
      reads this
    {
      Stages(Refs(), lists, names) && lists[0] == [] && lists[|names|] == Names(emitOrder)
    }

    /** One round of the loop. */
    method VisitRoot(name: string, ghost past: seq<string>, ghost before: seq<seq<string>>)
      returns (ghost done: seq<string>, ghost lists: seq<seq<string>>)
      requires Inv() && visiting == {} && name in Refs() && Visited(past, before)
      modifies `emitted, `visiting, `emitOrder
      ensures Inv() && visiting == {} && Visited(done, lists) && done == past + [name]
    {
      Visit(name);
      StagesSnoc(Refs(), before, past, Names(emitOrder), name);
      done, lists := past + [name], before + [Names(emitOrder)];
    }

    method BuildEmitOrder()
      requires typeByName == TypesByName(types) && unionByName == UnionsByName(unions)
      requires Inv() && visiting == {} && emitOrder == []
      modifies `emitted, `visiting, `emitOrder
      ensures Unique(Names(emitOrder))
      ensures Elements(Names(emitOrder)) == Elements(TypeNames(types)) + Elements(UnionNames(unions))
      ensures forall d :: d in emitOrder ==> Declared(d)
      ensures Ordered(ReferenceGraph(TypesByName(types), UnionsByName(unions)), Names(emitOrder))
      ensures InTurn(ReferenceGraph(TypesByName(types), UnionsByName(unions)), Names(emitOrder),
                     TypeNames(types) + UnionNames(unions))
    {
      ghost var done, lists := VisitRoots(TypeNames(types), [], [[]]);
      done, lists := VisitRoots(UnionNames(unions), done, lists);
      assert done == TypeNames(types) + UnionNames(unions);
      AllListed(Refs(), lists, done, |done|);
      AllEmitted(emitted, TypeNames(types), UnionNames(unions), done);
      ListedInTurn(Refs(), lists, done);
    }

    lemma AllEmitted(emitted: set<string>, types: seq<string>, unions: seq<string>, done: seq<string>)
      requires done == types + unions && forall k | 0 <= k < |done| :: done[k] in emitted
      requires emitted <= Elements(types) + Elements(unions)
      ensures emitted == Elements(types) + Elements(unions)
    {
      forall n | n in types ensures n in emitted {
        var k :| 0 <= k < |types| && types[k] == n;
        assert done[k] == n;
      }
      forall n | n in unions ensures n in emitted {
        var k :| 0 <= k < |unions| && unions[k] == n;
        assert done[|types| + k] == n;
      }
    }
  }

  /**
   Every type is emitted, exactly once since names are unique, and a union exactly if no type has its
   name.
   */
  lemma EmittedDeclarations(g: Generator)
    requires Unique(TypeNames(g.types)) && Unique(UnionNames(g.unions))
    requires g.typeByName == TypesByName(g.types) && g.unionByName == UnionsByName(g.unions)
    requires Elements(Names(g.emitOrder)) == Elements(TypeNames(g.types)) + Elements(UnionNames(g.unions))
    requires forall d :: d in g.emitOrder ==> g.Declared(d)
    ensures forall t :: t in g.types ==> TypeDecl(t) in g.emitOrder
    ensures forall u :: u in g.unions ==> (UnionDecl(u) in g.emitOrder <==> u.name !in TypeNames(g.types))
  {
    forall t | t in g.types ensures TypeDecl(t) in g.emitOrder {
      TypeFound(g.types, t);
      TypeEmitted(g, t);
    }
    forall u | u in g.unions ensures UnionDecl(u) in g.emitOrder <==> u.name !in TypeNames(g.types) {
      UnionFound(g.unions, u);
      UnionEmitted(g, u);
      assert u.name in g.typeByName <==> u.name in TypeNames(g.types);
    }
  }

  lemma TypeEmitted(g: Generator, t: PackableType)
    requires t.name in g.typeByName && g.typeByName[t.name] == t && t.name in Elements(Names(g.emitOrder))
    requires forall d :: d in g.emitOrder ==> g.Declared(d)
    ensures TypeDecl(t) in g.emitOrder
  {
    var d := Emitted(g.emitOrder, t.name);
    assert g.Declared(d);
  }

  lemma UnionEmitted(g: Generator, u: UnionDef)
    requires u.name in g.unionByName && g.unionByName[u.name] == u && u.name in Elements(Names(g.emitOrder))
    requires forall d :: d in g.emitOrder ==> g.Declared(d)
    ensures UnionDecl(u) in g.emitOrder <==> u.name !in g.typeByName
  {
    var d := Emitted(g.emitOrder, u.name);
    assert g.Declared(d);
  }

  lemma Emitted(order: seq<Declaration>, name: string) returns (d: Declaration)
    requires name in Elements(Names(order))
    ensures d in order && d.Name() == name
  {
    var i :| 0 <= i < |Names(order)| && Names(order)[i] == name;
    d := order[i];
  }

  /** No cycles: every reference goes to a declaration emitted earlier. */
  ghost predicate Acyclic(g: graph)
  {
    forall a, b :: b in Successors(g, a) ==> !Reaches(g, b, a)
  }

  /** On an acyclic schema the emit order is a topological order. */
  lemma AcyclicOrder(g: graph, order: seq<string>, i: nat, b: string)
    requires Acyclic(g) && Ordered(g, order) && i < |order|
    requires b in Successors(g, order[i]) && b in g
    ensures b in order[..i]
  {
    ReachesSelf(g, b);
  }
}
