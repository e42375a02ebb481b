/**
 UnmanagedLayout of CsParser.cs: the memoised, cycle-detecting resolver of struct sizes.
 */
module UnmanagedLayout {
  import opened Basics
  import opened StructLayout
  import opened Graph

  /** The syntax of a field type, as far as FieldLayout looks at it. */
  datatype FieldType = Nullable | Array | Generic | Named(name: string)

  datatype RawType = RawType(isStruct: bool, pack1: bool, members: seq<FieldType>)

  /** The parsed types and enums (with their base types); the tables of CsParser. */
  datatype Tables = Tables(rawTypes: map<string, RawType>, enums: map<string, string>)

  function PrimitiveLayout(name: string): (l: Option<Layout>)
  {
    if name in {"bool", "Boolean", "byte", "Byte", "sbyte", "SByte"} then Some(Layout(1, 1))
    else if name in {"short", "Int16", "ushort", "UInt16", "char", "Char"} then Some(Layout(2, 2))
    else if name in {"int", "Int32", "uint", "UInt32", "float", "Single"} then Some(Layout(4, 4))
    else if name in {"long", "Int64", "ulong", "UInt64", "double", "Double"} then Some(Layout(8, 8))
    else None
  }

  /** FieldLayout goes on to Resolve for this field. */
  predicate RefersToType(t: Tables, f: FieldType)
  {
    f.Named? && PrimitiveLayout(f.name).None? && f.name !in t.enums
  }

  /** What FieldLayout answers without Resolve. */
  function LeafLayout(t: Tables, f: FieldType): (l: Option<Layout>)
    requires !RefersToType(t, f)
  {
    if !f.Named? then None
    else if PrimitiveLayout(f.name).Some? then PrimitiveLayout(f.name)
    else PrimitiveLayout(t.enums[f.name])
  }

  // -- The simple recursive layout ----------------------------------------------------------

  /** The layout of a type whose by-value unfolding is at most `k` types deep. */
  function LayoutWithin(t: Tables, name: string, k: nat): (l: Option<Layout>)
    decreases k, 0
  {
    if k == 0 || name !in t.rawTypes || !t.rawTypes[name].isStruct then None
    else
      var raw := t.rawTypes[name];
      match FieldsWithin(t, raw.members, k - 1)
      case None => None
      case Some(ls) => Some(Compute(ls, raw.pack1))
  }

  /** The layouts of all fields, if each of them has one. */
  function FieldsWithin(t: Tables, fs: seq<FieldType>, k: nat): (ls: Option<seq<Layout>>)
    decreases k, 1 + |fs|
  {
    if fs == [] then Some([])
    else
      var first := if RefersToType(t, fs[0]) then LayoutWithin(t, fs[0].name, k) else LeafLayout(t, fs[0]);
      match (first, FieldsWithin(t, fs[1..], k))
      case (Some(l), Some(ls)) => Some([l] + ls)
      case _ => None
  }

  /** The by-value unfolding of the type is finite and all its leaves are primitives or enums. */
  ghost predicate HasLayout(t: Tables, name: string)
  {
    exists k: nat :: LayoutWithin(t, name, k).Some?
  }

  /** The layout of a type with a finite by-value unfolding, None for every other name. */
  ghost function TypeLayout(t: Tables, name: string): (l: Option<Layout>)
  {
    if HasLayout(t, name) then
      var k: nat :| LayoutWithin(t, name, k).Some?;
      LayoutWithin(t, name, k)
    else None
  }

  ghost function FieldLayout(t: Tables, f: FieldType): (l: Option<Layout>)
  {
    if RefersToType(t, f) then TypeLayout(t, f.name) else LeafLayout(t, f)
  }

  ghost function FieldLayouts(t: Tables, fs: seq<FieldType>): (ls: Option<seq<Layout>>)
  {
    if fs == [] then Some([])
    else
      match (FieldLayout(t, fs[0]), FieldLayouts(t, fs[1..]))
      case (Some(l), Some(ls)) => Some([l] + ls)
      case _ => None
  }

  lemma {:induction false} MoreFuel(t: Tables, name: string, j: nat, k: nat)
    requires j <= k && LayoutWithin(t, name, j).Some?
    ensures LayoutWithin(t, name, k) == LayoutWithin(t, name, j)
    decreases j, 0
  {
    MoreFuelFields(t, t.rawTypes[name].members, j - 1, k - 1);
  }

  lemma {:induction false} MoreFuelFields(t: Tables, fs: seq<FieldType>, j: nat, k: nat)
    requires j <= k && FieldsWithin(t, fs, j).Some?
    ensures FieldsWithin(t, fs, k) == FieldsWithin(t, fs, j)
    decreases j, 1 + |fs|
  {
    if fs != [] {
      if RefersToType(t, fs[0]) {
        MoreFuel(t, fs[0].name, j, k);
      }
      MoreFuelFields(t, fs[1..], j, k);
    }
  }

  lemma WithinIsLayout(t: Tables, name: string, k: nat)
    requires LayoutWithin(t, name, k).Some?
    ensures TypeLayout(t, name) == LayoutWithin(t, name, k)
  {
    var j: nat :| LayoutWithin(t, name, j).Some? && TypeLayout(t, name) == LayoutWithin(t, name, j);
    MoreFuel(t, name, j, if j <= k then k else j);
    MoreFuel(t, name, k, if j <= k then k else j);
  }

  lemma {:induction false} FieldsAgree(t: Tables, fs: seq<FieldType>, k: nat)
    requires FieldsWithin(t, fs, k).Some?
    ensures FieldLayouts(t, fs) == FieldsWithin(t, fs, k)
  {
    if fs != [] {
      if RefersToType(t, fs[0]) {
        WithinIsLayout(t, fs[0].name, k);
      }
      FieldsAgree(t, fs[1..], k);
    }
  }

  lemma {:induction false} EnoughFuel(t: Tables, fs: seq<FieldType>) returns (k: nat)
    requires FieldLayouts(t, fs).Some?
    ensures FieldsWithin(t, fs, k) == FieldLayouts(t, fs)
  {
    if fs == [] {
      k := 0;
    } else {
      k := EnoughFuel(t, fs[1..]);
      if RefersToType(t, fs[0]) {
        var j: nat :| LayoutWithin(t, fs[0].name, j).Some?;
        WithinIsLayout(t, fs[0].name, j);
        var m := if j <= k then k else j;
        MoreFuel(t, fs[0].name, j, m);
        MoreFuelFields(t, fs[1..], k, m);
        k := m;
      }
    }
  }

  /** The layout of a struct is computed from the layouts of its fields. */
  lemma LayoutFromFields(t: Tables, name: string)
    ensures TypeLayout(t, name) ==
            if name in t.rawTypes && t.rawTypes[name].isStruct && FieldLayouts(t, t.rawTypes[name].members).Some?
            then Some(Compute(FieldLayouts(t, t.rawTypes[name].members).value, t.rawTypes[name].pack1))
            else None
  {
    if HasLayout(t, name) {
      var k: nat :| LayoutWithin(t, name, k).Some?;
      WithinIsLayout(t, name, k);
      FieldsAgree(t, t.rawTypes[name].members, k - 1);
    } else if name in t.rawTypes && t.rawTypes[name].isStruct && FieldLayouts(t, t.rawTypes[name].members).Some? {
      var k := EnoughFuel(t, t.rawTypes[name].members);
      assert LayoutWithin(t, name, k + 1).Some?;
    }
  }

  /** The size of sequential layout of the fields, in numbers; an empty struct has size 1. */
  ghost predicate IsSizeOf(t: Tables, name: string, size: nat)
  {
    && name in t.rawTypes && FieldLayouts(t, t.rawTypes[name].members).Some?
    && var ls, pack1 := FieldLayouts(t, t.rawTypes[name].members).value, t.rawTypes[name].pack1;
       if ls == [] then size == 1 else exists os, align: pos :: Sequential(ls, pack1, os, Layout(size, align))
  }

  lemma SizeIsSequential(t: Tables, name: string)
    requires HasLayout(t, name)
    ensures IsSizeOf(t, name, TypeLayout(t, name).value.size)
  {
    LayoutFromFields(t, name);
    LayoutFromWithin(t, name);
    var ls, pack1 := FieldLayouts(t, t.rawTypes[name].members).value, t.rawTypes[name].pack1;
    var l := TypeLayout(t, name).value;
    ComputeIsSequential(ls, pack1);
    assert l == Compute(ls, pack1) == Layout(l.size, l.align);
  }

  /** The sizes of C# types that need no struct: each is its own alignment. */
  lemma PrimitiveSizes(name: string)
    ensures PrimitiveLayout(name).Some? ==>
              var l := PrimitiveLayout(name).value; l.size == l.align && l.size in {1, 2, 4, 8}
    ensures PrimitiveLayout("byte") == Some(Layout(1, 1)) && PrimitiveLayout("char") == Some(Layout(2, 2))
    ensures PrimitiveLayout("int") == Some(Layout(4, 4)) && PrimitiveLayout("double") == Some(Layout(8, 8))
    ensures PrimitiveLayout("string").None? && PrimitiveLayout("decimal").None?
  {
  }

  // -- Cycles ----------------------------------------------------------------------------------

  /** The by-value references between structs. */
  ghost function References(t: Tables): (g: graph)
  {
    map n | n in t.rawTypes && t.rawTypes[n].isStruct ::
      set f | f in t.rawTypes[n].members && RefersToType(t, f) :: f.name
  }

  lemma {:induction false} FieldNeedsFuel(t: Tables, fs: seq<FieldType>, f: FieldType, k: nat)
    requires f in fs && RefersToType(t, f) && FieldsWithin(t, fs, k).Some?
    ensures LayoutWithin(t, f.name, k).Some?
  {
    if f != fs[0] {
      FieldNeedsFuel(t, fs[1..], f, k);
    }
  }

  lemma StepNeedsFuel(t: Tables, a: string, b: string, k: nat)
    requires b in Successors(References(t), a) && LayoutWithin(t, a, k).Some?
    ensures k > 0 && LayoutWithin(t, b, k - 1).Some?
  {
    var f :| f in t.rawTypes[a].members && RefersToType(t, f) && f.name == b;
    FieldNeedsFuel(t, t.rawTypes[a].members, f, k - 1);
  }

  /** Along a path of references each type needs one unit of depth less. */
  lemma {:induction false} PathNeedsFuel(t: Tables, p: seq<string>, k: nat)
    requires IsPath(References(t), p) && LayoutWithin(t, p[0], k).Some?
    ensures |p| <= k && LayoutWithin(t, p[|p| - 1], k - (|p| - 1)).Some?
    decreases |p|
  {
    if |p| > 1 {
      var rest := p[1..];
      StepNeedsFuel(t, p[0], rest[0], k);
      PathNeedsFuel(t, rest, k - 1);
      assert rest[|rest| - 1] == p[|p| - 1] && k - 1 - (|rest| - 1) == k - (|p| - 1);
    }
  }

  lemma {:induction false} CycleNeedsMoreFuel(t: Tables, p: seq<string>, k: nat)
    requires IsPath(References(t), p) && |p| > 1 && p[0] == p[|p| - 1]
    ensures LayoutWithin(t, p[0], k).None?
    decreases k
  {
    if LayoutWithin(t, p[0], k).Some? {
      PathNeedsFuel(t, p, k);
      CycleNeedsMoreFuel(t, p, k - (|p| - 1));
    }
  }

  /** A type that contains itself by value has no layout. */
  lemma CycleHasNoLayout(t: Tables, name: string)
    requires OnCycle(References(t), name)
    ensures TypeLayout(t, name).None?
  {
    var g := References(t);
    var d :| d in Successors(g, name) && Reaches(g, d, name);
    var p :| PathFromTo(g, p, d, name);
    var q := [name] + p;
    assert q[1..] == p;
    forall k: nat ensures LayoutWithin(t, name, k).None? {
      CycleNeedsMoreFuel(t, q, k);
    }
  }

  /** A struct whose fields that are not structs are primitives or enums. */
  predicate GoodStruct(t: Tables, name: string)
  {
    && name in t.rawTypes && t.rawTypes[name].isStruct
    && forall f | f in t.rawTypes[name].members :: RefersToType(t, f) || LeafLayout(t, f).Some?
  }

  /** Everything the type contains by value is a good struct, and none contains itself. */
  ghost predicate FiniteAndGood(t: Tables, name: string)
  {
    forall n | Reaches(References(t), name, n) :: GoodStruct(t, n) && !OnCycle(References(t), n)
  }

  lemma {:induction false} FieldsAreGood(t: Tables, fs: seq<FieldType>, k: nat)
    requires FieldsWithin(t, fs, k).Some?
    ensures forall f | f in fs :: RefersToType(t, f) || LeafLayout(t, f).Some?
  {
    if fs != [] {
      FieldsAreGood(t, fs[1..], k);
    }
  }

  lemma {:induction false} FieldsHaveLayouts(t: Tables, fs: seq<FieldType>)
    requires forall f | f in fs :: if RefersToType(t, f) then HasLayout(t, f.name) else LeafLayout(t, f).Some?
    ensures FieldLayouts(t, fs).Some?
  {
    if fs != [] {
      if RefersToType(t, fs[0]) {
        LayoutFromWithin(t, fs[0].name);
      }
      FieldsHaveLayouts(t, fs[1..]);
    }
  }

  lemma LayoutFromWithin(t: Tables, name: string)
    ensures TypeLayout(t, name).Some? <==> HasLayout(t, name)
  {
  }

  /** Without cycles the unfolding cannot be deeper than there are types: `above` holds the types passed. */
  lemma FiniteHasLayout(t: Tables, name: string, above: set<string>)
    requires FiniteAndGood(t, name)
    requires forall a | a in above :: exists d :: d in Successors(References(t), a) && Reaches(References(t), d, name)
    ensures HasLayout(t, name)
    decreases t.rawTypes.Keys - above
  {
    var g := References(t);
    ReachesSelf(g, name);
    assert GoodStruct(t, name) && !OnCycle(g, name);
    assert name !in above;
    var fs := t.rawTypes[name].members;
    forall f | f in fs && RefersToType(t, f) ensures HasLayout(t, f.name) {
      var d := f.name;
      assert d in Successors(g, name);
      forall n | Reaches(g, d, n) ensures GoodStruct(t, n) && !OnCycle(g, n) {
        ReachesFrom(g, name, d, n);
      }
      ReachesSelf(g, d);
      forall a | a in above + {name} ensures exists e :: e in Successors(g, a) && Reaches(g, e, d) {
        if a != name {
          var e :| e in Successors(g, a) && Reaches(g, e, name);
          ReachesStep(g, e, name, d);
        }
      }
      FiniteHasLayout(t, d, above + {name});
    }
    FieldsHaveLayouts(t, fs);
    LayoutFromFields(t, name);
    LayoutFromWithin(t, name);
  }

  /** The resolver's answer in terms of the type graph alone. */
  lemma HasLayoutIff(t: Tables, name: string)
    ensures HasLayout(t, name) <==> FiniteAndGood(t, name)
  {
    var g := References(t);
    if HasLayout(t, name) {
      var k: nat :| LayoutWithin(t, name, k).Some?;
      forall n | Reaches(g, name, n) ensures GoodStruct(t, n) && !OnCycle(g, n) {
        var p :| PathFromTo(g, p, name, n);
        PathNeedsFuel(t, p, k);
        var j: nat := k - (|p| - 1);
        FieldsAreGood(t, t.rawTypes[n].members, j - 1);
        WithinIsLayout(t, n, j);
        if OnCycle(g, n) {
          CycleHasNoLayout(t, n);
        }
      }
    }
    if FiniteAndGood(t, name) {
      FiniteHasLayout(t, name, {});
    }
  }

  // -- The resolver ----------------------------------------------------------------------------

  class Resolver {
    const t: Tables
    var cache: map<string, Option<Layout>>
    var visiting: set<string>

    /** Every cached answer is the layout of its type. */
    ghost predicate CacheOk()
      reads this
    {
      forall n :: n in cache ==> cache[n] == TypeLayout(t, n)
    }

    /** Every type being visited contains `name` by value. */
    ghost predicate OnStack(name: string)
      reads this
    {
      forall v :: v in visiting ==> exists d :: d in Successors(References(t), v) && Reaches(References(t), d, name)
    }

    constructor (t: Tables)
      ensures this.t == t && CacheOk() && visiting == {}
    {
      this.t := t;
      cache, visiting := map[], {};
    }

    method TryGetSize(name: string) returns (found: bool, size: nat)
      requires CacheOk() && visiting == {}
      modifies `cache, `visiting
      ensures CacheOk() && visiting == {}
      ensures found <==> HasLayout(t, name)
      ensures found ==> size == TypeLayout(t, name).value.size && IsSizeOf(t, name, size)
      ensures !found ==> size == 0
    {
      var r := Resolve(name);
      if r.Some? {
        SizeIsSequential(t, name);
      }
      size := if r.Some? then r.value.size else 0;
      found := r.Some?;
    }

    method Resolve(name: string) returns (r: Option<Layout>)
      requires CacheOk() && OnStack(name)
      modifies `cache, `visiting
      ensures CacheOk() && visiting == old(visiting)
      ensures r == TypeLayout(t, name)
      decreases t.rawTypes.Keys - visiting, 1, 0
    {
      if name in cache {
        return cache[name];
      }
      if name in visiting {
        CycleHasNoLayout(t, name);
        return None;
      }
      ghost var outer := visiting;
      ghost var g := References(t);
      visiting := visiting + {name};
      r := None;
      LayoutFromFields(t, name);
      if name in t.rawTypes && t.rawTypes[name].isStruct {
        forall v, d | v in outer && d in Successors(g, name)
          ensures exists e :: e in Successors(g, v) && Reaches(g, e, d)
        {
          var e :| e in Successors(g, v) && Reaches(g, e, name);
          ReachesStep(g, e, name, d);
        }
        forall d | d in Successors(g, name) ensures Reaches(g, d, d) {
          ReachesSelf(g, d);
        }
        r := ComputeLayout(name, t.rawTypes[name]);
      }
      visiting := visiting - {name};
      assert visiting == outer;
      cache := cache[name := r];
    }

    /** The loop over the members; stops at the first one without a layout. */
    method ComputeLayout(name: string, raw: RawType) returns (r: Option<Layout>)
      requires CacheOk() && name in visiting
      requires name in t.rawTypes && raw == t.rawTypes[name] && raw.isStruct
      requires forall d :: d in Successors(References(t), name) ==> OnStack(d)
      modifies `cache, `visiting
      ensures CacheOk() && visiting == old(visiting)
      ensures r == match FieldLayouts(t, raw.members) case None => None case Some(ls) => Some(Compute(ls, raw.pack1))
      decreases t.rawTypes.Keys - visiting, 2, 0
    {
      var pack := if raw.pack1 then 1 else 8;
      var offset, maxAlign := 0, 1;
      ghost var ls: seq<Layout> := [];
      ResolvedStart(t, raw.members);
      for i := 0 to |raw.members|
        invariant CacheOk() && visiting == old(visiting)
        invariant Resolved(t, raw.members, i, ls)
        invariant |ls| == i
        invariant offset == End(ls, pack, 0) && maxAlign == MaxAlign(ls, pack, 1)
      {
        var m := raw.members[i];
        assert RefersToType(t, m) ==> m.name in Successors(References(t), name);
        var f := Field(m);
        ResolvedNext(t, raw.members, i, ls);
        if f.None? {
          return None;
        }
        var Layout(size, align) := f.value;
        SnocField(ls, f.value, pack);
        ls := ls + [f.value];
        align := if align <= pack then align else pack;
        offset := RoundUp(offset, align);
        offset := offset + size;
        maxAlign := if maxAlign >= align then maxAlign else align;
      }
      ResolvedEnd(t, raw.members, ls);
      if |raw.members| == 0 {
        return Some(Layout(1, 1));
      }
      return Some(Layout(RoundUp(offset, maxAlign), maxAlign));
    }

    method Field(f: FieldType) returns (r: Option<Layout>)
      requires CacheOk() && (RefersToType(t, f) ==> OnStack(f.name))
      modifies `cache, `visiting
      ensures CacheOk() && visiting == old(visiting)
      ensures r == FieldLayout(t, f)
      decreases t.rawTypes.Keys - visiting, 1, 1
    {
      if f.Nullable? || f.Array? || f.Generic? {
        return None;
      }
      var primitive := PrimitiveLayout(f.name);
      if primitive.Some? {
        return primitive;
      }
      if f.name in t.enums {
        return PrimitiveLayout(t.enums[f.name]);
      }
      r := Resolve(f.name);
    }
  }

  ghost function Prepend(ls: seq<Layout>, rest: Option<seq<Layout>>): (r: Option<seq<Layout>>)
  {
    match rest
    case None => None
    case Some(more) => Some(ls + more)
  }

  /** The first `i` fields resolved to `ls`. */
  ghost predicate Resolved(t: Tables, fs: seq<FieldType>, i: nat, ls: seq<Layout>)
    requires i <= |fs|
  {
    FieldLayouts(t, fs) == Prepend(ls, FieldLayouts(t, fs[i..]))
  }

  lemma ResolvedStart(t: Tables, fs: seq<FieldType>)
    ensures Resolved(t, fs, 0, [])
  {
    var rest := FieldLayouts(t, fs);
    assert fs[0..] == fs;
    assert rest.Some? ==> [] + rest.value == rest.value;
  }

  lemma ResolvedNext(t: Tables, fs: seq<FieldType>, i: nat, ls: seq<Layout>)
    requires i < |fs| && Resolved(t, fs, i, ls)
    ensures match FieldLayout(t, fs[i])
            case None => FieldLayouts(t, fs).None?
            case Some(l) => Resolved(t, fs, i + 1, ls + [l])
  {
    var rest := FieldLayouts(t, fs[i + 1..]);
    assert fs[i..][1..] == fs[i + 1..] && fs[i..][0] == fs[i];
    match FieldLayout(t, fs[i])
    case None =>
    case Some(l) =>
      assert rest.Some? ==> ls + [l] + rest.value == ls + ([l] + rest.value);
  }

  lemma ResolvedEnd(t: Tables, fs: seq<FieldType>, ls: seq<Layout>)
    requires Resolved(t, fs, |fs|, ls)
    ensures FieldLayouts(t, fs) == Some(ls)
  {
    assert ls + [] == ls;
  }

  lemma SnocField(ls: seq<Layout>, l: Layout, pack: pos)
    ensures var e := Effective(l, pack);
            && End(ls + [l], pack, 0) == RoundUp(End(ls, pack, 0), e) + l.size
            && MaxAlign(ls + [l], pack, 1) == Max(MaxAlign(ls, pack, 1), e)
  {
    SnocEnd(ls, l, pack, 0);
    SnocMaxAlign(ls, l, pack, 1);
  }

  lemma {:induction false} SnocEnd(ls: seq<Layout>, l: Layout, pack: pos, offset: nat)
    ensures End(ls + [l], pack, offset) == RoundUp(End(ls, pack, offset), Effective(l, pack)) + l.size
  {
    if ls != [] {
      assert (ls + [l])[1..] == ls[1..] + [l];
      SnocEnd(ls[1..], l, pack, RoundUp(offset, Effective(ls[0], pack)) + ls[0].size);
    }
  }

  lemma {:induction false} SnocMaxAlign(ls: seq<Layout>, l: Layout, pack: pos, maxAlign: pos)
    ensures MaxAlign(ls + [l], pack, maxAlign) == Max(MaxAlign(ls, pack, maxAlign), Effective(l, pack))
  {
    if ls != [] {
      assert (ls + [l])[1..] == ls[1..] + [l];
      SnocMaxAlign(ls[1..], l, pack, Max(maxAlign, Effective(ls[0], pack)));
    }
  }
}
