/** The `Parser` of main.py: turns the declarations a loaded Cap'n Proto schema
    exposes into an insertion-ordered map from type name to a field map (for a
    struct) or an enumerant list (for an enum).

    The reflection objects of the schema library are replaced by `Decl` values
    that already carry each type's numeric id and each field's declared kind. */
module Resolver {
  import opened Results
  import opened Text
  import opened OrderedMap

  /** The 64-bit id the schema compiler assigns to every struct and enum. */
  type TypeId = nat

  /** Element kind of a list field: a struct reference, or any other kind
      reported by its tag (`int32`, `text`, `enum`, `list`, ...). */
  datatype ElemKind = ElemStruct(id: TypeId) | ElemTag(tag: string)

  /** Declared kind of a field, as `field.proto.slot.type.which()` reports it.
      The input is assumed to carry the kinds `struct`, `enum` and `list` as
      `StructRef`, `EnumRef` and `ListOf`, so a `Primitive` tag stands for
      any other kind; nothing here rejects `Primitive("struct")`. */
  datatype FieldKind =
    | Primitive(tag: string)
    | StructRef(id: TypeId)
    | EnumRef(id: TypeId)
    | ListOf(elem: ElemKind)

  datatype Field = Field(name: string, kind: FieldKind)

  /** A top-level declaration of the schema, in declaration order. */
  datatype Decl =
    | StructDecl(id: TypeId, name: string, fields: seq<Field>)
    | EnumDecl(id: TypeId, name: string, enumerants: seq<string>)

  /** A resolved type: the field map of a struct (capitalised field name to
      type string) or the enumerants of an enum. */
  datatype Node = Fields(fields: seq<(string, string)>) | Enumerants(names: seq<string>)

  /** The resolved schema: type name to node, in insertion order. */
  type Nodes = seq<(string, Node)>

  /** Why resolution stops: a `KeyError` on one of the id indexes, or the
      `IndexError` that `cap` raises on an empty name. */
  datatype ResolveError = UnknownStructId(id: TypeId) | UnknownEnumId(id: TypeId) | EmptyName

  /** The two id indexes, `struct_ids` and `enum_ids`. */
  datatype Registry = Registry(structIds: map<TypeId, string>, enumIds: map<TypeId, string>)

  function Register(reg: Registry, d: Decl): Registry {
    match d
    case StructDecl(id, name, _) => reg.(structIds := reg.structIds[id := name])
    case EnumDecl(id, name, _) => reg.(enumIds := reg.enumIds[id := name])
  }

  /** The indexes after every declaration of `ds` has been registered. */
  function RegistryOf(ds: seq<Decl>): Registry {
    if |ds| == 0 then Registry(map[], map[])
    else Register(RegistryOf(ds[..|ds| - 1]), ds[|ds| - 1])
  }

  // ---------------------------------------------------------------------------
  // Field resolution

  /** `get_list_type`: a struct element becomes its registered name, any other
      element keeps its kind tag. */
  function ListElemType(elem: ElemKind, reg: Registry): (r: Result<string, ResolveError>)
    ensures elem.ElemTag? ==> r == Ok(elem.tag)
    ensures elem.ElemStruct? ==> (r.Ok? <==> elem.id in reg.structIds)
    ensures elem.ElemStruct? && r.Ok? ==> r.value == reg.structIds[elem.id]
    ensures r.Err? ==> r.error == UnknownStructId(elem.id)
  {
    match elem
    case ElemStruct(id) => if id in reg.structIds then Ok(reg.structIds[id]) else Err(UnknownStructId(id))
    case ElemTag(tag) => Ok(tag)
  }

  /** The type string of a field of kind `k`: the primitive tag unchanged, the
      registered name of a referenced struct or enum, or `List(<element>)`. */
  function FieldType(k: FieldKind, reg: Registry): (r: Result<string, ResolveError>)
    ensures k.Primitive? ==> r == Ok(k.tag)
    ensures k.StructRef? ==> if k.id in reg.structIds then r == Ok(reg.structIds[k.id]) else r == Err(UnknownStructId(k.id))
    ensures k.EnumRef? ==> if k.id in reg.enumIds then r == Ok(reg.enumIds[k.id]) else r == Err(UnknownEnumId(k.id))
    ensures k.ListOf? ==> match ListElemType(k.elem, reg)
                          case Ok(e) => r == Ok("List(" + e + ")")
                          case Err(e) => r == Err(e)
  {
    match k
    case Primitive(tag) => Ok(tag)
    case StructRef(id) => if id in reg.structIds then Ok(reg.structIds[id]) else Err(UnknownStructId(id))
    case EnumRef(id) => if id in reg.enumIds then Ok(reg.enumIds[id]) else Err(UnknownEnumId(id))
    case ListOf(elem) =>
      var e :- ListElemType(elem, reg);
      Ok("List(" + e + ")")
  }

  /** One iteration of `parse_struct`: the type is resolved first, then the
      name is capitalised. */
  function ResolveField(f: Field, reg: Registry): (r: Result<(string, string), ResolveError>)
    ensures r.Ok? <==> FieldType(f.kind, reg).Ok? && |f.name| > 0
    ensures r.Ok? ==> r.value == (Cap(f.name), FieldType(f.kind, reg).value)
    ensures FieldType(f.kind, reg).Err? ==> r == Err(FieldType(f.kind, reg).error)
  {
    var t :- FieldType(f.kind, reg);
    if |f.name| == 0 then Err(EmptyName) else Ok((Cap(f.name), t))
  }

  predicate FieldsResolve(fs: seq<Field>, reg: Registry) {
    forall i :: 0 <= i < |fs| ==> ResolveField(fs[i], reg).Ok?
  }

  /** The (key, type string) pair of every field, in declaration order. */
  function ResolvedPairs(fs: seq<Field>, reg: Registry): (ps: seq<(string, string)>)
    requires FieldsResolve(fs, reg)
    ensures |ps| == |fs|
  {
    seq(|fs|, i requires 0 <= i < |fs| && FieldsResolve(fs, reg) => ResolveField(fs[i], reg).value)
  }

  /** `parse_struct`: assigns `res[cap(name)] = type` field by field; the
      first field that fails to resolve stops it. */
  function ParseStruct(fs: seq<Field>, reg: Registry): (r: Result<seq<(string, string)>, ResolveError>)
    ensures r.Ok? <==> FieldsResolve(fs, reg)
    ensures r.Ok? ==> r.value == FromPairs(ResolvedPairs(fs, reg))
    ensures r.Err? ==> FirstFailure(fs, reg, r.error)
  {
    if |fs| == 0 then Ok([])
    else
      var init := fs[..|fs| - 1];
      var last := fs[|fs| - 1];
      match ParseStruct(init, reg)
      case Err(e) =>
        FirstFailureExtends(init, fs, reg, e);
        Err(e)
      case Ok(res) =>
        match ResolveField(last, reg)
        case Err(e) =>
          assert fs[..|fs| - 1] == init;
          Err(e)
        case Ok(entry) =>
          ResolvedPairsSnoc(fs, reg);
          Ok(Put(res, entry.0, entry.1))
  }

  /** Resolving all fields but the last, then the last. */
  lemma ResolvedPairsSnoc(fs: seq<Field>, reg: Registry)
    requires |fs| > 0 && FieldsResolve(fs[..|fs| - 1], reg) && ResolveField(fs[|fs| - 1], reg).Ok?
    ensures FieldsResolve(fs, reg)
    ensures ResolvedPairs(fs, reg)[..|fs| - 1] == ResolvedPairs(fs[..|fs| - 1], reg)
    ensures ResolvedPairs(fs, reg)[|fs| - 1] == ResolveField(fs[|fs| - 1], reg).value
  {
    var init := fs[..|fs| - 1];
    assert forall i :: 0 <= i < |init| ==> init[i] == fs[i];
  }

  /** Field `i` is the first that fails to resolve, and fails with `e`. */
  predicate FirstFailure(fs: seq<Field>, reg: Registry, e: ResolveError) {
    exists i :: 0 <= i < |fs| && ResolveField(fs[i], reg) == Err(e) && FieldsResolve(fs[..i], reg)
  }

  lemma FirstFailureExtends(fs: seq<Field>, gs: seq<Field>, reg: Registry, e: ResolveError)
    requires FirstFailure(fs, reg, e) && fs <= gs
    ensures FirstFailure(gs, reg, e)
  {
    var i :| 0 <= i < |fs| && ResolveField(fs[i], reg) == Err(e) && FieldsResolve(fs[..i], reg);
    assert gs[..i] == fs[..i];
    assert gs[i] == fs[i];
  }

  // ---------------------------------------------------------------------------
  // Enum resolution

  /** `[cap(e) for e in enumerants]`. */
  function CapAll(es: seq<string>): (r: Result<seq<string>, ResolveError>)
    ensures r.Ok? <==> forall i :: 0 <= i < |es| ==> |es[i]| > 0
    ensures r.Ok? ==> |r.value| == |es| && forall i :: 0 <= i < |es| ==> r.value[i] == Cap(es[i])
    ensures r.Err? ==> r.error == EmptyName
  {
    if |es| == 0 then Ok([])
    else if |es[0]| == 0 then Err(EmptyName)
    else
      var rest :- CapAll(es[1..]);
      Ok([Cap(es[0])] + rest)
  }

  /** The enumerants of an enum node: every enumerant capitalised, then the
      first (the reserved "not set" sentinel) dropped. */
  function ParseEnum(es: seq<string>): (r: Result<seq<string>, ResolveError>)
    ensures r.Ok? <==> forall i :: 0 <= i < |es| ==> |es[i]| > 0
    ensures r.Ok? ==> |r.value| == if |es| == 0 then 0 else |es| - 1
    ensures r.Ok? ==> forall k :: 0 <= k < |r.value| ==> r.value[k] == Cap(es[k + 1])
  {
    var caps :- CapAll(es);
    Ok(if |caps| == 0 then [] else caps[1..])
  }

  // ---------------------------------------------------------------------------
  // The whole schema

  function ParseContent(d: Decl, reg: Registry): (r: Result<Node, ResolveError>)
    ensures d.StructDecl? ==> (r.Ok? <==> FieldsResolve(d.fields, reg))
    ensures d.EnumDecl? ==> (r.Ok? <==> forall i :: 0 <= i < |d.enumerants| ==> |d.enumerants[i]| > 0)
    ensures r.Ok? ==> (r.value.Fields? <==> d.StructDecl?)
    ensures r.Ok? && d.StructDecl? ==> r.value == Fields(ParseStruct(d.fields, reg).value)
    ensures r.Ok? && d.EnumDecl? ==> r.value == Enumerants(ParseEnum(d.enumerants).value)
  {
    match d
    case StructDecl(_, _, fs) =>
      var m :- ParseStruct(fs, reg);
      Ok(Fields(m))
    case EnumDecl(_, _, es) =>
      var names :- ParseEnum(es);
      Ok(Enumerants(names))
  }

  /** Declaration `i` resolves against the indexes built up to and including
      its own registration. */
  predicate DeclResolves(ds: seq<Decl>, i: nat)
    requires i < |ds|
  {
    ParseContent(ds[i], RegistryOf(ds[..i + 1])).Ok?
  }

  /** `Parser.parse` after the schema is loaded: each declaration registers its
      id, then its content is resolved and stored under its name. The first
      failure stops the pass and no map is returned. */
  function Parse(ds: seq<Decl>): (r: Result<Nodes, ResolveError>)
    ensures r.Ok? <==> forall i :: 0 <= i < |ds| ==> DeclResolves(ds, i)
  {
    if |ds| == 0 then Ok([])
    else
      var init := ds[..|ds| - 1];
      forall i | 0 <= i < |init|
        ensures DeclResolves(init, i) == DeclResolves(ds, i)
      {
        assert init[..i + 1] == ds[..i + 1];
      }
      assert ds[..|ds|] == ds;
      var nodes :- Parse(init);
      var d := ds[|ds| - 1];
      assert DeclResolves(ds, |ds| - 1) == ParseContent(d, RegistryOf(ds)).Ok?;
      var content :- ParseContent(d, RegistryOf(ds));
      Ok(Put(nodes, d.name, content))
  }

  // ---------------------------------------------------------------------------
  // Properties of resolution

  /** The name of the last struct declared with id `id`, if any. */
  function LatestStruct(ds: seq<Decl>, id: TypeId): (r: Option<string>)
    ensures r.Some? <==> exists j :: 0 <= j < |ds| && ds[j].StructDecl? && ds[j].id == id
    ensures r.Some? ==> exists j :: 0 <= j < |ds| && ds[j].StructDecl? && ds[j].id == id && ds[j].name == r.value
  {
    if |ds| == 0 then None
    else if ds[|ds| - 1].StructDecl? && ds[|ds| - 1].id == id then Some(ds[|ds| - 1].name)
    else
      var r := LatestStruct(ds[..|ds| - 1], id);
      assert forall j :: 0 <= j < |ds| - 1 ==> ds[..|ds| - 1][j] == ds[j];
      r
  }

  /** The name of the last enum declared with id `id`, if any. */
  function LatestEnum(ds: seq<Decl>, id: TypeId): (r: Option<string>)
    ensures r.Some? <==> exists j :: 0 <= j < |ds| && ds[j].EnumDecl? && ds[j].id == id
    ensures r.Some? ==> exists j :: 0 <= j < |ds| && ds[j].EnumDecl? && ds[j].id == id && ds[j].name == r.value
  {
    if |ds| == 0 then None
    else if ds[|ds| - 1].EnumDecl? && ds[|ds| - 1].id == id then Some(ds[|ds| - 1].name)
    else
      var r := LatestEnum(ds[..|ds| - 1], id);
      assert forall j :: 0 <= j < |ds| - 1 ==> ds[..|ds| - 1][j] == ds[j];
      r
  }

  /** The id indexes hold, for every id, the name of the latest declaration
      of that id: a later declaration of the same id overwrites an earlier one. */
  lemma {:induction false} RegistryMatchesDecls(ds: seq<Decl>, id: TypeId)
    ensures id in RegistryOf(ds).structIds <==> LatestStruct(ds, id).Some?
    ensures id in RegistryOf(ds).structIds ==> RegistryOf(ds).structIds[id] == LatestStruct(ds, id).value
    ensures id in RegistryOf(ds).enumIds <==> LatestEnum(ds, id).Some?
    ensures id in RegistryOf(ds).enumIds ==> RegistryOf(ds).enumIds[id] == LatestEnum(ds, id).value
  {
    if |ds| > 0 {
      RegistryMatchesDecls(ds[..|ds| - 1], id);
    }
  }

  /** A field kind whose references all name a struct or enum among `seen`. */
  predicate KindDeclared(k: FieldKind, seen: seq<Decl>) {
    match k
    case Primitive(_) => true
    case StructRef(id) => exists j :: 0 <= j < |seen| && seen[j].StructDecl? && seen[j].id == id
    case EnumRef(id) => exists j :: 0 <= j < |seen| && seen[j].EnumDecl? && seen[j].id == id
    case ListOf(ElemStruct(id)) => exists j :: 0 <= j < |seen| && seen[j].StructDecl? && seen[j].id == id
    case ListOf(ElemTag(_)) => true
  }

  /** Declaration `i` is well formed when its names are non-empty and every
      type it references is declared at or before position `i`. */
  predicate WellFormedDecl(ds: seq<Decl>, i: nat)
    requires i < |ds|
  {
    match ds[i]
    case StructDecl(_, _, fs) => forall f :: f in fs ==> |f.name| > 0 && KindDeclared(f.kind, ds[..i + 1])
    case EnumDecl(_, _, es) => forall e :: e in es ==> |e| > 0
  }

  predicate WellFormed(ds: seq<Decl>) {
    forall i :: 0 <= i < |ds| ==> WellFormedDecl(ds, i)
  }

  /** A field kind resolves against the indexes of `seen` exactly when every
      id it references is declared in `seen`. */
  lemma KindResolves(k: FieldKind, seen: seq<Decl>)
    ensures FieldType(k, RegistryOf(seen)).Ok? <==> KindDeclared(k, seen)
  {
    match k
    case Primitive(_) =>
    case StructRef(id) => RegistryMatchesDecls(seen, id);
    case EnumRef(id) => RegistryMatchesDecls(seen, id);
    case ListOf(elem) =>
      match elem
      case ElemStruct(id) => RegistryMatchesDecls(seen, id);
      case ElemTag(_) =>
  }

  /** Resolution succeeds exactly on well-formed schemas: a struct may refer to
      itself and to anything declared before it, and to nothing declared later. */
  lemma ParseSucceedsIff(ds: seq<Decl>)
    ensures Parse(ds).Ok? <==> WellFormed(ds)
  {
    forall i | 0 <= i < |ds|
      ensures DeclResolves(ds, i) <==> WellFormedDecl(ds, i)
    {
      DeclResolvesIff(ds, i);
    }
  }

  lemma DeclResolvesIff(ds: seq<Decl>, i: nat)
    requires i < |ds|
    ensures DeclResolves(ds, i) <==> WellFormedDecl(ds, i)
  {
    var seen := ds[..i + 1];
    match ds[i]
    case StructDecl(_, _, fs) =>
      forall f | f in fs
        ensures ResolveField(f, RegistryOf(seen)).Ok? <==> |f.name| > 0 && KindDeclared(f.kind, seen)
      {
        KindResolves(f.kind, seen);
      }
      assert FieldsResolve(fs, RegistryOf(seen)) <==> forall f :: f in fs ==> ResolveField(f, RegistryOf(seen)).Ok?;
    case EnumDecl(_, _, es) =>
      assert (forall e :: e in es ==> |e| > 0) <==> forall j :: 0 <= j < |es| ==> |es[j]| > 0;
  }

  /** A struct's own id is registered before its fields are resolved, so a
      field of the struct's own type, or a list of it, resolves to its name. */
  lemma SelfReferenceResolves(ds: seq<Decl>, i: nat)
    requires i < |ds| && ds[i].StructDecl?
    ensures FieldType(StructRef(ds[i].id), RegistryOf(ds[..i + 1])) == Ok(ds[i].name)
    ensures FieldType(ListOf(ElemStruct(ds[i].id)), RegistryOf(ds[..i + 1])) == Ok("List(" + ds[i].name + ")")
  {
    assert ds[..i + 1][..i] == ds[..i];
  }

  /** A field referring to a struct or enum that is declared only later (or
      never) makes resolution fail: no map is returned. */
  lemma ForwardReferenceFails(ds: seq<Decl>, i: nat, f: Field)
    requires i < |ds| && ds[i].StructDecl? && f in ds[i].fields
    requires !KindDeclared(f.kind, ds[..i + 1])
    ensures Parse(ds).Err?
  {
    ParseSucceedsIff(ds);
    assert !WellFormedDecl(ds, i);
  }

  /** The node declaration `i` resolves to. */
  function ResolvedNode(ds: seq<Decl>, i: nat): Node
    requires i < |ds| && DeclResolves(ds, i)
  {
    ParseContent(ds[i], RegistryOf(ds[..i + 1])).value
  }

  /** Resolution of a declaration does not look past it. */
  lemma PrefixDeclResolves(ds: seq<Decl>, n: nat, i: nat)
    requires i < n <= |ds|
    ensures DeclResolves(ds[..n], i) == DeclResolves(ds, i)
    ensures DeclResolves(ds, i) ==> ResolvedNode(ds[..n], i) == ResolvedNode(ds, i)
  {
    assert ds[..n][..i + 1] == ds[..i + 1];
  }

  /** One step of the parse: the last declaration's node is stored under a
      new name after the nodes of the others. */
  lemma ParseSnoc(ds: seq<Decl>)
    requires |ds| > 0 && Parse(ds).Ok?
    requires ds[|ds| - 1].name !in Keys(Parse(ds[..|ds| - 1]).value)
    ensures DeclResolves(ds, |ds| - 1)
    ensures Parse(ds).value == Parse(ds[..|ds| - 1]).value + [(ds[|ds| - 1].name, ResolvedNode(ds, |ds| - 1))]
  {
    assert ds[..|ds|] == ds;
  }

  /** `nodes` holds one entry per declaration of `ds`, in order, under the
      declaration's name and with its resolved content. */
  predicate NodesMatch(ds: seq<Decl>, nodes: Nodes) {
    && |nodes| == |ds|
    && (forall i :: 0 <= i < |ds| ==> nodes[i].0 == ds[i].name)
    && (forall i :: 0 <= i < |ds| ==> DeclResolves(ds, i) && nodes[i].1 == ResolvedNode(ds, i))
  }

  lemma NodesMatchSnoc(ds: seq<Decl>, nodes: Nodes)
    requires |ds| > 0 && NodesMatch(ds[..|ds| - 1], nodes) && DeclResolves(ds, |ds| - 1)
    ensures NodesMatch(ds, nodes + [(ds[|ds| - 1].name, ResolvedNode(ds, |ds| - 1))])
  {
    var n := |ds| - 1;
    var r := nodes + [(ds[n].name, ResolvedNode(ds, n))];
    forall i | 0 <= i < |ds|
      ensures r[i].0 == ds[i].name
      ensures DeclResolves(ds, i) && r[i].1 == ResolvedNode(ds, i)
    {
      if i < n {
        assert r[i] == nodes[i];
        assert ds[i] == ds[..n][i];
        PrefixDeclResolves(ds, n, i);
      }
    }
  }

  /** With distinct type names, the resolved map holds one entry per
      declaration, in declaration order, under the declaration's own name. */
  lemma {:induction false} ParseKeepsDeclOrder(ds: seq<Decl>)
    requires Parse(ds).Ok?
    requires Distinct(DeclNames(ds))
    ensures |Parse(ds).value| == |ds|
    ensures forall i :: 0 <= i < |ds| ==> Parse(ds).value[i].0 == ds[i].name
    ensures forall i :: 0 <= i < |ds| ==> DeclResolves(ds, i) && Parse(ds).value[i].1 == ResolvedNode(ds, i)
  {
    ParseNodesMatch(ds);
  }

  lemma {:induction false} ParseNodesMatch(ds: seq<Decl>)
    requires Parse(ds).Ok?
    requires Distinct(DeclNames(ds))
    ensures NodesMatch(ds, Parse(ds).value)
  {
    if |ds| > 0 {
      var n := |ds| - 1;
      var init := ds[..n];
      assert DeclNames(init) == DeclNames(ds)[..n];
      ParseNodesMatch(init);
      var nodes := Parse(init).value;
      assert Keys(nodes) == DeclNames(init);
      assert DeclNames(ds)[n] !in DeclNames(ds)[..n];
      ParseSnoc(ds);
      NodesMatchSnoc(ds, nodes);
    }
  }

  function DeclNames(ds: seq<Decl>): (ns: seq<string>)
    ensures |ns| == |ds| && forall i :: 0 <= i < |ds| ==> ns[i] == ds[i].name
  {
    seq(|ds|, i requires 0 <= i < |ds| => ds[i].name)
  }

  function FieldKeys(fs: seq<Field>): (ks: seq<string>)
    requires forall i :: 0 <= i < |fs| ==> |fs[i].name| > 0
    ensures |ks| == |fs| && forall i :: 0 <= i < |fs| ==> ks[i] == Cap(fs[i].name)
  {
    seq(|fs|, i requires 0 <= i < |fs| && |fs[i].name| > 0 => Cap(fs[i].name))
  }

  /** In general the field map's keys are the distinct capitalised names in
      order of first appearance, and a key colliding with an earlier one keeps
      the earlier position but takes the later field's type. */
  lemma StructFieldsLastWins(fs: seq<Field>, reg: Registry, key: string)
    requires ParseStruct(fs, reg).Ok?
    ensures forall i :: 0 <= i < |fs| ==> |fs[i].name| > 0
    ensures Keys(ParseStruct(fs, reg).value) == Dedup(FieldKeys(fs))
    ensures Get(ParseStruct(fs, reg).value, key) == LastValue(ResolvedPairs(fs, reg), key)
  {
    assert forall i :: 0 <= i < |fs| ==> ResolveField(fs[i], reg).Ok?;
    assert Keys(ResolvedPairs(fs, reg)) == FieldKeys(fs);
    FromPairsKeys(ResolvedPairs(fs, reg));
    FromPairsLastWins(ResolvedPairs(fs, reg), key);
  }

  /** When capitalised field names are distinct, the field map has one entry
      per field in declaration order: key `cap(name)`, value the field's
      resolved type string. */
  lemma StructFieldsInOrder(fs: seq<Field>, reg: Registry)
    requires ParseStruct(fs, reg).Ok?
    requires forall i :: 0 <= i < |fs| ==> |fs[i].name| > 0
    requires Distinct(FieldKeys(fs))
    ensures |ParseStruct(fs, reg).value| == |fs|
    ensures forall i :: 0 <= i < |fs| ==>
              ParseStruct(fs, reg).value[i] == (Cap(fs[i].name), FieldType(fs[i].kind, reg).value)
  {
    assert forall i :: 0 <= i < |fs| ==> ResolveField(fs[i], reg).Ok?;
    assert Keys(ResolvedPairs(fs, reg)) == FieldKeys(fs);
    FromPairsDistinct(ResolvedPairs(fs, reg));
  }

  /** `enum E { x0; x1; x2; }` resolves to the enumerants `X1`, `X2`. */
  lemma EnumSentinelDropped()
    ensures Parse([EnumDecl(7, "E", ["x0", "x1", "x2"])]) == Ok([("E", Enumerants(["X1", "X2"]))])
  {
    var es := ["x0", "x1", "x2"];
    var ds := [EnumDecl(7, "E", es)];
    assert ds[..0] == [] && ds[..1] == ds;
    assert Cap("x1") == "X1" && Cap("x2") == "X2";
    var names := ParseEnum(es).value;
    assert names == ["X1", "X2"];
    assert ParseContent(ds[0], RegistryOf(ds)) == Ok(Enumerants(["X1", "X2"]));
    assert Parse(ds[..0]) == Ok([]);
    assert |Keys<string, Node>([])| == 0;
    assert Put<string, Node>([], "E", Enumerants(["X1", "X2"])) == [("E", Enumerants(["X1", "X2"]))];
  }

  /** A list of structs is typed by the struct's name, a list of `int32` by
      the tag. */
  lemma ListTypeStrings()
    ensures Parse([StructDecl(1, "Point", []),
                   StructDecl(2, "Path", [Field("points", ListOf(ElemStruct(1))),
                                          Field("weights", ListOf(ElemTag("int32")))])])
         == Ok([("Point", Fields([])), ("Path", Fields([("Points", "List(Point)"), ("Weights", "List(int32)")]))])
  {
    var fs := [Field("points", ListOf(ElemStruct(1))), Field("weights", ListOf(ElemTag("int32")))];
    var d0 := StructDecl(1, "Point", []);
    var ds := [d0, StructDecl(2, "Path", fs)];
    assert ds[..1] == [d0] && ds[..|ds|] == ds;
    PointParses();
    var reg := RegistryOf(ds);
    assert reg == Register(RegistryOf([d0]), ds[1]);
    PathFieldsResolve(fs, reg);
    var content := Fields([("Points", "List(Point)"), ("Weights", "List(int32)")]);
    assert ParseContent(ds[1], reg) == Ok(content);
    assert Keys([("Point", Fields([]))]) == ["Point"];
    assert Put([("Point", Fields([]))], "Path", content) == [("Point", Fields([])), ("Path", content)];
  }

  lemma PointParses()
    ensures RegistryOf([StructDecl(1, "Point", [])]).structIds == map[1 := "Point"]
    ensures Parse([StructDecl(1, "Point", [])]) == Ok([("Point", Fields([]))])
  {
    var d0 := StructDecl(1, "Point", []);
    assert [d0][..0] == [] && [d0][..1] == [d0];
    assert RegistryOf([d0]) == Register(Registry(map[], map[]), d0);
    assert ParseContent(d0, RegistryOf([d0])) == Ok(Fields([]));
    assert |Keys<string, Node>([])| == 0;
    assert Put<string, Node>([], "Point", Fields([])) == [("Point", Fields([]))];
  }

  lemma PathFieldsResolve(fs: seq<Field>, reg: Registry)
    requires fs == [Field("points", ListOf(ElemStruct(1))), Field("weights", ListOf(ElemTag("int32")))]
    requires 1 in reg.structIds && reg.structIds[1] == "Point"
    ensures ParseStruct(fs, reg) == Ok([("Points", "List(Point)"), ("Weights", "List(int32)")])
  {
    assert Cap("points") == "Points" && Cap("weights") == "Weights";
    assert FieldKeys(fs) == ["Points", "Weights"];
    assert "List(" + "Point" + ")" == "List(Point)";
    assert "List(" + "int32" + ")" == "List(int32)";
    assert ListElemType(ElemStruct(1), reg) == Ok("Point");
    assert ResolveField(fs[0], reg) == Ok(("Points", "List(Point)"));
    assert ResolveField(fs[1], reg) == Ok(("Weights", "List(int32)"));
    assert FieldType(fs[0].kind, reg).value == "List(Point)";
    assert FieldType(fs[1].kind, reg).value == "List(int32)";
    assert ParseStruct(fs, reg).Ok?;
    assert "Points"[0] != "Weights"[0];
    assert Distinct(FieldKeys(fs));
    StructFieldsInOrder(fs, reg);
    var r := ParseStruct(fs, reg).value;
    assert r[0] == ("Points", "List(Point)") && r[1] == ("Weights", "List(int32)");
    assert |r| == 2;
    assert r == [("Points", "List(Point)"), ("Weights", "List(int32)")];
  }
}
