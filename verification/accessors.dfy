/** Field classification and the per-field accessors of the `Generator` in
    main.py, as structured values; `Emit` renders them as C++ text.

    A field's type string is classified against the resolved schema: a struct
    name, an enum name, or a key of the basic-type table. Each accessor family
    (`Get`, `Set`, `Has`, `Mutable`, `using ...get`) lists the fields group by
    group in a fixed group order, and inside a group in field order. */
module Accessors {
  import opened Results
  import opened OrderedMap
  import opened Resolver

  /** `CAPNP_BASIC_TYPES`: the C++ type of each Cap'n Proto primitive tag
      the generator knows, `None` for any other string. */
  function BasicType(t: string): Option<string> {
    match t
    case "void" => Some("void")
    case "bool" => Some("bool")
    case "int8" => Some("int8_t")
    case "int16" => Some("int16_t")
    case "int32" => Some("int32_t")
    case "int64" => Some("int64_t")
    case "uint8" => Some("uint8_t")
    case "uint16" => Some("uint16_t")
    case "uint32" => Some("uint32_t")
    case "uint64" => Some("uint64_t")
    case "float32" => Some("float")
    case "float64" => Some("double")
    case "text" => Some("std::string")
    case "data" => Some("std::string")
    case _ => None
  }

  /** `is_enum`: `t` names an enum node. */
  predicate IsEnum(nodes: Nodes, t: string) {
    Get(nodes, t).Some? && Get(nodes, t).value.Enumerants?
  }

  /** `is_struct`: `t` names a struct node. */
  predicate IsStruct(nodes: Nodes, t: string) {
    Get(nodes, t).Some? && Get(nodes, t).value.Fields?
  }

  /** `is_basic_type`: `t` is a key of the basic-type table. */
  predicate IsBasic(t: string) {
    BasicType(t).Some?
  }

  datatype Group = Basic | Struct | Enum

  predicate InGroup(nodes: Nodes, t: string, g: Group) {
    match g
    case Basic => IsBasic(t)
    case Struct => IsStruct(nodes, t)
    case Enum => IsEnum(nodes, t)
  }

  /** The accessor families: `generate_get_methods`, `generate_set_methods`,
      `generate_has_methods`, `generate_mutable_methods` and
      `generate_using_builder_methods`. */
  datatype Family = Getter | Setter | Presence | Mutable | Using

  /** The order in which a family lists its groups. */
  function GroupOrder(fam: Family): seq<Group> {
    match fam
    case Getter => [Basic, Struct, Enum]
    case Setter => [Basic, Struct, Enum]
    case Presence => [Struct, Enum, Basic]
    case Mutable => [Struct]
    case Using => [Struct]
  }

  /** One generated accessor: its family, the group of the field's type, the
      field's key, and the type that appears in the accessor's signature. */
  datatype Accessor = Accessor(family: Family, group: Group, field: string, typeName: string)

  /** The type written in an accessor's signature: the C++ type of a basic
      field, the resolved type name otherwise. */
  function SignatureType(g: Group, t: string): string {
    if g == Basic && IsBasic(t) then BasicType(t).value else t
  }

  /** The elements of `ps` whose mask entry is set, in order. */
  function Select<T>(ps: seq<T>, mask: seq<bool>): seq<T>
    requires |mask| == |ps|
  {
    if |ps| == 0 then []
    else (if mask[0] then [ps[0]] else []) + Select(ps[1..], mask[1..])
  }

  /** Which fields have a type of group `g`. */
  function GroupMask(nodes: Nodes, fields: seq<(string, string)>, g: Group): (r: seq<bool>)
    ensures |r| == |fields|
  {
    seq(|fields|, i requires 0 <= i < |fields| => InGroup(nodes, fields[i].1, g))
  }

  /** The fields of group `g`, in field order (the filter of a comprehension). */
  function FieldsIn(nodes: Nodes, fields: seq<(string, string)>, g: Group): seq<(string, string)> {
    Select(fields, GroupMask(nodes, fields, g))
  }

  lemma {:induction false} SelectAppend<T>(a: seq<T>, ma: seq<bool>, b: seq<T>, mb: seq<bool>)
    requires |ma| == |a| && |mb| == |b|
    ensures Select(a + b, ma + mb) == Select(a, ma) + Select(b, mb)
  {
    if |a| == 0 {
      assert a + b == b && ma + mb == mb;
    } else {
      var ab, mab := a + b, ma + mb;
      assert ab[0] == a[0] && mab[0] == ma[0];
      assert ab[1..] == a[1..] + b && mab[1..] == ma[1..] + mb;
      SelectAppend(a[1..], ma[1..], b, mb);
      var head := if ma[0] then [a[0]] else [];
      calc {
        Select(ab, mab);
        head + Select(ab[1..], mab[1..]);
        head + (Select(a[1..], ma[1..]) + Select(b, mb));
        (head + Select(a[1..], ma[1..])) + Select(b, mb);
        Select(a, ma) + Select(b, mb);
      }
    }
  }

  function Make(fam: Family, g: Group, f: (string, string)): Accessor {
    Accessor(fam, g, f.0, SignatureType(g, f.1))
  }

  function MakeAll(fam: Family, g: Group, ps: seq<(string, string)>): (r: seq<Accessor>)
    ensures |r| == |ps|
  {
    seq(|ps|, i requires 0 <= i < |ps| => Make(fam, g, ps[i]))
  }

  /** One comprehension of a `generate_*_methods` function: an accessor of
      family `fam` for each field of group `g`, in field order. */
  function Collect(nodes: Nodes, fields: seq<(string, string)>, fam: Family, g: Group): seq<Accessor> {
    MakeAll(fam, g, FieldsIn(nodes, fields, g))
  }

  /** The comprehensions of one family, concatenated in group order. */
  function CollectAll(nodes: Nodes, fields: seq<(string, string)>, fam: Family, order: seq<Group>): seq<Accessor> {
    if |order| == 0 then [] else Collect(nodes, fields, fam, order[0]) + CollectAll(nodes, fields, fam, order[1..])
  }

  /** All accessors of family `fam` for a struct with the given field map. */
  function Methods(nodes: Nodes, fields: seq<(string, string)>, fam: Family): seq<Accessor> {
    CollectAll(nodes, fields, fam, GroupOrder(fam))
  }

  lemma FieldsInAppend(nodes: Nodes, a: seq<(string, string)>, b: seq<(string, string)>, g: Group)
    ensures FieldsIn(nodes, a + b, g) == FieldsIn(nodes, a, g) + FieldsIn(nodes, b, g)
  {
    assert GroupMask(nodes, a + b, g) == GroupMask(nodes, a, g) + GroupMask(nodes, b, g);
    SelectAppend(a, GroupMask(nodes, a, g), b, GroupMask(nodes, b, g));
  }

  lemma CollectAppend(nodes: Nodes, a: seq<(string, string)>, b: seq<(string, string)>, fam: Family, g: Group)
    ensures Collect(nodes, a + b, fam, g) == Collect(nodes, a, fam, g) + Collect(nodes, b, fam, g)
  {
    FieldsInAppend(nodes, a, b, g);
  }

  lemma CollectCons(nodes: Nodes, fields: seq<(string, string)>, fam: Family, g: Group)
    requires |fields| > 0
    ensures Collect(nodes, fields, fam, g)
         == (if InGroup(nodes, fields[0].1, g) then [Make(fam, g, fields[0])] else []) + Collect(nodes, fields[1..], fam, g)
  {
    var m := GroupMask(nodes, fields, g);
    assert m[0] == InGroup(nodes, fields[0].1, g);
    assert m[1..] == GroupMask(nodes, fields[1..], g);
    var rest := FieldsIn(nodes, fields[1..], g);
    if m[0] {
      assert FieldsIn(nodes, fields, g) == [fields[0]] + rest;
      MakeAllCons(fam, g, fields[0], rest);
    } else {
      assert FieldsIn(nodes, fields, g) == rest;
    }
  }

  lemma MakeAllCons(fam: Family, g: Group, f: (string, string), rest: seq<(string, string)>)
    ensures MakeAll(fam, g, [f] + rest) == [Make(fam, g, f)] + MakeAll(fam, g, rest)
  {
    var l, r := MakeAll(fam, g, [f] + rest), [Make(fam, g, f)] + MakeAll(fam, g, rest);
    forall i | 0 <= i < |l|
      ensures l[i] == r[i]
    {
      if i > 0 {
        assert ([f] + rest)[i] == rest[i - 1];
      }
    }
  }

  // ---------------------------------------------------------------------------
  // Classification

  /** A type string never names both a struct and an enum. */
  lemma StructAndEnumExclusive(nodes: Nodes, t: string)
    ensures !(IsStruct(nodes, t) && IsEnum(nodes, t))
  {
  }

  /** A `List(...)` type string is not a key of the basic-type table, and
      (when no type name contains a parenthesis, as Cap'n Proto identifiers
      cannot) names no struct or enum either, so a list field is in no group. */
  lemma ListTypeUnclassified(nodes: Nodes, elem: string)
    requires forall k :: k in Keys(nodes) ==> '(' !in k
    ensures forall g :: !InGroup(nodes, "List(" + elem + ")", g)
  {
    var t := "List(" + elem + ")";
    assert t[4] == '(';
    assert t !in Keys(nodes);
    assert !IsBasic(t);
  }

  /** The node names whose content is (or, with `enums` false, is not) a
      list of enumerants, in node order: the `Generator` constructor's
      `enum_names` and `struct_names`. */
  function NodeNames(nodes: Nodes, enums: bool): seq<string> {
    if |nodes| == 0 then []
    else (if nodes[0].1.Enumerants? == enums then [nodes[0].0] else []) + NodeNames(nodes[1..], enums)
  }

  function EnumNames(nodes: Nodes): seq<string> {
    NodeNames(nodes, true)
  }

  function StructNames(nodes: Nodes): seq<string> {
    NodeNames(nodes, false)
  }

  /** Every node is named in exactly one of the two lists: each node adds
      one name to one list, and (keys being distinct) an enum node's name is
      in `enum_names` and not in `struct_names`, a struct node's the other
      way round. */
  lemma {:induction false} NamesPartition(nodes: Nodes)
    ensures |EnumNames(nodes)| + |StructNames(nodes)| == |nodes|
    ensures Distinct(Keys(nodes)) ==> forall i :: 0 <= i < |nodes| ==>
              && (nodes[i].0 in EnumNames(nodes) <==> nodes[i].1.Enumerants?)
              && (nodes[i].0 in StructNames(nodes) <==> nodes[i].1.Fields?)
  {
    if |nodes| > 0 {
      NamesPartition(nodes[1..]);
    }
    if Distinct(Keys(nodes)) {
      forall i | 0 <= i < |nodes|
        ensures nodes[i].0 in EnumNames(nodes) <==> nodes[i].1.Enumerants?
        ensures nodes[i].0 in StructNames(nodes) <==> nodes[i].1.Fields?
      {
        GetAt(nodes, i);
        NamesMatchClassification(nodes, nodes[i].0);
      }
    }
  }

  lemma {:induction false} NodeNamesFrom(nodes: Nodes, enums: bool, t: string)
    requires t in NodeNames(nodes, enums)
    ensures exists i :: 0 <= i < |nodes| && nodes[i].0 == t && nodes[i].1.Enumerants? == enums
  {
    if nodes[0].1.Enumerants? == enums && nodes[0].0 == t {
    } else {
      NodeNamesFrom(nodes[1..], enums, t);
      var i :| 0 <= i < |nodes[1..]| && nodes[1..][i].0 == t && nodes[1..][i].1.Enumerants? == enums;
      assert nodes[i + 1] == nodes[1..][i];
    }
  }

  lemma {:induction false} NodeNamesHas(nodes: Nodes, enums: bool, i: nat)
    requires i < |nodes| && nodes[i].1.Enumerants? == enums
    ensures nodes[i].0 in NodeNames(nodes, enums)
  {
    if i > 0 {
      NodeNamesHas(nodes[1..], enums, i - 1);
    }
  }

  /** `enum_names` lists exactly the names `is_enum` accepts and
      `struct_names` exactly those `is_struct` accepts (a dict's keys are
      distinct). */
  lemma NamesMatchClassification(nodes: Nodes, t: string)
    requires Distinct(Keys(nodes))
    ensures t in EnumNames(nodes) <==> IsEnum(nodes, t)
    ensures t in StructNames(nodes) <==> IsStruct(nodes, t)
  {
    if t in EnumNames(nodes) {
      NodeNamesFrom(nodes, true, t);
      var i :| 0 <= i < |nodes| && nodes[i].0 == t && nodes[i].1.Enumerants?;
      GetAt(nodes, i);
    }
    if t in StructNames(nodes) {
      NodeNamesFrom(nodes, false, t);
      var i :| 0 <= i < |nodes| && nodes[i].0 == t && !nodes[i].1.Enumerants?;
      GetAt(nodes, i);
    }
    if Get(nodes, t).Some? {
      var i :| 0 <= i < |nodes| && nodes[i] == (t, Get(nodes, t).value);
      NodeNamesHas(nodes, Get(nodes, t).value.Enumerants?, i);
    }
  }

  // ---------------------------------------------------------------------------
  // Grouping

  /** The accessors of group `g`, in order. */
  function FilterGroup(s: seq<Accessor>, g: Group): seq<Accessor> {
    if |s| == 0 then []
    else (if s[0].group == g then [s[0]] else []) + FilterGroup(s[1..], g)
  }

  /** The position of `g` in `order`, or `|order|` when absent. */
  function Rank(order: seq<Group>, g: Group): nat {
    if |order| == 0 then 0 else if order[0] == g then 0 else 1 + Rank(order[1..], g)
  }

  /** Reference definition: a family's accessors taken field by field, each
      field contributing one accessor per group it belongs to. */
  function PerField(nodes: Nodes, fields: seq<(string, string)>, fam: Family): seq<Accessor> {
    if |fields| == 0 then []
    else OneField(nodes, fields[0], fam, GroupOrder(fam)) + PerField(nodes, fields[1..], fam)
  }

  function OneField(nodes: Nodes, f: (string, string), fam: Family, order: seq<Group>): seq<Accessor> {
    if |order| == 0 then []
    else (if InGroup(nodes, f.1, order[0]) then [Make(fam, order[0], f)] else []) + OneField(nodes, f, fam, order[1..])
  }

  lemma {:induction false} FilterAppend(s: seq<Accessor>, t: seq<Accessor>, g: Group)
    ensures FilterGroup(s + t, g) == FilterGroup(s, g) + FilterGroup(t, g)
  {
    if |s| == 0 {
      assert s + t == t;
    } else {
      var st := s + t;
      assert st[0] == s[0];
      assert st[1..] == s[1..] + t;
      FilterAppend(s[1..], t, g);
      var head := if s[0].group == g then [s[0]] else [];
      calc {
        FilterGroup(st, g);
        head + FilterGroup(st[1..], g);
        head + (FilterGroup(s[1..], g) + FilterGroup(t, g));
        (head + FilterGroup(s[1..], g)) + FilterGroup(t, g);
        FilterGroup(s, g) + FilterGroup(t, g);
      }
    }
  }

  lemma {:induction false} FilterMakeAll(fam: Family, g: Group, ps: seq<(string, string)>, h: Group)
    ensures FilterGroup(MakeAll(fam, g, ps), h) == if g == h then MakeAll(fam, g, ps) else []
  {
    if |ps| > 0 {
      assert MakeAll(fam, g, ps)[1..] == MakeAll(fam, g, ps[1..]);
      FilterMakeAll(fam, g, ps[1..], h);
    }
  }

  lemma FilterCollect(nodes: Nodes, fields: seq<(string, string)>, fam: Family, g: Group, h: Group)
    ensures FilterGroup(Collect(nodes, fields, fam, g), h) == if g == h then Collect(nodes, fields, fam, g) else []
  {
    FilterMakeAll(fam, g, FieldsIn(nodes, fields, g), h);
  }

  lemma {:induction false} FilterCollectAll(nodes: Nodes, fields: seq<(string, string)>, fam: Family, order: seq<Group>, g: Group)
    requires Distinct(order)
    ensures FilterGroup(CollectAll(nodes, fields, fam, order), g) == if g in order then Collect(nodes, fields, fam, g) else []
  {
    if |order| > 0 {
      FilterAppend(Collect(nodes, fields, fam, order[0]), CollectAll(nodes, fields, fam, order[1..]), g);
      FilterCollect(nodes, fields, fam, order[0], g);
      FilterCollectAll(nodes, fields, fam, order[1..], g);
    }
  }

  lemma {:induction false} FilterOneField(nodes: Nodes, f: (string, string), fam: Family, order: seq<Group>, g: Group)
    requires Distinct(order)
    ensures FilterGroup(OneField(nodes, f, fam, order), g)
         == if g in order && InGroup(nodes, f.1, g) then [Make(fam, g, f)] else []
  {
    if |order| > 0 {
      var head := if InGroup(nodes, f.1, order[0]) then [Make(fam, order[0], f)] else [];
      var tail := OneField(nodes, f, fam, order[1..]);
      assert OneField(nodes, f, fam, order) == head + tail;
      DistinctTail(order, g);
      FilterAppend(head, tail, g);
      FilterHead(nodes, f, fam, order[0], g);
      FilterOneField(nodes, f, fam, order[1..], g);
    }
  }

  lemma DistinctTail<T>(s: seq<T>, x: T)
    requires |s| > 0 && Distinct(s)
    ensures Distinct(s[1..])
    ensures x in s <==> x == s[0] || x in s[1..]
    ensures x == s[0] ==> x !in s[1..]
  {
  }

  lemma FilterHead(nodes: Nodes, f: (string, string), fam: Family, h: Group, g: Group)
    ensures FilterGroup(if InGroup(nodes, f.1, h) then [Make(fam, h, f)] else [], g)
         == if h == g && InGroup(nodes, f.1, g) then [Make(fam, g, f)] else []
  {
    if InGroup(nodes, f.1, h) {
      assert [Make(fam, h, f)][1..] == [];
    }
  }

  lemma {:induction false} FilterPerField(nodes: Nodes, fields: seq<(string, string)>, fam: Family, g: Group)
    ensures FilterGroup(PerField(nodes, fields, fam), g) == if g in GroupOrder(fam) then Collect(nodes, fields, fam, g) else []
  {
    if |fields| > 0 {
      FilterAppend(OneField(nodes, fields[0], fam, GroupOrder(fam)), PerField(nodes, fields[1..], fam), g);
      FilterOneField(nodes, fields[0], fam, GroupOrder(fam), g);
      FilterPerField(nodes, fields[1..], fam, g);
      CollectCons(nodes, fields, fam, g);
    }
  }

  lemma {:induction false} MultisetByGroup(s: seq<Accessor>)
    ensures multiset(s) == multiset(FilterGroup(s, Basic)) + multiset(FilterGroup(s, Struct)) + multiset(FilterGroup(s, Enum))
  {
    if |s| > 0 {
      var t := s[1..];
      assert s == [s[0]] + t;
      MultisetByGroup(t);
      FilterGroupStep(s, Basic);
      FilterGroupStep(s, Struct);
      FilterGroupStep(s, Enum);
    }
  }

  /** One step of `FilterGroup`, counted as a multiset. */
  lemma FilterGroupStep(s: seq<Accessor>, g: Group)
    requires |s| > 0
    ensures multiset(FilterGroup(s, g))
         == (if s[0].group == g then multiset{s[0]} else multiset{}) + multiset(FilterGroup(s[1..], g))
  {
    var head := if s[0].group == g then [s[0]] else [];
    assert FilterGroup(s, g) == head + FilterGroup(s[1..], g);
    assert multiset(head) == if s[0].group == g then multiset{s[0]} else multiset{};
  }

  /** Accessors appear in non-decreasing rank of their groups. */
  predicate RankSorted(order: seq<Group>, s: seq<Accessor>) {
    forall i, j :: 0 <= i < j < |s| ==> Rank(order, s[i].group) <= Rank(order, s[j].group)
  }

  lemma SortedConcat(order: seq<Group>, first: seq<Accessor>, rest: seq<Accessor>)
    requires |order| > 0 && Distinct(order)
    requires forall a :: a in first ==> a.group == order[0]
    requires forall a :: a in rest ==> a.group in order[1..]
    requires RankSorted(order[1..], rest)
    ensures RankSorted(order, first + rest)
  {
    var r := first + rest;
    forall i, j | 0 <= i < j < |r|
      ensures Rank(order, r[i].group) <= Rank(order, r[j].group)
    {
      if i < |first| {
        assert r[i] in first;
      } else {
        var x, y := rest[i - |first|], rest[j - |first|];
        assert r[i] == x && r[j] == y;
        assert x.group in order[1..] && y.group in order[1..];
        assert x.group != order[0] && y.group != order[0];
      }
    }
  }

  lemma {:induction false} CollectAllSorted(nodes: Nodes, fields: seq<(string, string)>, fam: Family, order: seq<Group>)
    requires Distinct(order)
    ensures forall a :: a in CollectAll(nodes, fields, fam, order) ==> a.group in order
    ensures RankSorted(order, CollectAll(nodes, fields, fam, order))
  {
    if |order| > 0 {
      var first := Collect(nodes, fields, fam, order[0]);
      var rest := CollectAll(nodes, fields, fam, order[1..]);
      CollectAllSorted(nodes, fields, fam, order[1..]);
      assert forall i :: 0 <= i < |first| ==> first[i].group == order[0];
      SortedConcat(order, first, rest);
    }
  }

  /** Each family's accessors are the stable sort, by the family's group
      order, of the accessors taken field by field: the groups come in the
      family's order, each group keeps field order, and nothing is added or
      lost. */
  lemma GroupingIsStableSort(nodes: Nodes, fields: seq<(string, string)>, fam: Family)
    ensures RankSorted(GroupOrder(fam), Methods(nodes, fields, fam))
    ensures forall g :: FilterGroup(Methods(nodes, fields, fam), g) == FilterGroup(PerField(nodes, fields, fam), g)
    ensures multiset(Methods(nodes, fields, fam)) == multiset(PerField(nodes, fields, fam))
  {
    var order := GroupOrder(fam);
    assert Distinct(order);
    CollectAllSorted(nodes, fields, fam, order);
    forall g
      ensures FilterGroup(Methods(nodes, fields, fam), g) == FilterGroup(PerField(nodes, fields, fam), g)
    {
      FilterCollectAll(nodes, fields, fam, order, g);
      FilterPerField(nodes, fields, fam, g);
    }
    MultisetByGroup(Methods(nodes, fields, fam));
    MultisetByGroup(PerField(nodes, fields, fam));
  }

  // ---------------------------------------------------------------------------
  // Families compared

  /** The families spelled out group by group, as main.py concatenates them. */
  lemma MethodsByGroup(nodes: Nodes, fields: seq<(string, string)>, fam: Family)
    ensures fam.Getter? || fam.Setter? ==>
      Methods(nodes, fields, fam) == Collect(nodes, fields, fam, Basic) + Collect(nodes, fields, fam, Struct) + Collect(nodes, fields, fam, Enum)
    ensures fam.Presence? ==>
      Methods(nodes, fields, fam) == Collect(nodes, fields, fam, Struct) + Collect(nodes, fields, fam, Enum) + Collect(nodes, fields, fam, Basic)
    ensures fam.Mutable? || fam.Using? ==> Methods(nodes, fields, fam) == Collect(nodes, fields, fam, Struct)
  {
    var o := GroupOrder(fam);
    if |o| == 3 {
      assert o[1..][1..][1..] == [];
      assert CollectAll(nodes, fields, fam, o[1..][1..][1..]) == [];
      assert CollectAll(nodes, fields, fam, o[1..][1..]) == Collect(nodes, fields, fam, o[2]);
      assert CollectAll(nodes, fields, fam, o) == Collect(nodes, fields, fam, o[0]) + (Collect(nodes, fields, fam, o[1]) + Collect(nodes, fields, fam, o[2]));
    } else {
      assert o[1..] == [];
      assert CollectAll(nodes, fields, fam, o[1..]) == [];
    }
  }

  /** An accessor without its family: group, field and signature type. */
  function Erase(s: seq<Accessor>): (r: seq<(Group, string, string)>)
    ensures |r| == |s|
  {
    seq(|s|, i requires 0 <= i < |s| => (s[i].group, s[i].field, s[i].typeName))
  }

  lemma EraseAppend(s: seq<Accessor>, t: seq<Accessor>)
    ensures Erase(s + t) == Erase(s) + Erase(t)
  {
  }

  /** Two families list the same fields of a group with the same types. */
  lemma CollectErase(nodes: Nodes, fields: seq<(string, string)>, f1: Family, f2: Family, g: Group)
    ensures Erase(Collect(nodes, fields, f1, g)) == Erase(Collect(nodes, fields, f2, g))
  {
  }

  /** `Set` lines follow `Get` lines one for one: same position, same field,
      same group, same signature type. */
  lemma GetSetAligned(nodes: Nodes, fields: seq<(string, string)>)
    ensures Erase(Methods(nodes, fields, Setter)) == Erase(Methods(nodes, fields, Getter))
  {
    CollectErase(nodes, fields, Setter, Getter, Basic);
    CollectErase(nodes, fields, Setter, Getter, Struct);
    CollectErase(nodes, fields, Setter, Getter, Enum);
    MethodsByGroup(nodes, fields, Setter);
    MethodsByGroup(nodes, fields, Getter);
    EraseAppend(Collect(nodes, fields, Setter, Basic), Collect(nodes, fields, Setter, Struct));
    EraseAppend(Collect(nodes, fields, Getter, Basic), Collect(nodes, fields, Getter, Struct));
    EraseAppend(Collect(nodes, fields, Setter, Basic) + Collect(nodes, fields, Setter, Struct), Collect(nodes, fields, Setter, Enum));
    EraseAppend(Collect(nodes, fields, Getter, Basic) + Collect(nodes, fields, Getter, Struct), Collect(nodes, fields, Getter, Enum));
  }

  /** There is one `Has` line for every `Get` line: per group, the same
      fields with the same types, in the same order; only the group order
      differs. */
  lemma GetHasPaired(nodes: Nodes, fields: seq<(string, string)>, g: Group)
    ensures Erase(FilterGroup(Methods(nodes, fields, Presence), g)) == Erase(FilterGroup(Methods(nodes, fields, Getter), g))
    ensures |Methods(nodes, fields, Presence)| == |Methods(nodes, fields, Getter)|
  {
    GetHasErased(nodes, fields, g);
    GetHasSameLength(nodes, fields);
  }

  lemma GetHasErased(nodes: Nodes, fields: seq<(string, string)>, g: Group)
    ensures Erase(FilterGroup(Methods(nodes, fields, Presence), g)) == Erase(FilterGroup(Methods(nodes, fields, Getter), g))
  {
    GroupOrderComplete(Presence, g);
    GroupOrderComplete(Getter, g);
    FilterCollectAll(nodes, fields, Presence, GroupOrder(Presence), g);
    FilterCollectAll(nodes, fields, Getter, GroupOrder(Getter), g);
    CollectErase(nodes, fields, Presence, Getter, g);
  }

  /** The order of the Get, Set and Has families lists every group once. */
  lemma GroupOrderComplete(fam: Family, g: Group)
    requires fam.Getter? || fam.Setter? || fam.Presence?
    ensures Distinct(GroupOrder(fam)) && g in GroupOrder(fam)
  {
  }

  lemma GetHasSameLength(nodes: Nodes, fields: seq<(string, string)>)
    ensures |Methods(nodes, fields, Presence)| == |Methods(nodes, fields, Getter)|
  {
    MethodsByGroup(nodes, fields, Presence);
    MethodsByGroup(nodes, fields, Getter);
  }

  /** There is exactly one `Mutable` line and one `using ...get` line per
      struct-typed field, in field order. */
  lemma OnePerStructField(nodes: Nodes, fields: seq<(string, string)>)
    ensures |Methods(nodes, fields, Mutable)| == |Methods(nodes, fields, Using)| == |FieldsIn(nodes, fields, Struct)|
    ensures forall i :: 0 <= i < |FieldsIn(nodes, fields, Struct)| ==>
              Methods(nodes, fields, Mutable)[i].field == Methods(nodes, fields, Using)[i].field == FieldsIn(nodes, fields, Struct)[i].0
  {
    MethodsByGroup(nodes, fields, Mutable);
    MethodsByGroup(nodes, fields, Using);
  }

  lemma CollectSkip(nodes: Nodes, a: seq<(string, string)>, f: (string, string), b: seq<(string, string)>, fam: Family, g: Group)
    requires !InGroup(nodes, f.1, g)
    ensures Collect(nodes, a + [f] + b, fam, g) == Collect(nodes, a + b, fam, g)
  {
    FieldsInAppend(nodes, a + [f], b, g);
    FieldsInAppend(nodes, a, [f], g);
    FieldsInAppend(nodes, a, b, g);
    var m := GroupMask(nodes, [f], g);
    assert !m[0];
    assert FieldsIn(nodes, [f], g) == Select([f][1..], m[1..]) == [];
  }

  lemma {:induction false} CollectAllSkip(nodes: Nodes, a: seq<(string, string)>, f: (string, string), b: seq<(string, string)>, fam: Family, order: seq<Group>)
    requires forall g :: !InGroup(nodes, f.1, g)
    ensures CollectAll(nodes, a + [f] + b, fam, order) == CollectAll(nodes, a + b, fam, order)
  {
    if |order| > 0 {
      CollectSkip(nodes, a, f, b, fam, order[0]);
      CollectAllSkip(nodes, a, f, b, fam, order[1..]);
    }
  }

  /** A field in no group (a list field, say) changes no family's lines:
      removing it gives the same accessors. */
  lemma UnclassifiedFieldIgnored(nodes: Nodes, a: seq<(string, string)>, f: (string, string), b: seq<(string, string)>, fam: Family)
    requires forall g :: !InGroup(nodes, f.1, g)
    ensures Methods(nodes, a + [f] + b, fam) == Methods(nodes, a + b, fam)
  {
    CollectAllSkip(nodes, a, f, b, fam, GroupOrder(fam));
  }

  /** In a resolved schema with distinct type names, a field referring to a
      struct has a type string classified as a struct, and one referring to an
      enum a type string classified as an enum. */
  lemma ReferencesClassified(ds: seq<Decl>, i: nat, k: FieldKind)
    requires Parse(ds).Ok? && Distinct(DeclNames(ds)) && i < |ds|
    requires (k.StructRef? || k.EnumRef?) && KindDeclared(k, ds[..i + 1])
    ensures FieldType(k, RegistryOf(ds[..i + 1])).Ok?
    ensures k.StructRef? ==> IsStruct(Parse(ds).value, FieldType(k, RegistryOf(ds[..i + 1])).value)
    ensures k.EnumRef? ==> IsEnum(Parse(ds).value, FieldType(k, RegistryOf(ds[..i + 1])).value)
  {
    if k.StructRef? {
      StructIdClassified(ds, i, k.id);
    } else {
      EnumIdClassified(ds, i, k.id);
    }
  }

  lemma StructIdClassified(ds: seq<Decl>, i: nat, id: TypeId)
    requires Parse(ds).Ok? && Distinct(DeclNames(ds)) && i < |ds|
    requires KindDeclared(StructRef(id), ds[..i + 1])
    ensures id in RegistryOf(ds[..i + 1]).structIds
    ensures IsStruct(Parse(ds).value, RegistryOf(ds[..i + 1]).structIds[id])
  {
    var j := RegisteredStructAt(ds, i, id);
    NodeAt(ds, j);
    assert ResolvedNode(ds, j).Fields?;
  }

  /** The declaration an id registered among `ds[..i + 1]` stands for. */
  lemma RegisteredStructAt(ds: seq<Decl>, i: nat, id: TypeId) returns (j: nat)
    requires i < |ds| && KindDeclared(StructRef(id), ds[..i + 1])
    ensures id in RegistryOf(ds[..i + 1]).structIds
    ensures j <= i && ds[j].StructDecl? && ds[j].name == RegistryOf(ds[..i + 1]).structIds[id]
  {
    var seen := ds[..i + 1];
    RegistryMatchesDecls(seen, id);
    var t := RegistryOf(seen).structIds[id];
    j :| 0 <= j < |seen| && seen[j].StructDecl? && seen[j].id == id && seen[j].name == t;
    assert seen[j] == ds[j];
  }

  lemma EnumIdClassified(ds: seq<Decl>, i: nat, id: TypeId)
    requires Parse(ds).Ok? && Distinct(DeclNames(ds)) && i < |ds|
    requires KindDeclared(EnumRef(id), ds[..i + 1])
    ensures id in RegistryOf(ds[..i + 1]).enumIds
    ensures IsEnum(Parse(ds).value, RegistryOf(ds[..i + 1]).enumIds[id])
  {
    var j := RegisteredEnumAt(ds, i, id);
    NodeAt(ds, j);
    assert ResolvedNode(ds, j).Enumerants?;
  }

  /** The declaration an id registered among `ds[..i + 1]` stands for. */
  lemma RegisteredEnumAt(ds: seq<Decl>, i: nat, id: TypeId) returns (j: nat)
    requires i < |ds| && KindDeclared(EnumRef(id), ds[..i + 1])
    ensures id in RegistryOf(ds[..i + 1]).enumIds
    ensures j <= i && ds[j].EnumDecl? && ds[j].name == RegistryOf(ds[..i + 1]).enumIds[id]
  {
    var seen := ds[..i + 1];
    RegistryMatchesDecls(seen, id);
    var t := RegistryOf(seen).enumIds[id];
    j :| 0 <= j < |seen| && seen[j].EnumDecl? && seen[j].id == id && seen[j].name == t;
    assert seen[j] == ds[j];
  }

  /** In a resolved schema with distinct type names, looking a declaration's
      name up finds the node that declaration resolved to. */
  lemma NodeAt(ds: seq<Decl>, j: nat)
    requires Parse(ds).Ok? && Distinct(DeclNames(ds)) && j < |ds|
    ensures DeclResolves(ds, j)
    ensures Get(Parse(ds).value, ds[j].name) == Some(ResolvedNode(ds, j))
  {
    var nodes := Parse(ds).value;
    ParseKeepsDeclOrder(ds);
    assert |nodes| == |ds|;
    assert Distinct(Keys(nodes)) by {
      forall a, b | 0 <= a < b < |nodes|
        ensures Keys(nodes)[a] != Keys(nodes)[b]
      {
        assert Keys(nodes)[a] == DeclNames(ds)[a] && Keys(nodes)[b] == DeclNames(ds)[b];
      }
    }
    GetAt(nodes, j);
    assert nodes[j] == (ds[j].name, ResolvedNode(ds, j));
  }
}
