/** The C++ text the `Generator` in main.py writes: one line per accessor,
    the `Reader` and `Builder` wrapper classes of a struct, the `enum class`
    of an enum, and the whole output as the blocks of all nodes in order. */
module Emit {
  import opened Results
  import opened Text
  import opened OrderedMap
  import opened Resolver
  import opened Accessors
  import opened Lines

  /** Separator between the methods of a wrapper class: a newline and the
      eight spaces of method indentation. */
  const MethodSep: string := "\n        "

  /** The C++ line of one accessor of struct `structName`. */
  function Render(a: Accessor, structName: string): string {
    match a.family
    case Getter => GetLine(a.group, a.field, a.typeName)
    case Setter => SetLine(a.group, a.field, a.typeName)
    case Presence => HasLine(a.group, a.field, a.typeName)
    case Mutable => MutableLine(a.field, a.typeName)
    case Using => UsingLine(structName, a.field)
  }

  function RenderAll(s: seq<Accessor>, structName: string): (r: seq<string>)
    ensures |r| == |s|
  {
    seq(|s|, i requires 0 <= i < |s| => Render(s[i], structName))
  }

  /** An accessor whose names hold no newline renders to a single line. */
  lemma RenderOneLine(a: Accessor, structName: string)
    requires OneLine(a.field) && OneLine(a.typeName) && OneLine(structName)
    ensures OneLine(Render(a, structName))
  {
    GetOneLine(a.group, a.field, a.typeName);
    SetOneLine(a.group, a.field, a.typeName);
    HasOneLine(a.group, a.field, a.typeName);
    BuilderLinesOneLine(structName, a.field, a.typeName);
  }

  // ---------------------------------------------------------------------------
  // Fixed lines

  function ReaderConstructors(name: string): (r: seq<string>)
    ensures |r| == 2
  {
    ["Reader(" + BaseNamespace + "::" + name + "::Reader r) : " + BaseNamespace + "::" + name + "::Reader(r) {}",
     "Reader() = default;"]
  }

  function BuilderConstructors(name: string): (r: seq<string>)
    ensures |r| == 1
  {
    ["Builder(" + BaseNamespace + "::" + name + "::Builder b) : " + BaseNamespace + "::" + name + "::Builder(b), Reader(b.asReader()) {}"]
  }

  function BuilderOperators(): (r: seq<string>)
    ensures |r| == 2
  {
    ["Builder* operator->() { return this; }",
     "Builder& operator*() { return *this; }"]
  }

  function CapnpBaseReader(name: string): string {
    "const " + BaseNamespace + "::" + name + "::Reader& GetCapnpBase() const" + " { return *this; }"
  }

  function CapnpBaseBuilder(name: string): string {
    "const " + BaseNamespace + "::" + name + "::Builder& GetCapnpBase() const" + " { return *this; }"
  }

  // The literal pieces of each fixed line hold no newline.

  lemma ReaderConstructorPieces()
    ensures OneLine("Reader(") && OneLine("::") && OneLine("::Reader r) : ") && OneLine("::Reader(r) {}")
  {
  }

  lemma DefaultConstructorOneLine()
    ensures OneLine("Reader() = default;")
  {
  }

  lemma BuilderConstructorPieces()
    ensures OneLine("Builder(") && OneLine("::") && OneLine("::Builder b) : ")
  {
  }

  lemma BuilderConstructorTail()
    ensures OneLine("::Builder(b), Reader(b.asReader()) {}")
  {
  }

  lemma ArrowOneLine()
    ensures OneLine("Builder* operator->() { return this; }")
  {
  }

  lemma StarOneLine()
    ensures OneLine("Builder& operator*() { return *this; }")
  {
  }

  lemma CapnpBasePieces()
    ensures OneLine("const ") && OneLine("::") && OneLine(" { return *this; }")
  {
  }

  lemma CapnpBaseReaderPiece()
    ensures OneLine("::Reader& GetCapnpBase() const")
  {
  }

  lemma CapnpBaseBuilderPiece()
    ensures OneLine("::Builder& GetCapnpBase() const")
  {
  }

  /** The fixed lines hold no newline when the struct name holds none. */
  lemma ReaderFixedOneLine(name: string)
    requires OneLine(name)
    ensures AllOneLine(ReaderConstructors(name)) && OneLine(CapnpBaseReader(name))
  {
    NamespaceOneLine();
    ReaderConstructorPieces();
    DefaultConstructorOneLine();
    CapnpBasePieces();
    CapnpBaseReaderPiece();
  }

  lemma BuilderFixedOneLine(name: string)
    requires OneLine(name)
    ensures AllOneLine(BuilderConstructors(name)) && AllOneLine(BuilderOperators()) && OneLine(CapnpBaseBuilder(name))
  {
    NamespaceOneLine();
    BuilderConstructorPieces();
    BuilderConstructorTail();
    ArrowOneLine();
    StarOneLine();
    CapnpBasePieces();
    CapnpBaseBuilderPiece();
  }

  /** Every string of `xs` is a single line. */
  predicate AllOneLine(xs: seq<string>) {
    forall i :: 0 <= i < |xs| ==> OneLine(xs[i])
  }

  lemma AllOneLineAppend(a: seq<string>, b: seq<string>)
    requires AllOneLine(a) && AllOneLine(b)
    ensures AllOneLine(a + b)
  {
    forall i | 0 <= i < |a + b|
      ensures OneLine((a + b)[i])
    {
      if i >= |a| {
        assert (a + b)[i] == b[i - |a|];
      }
    }
  }

  // ---------------------------------------------------------------------------
  // A struct

  /** `self.nodes[name]` for a struct node: the field map the accessor
      families read (Python raises KeyError when `name` is not a node). */
  function OwnFields(nodes: Nodes, name: string): seq<(string, string)>
    requires IsStruct(nodes, name)
  {
    Get(nodes, name).value.fields
  }

  /** The methods of the `Reader` class, in order. */
  function ReaderMethods(nodes: Nodes, name: string): (r: seq<string>)
    requires IsStruct(nodes, name)
    ensures |r| == 3 + |Methods(nodes, OwnFields(nodes, name), Getter)| + |Methods(nodes, OwnFields(nodes, name), Presence)|
    ensures var g := |Methods(nodes, OwnFields(nodes, name), Getter)|;
      && r[..2] == ReaderConstructors(name)
      && r[2..2 + g] == RenderAll(Methods(nodes, OwnFields(nodes, name), Getter), name)
      && r[2 + g..|r| - 1] == RenderAll(Methods(nodes, OwnFields(nodes, name), Presence), name)
      && r[|r| - 1] == CapnpBaseReader(name)
  {
    var fs := OwnFields(nodes, name);
    var c, g, h := ReaderConstructors(name), RenderAll(Methods(nodes, fs, Getter), name), RenderAll(Methods(nodes, fs, Presence), name);
    ConcatParts(c, g, h, [CapnpBaseReader(name)]);
    c + g + h + [CapnpBaseReader(name)]
  }

  /** The methods of the `Builder` class, in order. */
  function BuilderMethods(nodes: Nodes, name: string): (r: seq<string>)
    requires IsStruct(nodes, name)
    ensures |r| == 4 + |Methods(nodes, OwnFields(nodes, name), Setter)| + |Methods(nodes, OwnFields(nodes, name), Mutable)|
    ensures var s := |Methods(nodes, OwnFields(nodes, name), Setter)|;
      && r[..3] == BuilderConstructors(name) + BuilderOperators()
      && r[3..3 + s] == RenderAll(Methods(nodes, OwnFields(nodes, name), Setter), name)
      && r[3 + s..|r| - 1] == RenderAll(Methods(nodes, OwnFields(nodes, name), Mutable), name)
      && r[|r| - 1] == CapnpBaseBuilder(name)
  {
    var fs := OwnFields(nodes, name);
    var c, s, m := BuilderConstructors(name) + BuilderOperators(), RenderAll(Methods(nodes, fs, Setter), name), RenderAll(Methods(nodes, fs, Mutable), name);
    ConcatParts(c, s, m, [CapnpBaseBuilder(name)]);
    c + s + m + [CapnpBaseBuilder(name)]
  }

  /** The four parts of a concatenation, cut back out of it. */
  lemma ConcatParts<T>(a: seq<T>, b: seq<T>, c: seq<T>, d: seq<T>)
    ensures var r := a + b + c + d;
      && r[..|a|] == a
      && r[|a|..|a| + |b|] == b
      && r[|a| + |b|..|a| + |b| + |c|] == c
      && r[|a| + |b| + |c|..] == d
  {
  }

  /** `generate_reader`. */
  function GenerateReader(nodes: Nodes, name: string): string
    requires IsStruct(nodes, name)
  {
    Join(ReaderMethods(nodes, name), MethodSep)
  }

  /** `generate_builder`. */
  function GenerateBuilder(nodes: Nodes, name: string): string
    requires IsStruct(nodes, name)
  {
    Join(BuilderMethods(nodes, name), MethodSep)
  }

  /** `generate_using_builder_methods`: unlike the other families it reads
      the field map passed to it rather than `self.nodes[name]`. */
  function GenerateUsing(nodes: Nodes, name: string, fields: seq<(string, string)>): string {
    Join(RenderAll(Methods(nodes, fields, Using), name), MethodSep)
  }

  /** The opening line of a struct's wrapper. */
  function StructHeader(name: string): string {
    "\nstruct " + name + " {\n"
  }

  /** The `Reader` class: a private Cap'n Proto reader base and the reader
      methods. */
  function ReaderClass(nodes: Nodes, name: string): string
    requires IsStruct(nodes, name)
  {
    "    struct Reader : private " + BaseNamespace + "::" + name + "::Reader {\n"
      + "    public:\n"
      + "        " + GenerateReader(nodes, name) + "\n"
      + "    };\n"
  }

  /** The `Builder` class: a private Cap'n Proto builder base, the reader
      as public base, the re-exported struct getters and the builder
      methods. */
  function BuilderClass(nodes: Nodes, name: string, fields: seq<(string, string)>): string
    requires IsStruct(nodes, name)
  {
    "    struct Builder : private " + BaseNamespace + "::" + name + "::Builder, public Reader {\n"
      + "    private:\n"
      + "        " + GenerateUsing(nodes, name, fields) + "\n"
      + "    public:\n"
      + "        " + GenerateBuilder(nodes, name) + "\n"
      + "    };\n"
  }

  /** `generate_struct`: the wrapper of struct `name`; a line of four spaces
      separates the two classes. */
  function GenerateStruct(nodes: Nodes, name: string, fields: seq<(string, string)>): string
    requires IsStruct(nodes, name)
  {
    StructHeader(name) + ReaderClass(nodes, name) + "    \n" + BuilderClass(nodes, name, fields) + Footer
  }

  /** A field whose key and type hold no newline. */
  predicate FieldsOneLine(fields: seq<(string, string)>) {
    forall i :: 0 <= i < |fields| ==> OneLine(fields[i].0) && OneLine(fields[i].1)
  }

  lemma {:induction false} OccurrencesNone(c: char, s: string)
    requires c !in s
    ensures Occurrences(c, s) == 0
  {
    if |s| > 0 {
      OccurrencesNone(c, s[1..]);
    }
  }

  /** Joining lines free of `c` puts `c` only in the separators. */
  lemma {:induction false} JoinOccurrences(c: char, xs: seq<string>, sep: string)
    requires |xs| > 0
    requires forall i :: 0 <= i < |xs| ==> c !in xs[i]
    ensures Occurrences(c, Join(xs, sep)) == (|xs| - 1) * Occurrences(c, sep)
  {
    if |xs| == 1 {
      OccurrencesNone(c, xs[0]);
    } else {
      var rest := Join(xs[1..], sep);
      assert Join(xs, sep) == xs[0] + sep + rest;
      assert forall i :: 0 <= i < |xs[1..]| ==> c !in xs[1..][i];
      OccurrencesNone(c, xs[0]);
      JoinOccurrences(c, xs[1..], sep);
      OccurrencesAppend(c, xs[0], sep);
      OccurrencesAppend(c, xs[0] + sep, rest);
      assert Occurrences(c, rest) == (|xs| - 2) * Occurrences(c, sep);
    }
  }

  /** Every accessor of `s` has one-line names. */
  predicate NamesOneLine(s: seq<Accessor>) {
    forall j :: 0 <= j < |s| ==> OneLine(s[j].field) && OneLine(s[j].typeName)
  }

  lemma BasicTypeOneLine(t: string)
    requires BasicType(t).Some?
    ensures OneLine(BasicType(t).value)
  {
  }

  /** A selected element is an element of the original sequence. */
  lemma {:induction false} SelectFrom<T>(ps: seq<T>, mask: seq<bool>, j: nat)
    requires |mask| == |ps| && j < |Select(ps, mask)|
    ensures exists i :: 0 <= i < |ps| && ps[i] == Select(ps, mask)[j]
  {
    if mask[0] && j == 0 {
      assert ps[0] == Select(ps, mask)[j];
    } else {
      var k := if mask[0] then j - 1 else j;
      SelectFrom(ps[1..], mask[1..], k);
      var m :| 0 <= m < |ps[1..]| && ps[1..][m] == Select(ps[1..], mask[1..])[k];
      assert ps[m + 1] == Select(ps, mask)[j];
    }
  }

  lemma CollectOneLine(nodes: Nodes, fields: seq<(string, string)>, fam: Family, g: Group)
    requires FieldsOneLine(fields)
    ensures NamesOneLine(Collect(nodes, fields, fam, g))
  {
    var fs := FieldsIn(nodes, fields, g);
    var c := Collect(nodes, fields, fam, g);
    forall j | 0 <= j < |fs|
      ensures OneLine(c[j].field) && OneLine(c[j].typeName)
    {
      SelectFrom(fields, GroupMask(nodes, fields, g), j);
      if g == Basic && IsBasic(fs[j].1) {
        BasicTypeOneLine(fs[j].1);
      }
    }
  }

  lemma {:induction false} CollectAllOneLine(nodes: Nodes, fields: seq<(string, string)>, fam: Family, order: seq<Group>)
    requires FieldsOneLine(fields)
    ensures NamesOneLine(CollectAll(nodes, fields, fam, order))
  {
    if |order| > 0 {
      CollectOneLine(nodes, fields, fam, order[0]);
      CollectAllOneLine(nodes, fields, fam, order[1..]);
    }
  }

  lemma RenderAllOneLine(s: seq<Accessor>, structName: string)
    requires NamesOneLine(s) && OneLine(structName)
    ensures AllOneLine(RenderAll(s, structName))
  {
    forall j | 0 <= j < |s|
      ensures OneLine(RenderAll(s, structName)[j])
    {
      RenderOneLine(s[j], structName);
    }
  }

  /** The rendered lines of a family hold no newline when the struct name
      and the field map hold none. */
  lemma FamilyOneLine(nodes: Nodes, fields: seq<(string, string)>, fam: Family, structName: string)
    requires FieldsOneLine(fields) && OneLine(structName)
    ensures AllOneLine(RenderAll(Methods(nodes, fields, fam), structName))
  {
    CollectAllOneLine(nodes, fields, fam, GroupOrder(fam));
    RenderAllOneLine(Methods(nodes, fields, fam), structName);
  }

  /** The `Reader` body has one line per method: the two constructors, one
      `Get` and one `Has` line per field of a known group, and
      `GetCapnpBase`. */
  lemma ReaderLineCount(nodes: Nodes, name: string)
    requires IsStruct(nodes, name) && OneLine(name) && FieldsOneLine(OwnFields(nodes, name))
    ensures Occurrences('\n', GenerateReader(nodes, name)) == 2 + 2 * |Methods(nodes, OwnFields(nodes, name), Getter)|
  {
    var fs := OwnFields(nodes, name);
    GetHasPaired(nodes, fs, Basic);
    FamilyOneLine(nodes, fs, Getter, name);
    FamilyOneLine(nodes, fs, Presence, name);
    ReaderFixedOneLine(name);
    var ms := ReaderMethods(nodes, name);
    var c := ReaderConstructors(name);
    var g := RenderAll(Methods(nodes, fs, Getter), name);
    var h := RenderAll(Methods(nodes, fs, Presence), name);
    AllOneLineAppend(c, g);
    AllOneLineAppend(c + g, h);
    AllOneLineAppend(c + g + h, [CapnpBaseReader(name)]);
    JoinOccurrences('\n', ms, MethodSep);
    SeparatorOneNewline();
  }

  lemma SeparatorOneNewline()
    ensures Occurrences('\n', MethodSep) == 1
  {
    OccurrencesAppend('\n', "\n", "        ");
    OccurrencesNone('\n', "        ");
  }

  /** The `Builder` body has one line per method: the constructor, the two
      operators, one `Set` line per field of a known group, one `Mutable`
      line per struct field, and `GetCapnpBase`. */
  lemma BuilderLineCount(nodes: Nodes, name: string)
    requires IsStruct(nodes, name) && OneLine(name) && FieldsOneLine(OwnFields(nodes, name))
    ensures Occurrences('\n', GenerateBuilder(nodes, name))
         == 3 + |Methods(nodes, OwnFields(nodes, name), Getter)| + |FieldsIn(nodes, OwnFields(nodes, name), Struct)|
  {
    var fs := OwnFields(nodes, name);
    GetSetAligned(nodes, fs);
    OnePerStructField(nodes, fs);
    FamilyOneLine(nodes, fs, Setter, name);
    FamilyOneLine(nodes, fs, Mutable, name);
    BuilderFixedOneLine(name);
    var ms := BuilderMethods(nodes, name);
    var c := BuilderConstructors(name) + BuilderOperators();
    var s := RenderAll(Methods(nodes, fs, Setter), name);
    var m := RenderAll(Methods(nodes, fs, Mutable), name);
    AllOneLineAppend(BuilderConstructors(name), BuilderOperators());
    AllOneLineAppend(c, s);
    AllOneLineAppend(c + s, m);
    AllOneLineAppend(c + s + m, [CapnpBaseBuilder(name)]);
    JoinOccurrences('\n', ms, MethodSep);
    SeparatorOneNewline();
  }

  // ---------------------------------------------------------------------------
  // An enum

  /** The opening line of an `enum class`. */
  function EnumHeader(name: string): string {
    "\nenum class " + name + " {\n"
  }

  /** The closing line of a block, and the indentation main.py's template
      leaves after it. */
  const Footer: string := "};\n            "

  /** The body `generate_enum` writes: four spaces, the enumerants joined by
      a comma, a newline and four spaces, then one more comma and a
      newline. */
  function EnumBodyAsWritten(es: seq<string>): string {
    "    " + Join(es, ",\n    ") + ",\n"
  }

  /** `generate_enum` as written. */
  function GenerateEnumAsWritten(name: string, es: seq<string>): string {
    EnumHeader(name) + EnumBodyAsWritten(es) + Footer
  }

  /** One enumerant line of an `enum class` body. */
  function EnumLine(e: string): string {
    "    " + e + ",\n"
  }

  /** The body of an `enum class`: one line per enumerant, each with its
      trailing comma. */
  function EnumBody(es: seq<string>): string {
    Concat(seq(|es|, i requires 0 <= i < |es| => EnumLine(es[i])))
  }

  /** `generate_enum` with the empty case handled: an enum with no enumerant
      besides the dropped sentinel gets an empty body. */
  function GenerateEnum(name: string, es: seq<string>): string {
    EnumHeader(name) + EnumBody(es) + Footer
  }

  lemma EnumBodyCons(es: seq<string>)
    requires |es| > 0
    ensures EnumBody(es) == EnumLine(es[0]) + EnumBody(es[1..])
  {
    var lines := seq(|es|, i requires 0 <= i < |es| => EnumLine(es[i]));
    assert lines[1..] == seq(|es| - 1, i requires 0 <= i < |es| - 1 => EnumLine(es[1..][i]));
  }

  /** For non-empty enumerant lists the join of main.py produces exactly
      the per-line body. */
  lemma {:induction false} JoinIsEnumBody(es: seq<string>)
    requires |es| > 0
    ensures EnumBodyAsWritten(es) == EnumBody(es)
  {
    EnumBodyCons(es);
    if |es| == 1 {
      assert es[1..] == [];
      assert EnumBody([]) == "";
    } else {
      JoinIsEnumBody(es[1..]);
      calc {
        EnumBodyAsWritten(es);
        "    " + (es[0] + ",\n    " + Join(es[1..], ",\n    ")) + ",\n";
        ("    " + es[0] + ",\n") + EnumBodyAsWritten(es[1..]);
        EnumLine(es[0]) + EnumBody(es[1..]);
      }
    }
  }

  /** The corrected enum block agrees with main.py whenever the enum has an
      enumerant besides its sentinel. */
  lemma EnumFixAgrees(name: string, es: seq<string>)
    requires |es| > 0
    ensures GenerateEnum(name, es) == GenerateEnumAsWritten(name, es)
  {
    JoinIsEnumBody(es);
  }

  /** main.py on an enum whose only enumerant is the sentinel: the body is
      a line holding a lone comma, which is not valid C++, where the
      corrected body is empty. */
  lemma EmptyEnumLoneComma(name: string)
    ensures EnumBodyAsWritten([]) == "    ,\n"
    ensures Occurrences(',', EnumBodyAsWritten([])) == 1
    ensures EnumBody([]) == ""
    ensures GenerateEnumAsWritten(name, []) != GenerateEnum(name, [])
  {
    assert EnumBodyAsWritten([]) == "    ,\n";
    OccurrencesAppend(',', "    ", ",\n");
    OccurrencesNone(',', "    ");
    OccurrencesAppend(',', ",", "\n");
    OccurrencesNone(',', "\n");
    assert |GenerateEnumAsWritten(name, [])| != |GenerateEnum(name, [])|;
  }

  /** The corrected block writes one comma per enumerant, none for an enum
      with no enumerant besides its sentinel. */
  lemma {:induction false} EnumBodyCommas(es: seq<string>)
    requires forall i :: 0 <= i < |es| ==> ',' !in es[i]
    ensures Occurrences(',', EnumBody(es)) == |es|
  {
    if |es| > 0 {
      EnumBodyCons(es);
      EnumBodyCommas(es[1..]);
      OccurrencesAppend(',', EnumLine(es[0]), EnumBody(es[1..]));
      OccurrencesAppend(',', "    " + es[0], ",\n");
      OccurrencesAppend(',', "    ", es[0]);
      OccurrencesNone(',', es[0]);
      OccurrencesNone(',', "    ");
      OccurrencesAppend(',', ",", "\n");
      OccurrencesNone(',', "\n");
    }
  }

  /** The first position of `c` in `s`. */
  function FindChar(c: char, s: string): (r: Option<nat>)
    ensures r.Some? ==> r.value < |s| && s[r.value] == c && c !in s[..r.value]
    ensures r.None? ==> c !in s
  {
    if |s| == 0 then None
    else if s[0] == c then Some(0)
    else match FindChar(c, s[1..])
      case None => None
      case Some(k) => Some(k + 1)
  }

  /** Reads an `enum class` body back into its enumerants: each line is four
      spaces, a name, a comma and a newline. */
  function ParseEnumBody(s: string): seq<string>
    decreases |s|
  {
    match FindChar(',', s)
    case None => []
    case Some(j) =>
      if 4 <= j && j + 2 <= |s| then [s[4..j]] + ParseEnumBody(s[j + 2..]) else []
  }

  lemma {:induction false} FindCharAfter(c: char, p: string, t: string, k: nat)
    requires c !in p && FindChar(c, t) == Some(k)
    ensures FindChar(c, p + t) == Some(|p| + k)
  {
    if |p| > 0 {
      assert (p + t)[1..] == p[1..] + t;
      FindCharAfter(c, p[1..], t, k);
    } else {
      assert p + t == t;
    }
  }

  /** Reading the body back gives the enumerants, provided no enumerant
      holds a comma (Cap'n Proto identifiers hold none). */
  lemma {:induction false} EnumBodyRoundTrip(es: seq<string>)
    requires forall i :: 0 <= i < |es| ==> ',' !in es[i]
    ensures ParseEnumBody(EnumBody(es)) == es
  {
    if |es| == 0 {
      assert EnumBody(es) == "";
    } else {
      EnumBodyCons(es);
      var e := es[0];
      var rest := EnumBody(es[1..]);
      var s := EnumBody(es);
      assert s == ("    " + e) + (",\n" + rest);
      assert ',' !in "    " + e;
      assert FindChar(',', ",\n" + rest) == Some(0);
      FindCharAfter(',', "    " + e, ",\n" + rest, 0);
      var j := 4 + |e|;
      assert s[4..j] == e;
      assert s[j + 2..] == rest;
      EnumBodyRoundTrip(es[1..]);
    }
  }

  // ---------------------------------------------------------------------------
  // The whole output

  /** Every struct entry names a struct node of `nodes`. */
  predicate StructsKnown(nodes: Nodes, entries: Nodes) {
    forall i :: 0 <= i < |entries| && entries[i].1.Fields? ==> IsStruct(nodes, entries[i].0)
  }

  /** The block of one node: an `enum class` for a list of enumerants, a
      wrapper struct otherwise. */
  function Block(nodes: Nodes, name: string, content: Node): string
    requires content.Fields? ==> IsStruct(nodes, name)
  {
    match content
    case Enumerants(es) => GenerateEnum(name, es)
    case Fields(fs) => GenerateStruct(nodes, name, fs)
  }

  function Blocks(nodes: Nodes, entries: Nodes): (r: seq<string>)
    requires StructsKnown(nodes, entries)
    ensures |r| == |entries|
  {
    seq(|entries|, i requires 0 <= i < |entries| && StructsKnown(nodes, entries) => Block(nodes, entries[i].0, entries[i].1))
  }

  /** The loop of `generate`: the blocks of `entries`, in order. */
  function GenerateFrom(nodes: Nodes, entries: Nodes): string
    requires StructsKnown(nodes, entries)
  {
    if |entries| == 0 then ""
    else Block(nodes, entries[0].0, entries[0].1) + GenerateFrom(nodes, entries[1..])
  }

  /** `generate(nodes)`: the blocks of all nodes, in node order. A dict's
      keys are distinct, hence the precondition. */
  function Generate(nodes: Nodes): string
    requires Distinct(Keys(nodes))
  {
    GeneratorKnowsStructs(nodes);
    GenerateFrom(nodes, nodes)
  }

  /** Every enum entry has an enumerant besides its sentinel. */
  predicate EnumsNonEmpty(entries: Nodes) {
    forall i :: 0 <= i < |entries| && entries[i].1.Enumerants? ==> |entries[i].1.names| > 0
  }

  /** The block of one node as main.py writes it, with the lone-comma enum
      body. */
  function BlockAsWritten(nodes: Nodes, name: string, content: Node): string
    requires content.Fields? ==> IsStruct(nodes, name)
  {
    match content
    case Enumerants(es) => GenerateEnumAsWritten(name, es)
    case Fields(fs) => GenerateStruct(nodes, name, fs)
  }

  function GenerateFromAsWritten(nodes: Nodes, entries: Nodes): string
    requires StructsKnown(nodes, entries)
  {
    if |entries| == 0 then ""
    else BlockAsWritten(nodes, entries[0].0, entries[0].1) + GenerateFromAsWritten(nodes, entries[1..])
  }

  /** `generate(nodes)` exactly as main.py writes it. */
  function GenerateAsWritten(nodes: Nodes): string
    requires Distinct(Keys(nodes))
  {
    GeneratorKnowsStructs(nodes);
    GenerateFromAsWritten(nodes, nodes)
  }

  /** The corrected output is main.py's output on every schema whose enums
      each keep an enumerant besides the sentinel. */
  lemma {:induction false} GenerateFixAgrees(nodes: Nodes, entries: Nodes)
    requires StructsKnown(nodes, entries) && EnumsNonEmpty(entries)
    ensures GenerateFrom(nodes, entries) == GenerateFromAsWritten(nodes, entries)
  {
    if |entries| > 0 {
      assert StructsKnown(nodes, entries[1..]) && EnumsNonEmpty(entries[1..]) by {
        forall i | 0 <= i < |entries[1..]|
          ensures entries[1..][i] == entries[i + 1]
        {
        }
      }
      GenerateFixAgrees(nodes, entries[1..]);
      match entries[0].1
      case Enumerants(es) => EnumFixAgrees(entries[0].0, es);
      case Fields(_) =>
    }
  }

  /** On a schema holding only `enum E { notSet @0; }` the two differ:
      main.py writes the lone comma, the corrected output does not. */
  lemma EmptyEnumSchemaDiffers()
    ensures Distinct(Keys([("E", Enumerants([]))]))
    ensures GenerateAsWritten([("E", Enumerants([]))]) == GenerateEnumAsWritten("E", [])
    ensures Generate([("E", Enumerants([]))]) == GenerateEnum("E", [])
    ensures Generate([("E", Enumerants([]))]) != GenerateAsWritten([("E", Enumerants([]))])
  {
    var nodes: Nodes := [("E", Enumerants([]))];
    assert Keys(nodes) == ["E"];
    assert nodes[1..] == [];
    EmptyEnumLoneComma("E");
  }

  /** Every struct node is a struct to the generator, with its own field
      map. */
  lemma GeneratorKnowsStructs(nodes: Nodes)
    requires Distinct(Keys(nodes))
    ensures StructsKnown(nodes, nodes)
    ensures forall i :: 0 <= i < |nodes| && nodes[i].1.Fields? ==> OwnFields(nodes, nodes[i].0) == nodes[i].1.fields
  {
    forall i | 0 <= i < |nodes|
      ensures Get(nodes, nodes[i].0) == Some(nodes[i].1)
    {
      GetAt(nodes, i);
    }
  }

  /** The output is the blocks of the nodes laid end to end, in order. */
  lemma {:induction false} GenerateIsBlocks(nodes: Nodes, entries: Nodes)
    requires StructsKnown(nodes, entries)
    ensures GenerateFrom(nodes, entries) == Concat(Blocks(nodes, entries))
  {
    if |entries| > 0 {
      assert StructsKnown(nodes, entries[1..]);
      GenerateIsBlocks(nodes, entries[1..]);
      assert Blocks(nodes, entries)[1..] == Blocks(nodes, entries[1..]);
    }
  }

  /** Generating a schema in two parts gives the two outputs one after the
      other: each node's block depends only on the node and the schema. */
  lemma {:induction false} GenerateAppend(nodes: Nodes, a: Nodes, b: Nodes)
    requires StructsKnown(nodes, a) && StructsKnown(nodes, b)
    ensures StructsKnown(nodes, a + b)
    ensures GenerateFrom(nodes, a + b) == GenerateFrom(nodes, a) + GenerateFrom(nodes, b)
  {
    assert StructsKnown(nodes, a + b) by {
      forall i | 0 <= i < |a + b| && (a + b)[i].1.Fields?
        ensures IsStruct(nodes, (a + b)[i].0)
      {
        if i >= |a| {
          assert (a + b)[i] == b[i - |a|];
        }
      }
    }
    if |a| == 0 {
      assert a + b == b;
    } else {
      assert (a + b)[1..] == a[1..] + b;
      assert StructsKnown(nodes, a[1..]);
      GenerateAppend(nodes, a[1..], b);
    }
  }

  lemma PrefixExtend(h: string, s: string, t: string)
    requires h <= s
    ensures h <= s + t
  {
  }

  /** Each node's block opens with its keyword and name: `enum class N {`
      for an enum node, `struct N {` for a struct node. */
  lemma BlockHeader(nodes: Nodes, name: string, content: Node)
    requires content.Fields? ==> IsStruct(nodes, name)
    ensures content.Enumerants? ==> EnumHeader(name) <= Block(nodes, name, content)
    ensures content.Fields? ==> StructHeader(name) <= Block(nodes, name, content)
  {
    match content
    case Enumerants(es) =>
      var h := EnumHeader(name);
      PrefixExtend(h, h, EnumBody(es));
      PrefixExtend(h, h + EnumBody(es), Footer);
    case Fields(fs) =>
      var h := StructHeader(name);
      var r := ReaderClass(nodes, name);
      var b := BuilderClass(nodes, name, fs);
      PrefixExtend(h, h, r);
      PrefixExtend(h, h + r, "    \n");
      PrefixExtend(h, h + r + "    \n", b);
      PrefixExtend(h, h + r + "    \n" + b, Footer);
  }
}
