/** The C++ line templates of the accessor families of main.py, one
    function per family. */
module Lines {
  import opened Accessors

  /** The namespace of the Cap'n Proto generated classes being wrapped. */
  const BaseNamespace: string := "NKikimrCapnProto_"

  // ---------------------------------------------------------------------------
  // One accessor, one line

  /** `generate_get_methods`: the line of field `n` of signature type `t`.
      An enum getter shifts the stored ordinal down by one, past the
      sentinel. */
  function GetLine(g: Group, n: string, t: string): string {
    match g
    case Basic => t + " Get" + n + "() const { return get" + n + "(); }"
    case Struct => t + "::Reader Get" + n + "() const { return get" + n + "(); }"
    case Enum => t + " Get" + n + "() const { return static_cast<" + t + ">(static_cast<size_t>(get" + n + "()) - 1); }"
  }

  /** `generate_set_methods`: an enum setter shifts the ordinal up by one. */
  function SetLine(g: Group, n: string, t: string): string {
    match g
    case Basic => "void Set" + n + "(const " + t + "& value) { return set" + n + "(value); }"
    case Struct => "void Set" + n + "(const " + t + "::Reader& value) { return set" + n + "(value.GetCapnpBase()); }"
    case Enum => "void Set" + n + "(const " + t + "& value) { return set" + n + "(static_cast<" + BaseNamespace + "::" + t + ">(static_cast<size_t>(value) + 1)); }"
  }

  /** `generate_has_methods`: presence of a struct is Cap'n Proto's `has`,
      of an enum a value other than the sentinel `NOT_SET`, of a basic
      value a value other than zero. */
  function HasLine(g: Group, n: string, t: string): string {
    match g
    case Struct => "bool Has" + n + "() const { return has" + n + "(); }"
    case Enum => "bool Has" + n + "() const { return get" + n + "() != " + BaseNamespace + "::" + t + "::NOT_SET; }"
    case Basic => "bool Has" + n + "() const { return get" + n + "() != 0; }"
  }

  /** `generate_mutable_methods`. */
  function MutableLine(n: string, t: string): string {
    t + "::Builder Mutable" + n + "() { return get" + n + "(); }"
  }

  /** `generate_using_builder_methods`: re-exports the Cap'n Proto getter of
      struct `s` that the private base hides. */
  function UsingLine(s: string, n: string): string {
    "using " + BaseNamespace + "::" + s + "::Builder::get" + n + ";"
  }

  /** No newline in `s`: it stays on one line. */
  predicate OneLine(s: string) {
    '\n' !in s
  }

  /** The literal pieces of each template case hold no newline. */
  lemma GetBasicPieces()
    ensures OneLine(" Get") && OneLine("() const { return get") && OneLine("(); }")
  {
  }

  lemma GetStructPieces()
    ensures OneLine("::Reader Get") && OneLine("() const { return get") && OneLine("(); }")
  {
  }

  lemma GetEnumPieces()
    ensures OneLine(" Get") && OneLine("() const { return static_cast<")
  {
  }

  lemma GetEnumTailPieces()
    ensures OneLine(">(static_cast<size_t>(get") && OneLine("()) - 1); }")
  {
  }

  lemma SetBasicPieces()
    ensures OneLine("void Set") && OneLine("(const ") && OneLine("& value) { return set") && OneLine("(value); }")
  {
  }

  lemma SetStructPieces()
    ensures OneLine("void Set") && OneLine("(const ") && OneLine("::Reader& value) { return set")
  {
  }

  lemma SetStructTailPieces()
    ensures OneLine("(value.GetCapnpBase()); }")
  {
  }

  lemma SetEnumPieces()
    ensures OneLine("void Set") && OneLine("(const ") && OneLine("& value) { return set") && OneLine("(static_cast<") && OneLine("::")
  {
  }

  lemma SetEnumTailPieces()
    ensures OneLine(">(static_cast<size_t>(value) + 1)); }")
  {
  }

  lemma HasBasicPieces()
    ensures OneLine("bool Has") && OneLine("() const { return get") && OneLine("() != 0; }")
  {
  }

  lemma HasStructPieces()
    ensures OneLine("bool Has") && OneLine("() const { return has") && OneLine("(); }")
  {
  }

  lemma HasEnumPieces()
    ensures OneLine("bool Has") && OneLine("() const { return get") && OneLine("() != ") && OneLine("::") && OneLine("::NOT_SET; }")
  {
  }

  lemma MutablePieces()
    ensures OneLine("::Builder Mutable") && OneLine("() { return get") && OneLine("(); }")
  {
  }

  lemma UsingPieces()
    ensures OneLine("using ") && OneLine("::") && OneLine("::Builder::get") && OneLine(";")
  {
  }

  lemma NamespaceOneLine()
    ensures OneLine(BaseNamespace)
  {
  }

  lemma GetOneLine(g: Group, n: string, t: string)
    requires OneLine(n) && OneLine(t)
    ensures OneLine(GetLine(g, n, t))
  {
    match g
    case Basic => GetBasicPieces();
    case Struct => GetStructPieces();
    case Enum => GetEnumPieces(); GetEnumTailPieces();
  }

  lemma SetOneLine(g: Group, n: string, t: string)
    requires OneLine(n) && OneLine(t)
    ensures OneLine(SetLine(g, n, t))
  {
    match g
    case Basic => SetBasicPieces();
    case Struct => SetStructPieces(); SetStructTailPieces();
    case Enum => SetEnumPieces(); SetEnumTailPieces(); NamespaceOneLine();
  }

  lemma HasOneLine(g: Group, n: string, t: string)
    requires OneLine(n) && OneLine(t)
    ensures OneLine(HasLine(g, n, t))
  {
    match g
    case Basic => HasBasicPieces();
    case Struct => HasStructPieces();
    case Enum => HasEnumPieces(); NamespaceOneLine();
  }

  lemma BuilderLinesOneLine(s: string, n: string, t: string)
    requires OneLine(s) && OneLine(n) && OneLine(t)
    ensures OneLine(MutableLine(n, t)) && OneLine(UsingLine(s, n))
  {
    MutablePieces();
    UsingPieces();
    NamespaceOneLine();
  }
}
