/** Names shared by every part of the gateway model: node ids, qualified names,
    modelling rules and browse results. */
module OpcUa {

  const UINT32_MOD := 0x1_0000_0000

  const NS0_URI := "http://opcfoundation.org/UA/"

  datatype Option<+T> = None | Some(value: T)

  /** The key of a `std::map` or `std::set` of node ids compares both strings
      (`operator<`), so Dafny's `==` is the key equality. */
  datatype NodeId = NodeId(uri: string, id: string) {

    predicate IsNull() {
      uri == "" && id == ""
    }

    /** A node id as it comes out of the server conversion: namespace 0 is "". */
    predicate Canonical() {
      uri != NS0_URI
    }

    function NormalUri(): string {
      if uri == "" then NS0_URI else uri
    }

    /** The conversion to `std::string`. */
    function Text(): string {
      (if uri == "" then "" else "nsu=" + uri + ";") + (if id == "" then "i=0" else id)
    }
  }

  const NULL_ID := NodeId("", "")

  /** `operator==` of node ids: namespace 0 may be spelled "" or in full. */
  predicate Same(a: NodeId, b: NodeId) {
    a.NormalUri() == b.NormalUri() && a.id == b.id
  }

  /** `operator==` and the key equality differ exactly on the two spellings of namespace 0. */
  lemma SameVersusKey(a: NodeId, b: NodeId)
    ensures Same(a, b) <==> (a == b || (a.id == b.id && {a.uri, b.uri} == {"", NS0_URI}))
    ensures a.Canonical() && b.Canonical() ==> (Same(a, b) <==> a == b)
  {
    if a.uri != b.uri && {a.uri, b.uri} == {"", NS0_URI} {
      assert a.uri in {a.uri, b.uri} && b.uri in {a.uri, b.uri};
    }
    if Same(a, b) && a.uri != b.uri {
      assert a.uri == "" || b.uri == "";
    }
  }

  datatype QualifiedName = QualifiedName(uri: string, name: string)

  datatype ModellingRule = NoRule | Optional | Mandatory | OptionalPlaceholder | MandatoryPlaceholder {
    predicate IsPlaceholder() {
      OptionalPlaceholder? || MandatoryPlaceholder?
    }
    predicate IsOptional() {
      Optional? || OptionalPlaceholder?
    }
  }

  datatype NodeClass = Object | Variable | Method | ObjectType | VariableType | ReferenceType | DataType | View {
    predicate IsVariable() {
      Variable? || VariableType?
    }
  }

  datatype BrowseResult = BrowseResult(nodeId: NodeId, typeDefinition: NodeId, browseName: QualifiedName)
}
