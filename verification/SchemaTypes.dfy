/** XSD types, elements and groups as the parser hands them on (src/xsd/types.rs, src/xsd/elements.rs). */
module SchemaTypes {
  import opened Wrappers

  datatype QName = QName(namespace: Option<string>, local: string)

  datatype XsdType = Complex(complex: ComplexType) | Simple(facets: string)

  /** The types a server knows (src/xsd/types.rs). */
  type Registry = map<QName, XsdType>

  datatype ComplexType = ComplexType(name: Option<string>, content: Content, attributes: seq<Attribute>)

  datatype Content =
    | Sequence(elements: seq<Element>)
    | All(elements: seq<Element>)
    | Choice(elements: seq<Element>)
    | EmptyContent
    | SimpleContent(simpleBase: QName, simpleAttributes: seq<Attribute>)
    | Extension(base: QName, inner: Content)
    | Restriction(base: QName, inner: Content)

  datatype Element = Element(
    name: Option<string>,
    typeRef: Option<QName>,
    inlineType: Option<XsdType>,
    minOccurs: nat,
    maxOccurs: Option<nat>,
    refAttr: Option<QName>)

  datatype Attribute = Attribute(name: Option<string>, typeRef: Option<QName>, required: bool, refAttr: Option<QName>)

  datatype AttributeGroup = AttributeGroup(attributes: seq<Attribute>, attributeGroups: seq<QName>)

  /** A named model group. */
  datatype Group =
    | SequenceGroup(elements: seq<Element>)
    | AllGroup(elements: seq<Element>)
    | ChoiceGroup(elements: seq<Element>)

  /** A parsed schema document. */
  datatype RawSchema = RawSchema(
    types: map<QName, XsdType>,
    elements: map<QName, Element>,
    attributeGroups: map<QName, AttributeGroup>,
    groups: map<QName, Group>,
    imports: seq<Option<string>>,
    includes: seq<string>)

  /** Everything declared in a schema and the schemas it pulls in. */
  datatype FlatTypeMap = FlatTypeMap(
    types: map<QName, XsdType>,
    elements: map<QName, Element>,
    attributeGroups: map<QName, AttributeGroup>,
    groups: map<QName, Group>)

  datatype SchemaError = LoadFailed(location: string) | CycleDetected(name: QName)
}
