/** WSDL 1.1 definitions as parsed (src/wsdl/definitions.rs), as far as resolution and dispatch look at them. */
module WsdlTypes {
  import opened Wrappers
  import opened SchemaTypes

  datatype Message = Message(parts: seq<Part>)

  datatype Part = Part(name: string, element: Option<QName>)

  datatype PortType = PortType(operations: seq<Operation>)

  /** An abstract operation; its input, if any, names a message. */
  datatype Operation = Operation(name: string, input: Option<QName>)

  datatype Style = DocumentStyle | RpcStyle

  datatype Binding = Binding(style: Style, operations: seq<BindingOperation>)

  datatype BindingOperation = BindingOperation(name: string, soapAction: string, bodyNamespace: Option<string>)

  datatype Service = Service(ports: seq<Port>)

  datatype Port = Port(name: string, binding: QName)

  datatype Definition = Definition(
    targetNamespace: string,
    imports: seq<Option<string>>,
    messages: map<string, Message>,
    portTypes: map<string, PortType>,
    bindings: map<string, Binding>,
    services: map<string, Service>,
    schemas: seq<RawSchema>)

  /** A WSDL with everything it imports, and the types its schemas declare (src/wsdl/resolver.rs). */
  datatype ResolvedWsdl = ResolvedWsdl(definition: Definition, registry: Registry, elementTypes: map<QName, QName>)
}
