/** The document model a parse produces: plain immutable values. */
module Schema {
  import opened Outcomes

  /** A field's cardinality. */
  datatype Label = Required | Optional | Repeated

  /** One field of a message. `defaultValue` is the raw `default` option, if any. */
  datatype Field = Field(
    cardinality: Label,
    typeName: string,
    name: string,
    tag: int,
    defaultValue: Option<string>,
    deprecated: bool,
    documentation: string)

  datatype MessageType = MessageType(name: string, documentation: string, fields: seq<Field>)

  datatype EnumValue = EnumValue(name: string, tag: int, documentation: string)

  datatype EnumType = EnumType(name: string, documentation: string, values: seq<EnumValue>)

  /** A parsed `.proto` file: messages and enums are flat lists, nested ones included. */
  datatype ProtoFile = ProtoFile(
    fileName: string,
    packageName: Option<string>,
    dependencies: seq<string>,
    messageTypes: seq<MessageType>,
    enumTypes: seq<EnumType>)
}
