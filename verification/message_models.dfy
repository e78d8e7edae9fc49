/** The records the message scanner reports. */
module MessageModels {

  /** A struct field: its name and its declared type as source text. */
  datatype MessageField = MessageField(name: string, typeText: string)

  /** A struct with its fields in declaration order. */
  datatype MessageStruct = MessageStruct(name: string, fields: seq<MessageField>)
}
