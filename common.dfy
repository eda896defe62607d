/** Names shared by the formatter/parser and the engine: the .NET integer
    limits both work against, and the optional value a nullable field or a
    failed parse yields. */
module Common {

  const Int32Max: int := 0x7FFF_FFFF
  const Int64Max: int := 0x7FFF_FFFF_FFFF_FFFF

  datatype Option<T> = None | Some(value: T)
}
