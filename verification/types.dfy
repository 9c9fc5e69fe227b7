/** Shared vocabulary of the IBeamFix model: bytes, Windows integer widths,
    resource identities and the cursor entries the resource enumeration
    reports. The Win32 resource APIs are not modelled; what they would report
    is given to the model as plain values of these types.
 */
module Types {

  /** An unsigned 8-bit value, the element type of resource data. */
  type Byte = bv8

  /** A Windows WORD: integer resource IDs and language identifiers. */
  type Word = bv16

  /** One past the largest DWORD (what SizeofResource returns). */
  const DWORD_LIMIT: int := 0x1_0000_0000

  /** One past the largest non-negative 32-bit `int`. */
  const INT_LIMIT: int := 0x8000_0000

  /** One past the largest 64-bit `size_t` (a vector's size on an x64 build). */
  const SIZE_T_LIMIT: int := 0x1_0000_0000_0000_0000

  /** Resource data as SizeofResource can describe it: its length is a DWORD. */
  type Blob = s: seq<Byte> | |s| < DWORD_LIMIT

  datatype Option<+T> = None | Some(value: T)

  /** The identity of a resource inside its type directory: either an integer
      resource (the low-word value IS_INTRESOURCE recognises) or a name. */
  datatype ResId = NumericId(n: Word) | NamedId(name: string)

  /** One cursor resource reported by the name enumeration.
      `data` is None when FindResource cannot look the entry up;
      `languages` are the language IDs the language enumeration would report
      for this identity, in reporting order. */
  datatype Entry = Entry(id: ResId, data: Option<Blob>, languages: seq<Word>)
}
