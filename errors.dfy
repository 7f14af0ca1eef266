/** The exceptions the core raises, one constructor per raise site kind. */
module Errors {

  datatype Error =
      /** RuntimeError: CreateFile gave INVALID_HANDLE_VALUE. */
    | OpenFailed
      /** pywintypes.error: a Win32 call on an invalid handle, or a seek to a negative position. */
    | OsCallFailed
      /** IOError: SetFilePointer landed somewhere else than asked. */
    | SeekNotPrecise
      /** ValueError: a read size that is not a multiple of 512. */
    | SizeNotSectorMultiple
      /** IOError: ReadFile reported a non-zero result. */
    | ReadFailed(code: nat)
      /** IOError: ReadFile returned `missing` bytes fewer than asked. */
    | ShortRead(missing: nat)
      /** ValueError: geometry asked of an invalid handle. */
    | HandleInvalid
      /** IndexError: `[-1]` of an empty hdl-dump output. */
    | NoOutputLine
      /** IndexError: a disk-map field without ": ". */
    | MissingValue(field: string)
      /** ValueError: `int()` of text that is not an integer. */
    | NotAnInteger(text: string)
      /** ValueError: tuple unpacking of the wrong number of values. */
    | WrongFieldCount(count: nat)
}
