/** Error kinds of the disk tool and the Option/Result wrappers its operations return. */
module Outcomes {

  /** The failures the tool reports. Each Go `fmt.Errorf` (or OS error) is one constructor. */
  datatype Error =
    | InvalidSize        // "invalid size parameter"
    | InvalidUnit        // "invalid unit parameter" / "unknown unit" / "invalid unit"
    | MissingSize        // "size parameter is mandatory" (MKDISK)
    | MissingParameter   // "missing mandatory FDISK parameter"
    | ShortImage         // binary.Read hit end of file before 176 bytes
    | NegativeLength     // file.Truncate with a negative length
    | DuplicateName      // "partition name already exists"
    | NoFreeSlot         // "no available partition slots"
    | NoSpace            // "No hay suficiente espacio para la nueva partición"

  datatype Option<+T> = None | Some(value: T)

  datatype Result<+T> = Ok(value: T) | Err(error: Error)
}
