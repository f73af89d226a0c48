/** The Windows Shell namespace that the photo copier browses, replaced by an
    abstract ordered tree of folders and files. Every display name, bind and
    enumeration the script asks of the shell is answered by a field here. */
module Shell {

  newtype byte = x: int | 0 <= x < 256

  /** The shell failures the script can meet (a `pywintypes.com_error`). */
  datatype ComError =
    | BindFailed          // BindToObject on an entry that is not a bindable folder
    | EnumerationFailed   // EnumObjects on a folder that refuses to list

  /** A call that either returns a value or raises a shell error. */
  datatype Result<+T> = Success(value: T) | Failure(error: ComError)

  /** A call that returns nothing or raises a shell error. */
  datatype Outcome = Pass | Fail(error: ComError)

  datatype Option<+T> = None | Some(value: T)

  /** The answer of EnumObjects: the children in enumeration order, or an error. */
  datatype Listing<+T> = Listed(items: seq<T>) | ListFailed

  /** A non-folder entry: its SHGDN_FORADDRESSBAR display name (a path whose
      last component is the file name) and the bytes its stream delivers. */
  datatype File = File(path: string, content: seq<byte>)

  /** A folder entry: its SHGDN_NORMAL display name, whether BindToObject on it
      succeeds, the answer to enumerating its folder children, and its
      non-folder children in enumeration order. */
  datatype Folder = Folder(name: string, bindable: bool, subfolders: Listing<Folder>, files: seq<File>)

  /** The first folder child of `f` when it lists and has one. */
  function FirstSubfolder(f: Folder): (r: Option<Folder>)
    ensures r.Some? <==> f.subfolders.Listed? && |f.subfolders.items| > 0
    ensures r.Some? ==> r.value == f.subfolders.items[0]
  {
    match f.subfolders
    case ListFailed => None
    case Listed(items) => if items == [] then None else Some(items[0])
  }
}
