# list-photos-on-phone, modelled in Dafny

The repository is one Windows script that finds a connected iPhone in the
shell namespace and copies its new photos into the script's own directory. The model
keeps the script's decision rules and drops the COM plumbing:

- the shell namespace becomes an ordered tree (`Shell`). A folder has a display name. It
  says whether `BindToObject` on it succeeds. It has the answer to enumerating its folder
  children, which is a list or an error, and a list of file entries. A file entry has its
  address-bar display name (a path) and its bytes;
- the local target directory becomes a map from file name to bytes, held by a
  `TargetFolder` object whose `files` field the copy updates in place (`CopyFilter`);
- `os.path.basename`, `os.path.split(name)[1]`, `os.path.splitext`, `str.endswith` and
  `str.startswith` are written out for Windows paths (`Paths`);
- the stream `BindToStorage` opens is a `ByteStream` object. A `Read(n)` on it returns
  between 1 and `n` of the unread bytes. It returns nothing only when asked for none or
  when nothing is left (`Streams`);
- an exception the script does not catch becomes `Failure`/`Fail` of a `ComError`. A
  method returns it after the target changes made so far, as an aborted run leaves them
  (`FolderWalker`).

`process_photos`, `stream_file_content` and `walk_dcim_folder` are imperative methods
with loops. Each one is proved against a specification function (`CopyAll`, `Flatten`,
`Walk`), and the lemmas state the properties of those functions. `get_dcim_folder` and
`get_computer_shellfolder` are pure functions over the tree. `Scenarios` puts the locator
and the walker together on a phone with one photo and one edited variant.

Points where the code behaves in ways that are easy to misread, and which the model keeps:

- a device whose first folder is `DCIM` itself is no match, and no warning is logged.
  The check at line 84 returns before the warning at lines 94-95 (`DcimAtTopNoMatch`);
- a device entry that does not bind raises. The bind at line 78 is outside the `try`
  at lines 79-87, which catches only an error from listing the device or from naming its
  first folder (`GetDisplayNameOf` at line 82). The model has only the listing error,
  because display names never raise in it. The bind and the enumeration of
  "Internal Storage" at lines 89-90 are not guarded either;
- a file is skipped when the target has its full name (base name plus extension). The
  base name alone is not what is checked;
- `overwrite` is accepted and never read. The model keeps that no-op: `ProcessPhotos`
  and `WalkDcimFolder` have contracts that do not mention the flag.

## Model

| member | source | states |
|---|---|---|
| `CopyFilter.ProcessPhotos` | list-photos-on-phone.py:22-45 | the target afterwards is `CopyAll` of the target before over the folder's entries in enumeration order, whatever `overwrite` is |
| `CopyFilter.ProcessEntry` | list-photos-on-phone.py:30-45 | one pass of the loop changes the target as `CopyEntry` says: a qualifying entry whose file name is absent gets stored with its bytes, and every other entry leaves the target unchanged |
| `CopyFilter.ReadEntry` | list-photos-on-phone.py:39-41 | joining the chunks that `stream_file_content` yields gives exactly the entry's bytes |
| `CopyFilter.TargetFolder.IsFile` | list-photos-on-phone.py:37 | the existence check answers true exactly when the name is in the target |
| `CopyFilter.TargetFolder.Write` | list-photos-on-phone.py:42 | writing a file sets that name to the data and leaves every other name as it was |
| `CopyFilter.CopyAllAppend` | list-photos-on-phone.py:29 | filtering two entry lists one after the other is filtering their concatenation |
| `CopyFilter.CopyAllKeepsExisting` | list-photos-on-phone.py:37-45 | a name already in the target is still there with the same bytes: nothing is overwritten |
| `CopyFilter.CopyAllNames` | list-photos-on-phone.py:29-42 | a name is in the target afterwards iff it was there before or is the file name of a qualifying entry (JPG extension, not `IMG_E`) |
| `CopyFilter.CopyAllFirstWins` | list-photos-on-phone.py:37-42 | a qualifying entry whose name is new to the target, and which no earlier qualifying entry shares, ends up in the target with exactly its bytes |
| `CopyFilter.NameStaysAbsent` | list-photos-on-phone.py:29-42 | a new name that no qualifying entry carries is still absent afterwards |
| `CopyFilter.CopyAddsAtHead` | list-photos-on-phone.py:37-42 | the first entry, if it qualifies and its name is new, is stored with its bytes, and later entries do not change it |
| `CopyFilter.SkippedEntryIsInert` | list-photos-on-phone.py:34-36 | an entry that does not qualify can be removed from the folder without changing the result |
| `CopyFilter.NonJpgEntryIgnored` | list-photos-on-phone.py:31-34 | an entry whose extension does not end with "JPG" (case-sensitive) causes no change |
| `CopyFilter.EditedVariantIgnored` | list-photos-on-phone.py:35-36 | a JPG entry whose base name starts with "IMG_E" is never written, whatever the target holds |
| `CopyFilter.FileNameClassification` | list-photos-on-phone.py:32-35 | for a stored name `root.ext` the filter tests the extension as written (".jpg" is not ".JPG") and the root's "IMG_E" prefix |
| `CopyFilter.DotNameIgnored` | list-photos-on-phone.py:32-34 | a name made of leading dots and text, such as ".JPG", has no extension and is never copied |
| `Streams.ByteStream.Read` | list-photos-on-phone.py:115 | a read returns at most `n` unread bytes in order; it returns nothing iff `n` is 0 or the stream is at its end |
| `Streams.StreamFileContent` | list-photos-on-phone.py:112-119 | every yielded chunk holds 1 to `buffer_size` bytes; with a positive buffer size their concatenation is the whole file; with 0 nothing is yielded |
| `Streams.FlattenAppend` | list-photos-on-phone.py:41 | appending one more chunk appends its bytes to the joined data |
| `Paths.Basename` | list-photos-on-phone.py:32 | `os.path.basename`: the result is a suffix of the path, the part after its last separator |
| `Paths.SplitExt` | list-photos-on-phone.py:32 | `os.path.splitext`: root and extension put together give the path back, and the extension is empty or starts with a dot |
| `Paths.LastIndexBefore` | list-photos-on-phone.py:32 | the `rfind` result is the last index of a character of the set, or -1 when there is none |
| `Paths.BasenameIsLastComponent` | list-photos-on-phone.py:32 | `basename` is the longest suffix of the path without a separator |
| `Paths.BasenameOfJoin` | list-photos-on-phone.py:37 | the basename of `dir\name` is `name` when the name has no separator |
| `Paths.SplitExtParts` | list-photos-on-phone.py:32 | root plus extension gives the path back; the extension is empty or one dot followed by characters that are neither dots nor separators |
| `Paths.SplitExtHasExtension` | list-photos-on-phone.py:32 | there is an extension iff the last component has a dot after a non-dot character |
| `Paths.ExtensionGivesInnerDot` | list-photos-on-phone.py:32 | a non-empty extension implies a dot after a non-dot character in the last component |
| `Paths.InnerDotGivesExtension` | list-photos-on-phone.py:32 | a dot after a non-dot character in the last component gives a non-empty extension |
| `Paths.SplitExtOfFileName` | list-photos-on-phone.py:32 | `root.ext` with a root that has a non-dot character splits into `root` and `.ext` |
| `Paths.SplitExtLeadingDots` | list-photos-on-phone.py:32 | leading dots followed by dot-free text give no extension |
| `FolderWalker.WalkDcimFolder` | list-photos-on-phone.py:48-63 | the target afterwards and the outcome are those of `Walk`: bind DCIM, enumerate its folder children, bind and filter each in order until one fails |
| `FolderWalker.WalkAllBindable` | list-photos-on-phone.py:59-63 | when every DCIM child binds, the walk returns normally, and the result is one filter run over all their files in enumeration order |
| `FolderWalker.WalkStopsAtUnbindable` | list-photos-on-phone.py:59-60 | when child `k` is the first that does not bind, the walk raises, and only the files of the children before `k` have been copied |
| `FolderWalker.WalkPassesIff` | list-photos-on-phone.py:59-63 | the walk over the children returns normally iff every child binds |
| `FolderWalker.WalkKeepsExisting` | list-photos-on-phone.py:59-63 | however the walk ends, a name the target already had keeps its bytes |
| `FolderWalker.WalkAddsOnlyQualifyingNames` | list-photos-on-phone.py:59-63 | every name the walk adds is the file name of a qualifying file in one of the DCIM children |
| `DeviceLocator.GetDcimFolder` | list-photos-on-phone.py:67-98 | without a raise, the third component is the device name; DCIM is present iff the device binds, its first folder is "Internal Storage", that binds, and its first folder is "DCIM"; on a match the parent is the bound "Internal Storage"; it raises iff the device does not bind, or "Internal Storage" is first and does not bind or list; a warning is logged iff "Internal Storage" lists but does not start with "DCIM" |
| `DeviceLocator.NoFolderChildrenNoMatch` | list-photos-on-phone.py:80-85 | a device with no folder child is no match, since `top_dir_name` stays "" |
| `DeviceLocator.EnumerationErrorNoMatch` | list-photos-on-phone.py:86-87 | an enumeration error on the device is caught and is no match |
| `DeviceLocator.EmptyInternalStorageNoMatch` | list-photos-on-phone.py:90-96 | an "Internal Storage" with no folder child is no match and logs the warning with `None` as the name found |
| `DeviceLocator.DcimAtTopNoMatch` | list-photos-on-phone.py:84-85 | a device whose first folder is "DCIM" is no match and logs no warning |
| `DeviceLocator.SecondFolderIgnored` | list-photos-on-phone.py:81-85 | only the first folder counts: "Internal Storage" in second place is no match |
| `DeviceLocator.FirstNamed` | list-photos-on-phone.py:106-108 | the index found is that of the first folder whose name is in the set, and no index means no folder has such a name |
| `DeviceLocator.GetComputerShellFolder` | list-photos-on-phone.py:101-110 | the desktop enumeration raises iff it fails; when it lists, the first folder named "Computer", "This PC" or "Dieser PC" is returned bound, or its bind raises; `None` iff no folder has such a name |
| `Scenarios.PhoneIsRecognised` | list-photos-on-phone.py:67-98 | a phone laid out as Internal Storage, then DCIM, then 100APPLE is recognised, and its DCIM folder is returned |
| `Scenarios.PhoneIsCopied` | list-photos-on-phone.py:22-63 | walking that DCIM folder into an empty directory stores `IMG_0001.JPG` with its bytes and not `IMG_E0002.JPG`; with the photo already present the directory stays as it was |

## Left out

- COM binding and display names: `BindToObject`, `BindToStorage`, `EnumObjects` and
  `GetDisplayNameOf` are replaced by the fields of the abstract tree. The two display-name
  formats are stored as one name per folder and one path per file. A `GetDisplayNameOf`
  that raises is not modelled.
- Errors in the copy itself: enumerating a folder's non-folder entries, opening a stream
  and reading from it are taken to succeed. In the script these abort the run.
- An `IStream` that returns an empty read before its end is not modelled. The script
  would then write a truncated file.
- `stream_file_content` is a generator. The model collects the chunks and joins them
  afterwards, which gives the same bytes, since nothing else happens between the reads.
- The real filesystem: `os.path.isfile`, `open(...).write` and `os.path.dirname(__file__)`.
  The target is a name-to-bytes map, so a directory with a photo's name and a write
  interrupted halfway are not modelled.
- CopyFilter.TargetFolder.IsFile: compares file names exactly, while `os.path.isfile`
  on a Windows filesystem ignores case. A target holding `img_0001.jpg` makes the script
  skip `IMG_0001.JPG`; the model stores it under a second key, and `CopyAllNames` and
  `CopyAllKeepsExisting` speak of exact names. Case folding is not modelled because it
  depends on the filesystem.
- Drive letters and UNC prefixes of Windows paths: `basename` and `splitext` split only
  on the separators `\` and `/`.
- Logging, apart from the locator's "not a DCIM dir" warning, which `Located.warning`
  carries. The `IMG_E` warning, the info and debug messages, and the timing in `main`
  (lines 126, 137) are left out.
- `main` (lines 121-137): its direct iteration over the computer folder object, and its
  crash when `get_computer_shellfolder` returns `None`, depend on how COM iterates.
- Argument parsing and logger levels (lines 140-146).
- `walk_dcim_folder`'s `parent` argument serves only to bind the DCIM entry, and the
  entry's `bindable` field gives the result of that bind. The folder name logged at
  lines 61-62 is not used.
