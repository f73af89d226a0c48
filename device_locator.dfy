/** `get_dcim_folder` and `get_computer_shellfolder`: find the computer
    folder on the desktop, and recognise a phone by its first folders. */
module DeviceLocator {
  import opened Shell

  const InternalStorage := "Internal Storage"
  const Dcim := "DCIM"

  /** The display names the computer folder has in the locales the script knows. */
  const ComputerNames: set<string> := {"Computer", "This PC", "Dieser PC"}

  /** The warning logged when "Internal Storage" does not start with "DCIM":
      the device's name, the top folder's name and the name found (None when
      "Internal Storage" has no folder child). */
  datatype Warning = NotDcim(deviceName: string, topDirName: string, found: Option<string>)

  /** `(pidl, folder, device_name)` as `get_dcim_folder` returns it, with the
      warning it logs. */
  datatype Located = Located(dcim: Option<Folder>, parent: Option<Folder>, deviceName: string, warning: Option<Warning>)

  /** The device's first folder child is "Internal Storage". */
  predicate StartsWithInternalStorage(device: Folder) {
    var top := FirstSubfolder(device);
    top.Some? && top.value.name == InternalStorage
  }

  /** The layout of a phone: the first folder child is "Internal Storage", it
      binds, and its first folder child is "DCIM". */
  predicate IsPhoneLayout(device: Folder) {
    StartsWithInternalStorage(device) &&
    var storage := FirstSubfolder(device).value;
    var inner := FirstSubfolder(storage);
    storage.bindable && inner.Some? && inner.value.name == Dcim
  }

  /** `get_dcim_folder(device_pidl, parent)`. The bind of the device (line 78)
      and the bind and enumeration of "Internal Storage" (lines 89-90) are
      outside the `try` and raise; an enumeration error on the device itself is
      caught and means "no match". */
  function GetDcimFolder(device: Folder): (r: Result<Located>)
    ensures r.Success? ==> r.value.deviceName == device.name
    ensures r.Success? ==> (r.value.dcim.Some? <==> r.value.parent.Some?)
    ensures device.bindable && IsPhoneLayout(device) <==> r.Success? && r.value.dcim.Some?
    ensures r.Success? && r.value.dcim.Some? ==>
              var storage := FirstSubfolder(device).value;
              r.value.parent == Some(storage) && r.value.dcim == FirstSubfolder(storage)
    ensures r.Failure? <==>
              !device.bindable ||
              (StartsWithInternalStorage(device) &&
               (!FirstSubfolder(device).value.bindable || FirstSubfolder(device).value.subfolders.ListFailed?))
    ensures r.Success? && r.value.warning.Some? <==>
              device.bindable && StartsWithInternalStorage(device) &&
              FirstSubfolder(device).value.bindable && FirstSubfolder(device).value.subfolders.Listed? &&
              !IsPhoneLayout(device)
  {
    var deviceName := device.name;
    if !device.bindable then Failure(BindFailed)
    else match device.subfolders
      case ListFailed => Success(Located(None, None, deviceName, None))
      case Listed(tops) =>
        var topDirName := if tops == [] then "" else tops[0].name;
        if topDirName != InternalStorage then Success(Located(None, None, deviceName, None))
        else
          var storage := tops[0];
          if !storage.bindable then Failure(BindFailed)
          else match storage.subfolders
            case ListFailed => Failure(EnumerationFailed)
            case Listed(inner) =>
              var name := if inner == [] then None else Some(inner[0].name);
              if name != Some(Dcim) then
                Success(Located(None, None, deviceName, Some(NotDcim(deviceName, topDirName, name))))
              else Success(Located(Some(inner[0]), Some(storage), deviceName, None))
  }

  /** The index of the first folder whose name is one of `names`. */
  function FirstNamed(folders: seq<Folder>, names: set<string>): (k: Option<nat>)
    ensures k.Some? ==> k.value < |folders| && folders[k.value].name in names
    ensures k.Some? ==> forall j :: 0 <= j < k.value ==> folders[j].name !in names
    ensures k.None? ==> forall j :: 0 <= j < |folders| ==> folders[j].name !in names
    decreases |folders|
  {
    if folders == [] then None
    else if folders[0].name in names then Some(0)
    else match FirstNamed(folders[1..], names)
      case None => None
      case Some(k) => Some(k + 1)
  }

  /** `get_computer_shellfolder()`, given the folder children of the desktop:
      the first one named as the computer folder, bound; `None` if there is
      none. The enumeration and the bind are not guarded and raise. */
  function GetComputerShellFolder(desktop: Listing<Folder>): (r: Result<Option<Folder>>)
    ensures r == Failure(EnumerationFailed) <==> desktop.ListFailed?
    ensures forall k ::
              (desktop.Listed? && 0 <= k < |desktop.items| && desktop.items[k].name in ComputerNames &&
               forall j :: 0 <= j < k ==> desktop.items[j].name !in ComputerNames) ==>
              r == (if desktop.items[k].bindable then Success(Some(desktop.items[k])) else Failure(BindFailed))
    ensures r.Success? && r.value.Some? ==>
              exists k :: 0 <= k < |desktop.items| && desktop.items[k] == r.value.value &&
                r.value.value.name in ComputerNames && r.value.value.bindable &&
                forall j :: 0 <= j < k ==> desktop.items[j].name !in ComputerNames
    ensures r == Success(None) <==>
              desktop.Listed? && forall j :: 0 <= j < |desktop.items| ==> desktop.items[j].name !in ComputerNames
    ensures r == Failure(BindFailed) ==>
              exists k :: 0 <= k < |desktop.items| && !desktop.items[k].bindable &&
                desktop.items[k].name in ComputerNames &&
                forall j :: 0 <= j < k ==> desktop.items[j].name !in ComputerNames
  {
    match desktop
    case ListFailed => Failure(EnumerationFailed)
    case Listed(items) =>
      match FirstNamed(items, ComputerNames)
      case None => Success(None)
      case Some(k) => if items[k].bindable then Success(Some(items[k])) else Failure(BindFailed)
  }

  /** A device with no folder child: `top_dir_name` stays "" and nothing matches. */
  lemma NoFolderChildrenNoMatch(device: Folder)
    requires device.bindable && device.subfolders == Listed([])
    ensures GetDcimFolder(device) == Success(Located(None, None, device.name, None))
  {
  }

  /** A device whose folders cannot be listed is caught and is no match. */
  lemma EnumerationErrorNoMatch(device: Folder)
    requires device.bindable && device.subfolders == ListFailed
    ensures GetDcimFolder(device) == Success(Located(None, None, device.name, None))
  {
  }

  /** An "Internal Storage" with no folder child: `name` stays None, a warning
      is logged and nothing matches. */
  lemma EmptyInternalStorageNoMatch(device: Folder, storage: Folder, others: seq<Folder>)
    requires device.bindable && device.subfolders == Listed([storage] + others)
    requires storage.name == InternalStorage && storage.bindable && storage.subfolders == Listed([])
    ensures GetDcimFolder(device) ==
              Success(Located(None, None, device.name, Some(NotDcim(device.name, InternalStorage, None))))
  {
  }

  /** A device whose first folder is "DCIM" itself is no match, and no warning
      is logged for it: the check at line 84 returns before the warning. */
  lemma DcimAtTopNoMatch(device: Folder, top: Folder, others: seq<Folder>)
    requires device.bindable && device.subfolders == Listed([top] + others)
    requires top.name == Dcim
    ensures GetDcimFolder(device) == Success(Located(None, None, device.name, None))
  {
  }

  /** Only the first folder counts: "Internal Storage" in second place is no match. */
  lemma SecondFolderIgnored(device: Folder, first: Folder, storage: Folder, others: seq<Folder>)
    requires device.bindable && device.subfolders == Listed([first, storage] + others)
    requires first.name != InternalStorage
    ensures GetDcimFolder(device) == Success(Located(None, None, device.name, None))
  {
  }
}
