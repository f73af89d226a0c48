/** `walk_dcim_folder`: binds the DCIM folder and runs the copy filter on each
    of its folder children in enumeration order. */
module FolderWalker {
  import opened Shell
  import opened CopyFilter

  /** The target directory after a walk, and whether the walk returned or raised. */
  datatype WalkResult = WalkResult(store: Store, outcome: Outcome)

  /** The loop over the DCIM children: bind each, then process its files. A
      child that does not bind raises and ends the walk; what earlier children
      copied stays copied. */
  function WalkFolders(store: Store, folders: seq<Folder>): WalkResult
    decreases |folders|
  {
    if folders == [] then WalkResult(store, Pass)
    else if !folders[0].bindable then WalkResult(store, Fail(BindFailed))
    else WalkFolders(CopyAll(store, folders[0].files), folders[1..])
  }

  /** The whole walk: bind DCIM, enumerate its folder children, walk them. */
  function Walk(store: Store, dcim: Folder): WalkResult {
    if !dcim.bindable then WalkResult(store, Fail(BindFailed))
    else match dcim.subfolders
      case ListFailed => WalkResult(store, Fail(EnumerationFailed))
      case Listed(folders) => WalkFolders(store, folders)
  }

  /** `walk_dcim_folder(target_folder, dcim_pidl, parent, overwrite)`. The
      parent only serves to bind the DCIM entry, whose `bindable` says how that
      goes. A raised error is returned as `Fail`. */
  method WalkDcimFolder(target: TargetFolder, dcim: Folder, overwrite: bool) returns (outcome: Outcome)
    modifies target
    ensures WalkResult(target.files, outcome) == Walk(old(target.files), dcim)
  {
    if !dcim.bindable {
      return Fail(BindFailed);
    }
    if dcim.subfolders.ListFailed? {
      return Fail(EnumerationFailed);
    }
    var folders := dcim.subfolders.items;
    var i := 0;
    while i < |folders|
      invariant 0 <= i <= |folders|
      invariant Walk(old(target.files), dcim) == WalkFolders(target.files, folders[i..])
    {
      assert folders[i..][1..] == folders[i + 1..];
      var folder := folders[i];
      if !folder.bindable {
        return Fail(BindFailed);
      }
      ProcessPhotos(target, folder, overwrite);
      i := i + 1;
    }
    return Pass;
  }

  /** Every file of the folders, folder by folder, in enumeration order. */
  function AllFiles(folders: seq<Folder>): seq<File>
    decreases |folders|
  {
    if folders == [] then [] else folders[0].files + AllFiles(folders[1..])
  }

  /** When every child binds, the walk returns normally and leaves the target
      as one run of the copy filter over all their files in order. */
  lemma {:induction false} WalkAllBindable(store: Store, folders: seq<Folder>)
    requires forall i :: 0 <= i < |folders| ==> folders[i].bindable
    ensures WalkFolders(store, folders) == WalkResult(CopyAll(store, AllFiles(folders)), Pass)
    decreases |folders|
  {
    if folders != [] {
      assert forall i :: 0 <= i < |folders[1..]| ==> folders[1..][i] == folders[i + 1];
      WalkAllBindable(CopyAll(store, folders[0].files), folders[1..]);
      CopyAllAppend(store, folders[0].files, AllFiles(folders[1..]));
    }
  }

  /** When child `k` is the first that does not bind, the walk raises after
      copying from the children before it, and from no other. */
  lemma {:induction false} WalkStopsAtUnbindable(store: Store, folders: seq<Folder>, k: nat)
    requires k < |folders| && !folders[k].bindable
    requires forall i :: 0 <= i < k ==> folders[i].bindable
    ensures WalkFolders(store, folders) == WalkResult(CopyAll(store, AllFiles(folders[..k])), Fail(BindFailed))
    decreases k
  {
    if k > 0 {
      assert forall i :: 0 <= i < k - 1 ==> folders[1..][i] == folders[i + 1];
      WalkStopsAtUnbindable(CopyAll(store, folders[0].files), folders[1..], k - 1);
      assert folders[..k] == [folders[0]] + folders[1..][..k - 1];
      assert AllFiles(folders[..k]) == folders[0].files + AllFiles(folders[1..][..k - 1]);
      CopyAllAppend(store, folders[0].files, AllFiles(folders[1..][..k - 1]));
    } else {
      assert folders[..0] == [];
    }
  }

  /** However the walk ends, a name the target already had keeps its bytes. */
  lemma {:induction false} WalkKeepsExisting(store: Store, folders: seq<Folder>, n: string)
    requires n in store
    ensures n in WalkFolders(store, folders).store
    ensures WalkFolders(store, folders).store[n] == store[n]
    decreases |folders|
  {
    if folders != [] && folders[0].bindable {
      CopyAllKeepsExisting(store, folders[0].files, n);
      WalkKeepsExisting(CopyAll(store, folders[0].files), folders[1..], n);
    }
  }

  /** A name the walk adds is the file name of a qualifying file in one of the
      DCIM children. */
  lemma {:induction false} WalkAddsOnlyQualifyingNames(store: Store, folders: seq<Folder>, n: string)
    requires n in WalkFolders(store, folders).store && n !in store
    ensures exists i, j ::
              0 <= i < |folders| && 0 <= j < |folders[i].files| &&
              Qualifies(folders[i].files[j]) && FileName(folders[i].files[j]) == n
    decreases |folders|
  {
    var first := folders[0];
    var mid := CopyAll(store, first.files);
    CopyAllNames(store, first.files, n);
    if n in mid {
      var j :| 0 <= j < |first.files| && Qualifies(first.files[j]) && FileName(first.files[j]) == n;
      assert folders[0].files[j] == first.files[j];
    } else {
      WalkAddsOnlyQualifyingNames(mid, folders[1..], n);
      var i, j :| 0 <= i < |folders[1..]| && 0 <= j < |folders[1..][i].files| &&
        Qualifies(folders[1..][i].files[j]) && FileName(folders[1..][i].files[j]) == n;
      assert folders[i + 1] == folders[1..][i];
    }
  }

  /** The walk over the children returns normally exactly when every child binds. */
  lemma {:induction false} WalkPassesIff(store: Store, folders: seq<Folder>)
    ensures WalkFolders(store, folders).outcome == Pass <==>
              forall i :: 0 <= i < |folders| ==> folders[i].bindable
    decreases |folders|
  {
    if folders != [] && folders[0].bindable {
      WalkPassesIff(CopyAll(store, folders[0].files), folders[1..]);
      assert forall i :: 0 < i < |folders| ==> folders[i] == folders[1..][i - 1];
    }
  }
}
