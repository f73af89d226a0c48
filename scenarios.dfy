/** The run the script is written for: a phone whose "Internal Storage"
    starts with "DCIM", holding one photo and one edited variant. */
module Scenarios {
  import opened Shell
  import opened Paths
  import opened CopyFilter
  import opened FolderWalker
  import opened DeviceLocator

  function PhotoFolder(dir: string, photo: seq<byte>, edited: seq<byte>): Folder {
    Folder("100APPLE", true, Listed([]),
      [File(dir + "\\100APPLE\\IMG_0001.JPG", photo), File(dir + "\\100APPLE\\IMG_E0002.JPG", edited)])
  }

  function Phone(dir: string, photo: seq<byte>, edited: seq<byte>): Folder {
    var dcim := Folder(Dcim, true, Listed([PhotoFolder(dir, photo, edited)]), []);
    var storage := Folder(InternalStorage, true, Listed([dcim]), []);
    Folder("Apple iPhone", true, Listed([storage]), [])
  }

  lemma PhotoFileName(dir: string, photo: seq<byte>)
    ensures FileName(File(dir + "\\100APPLE\\IMG_0001.JPG", photo)) == "IMG_0001.JPG"
  {
    var name := "IMG_0001.JPG";
    assert forall i :: 0 <= i < |name| ==> name[i] !in Separators;
    assert dir + "\\100APPLE\\IMG_0001.JPG" == (dir + "\\100APPLE") + "\\" + name;
    BasenameOfJoin(dir + "\\100APPLE", name);
  }

  lemma PhotoQualifies(dir: string, photo: seq<byte>)
    ensures FileName(File(dir + "\\100APPLE\\IMG_0001.JPG", photo)) == "IMG_0001.JPG"
    ensures Qualifies(File(dir + "\\100APPLE\\IMG_0001.JPG", photo))
  {
    PhotoFileName(dir, photo);
    var root := "IMG_0001";
    assert root[0] != '.';
    assert root + "." + "JPG" == "IMG_0001.JPG";
    FileNameClassification(File(dir + "\\100APPLE\\IMG_0001.JPG", photo), root, "JPG");
    PhotoIsNotEdited();
  }

  lemma PhotoIsNotEdited()
    ensures !StartsWith("IMG_0001", "IMG_E")
  {
    assert "IMG_0001"[4] != "IMG_E"[4];
  }

  lemma EditedIsSkipped(dir: string, edited: seq<byte>)
    ensures !Qualifies(File(dir + "\\100APPLE\\IMG_E0002.JPG", edited))
  {
    var name := "IMG_E0002.JPG";
    assert forall i :: 0 <= i < |name| ==> name[i] !in Separators;
    assert dir + "\\100APPLE\\IMG_E0002.JPG" == (dir + "\\100APPLE") + "\\" + name;
    BasenameOfJoin(dir + "\\100APPLE", name);
    var root := "IMG_E0002";
    assert root[0] != '.';
    assert root + "." + "JPG" == name;
    FileNameClassification(File(dir + "\\100APPLE\\IMG_E0002.JPG", edited), root, "JPG");
  }

  /** The photo folder's files do what the photo alone does. */
  lemma PhotoFolderCopy(dir: string, photo: seq<byte>, edited: seq<byte>, store: Store)
    ensures CopyAll(store, PhotoFolder(dir, photo, edited).files) ==
              if "IMG_0001.JPG" in store then store else store["IMG_0001.JPG" := photo]
  {
    var files := PhotoFolder(dir, photo, edited).files;
    PhotoQualifies(dir, photo);
    EditedIsSkipped(dir, edited);
    var after := CopyEntry(store, files[0]);
    assert CopyAll(store, files) == CopyAll(after, files[1..]);
    assert files[1..][1..] == [];
    assert CopyAll(after, files[1..]) == CopyAll(CopyEntry(after, files[1]), []);
  }

  /** The phone is recognised and its DCIM folder is the one holding the photos. */
  lemma PhoneIsRecognised(dir: string, photo: seq<byte>, edited: seq<byte>)
    ensures GetDcimFolder(Phone(dir, photo, edited)).Success?
    ensures GetDcimFolder(Phone(dir, photo, edited)).value.dcim ==
              Some(Folder(Dcim, true, Listed([PhotoFolder(dir, photo, edited)]), []))
  {
  }

  /** Walking its DCIM folder into an empty directory copies the photo with its
      bytes and not the edited variant; with the photo already present the
      directory stays as it was. */
  lemma PhoneIsCopied(dir: string, photo: seq<byte>, edited: seq<byte>, local: seq<byte>)
    ensures Walk(map[], Folder(Dcim, true, Listed([PhotoFolder(dir, photo, edited)]), [])) ==
              WalkResult(map["IMG_0001.JPG" := photo], Pass)
    ensures Walk(map["IMG_0001.JPG" := local], Folder(Dcim, true, Listed([PhotoFolder(dir, photo, edited)]), [])) ==
              WalkResult(map["IMG_0001.JPG" := local], Pass)
  {
    var folders := [PhotoFolder(dir, photo, edited)];
    PhotoFolderCopy(dir, photo, edited, map[]);
    PhotoFolderCopy(dir, photo, edited, map["IMG_0001.JPG" := local]);
    assert folders[1..] == [];
    var empty: Store := map[];
    assert empty["IMG_0001.JPG" := photo] == map["IMG_0001.JPG" := photo];
    assert WalkFolders(empty, folders) == WalkFolders(CopyAll(empty, folders[0].files), []);
    var present: Store := map["IMG_0001.JPG" := local];
    assert WalkFolders(present, folders) == WalkFolders(CopyAll(present, folders[0].files), []);
  }
}
