/** `process_photos`: copies the JPG entries of one device folder into the
    local target folder, skipping edited variants and names already present. */
module CopyFilter {
  import opened Shell
  import opened Paths
  import opened Streams

  /** The local target directory: file name to file bytes. */
  type Store = map<string, seq<byte>>

  /** The local directory the photos are copied to (`target_folder`). */
  class TargetFolder {
    var files: Store

    constructor (initial: Store)
      ensures files == initial
    {
      files := initial;
    }

    /** `os.path.isfile(os.path.join(target_folder, name))`. */
    method IsFile(name: string) returns (b: bool)
      ensures b <==> name in files
    {
      b := name in files;
    }

    /** `open(os.path.join(target_folder, name), 'wb').write(data)`. */
    method Write(name: string, data: seq<byte>)
      modifies this
      ensures files == old(files)[name := data]
    {
      files := files[name := data];
    }
  }

  /** The name the entry is stored under locally: `os.path.split(name)[1]`,
      the same component as `os.path.basename(name)`. */
  function FileName(entry: File): string {
    Basename(entry.path)
  }

  /** The extension of the last component ends with "JPG", case-sensitively. */
  predicate HasJpgExtension(entry: File) {
    EndsWith(SplitExt(Basename(entry.path)).1, "JPG")
  }

  /** The base name starts with "IMG_E", the prefix of edited variants. */
  predicate IsEditedVariant(entry: File) {
    StartsWith(SplitExt(Basename(entry.path)).0, "IMG_E")
  }

  /** The entries the filter is willing to copy. */
  predicate Qualifies(entry: File) {
    HasJpgExtension(entry) && !IsEditedVariant(entry)
  }

  /** What one pass of the loop body does to the target directory. */
  function CopyEntry(store: Store, entry: File): Store {
    if Qualifies(entry) && FileName(entry) !in store then store[FileName(entry) := entry.content]
    else store
  }

  /** What the loop does to the target directory: the entries in enumeration
      order, each seeing the directory its predecessors left. */
  function CopyAll(store: Store, entries: seq<File>): Store
    decreases |entries|
  {
    if entries == [] then store else CopyAll(CopyEntry(store, entries[0]), entries[1..])
  }

  /** `process_photos(target_folder, folder, overwrite)`. The new directory is
      `CopyAll` of the old one over the folder's entries whatever `overwrite`
      is: the argument is never read. The bytes written for an entry are the
      chunks `stream_file_content` yields, joined. */
  method ProcessPhotos(target: TargetFolder, folder: Folder, overwrite: bool)
    modifies target
    ensures target.files == CopyAll(old(target.files), folder.files)
  {
    var entries := folder.files;
    var i := 0;
    while i < |entries|
      invariant 0 <= i <= |entries|
      invariant CopyAll(old(target.files), entries) == CopyAll(target.files, entries[i..])
    {
      assert entries[i..][1..] == entries[i + 1..];
      ProcessEntry(target, entries[i]);
      i := i + 1;
    }
  }

  /** One pass of the loop in `process_photos`, for one non-folder entry. */
  method ProcessEntry(target: TargetFolder, entry: File)
    modifies target
    ensures target.files == CopyEntry(old(target.files), entry)
  {
    var name := entry.path;
    var parts := SplitExt(Basename(name));
    var basename, ext := parts.0, parts.1;
    assert HasJpgExtension(entry) == EndsWith(ext, "JPG");
    assert IsEditedVariant(entry) == StartsWith(basename, "IMG_E");
    if EndsWith(ext, "JPG") {
      if StartsWith(basename, "IMG_E") {
        // logged as a warning and skipped
      } else {
        var localName := Basename(name);
        assert localName == FileName(entry);
        var present := target.IsFile(localName);
        if !present {
          var data := ReadEntry(entry);
          target.Write(localName, data);
        }
      }
    }
  }

  /** `data = b''; for chunk in stream_file_content(folder, pidl): data += chunk`:
      the joined chunks are the entry's bytes. */
  method ReadEntry(entry: File) returns (data: seq<byte>)
    ensures data == entry.content
  {
    data := [];
    var chunks := StreamFileContent(entry, BufferSize);
    var j := 0;
    while j < |chunks|
      invariant 0 <= j <= |chunks|
      invariant data == Flatten(chunks[..j])
    {
      assert chunks[..j + 1] == chunks[..j] + [chunks[j]];
      FlattenAppend(chunks[..j], chunks[j]);
      data := data + chunks[j];
      j := j + 1;
    }
    assert chunks[..|chunks|] == chunks;
  }

  /** Running the filter over two lists one after the other is running it over
      their concatenation. */
  lemma {:induction false} CopyAllAppend(store: Store, a: seq<File>, b: seq<File>)
    ensures CopyAll(store, a + b) == CopyAll(CopyAll(store, a), b)
    decreases |a|
  {
    if a == [] {
      assert a + b == b;
    } else {
      assert (a + b)[0] == a[0];
      assert (a + b)[1..] == a[1..] + b;
      CopyAllAppend(CopyEntry(store, a[0]), a[1..], b);
    }
  }

  /** A name already in the target keeps its bytes: nothing is ever overwritten. */
  lemma {:induction false} CopyAllKeepsExisting(store: Store, entries: seq<File>, n: string)
    requires n in store
    ensures n in CopyAll(store, entries) && CopyAll(store, entries)[n] == store[n]
    decreases |entries|
  {
    if entries != [] {
      CopyAllKeepsExisting(CopyEntry(store, entries[0]), entries[1..], n);
    }
  }

  /** The names in the target afterwards are the names it had plus the file
      names of the qualifying entries, and no others. */
  lemma {:induction false} CopyAllNames(store: Store, entries: seq<File>, n: string)
    ensures n in CopyAll(store, entries) <==>
      n in store || exists i :: 0 <= i < |entries| && Qualifies(entries[i]) && FileName(entries[i]) == n
    decreases |entries|
  {
    if entries != [] {
      var rest := entries[1..];
      CopyAllNames(CopyEntry(store, entries[0]), rest, n);
      if exists i :: 0 <= i < |rest| && Qualifies(rest[i]) && FileName(rest[i]) == n {
        var i :| 0 <= i < |rest| && Qualifies(rest[i]) && FileName(rest[i]) == n;
        assert entries[i + 1] == rest[i];
      }
      if exists i :: 0 <= i < |entries| && Qualifies(entries[i]) && FileName(entries[i]) == n {
        var i :| 0 <= i < |entries| && Qualifies(entries[i]) && FileName(entries[i]) == n;
        if i > 0 {
          assert rest[i - 1] == entries[i];
        }
      }
    }
  }

  /** A qualifying entry whose name is new to the target, and which no earlier
      qualifying entry shares, ends up in the target with exactly its bytes. */
  lemma CopyAllFirstWins(store: Store, entries: seq<File>, i: nat)
    requires i < |entries| && Qualifies(entries[i]) && FileName(entries[i]) !in store
    requires forall j :: 0 <= j < i && Qualifies(entries[j]) ==> FileName(entries[j]) != FileName(entries[i])
    ensures FileName(entries[i]) in CopyAll(store, entries)
    ensures CopyAll(store, entries)[FileName(entries[i])] == entries[i].content
  {
    var n := FileName(entries[i]);
    var before, after := entries[..i], entries[i..];
    assert entries == before + after;
    assert after[0] == entries[i];
    CopyAllAppend(store, before, after);
    assert forall j :: 0 <= j < |before| ==> before[j] == entries[j];
    NameStaysAbsent(store, before, n);
    var mid := CopyAll(store, before);
    CopyAddsAtHead(mid, after);
    assert CopyAll(store, entries) == CopyAll(mid, after);
  }

  lemma NameStaysAbsent(store: Store, entries: seq<File>, n: string)
    requires n !in store
    requires forall j :: 0 <= j < |entries| && Qualifies(entries[j]) ==> FileName(entries[j]) != n
    ensures n !in CopyAll(store, entries)
  {
    CopyAllNames(store, entries, n);
  }

  lemma CopyAddsAtHead(store: Store, entries: seq<File>)
    requires entries != [] && Qualifies(entries[0]) && FileName(entries[0]) !in store
    ensures FileName(entries[0]) in CopyAll(store, entries)
    ensures CopyAll(store, entries)[FileName(entries[0])] == entries[0].content
  {
    CopyAllKeepsExisting(CopyEntry(store, entries[0]), entries[1..], FileName(entries[0]));
  }

  /** An entry that does not qualify leaves no trace: the target comes out the
      same as if the folder did not hold it. */
  lemma SkippedEntryIsInert(store: Store, entries: seq<File>, i: nat)
    requires i < |entries| && !Qualifies(entries[i])
    ensures CopyAll(store, entries) == CopyAll(store, entries[..i] + entries[i + 1..])
  {
    assert entries == entries[..i] + ([entries[i]] + entries[i + 1..]);
    CopyAllAppend(store, entries[..i], [entries[i]] + entries[i + 1..]);
    CopyAllAppend(store, entries[..i], entries[i + 1..]);
    assert ([entries[i]] + entries[i + 1..])[1..] == entries[i + 1..];
  }

  /** An entry whose extension does not end with "JPG" (so also ".jpg")
      causes no change. */
  lemma NonJpgEntryIgnored(store: Store, entries: seq<File>, i: nat)
    requires i < |entries| && !HasJpgExtension(entries[i])
    ensures CopyAll(store, entries) == CopyAll(store, entries[..i] + entries[i + 1..])
  {
    SkippedEntryIsInert(store, entries, i);
  }

  /** An edited variant is never written, whatever the target holds. */
  lemma EditedVariantIgnored(store: Store, entries: seq<File>, i: nat)
    requires i < |entries| && HasJpgExtension(entries[i]) && IsEditedVariant(entries[i])
    ensures CopyAll(store, entries) == CopyAll(store, entries[..i] + entries[i + 1..])
  {
    SkippedEntryIsInert(store, entries, i);
  }

  /** For an entry stored as `root.ext`, the filter looks at the extension
      exactly as written (".jpg" is not ".JPG") and at the root's prefix. */
  lemma FileNameClassification(entry: File, root: string, ext: string)
    requires FileName(entry) == root + "." + ext
    requires HasNonDot(root)
    requires forall i :: 0 <= i < |root| ==> root[i] !in Separators
    requires forall i :: 0 <= i < |ext| ==> ext[i] !in Separators && ext[i] !in Dot
    ensures HasJpgExtension(entry) <==> EndsWith("." + ext, "JPG")
    ensures IsEditedVariant(entry) <==> StartsWith(root, "IMG_E")
  {
    SplitExtOfFileName(root, ext);
  }

  /** A name such as ".JPG", only dots and then text, has no extension and is
      never copied. */
  lemma DotNameIgnored(entry: File, dots: string, text: string)
    requires FileName(entry) == dots + text
    requires |dots| > 0 && forall i :: 0 <= i < |dots| ==> dots[i] == '.'
    requires forall i :: 0 <= i < |text| ==> text[i] !in Separators && text[i] !in Dot
    ensures !HasJpgExtension(entry)
  {
    SplitExtLeadingDots(dots, text);
  }
}
