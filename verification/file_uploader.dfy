/**
 * The drop zone of the upload panel: dropped files become entries with an
 * id, a zero progress and, for images, a preview URL; entries can be
 * removed by id; "Share Files" starts only when the list is not empty.
 */
module FileUploader {
  import opened Wrappers
  import Lists

  /** A browser `File`: its name, its size in bytes and its MIME type. */
  datatype DroppedFile = DroppedFile(name: string, size: nat, mime: string)

  /** `FileWithPreview`. */
  datatype FileEntry = FileEntry(file: DroppedFile, id: string, progress: real, preview: Option<string>, mime: string)

  function EntryId(e: FileEntry): string {
    e.id
  }

  predicate StartsWith(s: string, prefix: string) {
    prefix <= s
  }

  predicate IsImage(mime: string) {
    StartsWith(mime, "image/")
  }

  /**
   * The entries `onDrop` builds. `ids[i]` is the random id drawn for file i
   * and `urls[i]` the object URL the browser would create for it.
   */
  function NewEntries(accepted: seq<DroppedFile>, ids: seq<string>, urls: seq<string>): (r: seq<FileEntry>)
    requires |ids| == |accepted| && |urls| == |accepted|
    ensures |r| == |accepted|
    ensures forall i | 0 <= i < |r| ::
              && r[i].file == accepted[i] && r[i].id == ids[i]
              && r[i].progress == 0.0 && r[i].mime == accepted[i].mime
    ensures forall i | 0 <= i < |r| :: r[i].preview.Some? <==> IsImage(accepted[i].mime)
    ensures forall i | 0 <= i < |r| && r[i].preview.Some? :: r[i].preview.value == urls[i]
  {
    if accepted == [] then []
    else
      var file := accepted[0];
      var entry := FileEntry(file, ids[0], 0.0, if IsImage(file.mime) then Some(urls[0]) else None, file.mime);
      [entry] + NewEntries(accepted[1..], ids[1..], urls[1..])
  }

  datatype FileIcon = ImageIcon | AudioIcon | VideoIcon | TextIcon | GenericIcon

  /** The family prefixes `getFileIcon` tests, in its order. */
  const ICON_PREFIXES: seq<string> := ["image/", "audio/", "video/", "text/"]

  /** `getFileIcon`: the first prefix that matches decides. */
  function GetFileIcon(mime: string): (icon: FileIcon)
    ensures icon == ImageIcon <==> IsImage(mime)
    ensures icon == GenericIcon <==> forall p | p in ICON_PREFIXES :: !StartsWith(mime, p)
  {
    if StartsWith(mime, "image/") then ImageIcon
    else if StartsWith(mime, "audio/") then AudioIcon
    else if StartsWith(mime, "video/") then VideoIcon
    else if StartsWith(mime, "text/") then TextIcon
    else GenericIcon
  }

  /**
   * The four prefixes begin with different letters, so at most one matches
   * and the order of the tests does not matter: each icon is chosen exactly
   * when its own prefix matches, and the generic icon when none does.
   */
  lemma IconByFamily(mime: string)
    ensures GetFileIcon(mime) == ImageIcon <==> StartsWith(mime, "image/")
    ensures GetFileIcon(mime) == AudioIcon <==> StartsWith(mime, "audio/")
    ensures GetFileIcon(mime) == VideoIcon <==> StartsWith(mime, "video/")
    ensures GetFileIcon(mime) == TextIcon <==> StartsWith(mime, "text/")
    ensures GetFileIcon(mime) == GenericIcon <==> forall p | p in ICON_PREFIXES :: !StartsWith(mime, p)
  {
    assert StartsWith(mime, "image/") ==> mime[0] == 'i';
    assert StartsWith(mime, "audio/") ==> mime[0] == 'a';
    assert StartsWith(mime, "video/") ==> mime[0] == 'v';
    assert StartsWith(mime, "text/") ==> mime[0] == 't';
  }

  /** The component's state: the entry list and the uploading flag. */
  class UploaderState {
    var files: seq<FileEntry>
    var uploading: bool

    constructor()
      ensures files == [] && !uploading
    {
      files := [];
      uploading := false;
    }

    /** `onDrop`: the new entries go after the existing ones. */
    method OnDrop(accepted: seq<DroppedFile>, ids: seq<string>, urls: seq<string>)
      requires |ids| == |accepted| && |urls| == |accepted|
      modifies this
      ensures files == old(files) + NewEntries(accepted, ids, urls)
      ensures files[..|old(files)|] == old(files)
      ensures uploading == old(uploading)
    {
      files := files + NewEntries(accepted, ids, urls);
    }

    /** `removeFile`. */
    method RemoveFile(id: string)
      modifies this
      ensures files == Lists.RemoveKey(old(files), EntryId, id)
      ensures forall e :: e in files <==> e in old(files) && e.id != id
      ensures uploading == old(uploading)
    {
      files := Lists.RemoveKey(files, EntryId, id);
    }

    /** The guard of `simulateUpload`: nothing happens on an empty list. */
    method SimulateUpload()
      modifies this
      ensures files == old(files)
      ensures uploading == (old(uploading) || old(files) != [])
    {
      if files == [] {
        return;
      }
      uploading := true;
    }
  }
}
