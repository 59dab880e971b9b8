/**
  FileController.getUploadUrl: the file's extension, the storage name built from the folder
  path, a random UUID and that extension, and the metadata row saved for the upload. The UUID is a
  parameter; presigned URLs and persistence are not modelled.
*/
module FileNaming {
  import opened Wrappers

  /** `s.lastIndexOf(c)`: the last position holding c, or -1. */
  function LastIndexOf(s: string, c: char): (i: int)
    ensures -1 <= i < |s|
    ensures i >= 0 ==> s[i] == c
    ensures forall k :: i < k < |s| ==> s[k] != c
  {
    if s == [] then -1
    else if s[|s| - 1] == c then |s| - 1
    else LastIndexOf(s[..|s| - 1], c)
  }

  /** A c in the second part decides the last position: it lies in that part. */
  lemma {:induction false} LastIndexOfAppend(a: string, b: string, c: char)
    requires c in b
    ensures LastIndexOf(a + b, c) == |a| + LastIndexOf(b, c)
  {
    if b[|b| - 1] != c {
      var init := b[..|b| - 1];
      assert (a + b)[..|a + b| - 1] == a + init;
      assert c in init by {
        var k :| 0 <= k < |b| && b[k] == c;
        assert init[k] == c;
      }
      LastIndexOfAppend(a, init, c);
    }
  }

  /** The extension: from the last '.' to the end, when that '.' is not the first character; else "". */
  function Extension(fileName: string): string
  {
    var dot := LastIndexOf(fileName, '.');
    if dot > 0 then fileName[dot..] else ""
  }

  /**
    The extension is a proper suffix of the name that starts with its only '.', and it is empty
    exactly when no '.' follows the first character.
  */
  lemma ExtensionShape(fileName: string)
    ensures var ext := Extension(fileName);
            && |ext| <= |fileName|
            && fileName[|fileName| - |ext|..] == ext
            && (ext != "" ==> |ext| < |fileName| && ext[0] == '.' && forall k :: 0 < k < |ext| ==> ext[k] != '.')
    ensures Extension(fileName) == "" <==> forall k :: 0 < k < |fileName| ==> fileName[k] != '.'
  {
    var dot := LastIndexOf(fileName, '.');
    if dot > 0 {
      var ext := fileName[dot..];
      assert ext[0] == '.';
      assert forall k :: 0 < k < |ext| ==> ext[k] == fileName[dot + k];
    }
  }

  /** Hidden files and names without a dot have no extension; only the last dot counts. */
  lemma ExtensionExamples()
    ensures Extension(".bashrc") == ""
    ensures Extension("noext") == ""
    ensures Extension("a.tar.gz") == ".gz"
  {
    ExtensionShape(".bashrc");
    assert forall k :: 0 < k < 7 ==> ".bashrc"[k] != '.';
    ExtensionShape("noext");
    assert forall k :: 0 < k < 5 ==> "noext"[k] != '.';
    var gz := "a.tar.gz";
    assert gz[5] == '.' && gz[6] != '.' && gz[7] != '.';
    assert LastIndexOf(gz, '.') == 5;
    assert "a.tar.gz"[5..] == ".gz";
  }

  /** `UUID.randomUUID().toString()`: 36 characters of hexadecimal digits and '-'. */
  predicate IsUuidText(u: string) {
    |u| == 36 && forall i :: 0 <= i < |u| ==> ('0' <= u[i] <= '9' || 'a' <= u[i] <= 'f' || u[i] == '-')
  }

  /** The storage name: the folder path, then the UUID, then the original extension. */
  function ChangeName(path: string, uuid: string, fileName: string): (name: string)
    ensures |name| == |path| + |uuid| + |Extension(fileName)|
    ensures name[..|path|] == path
    ensures name[|path|..|path| + |uuid|] == uuid
    ensures name[|name| - |Extension(fileName)|..] == Extension(fileName)
  {
    path + uuid + Extension(fileName)
  }

  /** A stored file keeps its type: a name with an extension gives a storage name with the same one. */
  lemma ChangeNameKeepsExtension(path: string, uuid: string, fileName: string)
    requires IsUuidText(uuid)
    requires Extension(fileName) != ""
    ensures Extension(ChangeName(path, uuid, fileName)) == Extension(fileName)
  {
    var ext := Extension(fileName);
    ExtensionShape(fileName);
    assert '.' in ext by { assert ext[0] == '.'; }
    LastIndexOfAppend(path + uuid, ext, '.');
    var dot := LastIndexOf(ext, '.');
    assert dot == 0;
    assert ChangeName(path, uuid, fileName)[|path + uuid|..] == ext;
  }

  /** The metadata row `saveFileInfo` stores for an upload. */
  datatype FileInfo = FileInfo(originalName: string, changeName: string, contentType: string)

  /**
    The computation of `getUploadUrl` up to the save: `path` defaults to "" when absent, and the
    original name is the incoming file name unchanged.
  */
  function UploadInfo(fileName: string, contentType: string, path: Option<string>, uuid: string): (info: FileInfo)
    ensures info.originalName == fileName
    ensures info.contentType == contentType
    ensures |info.changeName| == (if path.Some? then |path.value| else 0) + |uuid| + |Extension(fileName)|
    ensures path.Some? ==> info.changeName[..|path.value|] == path.value
    ensures path.None? ==> info.changeName[..|uuid|] == uuid
    ensures info.changeName[|info.changeName| - |Extension(fileName)|..] == Extension(fileName)
  {
    var folder := match path case Some(p) => p case None => "";
    FileInfo(fileName, ChangeName(folder, uuid, fileName), contentType)
  }
}
