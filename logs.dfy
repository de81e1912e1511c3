/**
 * lambda_logs.py: `rename_file`, which names the backup copy of an S3 log
 * object, and the path handling and result record of `put_content_to_s3`.
 * The S3 calls are inputs of the model.
 */
module Logs {
  import opened Wrappers
  import opened Text

  /** `os.path.basename`: what follows the last '/'. */
  function BaseName(key: string): (base: string)
    ensures '/' !in base
    ensures |base| <= |key| && key[|key| - |base|..] == base
    ensures |base| < |key| ==> key[|key| - |base| - 1] == '/'
  {
    key[LastIndexOf(key, '/') + 1..]
  }

  /** The directory part of a key: everything before the basename. */
  function Directory(key: string): (dir: string)
    ensures dir + BaseName(key) == key
  {
    assert key == key[..|key| - |BaseName(key)|] + key[|key| - |BaseName(key)|..];
    key[..|key| - |BaseName(key)|]
  }

  /** The basename of a directory path followed by a name without '/' is that name. */
  lemma BaseNameOf(dir: string, name: string)
    requires dir != [] && dir[|dir| - 1] == '/' && '/' !in name
    ensures BaseName(dir + name) == name && Directory(dir + name) == dir
  {
    var key := dir + name;
    assert key[|dir| - 1] == '/';
    forall k | |dir| <= k < |key| ensures key[k] != '/' {
      assert key[k] == name[k - |dir|];
    }
    assert LastIndexOf(key, '/') == |dir| - 1;
    assert key[|dir|..] == name;
  }

  /** `key.split(file_name)[0]` for a non-empty basename: the text before its first occurrence. */
  function Folder(key: string): (folder: string)
    requires BaseName(key) != ""
    ensures |folder| <= |key| - |BaseName(key)| && OccursAt(key, BaseName(key), |folder|)
    ensures folder == key[..|folder|]
    ensures forall k: nat :: k < |folder| ==> !OccursAt(key, BaseName(key), k)
  {
    var base := BaseName(key);
    assert OccursAt(key, base, |key| - |base|);
    key[..FindFrom(key, base, 0).value]
  }

  /**
   * rename_file(key, backup_key, backup_strategy). The empty basename of a
   * key ending in '/' makes `split` raise; the handler swallows that and
   * the fallback name is returned.
   */
  function RenameFile(key: string, backupKey: string, strategy: string): (renamed: string)
    ensures exists k: nat :: OccursAt(renamed, backupKey, k)
  {
    var fallback := key + "_" + backupKey;
    assert OccursAt(fallback, backupKey, |key| + 1);
    var base := BaseName(key);
    if base == "" then fallback
    else if strategy == "file" then
      if Count(key, '.') == 1 then
        var pieces := Split(base, '.');
        var head := Folder(key) + pieces[0] + "_";
        var named := head + backupKey + "." + pieces[|pieces| - 1];
        assert OccursAt(named, backupKey, |head|);
        named
      else fallback
    else
      var named := Folder(key) + backupKey + "/" + base;
      assert OccursAt(named, backupKey, |Folder(key)|);
      named
  }

  /** When the basename first occurs at its own place, the folder is the directory part with its '/'. */
  lemma FolderIsDirectory(key: string)
    requires BaseName(key) != ""
    requires forall k: nat :: k < |Directory(key)| ==> !OccursAt(key, BaseName(key), k)
    ensures Folder(key) == Directory(key)
  {
    var base := BaseName(key);
    assert |Folder(key)| == |Directory(key)|;
    assert Directory(key) == key[..|Directory(key)|];
  }

  /** Any strategy other than "file" puts the object in a sub-folder named after the backup key. */
  lemma FolderStrategy(key: string, backupKey: string, strategy: string)
    requires strategy != "file" && BaseName(key) != ""
    ensures RenameFile(key, backupKey, strategy) == Folder(key) + backupKey + "/" + BaseName(key)
  {
  }

  /**
   * A key with an empty basename (the empty key, or one ending in '/')
   * falls back to appending the backup key, under any strategy.
   */
  lemma EmptyBaseNameFallback(key: string, backupKey: string, strategy: string)
    requires BaseName(key) == ""
    ensures key == [] || key[|key| - 1] == '/'
    ensures RenameFile(key, backupKey, strategy) == key + "_" + backupKey
  {
  }

  /** The "file" strategy on a key without exactly one '.' falls back to appending the backup key. */
  lemma DotCountFallback(key: string, backupKey: string)
    requires Count(key, '.') != 1
    ensures RenameFile(key, backupKey, "file") == key + "_" + backupKey
  {
  }

  /** A key whose only '.' is the one in its basename "stem.ext" has no other '.' anywhere. */
  lemma {:induction false} LoneDotInName(key: string, stem: string, ext: string)
    requires Count(key, '.') == 1
    requires BaseName(key) == stem + "." + ext
    ensures '.' !in Directory(key) + stem && '.' !in ext
  {
    var dir := Directory(key);
    assert key == (dir + stem) + ['.'] + ext;
    LoneSeparator(dir + stem, ext, '.');
  }

  /** A basename with a '.' cannot start inside a directory that has none. */
  lemma {:induction false} NameNotInDirectory(key: string, stem: string, ext: string)
    requires BaseName(key) == stem + "." + ext
    requires '.' !in Directory(key) + stem
    ensures forall k: nat :: k < |Directory(key)| ==> !OccursAt(key, BaseName(key), k)
  {
    var ds := Directory(key) + stem;
    assert key == ds + ['.'] + ext;
    forall i | 0 <= i < |ds| ensures key[i] != '.' {
      assert key[i] == ds[i];
    }
    NotFoundBefore(key, BaseName(key), |stem|, |Directory(key)|);
  }

  /** The "file" strategy on a key with one '.' and a basename: the rename built from the basename's pieces. */
  lemma OneDotRename(key: string, backupKey: string)
    requires Count(key, '.') == 1 && BaseName(key) != ""
    ensures RenameFile(key, backupKey, "file")
            == Folder(key) + Split(BaseName(key), '.')[0] + "_" + backupKey + "."
               + Split(BaseName(key), '.')[Count(BaseName(key), '.')]
  {
  }

  /**
   * The "file" strategy with the lone '.' in the basename: the backup key goes
   * between stem and extension, and the object stays in its own directory.
   */
  lemma {:induction false} FileStrategyDotInName(key: string, backupKey: string, stem: string, ext: string)
    requires Count(key, '.') == 1
    requires BaseName(key) == stem + "." + ext
    ensures RenameFile(key, backupKey, "file") == Directory(key) + stem + "_" + backupKey + "." + ext
  {
    LoneDotInName(key, stem, ext);
    NameNotInDirectory(key, stem, ext);
    FolderIsDirectory(key);
    StemPieces(Directory(key), stem, ext);
    OneDotRename(key, backupKey);
  }

  /** The basename "stem.ext" of a key with no other '.' splits into stem and extension. */
  lemma StemPieces(dir: string, stem: string, ext: string)
    requires '.' !in dir + stem && '.' !in ext
    ensures Split(stem + "." + ext, '.') == [stem, ext]
  {
    assert '.' !in stem by {
      forall k | 0 <= k < |stem| ensures stem[k] != '.' {
        assert stem[k] == (dir + stem)[|dir| + k];
      }
    }
    assert stem + "." + ext == stem + ['.'] + ext;
    SplitFirst(stem, ext, '.');
    SplitNoSeparator(ext, '.');
  }

  /** The lone '.' in the folder: the whole basename is both stem and extension. */
  lemma {:induction false} FileStrategyDotInFolder(key: string, backupKey: string)
    requires Count(key, '.') == 1 && BaseName(key) != "" && '.' !in BaseName(key)
    ensures var base := BaseName(key);
            RenameFile(key, backupKey, "file") == Folder(key) + base + "_" + backupKey + "." + base
  {
    SplitNoSeparator(BaseName(key), '.');
  }

  /** The usual case of the "file" strategy: "dir/stem.ext" becomes "dir/stem_bk.ext". */
  lemma {:induction false} RenameInDirectory(dir: string, stem: string, ext: string, backupKey: string)
    requires dir != [] && dir[|dir| - 1] == '/'
    requires '/' !in stem && '/' !in ext
    requires '.' !in dir && '.' !in stem && '.' !in ext
    ensures RenameFile(dir + (stem + "." + ext), backupKey, "file") == dir + stem + "_" + backupKey + "." + ext
  {
    var base := stem + "." + ext;
    var key := dir + base;
    assert base == stem + ['.'] + ext;
    BaseNameOf(dir, base);
    CountAppend(dir, base, '.');
    CountSingle(stem, ext, '.');
    FileStrategyDotInName(key, backupKey, stem, ext);
  }

  /**
   * The lone '.' in the directory: "dir.x/name" becomes "dir.x/name_bk.name", provided
   * the name's first letter does not occur in the directory (so the name is not found there).
   */
  lemma {:induction false} RenameDotInDirectory(dir: string, base: string, backupKey: string)
    requires dir != [] && dir[|dir| - 1] == '/' && Count(dir, '.') == 1
    requires base != [] && '/' !in base && '.' !in base && base[0] !in dir
    ensures RenameFile(dir + base, backupKey, "file") == dir + base + "_" + backupKey + "." + base
  {
    var key := dir + base;
    BaseNameOf(dir, base);
    CountAppend(dir, base, '.');
    FileStrategyDotInFolder(key, backupKey);
    forall k: nat | k < |dir| ensures !OccursAt(key, base, k) { }
    FolderIsDirectory(key);
  }

  /** `s3_path.split("/")`: the bucket is the third piece and the key the remaining pieces re-joined. */
  function SplitS3Path(path: string): (r: Option<(string, string)>)
    ensures r.None? <==> Count(path, '/') < 2
  {
    var parts := Split(path, '/');
    if |parts| < 3 then None else Some((parts[2], Join(parts[3..], '/')))
  }

  /** The pieces of "scheme://bucket/key" split on '/'. */
  lemma {:induction false} S3PathPieces(scheme: string, bucket: string, key: string)
    requires '/' !in scheme && '/' !in bucket
    ensures var parts := Split(scheme + ['/'] + ("" + ['/'] + (bucket + ['/'] + key)), '/');
            |parts| >= 3 && parts[2] == bucket && parts[3..] == Split(key, '/')
  {
    var inner := bucket + ['/'] + key;
    var middle := "" + ['/'] + inner;
    SplitFirst(bucket, key, '/');
    SplitFirst("", inner, '/');
    SplitFirst(scheme, middle, '/');
    var parts := Split(scheme + ['/'] + middle, '/');
    assert parts[1..] == Split(middle, '/');
    assert parts[2..] == Split(middle, '/')[1..] == Split(inner, '/');
    assert parts[3..] == Split(inner, '/')[1..];
  }

  /** "scheme://bucket/key" splits into the bucket and the whole key. */
  lemma {:induction false} S3PathParts(scheme: string, bucket: string, key: string)
    requires '/' !in scheme && '/' !in bucket
    ensures SplitS3Path(scheme + "//" + bucket + "/" + key) == Some((bucket, key))
  {
    var path := scheme + "//" + bucket + "/" + key;
    assert path == scheme + ['/'] + ("" + ['/'] + (bucket + ['/'] + key));
    S3PathPieces(scheme, bucket, key);
    JoinSplit(key, '/');
  }

  /** The `return_object` of put_content_to_s3. */
  datatype ReturnObject = ReturnObject(success: bool, data: string)

  /** One put_object call. */
  datatype Put = Put(bucket: string, key: string, body: string)

  /** The calls put_content_to_s3 makes and what it returns. */
  datatype PutResult = PutResult(puts: seq<Put>, result: ReturnObject)

  /** The message stored in `data` for an exception caught at a line of put_content_to_s3. */
  function ErrorData(message: string, line: string): (data: string)
    ensures |data| == |message| + |line| + 19
    ensures data[..9] == "message: " && OccursAt(data, message, 9)
    ensures data[9 + |message|..9 + |message| + 9] == "\nline no:"
    ensures OccursAt(data, line, 9 + |message| + 9) && data[|data| - 1] == '\n'
  {
    "message: " + message + "\nline no:" + line + "\n"
  }

  /**
   * The backup copy of lines 97-114: made only for a non-empty backup key
   * and a prefix listing with contents; the old object is written under the renamed key.
   */
  function BackupPuts(bucket: string, key: string, backupKey: Option<string>, strategy: string,
                      existing: Option<string>): (puts: seq<Put>)
    ensures puts != [] <==> backupKey.Some? && backupKey.value != "" && existing.Some?
    ensures puts != [] ==> puts == [Put(bucket, RenameFile(key, backupKey.value, strategy), existing.value)]
  {
    if backupKey.Some? && backupKey.value != "" && existing.Some?
    then [Put(bucket, RenameFile(key, backupKey.value, strategy), existing.value)]
    else []
  }

  /**
   * put_content_to_s3 against the S3 replies: `existing` is the old object
   * when the prefix listing has contents, `status` and `response` are the
   * status code and text of the final put.
   */
  function PutContentToS3(s3Path: string, content: string, backupKey: Option<string>, strategy: string,
                          existing: Option<string>, status: int, response: string): (r: PutResult)
    ensures r.result.success <==> SplitS3Path(s3Path).Some? && status == 200
    ensures r.result.success ==> r.result.data == ""
    ensures SplitS3Path(s3Path).None? ==>
              r.puts == [] && r.result.data == ErrorData("list index out of range", "89")
    ensures SplitS3Path(s3Path).Some? && status != 200 ==>
              r.result.data == ErrorData("Unable to put data to s3: " + response, "119")
    ensures SplitS3Path(s3Path).Some? ==>
              var bucket := SplitS3Path(s3Path).value.0;
              var key := SplitS3Path(s3Path).value.1;
              r.puts == BackupPuts(bucket, key, backupKey, strategy, existing) + [Put(bucket, key, content)]
  {
    match SplitS3Path(s3Path)
    case None => PutResult([], ReturnObject(false, ErrorData("list index out of range", "89")))
    case Some((bucket, key)) =>
      var puts := BackupPuts(bucket, key, backupKey, strategy, existing) + [Put(bucket, key, content)];
      if status != 200 then
        PutResult(puts, ReturnObject(false, ErrorData("Unable to put data to s3: " + response, "119")))
      else PutResult(puts, ReturnObject(true, ""))
  }

  /** Without a backup key nothing but the new content is written. */
  lemma NoBackupWithoutKey(s3Path: string, content: string, strategy: string, existing: Option<string>,
                           status: int, response: string)
    requires SplitS3Path(s3Path).Some?
    ensures var (bucket, key) := SplitS3Path(s3Path).value;
            PutContentToS3(s3Path, content, None, strategy, existing, status, response).puts
              == [Put(bucket, key, content)]
  {
  }

}
