/**
 * Worked examples of rename_file and put_content_to_s3 from lambda_logs.py.
 * Each example takes its literals as parameters fixed by `requires`, so
 * that the verifier works with the pieces of a key instead of unfolding
 * one long literal inside the goal.
 */
module LogsExamples {
  import opened Wrappers
  import opened Text
  import opened Logs

  /** The basename can occur earlier: "a/a" has folder "", so a folder backup lands at "bk/a". */
  lemma EarlierOccurrence(key: string)
    requires key == "a/a"
    ensures BaseName(key) == "a" && Folder(key) == ""
    ensures RenameFile(key, "bk", "folder") == "bk/a"
  {
    assert LastIndexOf(key, '/') == 1 by {
      assert key[2] != '/' && key[1] == '/';
    }
    assert OccursAt(key, "a", 0);
  }

  /** The pieces of "logs/app.log" and of the name expected for it. */
  lemma AppLogPieces(dir: string, stem: string, ext: string, backupKey: string)
    requires dir == "logs/" && stem == "app" && ext == "log" && backupKey == "bk"
    ensures dir != [] && dir[|dir| - 1] == '/'
    ensures '/' !in stem && '/' !in ext && '.' !in dir && '.' !in stem && '.' !in ext
    ensures dir + stem + "_" + backupKey + "." + ext == "logs/app_bk.log"
  {
  }

  /** "logs/app.log" is backed up as "logs/app_bk.log". */
  lemma RenameExample(dir: string, stem: string, ext: string, backupKey: string)
    requires dir == "logs/" && stem == "app" && ext == "log" && backupKey == "bk"
    ensures RenameFile(dir + (stem + "." + ext), backupKey, "file") == "logs/app_bk.log"
  {
    AppLogPieces(dir, stem, ext, backupKey);
    RenameInDirectory(dir, stem, ext, backupKey);
  }

  /** The pieces of "v1.0/log" and of the name expected for it. */
  lemma VersionedLogPieces(head: string, tail: string, base: string, backupKey: string)
    requires head == "v1" && tail == "0/" && base == "log" && backupKey == "bk"
    ensures var dir := head + "." + tail;
            dir != [] && dir[|dir| - 1] == '/' && Count(dir, '.') == 1
            && base != [] && '/' !in base && '.' !in base && base[0] !in dir
    ensures head + "." + tail + base + "_" + backupKey + "." + base == "v1.0/log_bk.log"
  {
    CountSingle(head, tail, '.');
    assert head + "." + tail == head + ['.'] + tail;
  }

  /** "v1.0/log" is backed up as "v1.0/log_bk.log": the folder's '.' becomes the extension separator. */
  lemma RenameDotInFolderExample(head: string, tail: string, base: string, backupKey: string)
    requires head == "v1" && tail == "0/" && base == "log" && backupKey == "bk"
    ensures RenameFile(head + "." + tail + base, backupKey, "file") == "v1.0/log_bk.log"
  {
    VersionedLogPieces(head, tail, base, backupKey);
    RenameDotInDirectory(head + "." + tail, base, backupKey);
  }

  /** "s3://b/x/y.log" writes to bucket "b" under key "x/y.log". */
  lemma PutExample(scheme: string, bucket: string, key: string, content: string)
    requires scheme == "s3:" && bucket == "b" && key == "x/y.log"
    ensures PutContentToS3(scheme + "//" + bucket + "/" + key, content, None, "file", None, 200, "")
            == PutResult([Put("b", "x/y.log", content)], ReturnObject(true, ""))
  {
    S3PathParts(scheme, bucket, key);
  }
}
