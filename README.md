# Gemini video summary Lambda: a Dafny model of its deterministic rules

The repository is an AWS Lambda pipeline. It fetches a video from a Dropbox
inbox and uploads it to Google Cloud Storage. A file over 9.5 MiB is first
handed to compress_video, which reads the figure 9.5 as KB and so refuses
nearly every video. It then asks Gemini for a tagged summary, files the parsed
summary in Notion, and deletes the inbox copy. Two small helpers come with it:
a Dropbox webhook verification endpoint, and an S3 writer that keeps a backup
of the object it replaces. This project models the parts of that code that
decide things. External calls become inputs: the ffmpeg probe and encode, the
file sizes, the folder listing and the S3 replies.

Modules (one file each):

- `Wrappers`: the `Option` type.
- `Text`: the Python string operations the code relies on, with their
  properties proved. These are `find`, `count`, `rfind`, `split` on one
  character, `join`, `strip` over the `str.isspace` set written out, and
  ASCII `lower`.
- `Utf8`: strict UTF-8 encoding and decoding, with the round trip proved in
  both directions.
- `Compress`: `compress_video`. It covers the bitrate budget, the two
  feasibility gates, the audio clamp, the encoder commands and the outcome.
- `Pipeline`: the skip rule of `compress_and_upload` and the API-key
  dispatch of `lambda_handler`.
- `Tags`: `parse_html_tags`, as a method that fills the result map key by
  key.
- `Inbox`: the entry loop of `download_or_delete_from_dropbox`, as a method
  with a loop that builds the Download/Delete calls and the scratch name.
- `Logs`: `rename_file`, and the bucket/key split, the writes and the result
  record of `put_content_to_s3`. `LogsExamples` works through the keys
  `"a/a"`, `"logs/app.log"` and `"v1.0/log"` and the path `"s3://b/x/y.log"`.
- `Webhook`: the challenge echo of dropbox_webhook_challenge.py.

The model follows the code where the code and its documentation disagree:

- compress_video's parameter is documented as a size in KB.
  compress_and_upload passes it the MB figure 9.5, and the model keeps that
  figure.
- The audio bitrate is not always inside [32000, 256000].
  `Compress.AudioOutsideClampRange` shows two values outside that range.
- The branch that compresses again can never run, because the output path
  is the input path (`Compress.NeverRetries`).
- A missing audio stream, a zero duration or a null header/parameter map
  raises an exception. None of them is turned into a `False` or an error
  response.

## Model

| member | source | states |
|---|---|---|
| Compress.AudioBitrate | lambda_function.py:107-112 | a source bitrate of at most a tenth of the budget passes through unchanged; otherwise the result is a tenth of the budget clamped to [32000, 256000], except that it is raised to 32000 only while 32000 is below the budget; in that branch 0 < audio <= 256000 and audio < budget |
| Compress.PlanBitrates | lambda_function.py:84-122 | the budget is size*1024*8/(1.073741824*duration); the plan is "too low" exactly when the budget is below 11000; otherwise the video bitrate is budget minus audio, and the plan is refused exactly when that is below 1000 |
| Compress.EncodeCommands | lambda_function.py:124-152 | every command is libx264 at the planned video bitrate on the input; two-pass gives a pass-1 mp4 command to /dev/null with no audio options, then a pass-2 command to the output; single pass gives one command with no pass key; the last command carries aac at the planned audio bitrate |
| Compress.TargetTotalBitrate | lambda_function.py:84 | the budget times overhead times duration is the ceiling in bits (KB * 8192) |
| Compress.BestMinSize | lambda_function.py:93-97 | the recommended size in bits (KB * 8192) is the minimum audio plus video bitrate times overhead times duration, and is positive for a positive duration |
| Compress.OutputName | lambda_function.py:59 | the output path is the input path |
| Compress.RanCommands | lambda_function.py:124-152 | the commands that reach a run are a non-empty prefix of the planned ones: all of them when the encode succeeds or (two-pass) pass 1 finished before pass 2 failed, otherwise only the first |
| Compress.FailedFirstPassStops | lambda_function.py:125-130 | with two passes, a missing encoder or a failing pass 1 runs only the pass-1 command to /dev/null and never succeeds |
| Compress.CompressVideo | lambda_function.py:48-181 | encoder commands are issued only after a successful probe |
| Compress.ProbeOutcomes | lambda_function.py:72-181 | with no command issued: a missing ffprobe gives False, a failed probe raises, a file without an audio stream raises, a zero duration raises |
| Compress.InfeasibleTargetRefused | lambda_function.py:84-122 | when the budget is below 11000, or budget minus audio is below 1000, the result is False and no encoder command is issued |
| Compress.OutcomeCharacterization | lambda_function.py:84-171 | for a probed file with an audio stream: an unplanned budget gives False with no commands; otherwise the commands are those of EncodeCommands on the input path that reached a run (RanCommands), and the outcome is the path when the encoded size is at most size*1024, False when it is larger or the encoder is missing, and an exception when the encoder fails |
| Compress.NeverRetries | lambda_function.py:154-171 | the recursive call of line 169 is never reached |
| Compress.InputSizeIrrelevant | lambda_function.py:161-163 | the size of the input before the encode never changes the result |
| Compress.CompressedOverwritesInput | lambda_function.py:59-160 | a successful result is the input path, which the last command writes |
| Compress.QualityWarningCondition | lambda_function.py:93-104 | the low-quality warning is logged exactly when the first gate passed and the ceiling is below the recommended minimum |
| Compress.BestMinSizeAsBitrate | lambda_function.py:93-98 | the ceiling is below the recommended minimum exactly when the budget is below 32000 + 100000 |
| Compress.WarnedAndCompressed | lambda_function.py:98-160 | a warned call can still succeed: the warning does not stop the compression |
| Compress.TargetMonotonic | lambda_function.py:84 | a smaller ceiling never gives a larger budget |
| Compress.AudioOutsideClampRange | lambda_function.py:107-112 | a pass-through 500000 and a tenth-of-budget 2000, left unraised because the budget is below 32000, both lie outside [32000, 256000] |
| Compress.ClampExample | lambda_function.py:84-115 | 120 s into 2000 KB with a 320000 bps source: audio is raised to 32000 and video takes the rest |
| Compress.TinyCeilingRefused | lambda_function.py:84-90 | 600 s into 1 KB is refused before any command |
| Pipeline.CompressAndUpload | lambda_function.py:197-212 | the upload is skipped-compression exactly when size/1048576 <= 9.5; otherwise the attempt is compress_video(filename, 9.5, two-pass); the original filename is uploaded and returned unless compress_video raised |
| Pipeline.SkipThresholdInBytes | lambda_function.py:200-202 | compression is skipped exactly for files of at most 9961472 bytes |
| Pipeline.FiveMegabytesSkipped | lambda_function.py:200-206 | a 5 MiB file is uploaded without compression |
| Pipeline.CompressionNeedsTinyOutput | lambda_function.py:197-212 | a compression started by compress_and_upload succeeds only if the encoded file is at most 9728 bytes |
| Pipeline.LongVideoNeverEncoded | lambda_function.py:84-208 | for a video of 7 s or more, compress_and_upload runs no encoder command |
| Pipeline.LambdaHandler | lambda_function.py:308-329 | 400 "Missing API key" exactly when there is no api-key header (or no headers); 401 "Invalid API key" exactly when it differs from the stored key; the pipeline runs exactly when it matches; null headers raise |
| Tags.TagContent | lambda_function.py:259-271 | a capture is the text between an opening tag and a later closing tag of the reply |
| Tags.StripEach | lambda_function.py:275 | the list has one entry per piece, each the stripped piece at the same position |
| Tags.TextField | lambda_function.py:259-269 | no match gives ""; a field is always already stripped |
| Tags.TagList | lambda_function.py:271-277 | the list is empty exactly when there is no TAGS match (a match always gives at least one entry) |
| Tags.TagContentIsLeftmostShortest | lambda_function.py:253-259 | no match exactly when no opening tag is followed by a closing tag; otherwise the content lies between the leftmost opening tag that has a closing tag and the first closing tag after it |
| Tags.SetText | lambda_function.py:259-269 | one text field: the empty default becomes the field's stripped capture, or stays when there is no match |
| Tags.ParseHtmlTags | lambda_function.py:247-279 | the map has exactly the keys TITLE, KEYPOINTS, SUMMARY and TAGS; each text field is the stripped tag content or ""; TAGS is the comma split of the stripped content, each entry stripped, or [] |
| Tags.TagCount | lambda_function.py:274 | a present TAGS field has one entry more than its content has commas |
| Tags.TagEntriesClean | lambda_function.py:274-277 | no tag contains a comma and every tag is already stripped |
| Tags.EmptyTags | lambda_function.py:250-277 | "<TAGS></TAGS>" gives [""] and a reply without the tag gives [] |
| Tags.LeadingTag | lambda_function.py:253-259 | a reply that opens with a tag pair whose content holds no '<' yields that content |
| Tags.TwoTags | lambda_function.py:274-275 | any two comma-free pieces joined by a comma give exactly their two stripped forms, whatever whitespace surrounds them |
| Tags.StripSampleEntries | lambda_function.py:275 | "ai" strips to itself and " video" to "video" |
| Tags.SplitTagsExample | lambda_function.py:274-275 | "ai, video" gives ["ai", "video"] |
| Tags.TagsExample | lambda_function.py:271-277 | "<TAGS>ai, video</TAGS>" gives the tag list ["ai", "video"] |
| Inbox.SplitExt | lambda_function.py:293 | the root and the extension put together give back the path; the extension is non-empty exactly when the last '.' comes after the last '/' with a character other than '.' between them, and then the root is the path up to that '.' |
| Inbox.SplitExtOf | lambda_function.py:293-294 | "dir/stem.ext", with a stem holding a character other than '.' and an extension free of '.' and '/', splits into "dir/stem" and ".ext" and gets the scratch name "/tmp/video.ext" |
| Inbox.ClipName | lambda_function.py:293-298 | "/v/clip.mp4" is media and its scratch name is "/tmp/video.mp4" |
| Inbox.ScratchName | lambda_function.py:293-294 | the scratch name is "/tmp/video" followed by nothing or by '.' and a suffix free of '.' and '/' |
| Inbox.IsMedia | lambda_function.py:295-298 | the media test holds exactly when one of the eight extensions occurs in the lower-cased path |
| Inbox.EntryActions | lambda_function.py:295-304 | a media entry gets one call per set flag and any other entry none, and every call is about that entry |
| Inbox.InboxActions | lambda_function.py:291-304 | the listing gives one call per media entry and set flag |
| Inbox.ExtensionShape | lambda_function.py:293 | the extension is empty or a '.' followed by characters that are neither '.' nor '/' |
| Inbox.ContainsAny | lambda_function.py:295-298 | `any(x in s for x in xs)` holds exactly when some string of the list occurs in the text |
| Inbox.MediaEntries | lambda_function.py:291-298 | a path is a media entry exactly when it is listed and passes the media test |
| Inbox.VisitEntry | lambda_function.py:292-304 | one entry gives the calls for that entry and the entry's scratch name |
| Inbox.DownloadOrDelete | lambda_function.py:284-305 | the calls are those of InboxActions in listing order; the returned name is the scratch name of the last entry, media or not, or "/tmp/video.mp4" for an empty listing |
| Inbox.DownloadsFollowListing | lambda_function.py:295-302 | with download only, there is one Download per media entry, in listing order, each to that entry's scratch name |
| Inbox.DeletesFollowListing | lambda_function.py:295-304 | with delete only, there is one Delete per media entry, in listing order |
| Inbox.ActionsOnlyForMedia | lambda_function.py:295-304 | every call is about a listed media entry and follows its flag, and a download goes to that entry's scratch name |
| Inbox.DotOnlyName | lambda_function.py:293-298 | "/..mp4" is media but has no extension, so its scratch name is "/tmp/video" |
| Logs.BaseName | lambda_logs.py:44 | the basename is the text after the last '/', and has no '/' |
| Logs.Directory | lambda_logs.py:44-45 | the directory part followed by the basename is the key |
| Logs.BaseNameOf | lambda_logs.py:44 | a directory ending in '/' followed by a name without '/' has that name as its basename |
| Logs.Folder | lambda_logs.py:45 | the folder is the key's prefix before the first occurrence of the basename |
| Logs.RenameFile | lambda_logs.py:33-61 | the backup key always occurs in the renamed name; the branches are stated by EmptyBaseNameFallback, FolderStrategy, DotCountFallback and OneDotRename |
| Logs.FolderIsDirectory | lambda_logs.py:45 | when the basename does not occur inside the directory part, the folder is that directory part |
| LogsExamples.EarlierOccurrence | lambda_logs.py:44-57 | "a/a" has folder "", so a folder backup goes to "bk/a" |
| Logs.FolderStrategy | lambda_logs.py:56-57 | a strategy other than "file" gives folder + backup key + "/" + basename |
| Logs.EmptyBaseNameFallback | lambda_logs.py:42-61 | an empty basename happens only for the empty key or one ending in '/', and gives key + "_" + backup key under any strategy |
| Logs.DotCountFallback | lambda_logs.py:42-47 | the "file" strategy on a key without exactly one '.' gives key + "_" + backup key |
| Logs.OneDotRename | lambda_logs.py:46-55 | with one '.' in the key and a basename, the "file" strategy builds the name from the folder and the first and last '.'-pieces of the basename |
| Logs.NameNotInDirectory | lambda_logs.py:45 | a basename "stem.ext" cannot start inside a directory that has no '.' |
| Logs.FileStrategyDotInName | lambda_logs.py:45-55 | with the only '.' in the basename, the result is the directory + stem + "_" + backup key + "." + extension |
| Logs.FileStrategyDotInFolder | lambda_logs.py:47-55 | with the only '.' in the folder, the basename is repeated: folder + base + "_" + backup key + "." + base |
| Logs.RenameInDirectory | lambda_logs.py:44-55 | "dir/stem.ext" becomes "dir/stem_bk.ext" |
| LogsExamples.RenameExample | lambda_logs.py:46-55 | "logs/app.log" becomes "logs/app_bk.log" |
| Logs.RenameDotInDirectory | lambda_logs.py:44-55 | a lone '.' in the directory makes the basename its own extension |
| LogsExamples.RenameDotInFolderExample | lambda_logs.py:46-55 | "v1.0/log" becomes "v1.0/log_bk.log" |
| Logs.SplitS3Path | lambda_logs.py:89-90 | the split fails exactly when the path has fewer than two '/' |
| Logs.S3PathParts | lambda_logs.py:89-90 | "scheme://bucket/key" splits into the bucket and the whole key |
| Logs.S3PathPieces | lambda_logs.py:89 | "scheme://bucket/key" split on '/' has the bucket as third piece and the pieces of the key after it |
| Logs.BackupPuts | lambda_logs.py:97-114 | a backup write happens exactly for a non-empty backup key and a prefix listing that has contents, and writes the old object under the renamed key |
| Logs.ErrorData | lambda_logs.py:123-125 | the message is "message: ", the exception text, "\nline no:", the line and a final newline, in that order and with nothing else |
| Logs.PutContentToS3 | lambda_logs.py:86-128 | success exactly when the path splits and the final put answers 200, with empty data; a short path gives "list index out of range" at line 89 and no write; otherwise the content is written to the key last, preceded by a copy of the old object under the renamed key exactly when a non-empty backup key is given and the prefix listing has contents |
| Logs.NoBackupWithoutKey | lambda_logs.py:96-117 | without a backup key only the new content is written |
| LogsExamples.PutExample | lambda_logs.py:86-128 | "s3://b/x/y.log" with status 200 writes the content to bucket "b", key "x/y.log", and succeeds |
| Webhook.LambdaHandler | dropbox_webhook_challenge.py:4-16 | every reply has status 200 and exactly the text/plain and nosniff headers; it raises exactly for a null parameter map (AttributeError) or undecodable bytes |
| Webhook.Show | dropbox_webhook_challenge.py:10-11 | `str` of None is "None" and of a text is that text |
| Webhook.EchoesText | dropbox_webhook_challenge.py:10-11 | a text challenge is the body unchanged |
| Webhook.EchoesEncodedBytes | dropbox_webhook_challenge.py:7-8 | a byte challenge is answered with a text exactly when it is that text's UTF-8 encoding |
| Webhook.MissingChallenge | dropbox_webhook_challenge.py:5-11 | a missing parameter map or missing challenge gives the body "None" |
| Utf8.Encode | dropbox_webhook_challenge.py:8 | an encoding takes one to four bytes per character |
| Utf8.Decode | dropbox_webhook_challenge.py:8 | a decoded text has at most as many characters as there are bytes |
| Utf8.DecodeIff | dropbox_webhook_challenge.py:8 | strict decoding yields a text exactly when the bytes are its encoding |
| Utf8.DecodeEncode | dropbox_webhook_challenge.py:8 | decoding an encoding gives the text back |
| Utf8.EncodeDecode | dropbox_webhook_challenge.py:8 | bytes that decode are the encoding of what they decode to |
| Text.LastIndexOf | lambda_logs.py:44 | the index of the last occurrence, or -1 when there is none |
| Text.Contains | lambda_function.py:296 | the empty string is contained in every text, and a contained string is no longer than the text |
| Text.FindFrom | lambda_logs.py:45 | the first occurrence at or after the start, or none at all |
| Text.Count | lambda_logs.py:47 | at most the length, and zero exactly when the character is absent |
| Text.Split | lambda_logs.py:49-89 | one piece more than separators, and no piece contains the separator |
| Text.Join | lambda_logs.py:90 | a join starts with its first part |
| Text.JoinCount | lambda_logs.py:90 | parts free of the separator are joined with exactly one separator between each two |
| Text.JoinSplit | lambda_logs.py:89-90 | joining the pieces with the separator gives back the text |
| Text.SplitAround | lambda_logs.py:89-90 | splitting around a separator splits each side |
| Text.IsSpace | lambda_function.py:261-275 | the whitespace set of `strip` holds space, tab, newline and carriage return, and no printable ASCII character other than space |
| Text.Strip | lambda_function.py:261-275 | strip never lengthens a text |
| Text.StripAround | lambda_function.py:274-275 | around a non-whitespace character, strip trims only the front of the left part and the end of the right part |
| Text.StripOneSide | lambda_function.py:274-275 | stripping one side first does not change the stripped form |
| Text.StripShape | lambda_function.py:261-275 | strip removes whitespace-only ends and leaves no whitespace at either end |
| Text.StripIdempotent | lambda_function.py:274-275 | stripping twice is stripping once |
| Text.Lower | lambda_function.py:296 | same length, each character lowered, and no upper-case ASCII letter is left |
| Text.StripKeeps | lambda_function.py:274 | strip keeps the number of commas (any non-whitespace character), so the split of the stripped text has as many pieces |

## Left out

- The SDK and network calls are inputs or are left out: the Dropbox listing, download and delete; the GCS upload; Gemini; Notion; notifications; S3 list, get and put; secrets. The pipeline that lambda_handler runs on a valid key is `RunPipeline`, without its 200 body or the Notion URL it JSON-encodes.
- ffmpeg itself: the probe is an input record, and the encode is a run that fails, is missing, or yields a file size. A failing run records whether pass 1 finished, and only the commands that reached a run are listed.
- ffmpeg's own refusal to write over its input is not modelled: the output path is the input path (line 59), so the successful outcomes of `Compressed` and `WarnedAndCompressed` may never be reached by a real run.
- compress_video's `filename_suffix` parameter (line 49) is never used by the code, so the model has no parameter for it.
- The float parsing of the probe fields and IEEE rounding: the bitrate arithmetic is exact `real`.
- Logging, timestamps, get_string_io_logger, and the print in rename_file's handler.
- Compress.CompressVideo: its own contract only says that commands need a successful probe; the outcomes are stated by ProbeOutcomes (probe failures, no audio stream, zero duration) and OutcomeCharacterization (a probed file with audio and a non-zero duration).
- The KeyError of a probe reply without a "duration" key (line 76) or whose audio stream has no "bit_rate" key (line 80) is not distinguished: the probe record can only show such a reply as a failed probe or as a file without an audio stream, both of which raise.
- Pipeline.LambdaHandler: a header value that is JSON null, which the code also treats as missing, is not modelled; header values are texts.
- Logs.PutContentToS3: the old object is given already decoded to text (a decoding failure of it is not modelled), and SDK exceptions other than a non-200 status are not modelled. The listing of lines 98-99 matches by prefix, so it can have contents while the key itself is absent (only "x/y.log.1" stored for the key "x/y.log"); then the read of lines 104-109 raises, the handler returns success False and the new content is never written. The model has no input for that case: `existing` is the old object whenever the listing has contents.
- Text.Lower and Text.Strip: only ASCII letters are lower-cased; strip uses the whitespace set of Python's `str.isspace`, written out.
- Regular-expression matching in general: only the fixed literal-tag search of parse_html_tags is modelled.
- A reply carrying all four tags at once is covered only through the per-field lemmas (`LeadingTag`, `TagsExample` and the `ParseHtmlTags` contract), not by a lemma about one such reply.
