# Kindle format converter: the upload pipeline

The repository converts e-books between Kindle formats, EPUB and PDF by
calling Calibre's `ebook-convert`. It has two front ends, and each runs the
same per-upload pipeline:

- an HTTP service (`src/bot_service.py`): `POST /convert` and
  `GET /download/{user_id}/{filename}`;
- a Telegram bot (`src/bot.py`): a document handler.

This project models that pipeline in Dafny and proves what it does.

The pipeline:

1. Classify the upload by the lower-cased suffix of its file name.
2. Reject anything outside `.mobi`, `.azw`, `.azw3`, `.epub`, `.pdf`
   before touching the filesystem.
3. Store the upload in a per-user workspace `temp/<user>`.
4. Work out the reachable targets, always PDF before EPUB.
5. Run the converter once per target. Each output is named after the
   upload's stem plus `.pdf` or `.epub`.
6. Report every target independently. One failure never stops the later
   targets.

The two front ends differ at the end:

- The service answers with an aggregate verdict and keeps every file, so
  that the download endpoint can serve the outputs.
- The bot sends each converted file, or an error reply per target, and then
  cleans up. It unlinks the input, then every file it both converted and
  sent, then removes the workspace, and stops at the first step that raises.

Modules:

- `Paths` covers `pathlib`'s view of a file name: `name`, `suffix`, `stem`,
  ASCII `lower()`, joining, and the decimal text of an integer id.
- `Formats` holds the supported-format tables, the reachable targets and
  the output names.
- `FileSystems` is the workspace: a class whose two fields are the set of
  existing files and the set of existing directories. Its methods are
  `mkdir`, writing a file, `unlink` and `rmdir`.
  - `mkdir`, `unlink` and `rmdir` report failure where Python raises for a
    missing path or a path of the wrong kind (see "Left out" for the
    ancestors of a workspace).
  - Writing a file always succeeds here. A failed write of the upload, the
    download or the converter's output enters through the parameters
    below instead.
- `Converter` covers how each converter run ends and the files the runs
  write.
- `Service` models `src/bot_service.py`; `Bot` models `src/bot.py`.

The outside world enters as parameters:

- how each converter run ends: exit status zero (taken to mean the output
  file was written), `CalledProcessError`, or another exception, with its
  message;
- how each `send_document` call ends;
- whether storing or downloading the upload succeeded.

When an exception escapes a handler, the service ends with `InternalError`
and the bot ends with `Crashed`.

Main results:

- A converted file's path is recorded only after its converter run exited
  with status zero, and in the bot only once the file has also been sent.
  The model assumes that a run exiting with status zero has written its
  output file; the program itself never checks that the file exists.
- The service reports success exactly when some converter run exited with
  status zero. `Service.VerdictFollowsConverter` proves this.
- A file the bot converted but could not send is never on its cleanup list.
  So that file stays, `rmdir` fails and the workspace remains, whatever the
  workspace held before. `Bot.UnsentFileBlocksRemoval` proves this.
- When the workspace held nothing before the message, the converse holds
  too: cleanup removes the workspace exactly when every converted file was
  sent. `Bot.WorkspaceRemovedIffAllSent` proves this.
- The service deletes nothing. Downloading a converted file's name under
  the same user id serves exactly the path its entry reported.
  `Service.ConvertedFileDownloadable` proves this.

## Model

| member | source | states |
|---|---|---|
| Paths.Name | src/bot_service.py:35 | `PurePath.name`: the last component, skipping empty and `.` components; it never holds a separator and is never `.` |
| Paths.Suffix | src/bot_service.py:35 | `PurePath.suffix`: empty, or a tail of the name that starts with its only dot and is neither the whole name nor a lone dot |
| Paths.Stem | src/bot_service.py:65 | `PurePath.stem`: stem followed by suffix gives the name back; when there is a suffix the stem is non-empty |
| Paths.Lower | src/bot_service.py:35 | `str.lower()` on ASCII: same length, every character lower-cased in place |
| Paths.SplitJoinedName | src/bot_service.py:65 | a non-empty stem followed by a one-dot extension splits back into exactly that suffix and that stem |
| Paths.NameOfComponent | src/bot.py:104 | a single component is its own `name` |
| Paths.Join | src/bot_service.py:47 | `dir / name`, the path of `name` inside `dir`, as the plain text join (definition; stated by `JoinParts`, `NameOfJoin` and `JoinInjective`) |
| Paths.JoinParts | src/bot_service.py:47 | `dir / name` lies below `dir`, and `name` is what follows the separator (proof step for the loop and download proofs, not itself source behaviour) |
| Paths.NameOfJoin | src/bot.py:104 | the `name` of `dir / name` is `name` for a single component |
| Paths.JoinInjective | src/bot_service.py:47 | joining onto one directory gives the same path exactly for the same name |
| Paths.Decimal | src/bot.py:70 | `str(n)` for a user id is non-empty and made of decimal digits only |
| Paths.DecimalRoundTrip | src/bot.py:70 | reading back the decimal text of `n` gives `n` |
| Paths.DecimalInjective | src/bot.py:70 | two ids have the same decimal text exactly when they are equal |
| Formats.InputExtension | src/bot_service.py:35 | the extension an upload is classified by: the lower-cased suffix of its final component (definition; its shape is stated by `InputExtensionShape`) |
| Formats.InputExtensionShape | src/bot_service.py:35 | the classified extension is empty or a dot followed by dot-free text, as long as the suffix it came from |
| Formats.Extension | src/bot_service.py:64 | each target extension is itself an accepted input extension, which converts to the other target and not to its own |
| Formats.OutputName | src/bot_service.py:65 | the output name: the original-case stem of the upload's final component plus the target's extension (definition) |
| Formats.OutputPath | src/bot_service.py:65 | where the converter is told to write a target: the output name inside the workspace (definition) |
| Formats.RenamedIsComponent | src/bot_service.py:65 | a component given a target's extension is one non-empty component, not `.`, ending with that extension |
| Formats.OutputNameIsComponent | src/bot_service.py:65 | every output name is one component that ends with the target's extension |
| Formats.Reachable | src/bot_service.py:22-26 | the targets are non-empty exactly for a supported extension, never the input's own format, and PDF comes before EPUB |
| Formats.PossibleFormats | src/bot_service.py:53-57 | the two conditional appends from the `to_pdf` and `to_epub` tables give exactly the reachable targets |
| Formats.ExtensionShape | src/bot_service.py:64 | each target extension is a dot followed by dot-free, already lower-case text |
| Formats.RenamedComponent | src/bot_service.py:65 | giving a component the target's extension keeps one component, with that extension as suffix and the old stem as stem |
| Formats.OutputNameParts | src/bot_service.py:64-65 | for an accepted upload the output name is one component with the target's suffix and the upload's original-case stem; the PDF and EPUB names differ |
| Formats.OutputNameDiffers | src/bot_service.py:64-65 | a reachable target's output name never equals the uploaded name |
| Formats.OutputPathsDistinct | src/bot_service.py:47-65 | each target writes its own path in the workspace and never the input's path |
| FileSystems.FileSystem.Exists | src/bot_service.py:109 | `Path.exists()`: a file or a directory is at the path (definition) |
| FileSystems.FileSystem.MakeDirs | src/bot_service.py:44 | `mkdir(parents=True, exist_ok=True)` raises exactly when a file sits at the path; otherwise the directory exists afterwards |
| FileSystems.FileSystem.WriteFile | src/bot_service.py:48-50 | writing adds the file and changes nothing else |
| FileSystems.FileSystem.Unlink | src/bot.py:119-121 | `unlink` raises exactly when no file is at the path; the file is gone afterwards |
| FileSystems.FileSystem.Rmdir | src/bot.py:122 | `rmdir` succeeds exactly when the directory exists and nothing lies below it, and only then removes it |
| Converter.Produced | src/bot_service.py:67-75 | the files the converter runs write, one per run that exited with status zero (definition; its members are stated by `ProducedMembers`) |
| Converter.ProducedMembers | src/bot_service.py:67-75 | an output file exists after the loop exactly for the targets whose converter run exited with status zero |
| Converter.ProducedStep | src/bot_service.py:67-73 | one more converter run adds at most its own output file (proof step for the loop and download proofs, not itself source behaviour) |
| Service.EffectiveUser | src/bot_service.py:43 | a missing or empty user id becomes "default"; any other id is kept |
| Service.Workspace | src/bot_service.py:43 | the request's workspace lies in `temp`, and the rest of its path is the effective user id |
| Service.SharedWorkspace | src/bot_service.py:43 | two requests share a workspace exactly when their effective ids agree; anonymous requests share `temp/default` |
| Service.EntryFor | src/bot_service.py:76-92 | the entry one converter run appends to `conversion_results`: success with the output path on a zero exit, otherwise the failure with its message (definition; stated by `EntriesForReports`) |
| Service.EntriesFor | src/bot_service.py:61-92 | the entries the loop appends to `conversion_results`, one per target in order (definition; stated by `EntriesForEach` and `EntriesForReports`) |
| Service.EntriesForEach | src/bot_service.py:63-92 | the loop appends exactly one entry per target, in order, each made from that target's own run |
| Service.EntriesForReports | src/bot_service.py:63-92 | an entry succeeds, with the output path, exactly when its run exited with status zero; otherwise it carries the error text |
| Service.EntriesForStep | src/bot_service.py:63-92 | one more target appends exactly its own entry (proof step for the loop and download proofs, not itself source behaviour) |
| Service.RunConversions | src/bot_service.py:60-92 | the loop's entries are the per-target entries in order, `converted_files` lists the successful paths, and only the outputs of successful runs are written |
| Service.Successful | src/bot_service.py:95 | the comprehension keeps no more entries than there are, and every entry it keeps is a success |
| Service.SuccessfulMembers | src/bot_service.py:95 | the comprehension keeps exactly the successful entries |
| Service.SuccessfulPaths | src/bot_service.py:60-75 | the service's `converted_files`: the output paths of the successful entries, in order (definition; stated by `SuccessfulPathsInOrder`) |
| Service.SuccessfulPathsInOrder | src/bot_service.py:75-80 | `converted_files` lists the paths of the successful entries, one for one and in order |
| Service.SuccessfulPathsStep | src/bot_service.py:75 | appending an entry appends its path exactly when it succeeded (proof step for the loop and download proofs, not itself source behaviour) |
| Service.Verdict | src/bot_service.py:95-103 | success exactly when some entry succeeded; either way the reply carries every entry, failures included |
| Service.VerdictFollowsConverter | src/bot_service.py:95-103 | the request succeeds overall exactly when some target's converter run exited with status zero |
| Service.ConvertedEntriesProduced | src/bot_service.py:75-80 | every successful entry names a file the converter wrote |
| Service.ConvertEbook | src/bot_service.py:28-103 | no file or an unsupported extension returns an error and changes nothing; a failing `mkdir` or upload write escapes; otherwise every target is reported, the verdict follows the runs, and the input and the outputs stay in the workspace |
| Service.ConvertedPathIsOutput | src/bot_service.py:76-80 | every successful entry carries the output path of its own format |
| Service.DownloadPath | src/bot_service.py:108 | the path a download looks at lies in `temp`, inside the requested user's directory |
| Service.DownloadFile | src/bot_service.py:105-110 | "File not found" exactly when nothing exists at `temp/<user_id>/<filename>`, otherwise that path is served |
| Service.OutputDownloadPath | src/bot_service.py:108 | the download path of an output name under the effective user id is the path that output was written to (proof step for the loop and download proofs, not itself source behaviour) |
| Service.ConvertedFileDownloadable | src/bot_service.py:105-110 | after an upload, downloading a target's output name under the same user id serves exactly the path of that target's successful entry |
| Bot.Workspace | src/bot.py:70 | a Telegram user's workspace lies in `temp`, and its final component is the decimal text of the user's id |
| Bot.WorkspacesDistinct | src/bot.py:69-70 | two Telegram users share a workspace exactly when their ids are equal |
| Bot.ReplyFor | src/bot.py:91-115 | a target gets the converted document exactly when conversion and sending both succeed; a non-zero exit gives the conversion error with its message; every other failure gives the unexpected-error reply with that failure's message |
| Bot.RepliesFor | src/bot.py:87-115 | the messages the loop sends, one per target in order (definition; stated by `OneReplyPerFormat` and `ReplyFor`) |
| Bot.OneReplyPerFormat | src/bot.py:87-115 | the bot sends exactly one message per target, in order, each about its own target |
| Bot.DeliveredPaths | src/bot.py:86-107 | the bot's `converted_files`: the output paths of the targets both converted and sent, in order (definition; stated by `DeliveredMembers` and `DeliveredDistinct`) |
| Bot.DeliveredMembers | src/bot.py:99-107 | a path is recorded in `converted_files` exactly for the targets both converted and sent |
| Bot.DeliveredDistinct | src/bot.py:86-107 | `converted_files` never lists a path twice |
| Bot.DeliveredWereProduced | src/bot.py:93-107 | every recorded path names a file the converter wrote |
| Bot.LoopStep | src/bot.py:87-107 | one more target appends exactly its own message and at most its own recorded path (proof step for the loop and download proofs, not itself source behaviour) |
| Bot.SentName | src/bot.py:104 | the document is sent under `output_path.name`, which is the output name |
| Bot.ConvertOne | src/bot.py:88-115 | one target's turn: the converter runs, the file is sent only after a zero exit, the path is recorded only after a successful send, and exactly one message goes out |
| Bot.ConvertAndSend | src/bot.py:86-115 | the loop sends the per-target messages in order, records exactly the delivered paths and writes exactly the outputs of successful runs |
| Bot.UnlinkAll | src/bot.py:118-121 | unlinking in order removes only listed files, and it stops only at a listed file that is missing |
| Bot.UnlinkAllBounds | src/bot.py:118-121 | the unlink sequence removes only listed files |
| Bot.UnlinkAllPresent | src/bot.py:118-121 | when every listed file exists and none is listed twice, every listed file is unlinked |
| Bot.CleanupRemovesOnlyListed | src/bot.py:117-124 | cleanup removes only listed files and at most the workspace, and removes the workspace only when every file in it was listed and no directory lies below it |
| Bot.CleanupResult | src/bot.py:117-124 | the cleanup block's outcome: unlink in order, then `rmdir`, stopping at the first failure (definition; stated by `CleanupRemovesOnlyListed`) |
| Bot.Cleanup | src/bot.py:117-124 | unlink the input, then each recorded path, then `rmdir`; the first failure ends the block and is only logged |
| Bot.CleanupListPresent | src/bot.py:118-121 | for an accepted upload the cleanup list has no repeats and every file on it exists |
| Bot.OutputsInWorkspace | src/bot.py:89 | every output lies in the workspace, and none is at the input's path |
| Bot.UnlinkLeavesUnsent | src/bot.py:118-121 | in a workspace that held nothing, unlinking leaves exactly the earlier files and the outputs converted but not sent |
| Bot.UnsentIffNotAllSent | src/bot.py:99-107 | some converted file is unrecorded exactly when some converted file was not sent |
| Bot.WorkspaceRemovedIffAllSent | src/bot.py:117-124 | in a workspace that held nothing, cleanup removes the workspace exactly when every converted file was sent; otherwise `rmdir` fails and the workspace stays |
| Bot.UnsentFileBlocksRemoval | src/bot.py:100-122 | whatever the workspace held before, a file converted but not sent stays, `rmdir` fails and the workspace remains |
| Bot.PrependDistinct | src/bot.py:118-121 | the input in front of distinct recorded outputs, none of which is the input, gives a list without repeats |
| Bot.ConvertEbook | src/bot.py:50-124 | no document gives one request and nothing else; a missing file name escapes; an unsupported extension gives one reply before any `mkdir`; a failing `mkdir` or download escapes; otherwise one message per target and the cleanup outcome on the resulting workspace |

## Left out

- Path normalisation: paths are joined as `dir + "/" + name`. `pathlib`'s handling of an absolute or `..`-bearing upload name is not modelled, and neither is path traversal through the unchecked `user_id` and `filename` of the download route.
- The ancestors of a workspace: `mkdir(parents=True)` is modelled as failing only when a file sits at the workspace path itself, not at one of its ancestors.
- The bytes of the upload and of the converted files: a file is a path in a set.
- The message texts: the replies carry their kind, the format and the error message. The comma-joined list of supported formats is left out, because a Python set has no fixed order.
- Unicode case folding: lower-casing is ASCII only. That is exact for the five supported extensions.
- `reply_text`, logging, `get_file`, FastAPI's routing, `FileResponse`, `load_dotenv`, `startup_event` and `main`: these are framework wiring or I/O. Every `reply_text` is modelled as succeeding; one that raises inside an `except` branch (src/bot.py:109-115) would escape the handler and skip the cleanup block, and that path is not modelled.
- `src/bot.js`, a network client of the service, is not part of this model.
- Concurrency: two requests of the same user share one workspace without locking. The model is sequential.
- Service.SharedWorkspace: the workspace path is the plain text `temp/<id>`. `pathlib` normalises it, so the ids "a", "a/" and "./a" all share `temp/a`, and an id such as ".." or "../x" leads outside `temp`. The lemma holds for the model's plain join, which matches `pathlib` only for ids without `/` and without `.` or `..` components.
- Service.ConvertEbook: a failed upload write is modelled as leaving no file. A file that `open(..., "wb")` created before the read failed is not modelled.
- Bot.ConvertEbook: a failed download is modelled as leaving no file. A partially written download is not modelled.
- Converter.ProducedMembers: a converter run that exits with status zero is assumed to have written its output file, and a run that fails is modelled as writing nothing. The program never checks the file: a run that exits with status zero yet writes nothing, or partial output from a failed run, is not modelled. `Service.ConvertedEntriesProduced`, `Service.ConvertedFileDownloadable` and `Bot.UnsentFileBlocksRemoval` rest on this assumption; without the file, `/download` would answer "File not found" and the bot's `open` at src/bot.py:100 would raise, giving the unexpected-error reply.
- FileSystems.FileSystem.WriteFile: writing where a directory already sits (Python's `IsADirectoryError`) is not modelled as failing; the path is added to the files. The model does not keep files and directories disjoint.
- Bot.ConvertEbook: Telegram user ids are modelled as natural numbers, so `str()` of a negative id is not covered.
- Service.DownloadFile: `exists()` is also true for a directory at the path, and the model keeps that. What `FileResponse` then does with a directory is not modelled.
