# fingerprint-server: staging, request flow and image loading

A Dafny model of the logic of the sample fingerprint-matching server that the
server implements itself. The biometric work is done by an external library
and is not modelled.

- **Staging** (`storeImage` in `sample/main.go`). A base64 image string may carry
  a data-URI header. The header must start with `data:` and is split off at the
  first comma. Its media type picks the file extension, testing jpeg, png and
  gif in that order. The extension is `png` when there is no header. The payload
  is base64-decoded, the `temp` directory is created if missing, and the bytes
  are written to `./temp/image_<nanosecond stamp>.<ext>`. The header handling is
  a loose reading of the data URL scheme of RFC 2397, section 3. The payload is
  decoded as padded standard base64 (RFC 4648, section 4).
- **Request flow** (`matchFingerprints` in `sample/main.go`). A method over a
  file system that holds a set of directories and a map from path to bytes. The
  steps are: reject an unreadable body or a missing image; stage the probe,
  then the candidate; run the best-effort `convert` step on both; defer both
  deletions; compare the two files as `convert` left them; pick the verdict.
  The verdict is a match when the score is strictly greater than 0.5. The
  contract states, for every exit, the reply and exactly which files remain,
  including when a deletion fails.
- **Image loading** (`sample/util.go`). `LoadImageFromBytes` tries JPEG, then
  PNG, then reports an unsupported format. `convertToSourceAFISImage` fills a
  new gray image with the same bounds, one pixel at a time, in two nested loops
  over a 2-D array. The contract says which value each pixel ends up with.
  The loops start at 0, not at `Min`. So a pixel with a negative coordinate
  would stay black (`ConvertedPixel`). The JPEG and PNG decoders always give
  bounds that start at the origin, and for those every pixel is converted
  (`ConvertsWholeImage`).

Everything outside the program is a parameter. This covers the base64 decoder,
the two codecs, the colour-to-gray transform, the clock, the failures of
`MkdirAll`, `WriteFile` and `Remove`, the output of `convert`, the matcher (a
function from the bytes of the two staged files to a score or an error) and
the elapsed time.

Behaviour of the code worth knowing:

- Every `storeImage` error reaches the client with status 400, even the ones
  `storeImage` raises as 415 (unsupported type) or 500 (directory or write
  failure). The handler wraps them all as "Failed to store … image".
- Staged files are not removed on every exit, and two images staged in the
  same nanosecond share one file (see Findings).
- There is no timeout or cancellation. The comparison runs under
  `context.Background()` and `convert` has no deadline.
- `storeImage` accepts gif, but `LoadImageFromBytes` decodes only JPEG and PNG.
  `LoadImageFromBytes` is also not on the `/match` path, because
  `compareFingerprint` loads files through the library.

Files: `basics.dfy` (Option, Result, byte), `text.dfy` (the Go `strings` calls
and `%d` formatting used), `files.dfy` (the file system), `staging.dfy`,
`handler.dfy`, `imaging.dfy`.

## Model

| member | source | states |
|---|---|---|
| `Staging.MediaExt` | sample/main.go:192-200 | The extension is the first of jpeg, png, gif whose media type occurs in the header. The result is none exactly when none of the three occurs. |
| `Staging.JpegBeforePng` | sample/main.go:192-197 | A header that contains both `image/jpeg` and `image/png` yields `jpg`. |
| `Staging.ParseDataUri` | sample/main.go:183-201 | Input without a `data:` prefix keeps `png` and the whole string is the payload. "Invalid base64 image format" is returned exactly when there is a `data:` prefix and no comma. The only other error is "Unsupported image type". The payload is always a suffix of the input. |
| `Staging.ParseSplitsAtFirstComma` | sample/main.go:184-200 | For any header that starts with `data:` and has no comma, `header,body` gives the header's extension with exactly `body` as payload, later commas kept. An unknown media type gives Unsupported-image-type. |
| `Staging.Prepare` | sample/main.go:182-207 | The checks done before any I/O never yield a file-system error. They pass exactly when the header parses and the payload decodes, and they yield that extension and those bytes. A header error (invalid format, or an unsupported type) is returned before any decoding. Otherwise a decode failure gives "Failed to decode base64: " followed by the decoder's message. |
| `Staging.RejectsBeforeIo` | sample/main.go:198-207 | A rejected header or a bad base64 payload gives the same error whatever the directories, clock and I/O outcomes are. It is never an I/O error. |
| `Staging.StagedPathInjective` | sample/main.go:215-217 | Two staging paths are equal only when both the time stamp and the extension are equal. |
| `Staging.StoredFileShape` | sample/main.go:209-227 | A stored file is at `./temp/image_<stamp>.<ext>`, where ext is the extension the header's media type chose (png without a header). It holds exactly the decoded payload. |
| `Staging.StoreImage` | sample/main.go:182-229 | On success, exactly one path is added or overwritten, with the decoded bytes, and that path is returned. On any error the files are unchanged. Before a successful `MkdirAll` the directories are unchanged too. `temp` is added only when validation passed and `MkdirAll` succeeded. |
| `Staging.Sanitized` | sample/main.go:169-180 | `convert` keeps the set of files. It can change only the given file, and a failed `convert` changes nothing. |
| `Staging.SanitizeImage` | sample/main.go:169-180 | The files afterwards are those of `Sanitized`: the given file holds the output of a successful `convert`. A failure is only logged. The directories are unchanged. |
| `Staging.DeleteFile` | sample/main.go:161-167 | The path is gone afterwards unless `os.Remove` fails, and then nothing changes. No other file changes. A failure is only logged. |
| `Staging.ExclusiveStoreIsFresh` | sample/main.go:215-227 | A store that creates its file exclusively writes only to a path that did not exist, and then agrees with `storeImage`. Its only extra error is "file exists", for the path `storeImage` would have overwritten. |
| `Staging.StoreImageExclusive` | sample/main.go:182-229 | The steps of `storeImage` with an exclusive create in place of `os.WriteFile`. On success exactly the new path is added. On any error the files are unchanged. |
| `Files.FileSystem.MkdirAll` | sample/main.go:210 | An existing directory is not an error. Otherwise the directory is created unless the environment reports a failure. |
| `Files.FileSystem.WriteFile` | sample/main.go:221 | On success the path holds exactly the data. On failure nothing changes. |
| `Files.FileSystem.Remove` | sample/main.go:162 | Reports success exactly when the path existed and the environment reports no failure. Without a failure the path is gone afterwards. With one, nothing changes. |
| `Files.FileSystem.CreateExclusive` | sample/main.go:221 | The exclusive-create replacement for the write: a taken path gives "open <path>: file exists" and changes nothing. Otherwise it behaves like `WriteFile`. |
| `Files.FileSystem.Convert` | sample/main.go:172-174 | The in-place `convert` succeeds only on an existing file, and then replaces its contents. |
| `Text.SplitOnce` | sample/main.go:185-186 | `SplitN(s, ",", 2)` gives one part (the whole string) exactly when there is no comma. Otherwise it gives the comma-free text before the first comma and everything after it. |
| `Text.ContainsIff` | sample/main.go:192-196 | The left-to-right substring search succeeds exactly when the substring occurs at some position. |
| `Text.DecimalRoundTrip` | sample/main.go:216 | The `%d` digits of the time stamp read back as the stamp. |
| `Handler.Judge` | sample/main.go:150-154 | The verdict is Match found exactly when the score is strictly greater than 0.5. |
| `Handler.ThresholdIsNotAMatch` | sample/main.go:150-154 | A score of exactly 0.5 is No match found. |
| `Handler.ReplyFor` | sample/main.go:144-157 | The reply is a 500 exactly when the comparison failed, and then carries its error after "Failed to compare fingerprints: ". Otherwise it carries the score and the elapsed time, and its verdict is a match exactly when the score is above 0.5. |
| `Handler.DeletedMembers` | sample/main.go:131-132 | The deferred deletions remove a path exactly when some deletion of that path does not fail. |
| `Handler.CleanupDeletes` | sample/main.go:131-132 | The request's two deferred deletions remove each staged path unless its own `os.Remove` fails. |
| `Handler.RunDeferred` | sample/main.go:131-132 | Running the deferred deletions, last in first out, removes exactly the paths whose removal does not fail. The directories are unchanged. |
| `Handler.WithStaged` | sample/main.go:115-126 | After both stores, both paths exist and the candidate's path holds the candidate's bytes. When the two paths differ, the probe's path holds the probe's bytes; otherwise it holds the candidate's. Every other file is unchanged. |
| `Handler.AfterSanitize` | sample/main.go:128-129 | Sanitizing both files keeps the set of files and changes no file other than the two staged ones. |
| `Handler.ReplyIgnoresRemoval` | sample/main.go:131-157 | The reply does not depend on whether the deferred deletions fail. |
| `Handler.CleanupLeavesOnlyFailedRemovals` | sample/main.go:128-132 | After the cleanup, every file the request did not stage is unchanged. A staged path remains exactly when every deletion of it failed. |
| `Handler.CleanupRemovesStaged` | sample/main.go:128-132 | When both deletions succeed, the request leaves the files as they were before it, minus the two staging paths, whatever `convert` did. |
| `Handler.CollisionComparesCandidateTwice` | sample/main.go:115-144 | When both images get the same path, the matcher is given the same bytes twice: the candidate's, or what `convert` wrote over them. The probe's bytes never reach it. |
| `Handler.CompareStaged` | sample/main.go:128-157 | Once both files are staged, the reply is the comparison of the two files as `convert` left them. Afterwards each staged path is gone unless its deletion failed, whether the comparison failed or not. |
| `Handler.MatchFingerprints` | sample/main.go:95-158 | A bad body or an empty image gives 400 and changes nothing. A probe store failure gives 400 and leaves the files unchanged. A candidate store failure gives 400 and leaves the probe file on disk. After both stores, the reply compares the sanitized files and both deletions are attempted. Directories can only gain `temp`. |
| `Handler.StageAndCompare` | sample/main.go:115-157 | For non-empty images: a failed probe store changes no file. A failed candidate store leaves exactly the probe file added. After both are stored, the reply and the files are those of `CompareStaged` on the staged files. |
| `Handler.ProbeLeakDemo` | sample/main.go:115-126 | On an empty file system, the probe `QUJD` followed by the undecodable candidate `b@d!` gets a 400 and leaves `./temp/image_1.png` holding "ABC". |
| `Handler.StampCollisionDemo` | sample/main.go:115-154 | The different images `QUJD` ("ABC") and `REVG` ("DEF"), staged at the same time stamp, are reported as a match with score 1 by a matcher that scores only identical images 1. |
| `Handler.MatchFingerprintsWithCleanup` | sample/main.go:115-132 | The same flow with each image created exclusively, and with the probe's deletion deferred right after it is stored. A failed candidate store leaves the files as they were before the request, unless that deletion fails. A successful request staged two different paths. |
| `Handler.StageAndCompareWithCleanup` | sample/main.go:115-132 | The part of the corrected flow after validation, with the same guarantees. |
| `Handler.CompareWithCandidate` | sample/main.go:121-157 | The corrected flow once the probe is stored: a failed candidate store still runs the probe's deletion. A stored candidate never shares the probe's path. |
| `Handler.ProbeLeakFixedDemo` | sample/main.go:115-132 | The leaking request under the corrected handler leaves no file. |
| `Handler.StampCollisionFixedDemo` | sample/main.go:115-132 | The colliding request under the corrected handler is refused with "file exists" for `./temp/image_7.png` and leaves no file. |
| `Imaging.Gray.constructor` | sample/util.go:38 | `NewGray` has exactly the given bounds and every pixel is black. |
| `Imaging.Gray.Set` | sample/util.go:42 | A point inside the bounds takes the new value. A point outside is ignored. Every other pixel is unchanged. |
| `Imaging.ConvertToGray` | sample/util.go:36-44 | The new gray image has exactly the source's bounds. Each pixel is the gray of the source colour there when both coordinates are non-negative, and black otherwise. The loops terminate. |
| `Imaging.ConvertsWholeImage` | sample/util.go:37-44 | For bounds starting at or beyond the origin, every pixel inside the bounds is the gray of the source colour. |
| `Imaging.DecodeImage` | sample/util.go:19-34 | Decoding succeeds exactly when the JPEG or the PNG codec accepts the bytes. Otherwise the error is "unsupported image format - must be JPEG or PNG". |
| `Imaging.JpegWins` | sample/util.go:22-25 | When JPEG decoding succeeds its picture is used, and the PNG codec plays no part. |
| `Imaging.PngFallback` | sample/util.go:27-33 | After JPEG fails, the PNG codec is applied to the same bytes from the start and decides the result alone. |
| `Imaging.LoadImageFromBytes` | sample/util.go:19-34 | Fails, with the unsupported-format error, exactly when neither codec accepts the bytes. Otherwise it returns the gray conversion of the first decoded picture, with that picture's bounds. The error `sourceafis.NewFromGray` could add is not modelled. |

## Left out

- HTTP plumbing is not modelled: Fiber routing, CORS, the request-logging middleware, the error handler, `/health` and `main`. The body parser is a given `Result`.
- `setupLogger`, log rotation and every log line are not modelled, because they only write logs.
- `sample/fingerprint.go` (`compareFingerprint`, `example`, the transparency sink) is not modelled, because it only calls an external library and writes its global worker setting. The comparison is a parameter applied to the bytes of the two staged files as `convert` left them.
- The base64 decoder, the JPEG and PNG codecs, `color.GrayModel.Convert` and `sourceafis.NewFromGray` are parameters or left out, because they are library code. The conversion returns the gray buffer, not the library's image made from it.
- Imaging.LoadImageFromBytes: the error `sourceafis.NewFromGray` may return (sample/util.go:45) is not modelled. A decoded picture always converts.
- The `convert` subprocess is only its outcome, new file contents or failure, because it is an external process.
- `time.Now().UnixNano()` is a natural number given by the environment. Negative stamps, from before 1970, are not modelled.
- The elapsed-time string and the `%.2f` formatting of the score in the verdict message are not modelled, because they are floating-point formatting. A reply carries the score, the elapsed nanoseconds and the verdict.
- Files.FileSystem.WriteFile: a failed write leaves the file system unchanged. The real `os.WriteFile` may leave a created or truncated file behind.
- Files.FileSystem.MkdirAll: a non-directory already at `temp` is not modelled. `MkdirAll` fails only when the environment says so.
- Requests are handled one at a time. Concurrent requests sharing `./temp`, and the collisions between their time stamps, are not modelled.
- Imaging.ConvertToGray: it requires well-formed bounds, so the panic `image.NewGray` raises on negative dimensions is not modelled. The JPEG and PNG decoders never produce such bounds.
- `image.Gray` keeps its pixels in a flat slice with a stride. The model indexes a 2-D array from `Min` instead.
- `WriteAndDecode` in `sample/util.go` has an empty body and nothing to model.
- `sample/types.go` declares types only. The handler's `MatchRequest` and `MatchResponse` are not among the source files and are modelled from their use.

## Findings

The corrected handler (`Handler.MatchFingerprintsWithCleanup`) carries both fixes.

| source | as written | input that shows it | evidently intended | confidence | as-written member | corrected member |
|---|---|---|---|---|---|---|
| sample/main.go:115-132 | The deletions are deferred only after both images are stored. When storing the candidate fails, the handler returns with the probe file still in `./temp`. | A probe `QUJD` (stored as `./temp/image_1.png`) with the candidate `b@d!`, which fails base64 decoding | Every file the request staged is removed on every exit | not executed; the leak follows from the verified contract | `Handler.MatchFingerprints`, `Handler.ProbeLeakDemo` | `Handler.MatchFingerprintsWithCleanup`, `Handler.ProbeLeakFixedDemo` |
| sample/main.go:115-126 | Each staging path is made only from `time.Now().UnixNano()` and the extension, and `os.WriteFile` truncates whatever is there. Two images of the same type staged at the same stamp share one path: the candidate overwrites the probe and `compareFingerprint` gets the candidate twice. | The different images `QUJD` and `REVG`, both png, staged at stamp 7: the reply is a match with score 1 from a matcher that scores only identical images 1 | Each image of a request gets its own file, and a taken path is refused | not executed; needs two clock readings with the same nanosecond value, which depends on the platform's clock resolution | `Handler.MatchFingerprints`, `Handler.CollisionComparesCandidateTwice`, `Handler.StampCollisionDemo` | `Handler.MatchFingerprintsWithCleanup`, `Handler.StampCollisionFixedDemo` |
