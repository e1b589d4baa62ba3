# Multipart upload orchestrator, modelled in Dafny

This project models the core of `S3MultipartUploader` (index.js). That class uploads a local file to an object store as a multipart upload. It has four parts, each modelled here:

- **Part planning** (`PartPlanner`). The part size is `min(max(5 MiB, ceil(fileSize / 10000)), 100 MiB)`. The part count is `ceil(fileSize / partSize)`. Part `p` covers bytes `[(p-1)·partSize, min(p·partSize, fileSize))`. The file reader is given that range as an inclusive window `[start, end-1]`.
- **Retry policy** (`RetryPolicy`). Every service call is invoked up to four times. Before retry `retryCount + 1` the policy waits `1000 · 2^retryCount` ms. The last error is rethrown unchanged. The operation is modelled as a function from invocation number to outcome. A run reports its result, its invocation count and the delays it waited.
- **Manifest** (`Manifest`). One entry `{ETag, PartNumber}` is pushed for each part that succeeds, in the order the parts settle. The entries are then sorted ascending by part number.
- **Upload lifecycle** (`Uploader`). The upload initiates, uploads every part of the plan, waits for all of them, sorts the manifest and completes. A failure at any stage is rethrown as it is. No later stage runs, and no abort is issued. Each service call is an abstract function of the command it is given and of the invocation number. The order in which the concurrent part uploads settle is an input: any order of the part numbers 1..n.

`Outcomes` holds the shared `Outcome` (success value or thrown error) and `Option` types.

Some consequences of the code that the model makes explicit:

- A 12 MiB file is three parts (5, 5 and 2 MiB). See `PartPlanner.TwelveMiBFile`.
- A zero-byte file has zero parts, and completion is then requested with an empty manifest. See `Uploader.ZeroByteUpload`.
- A part failure is rethrown raw: the error of the first part to fail, unwrapped. No abort call is made.
- Nothing checks the 10000-part service limit. Files larger than 10000 × 100 MiB get more parts. See `PartPlanner.PartCountExceedsLimitPastCap`.

## Model

| member | source | states |
|---|---|---|
| `PartPlanner.CeilDivIsCeiling` | index.js:59-62 | `Math.ceil(a / b)` on naturals is the least `q` with `q·b ≥ a` |
| `PartPlanner.PartSize` | index.js:55-60 | the part size always lies in [5 MiB, 100 MiB] |
| `PartPlanner.PartSizeIsLeastSufficient` | index.js:59-60 | unless capped at 100 MiB, 10000 parts of the chosen size hold the file; unless it is the 5 MiB floor, one byte less per part would not |
| `PartPlanner.NumberOfParts` | index.js:62 | the part count is zero exactly for a zero-byte file |
| `PartPlanner.NumberOfPartsIsCeiling` | index.js:62 | the part count is the least count of part-size pieces that hold the file |
| `PartPlanner.RangeOf` | index.js:82-84 | part `p` starts at `(p-1)·partSize` inside the file, is non-empty and at most `partSize` long, is exactly `partSize` long unless last, and the last part ends at the file size |
| `PartPlanner.WindowOf` | index.js:83-87 | the inclusive window `[start, end-1]` handed to the reader holds exactly the bytes of the half-open range `[start, end)` |
| `PartPlanner.Plan` | index.js:82-84 | the parts are numbered 1..n, non-empty, contiguous from 0 to the file size, and all but the last are exactly `partSize` long |
| `PartPlanner.TilesOrdered` | index.js:82-84 | in such a tiling, an earlier part ends no later than any later part starts |
| `PartPlanner.TilesDisjoint` | index.js:82-84 | no byte lies in two parts of a tiling |
| `PartPlanner.TilesCover` | index.js:82-84 | a tiling covers exactly the bytes `0 <= b < size` |
| `PartPlanner.TilesLengthsSum` | index.js:82-84 | the lengths of a tiling's parts add up to the size |
| `PartPlanner.PlanCoversFileOnce` | index.js:82-84 | the plan's parts cover exactly the file's bytes, each byte once, and their lengths sum to the file size |
| `PartPlanner.SmallFileSinglePart` | index.js:59-62 | a file of 1 byte to 5 MiB is the single part `[0, fileSize)` |
| `PartPlanner.PartCountWithinLimit` | index.js:59-62 | files up to 10000 × 100 MiB get at most 10000 parts |
| `PartPlanner.PartCountExceedsLimitPastCap` | index.js:59-62 | one byte more gives 10001 parts: nothing enforces the limit |
| `PartPlanner.SixtyMiBFile` | index.js:59-84 | a 60 MiB file is twelve parts of exactly 5 MiB |
| `PartPlanner.TwelveMiBFile` | index.js:59-84 | a 12 MiB file is three parts, the last `[10 MiB, 12 MiB)` |
| `RetryPolicy.RetryFrom` | index.js:33-44 | entered with `retryCount` failures, it makes between 1 and `4 - retryCount` invocations; all but the last fail; the last one's outcome is returned unchanged; a failure is returned only after the 4th invocation; the delays are `1000·2^(retryCount+j)` |
| `RetryPolicy.Retry` | index.js:33-44 | at most 4 invocations; the result is the last invocation's outcome; earlier ones all failed; failure only after all 4 |
| `RetryPolicy.RetryReturnsFirstSuccess` | index.js:33-36 | `k < 4` failures followed by a success return that success after exactly `k + 1` invocations |
| `RetryPolicy.RetryExhausted` | index.js:37-42 | four failures rethrow the 4th error after exactly 4 invocations, with delays 1000, 2000 and 4000 ms, 7000 ms in all |
| `RetryPolicy.RetryTotalDelay` | index.js:37-40 | after `k = invocations − 1` retries (so `k ≤ 3`) the total wait is `1000·(2^k − 1)` ms |
| `RetryPolicy.RetryOnlyReadsFourAttempts` | index.js:37-42 | what the operation would do on a 5th invocation never affects the run |
| `Manifest.Insert` | index.js:116 | inserting into a sorted manifest keeps it sorted and adds exactly the one entry |
| `Manifest.SortByPartNumber` | index.js:116 | the sorted manifest is ascending by part number and is a permutation of the collected entries |
| `Manifest.SortedUnique` | index.js:116 | two sorted sequences with the same multiset are equal, so the sorted order does not depend on arrival order |
| `Manifest.SortedManifestIsConsecutive` | index.js:100-116 | if the collected part numbers are any order of 1..n, the sorted manifest lists parts 1, 2, ..., n |
| `Uploader.Collect` | index.js:99-113 | `Promise.all` succeeds exactly when every settled part succeeded, and then holds each part's own ETag with its part number in arrival order; otherwise it rejects with the error of the first part to fail |
| `Uploader.SortedCollectionIsManifest` | index.js:99-116 | whatever the arrival order, the sorted entries are exactly `(ETag of part i, i)` for i = 1..n |
| `Uploader.UploadParts` | index.js:78-129 | an upload call is issued for every planned part, with that part's range; completion is requested exactly when all parts succeed, with the session id and the sorted manifest; otherwise the first part failure is rethrown |
| `Uploader.UploadFile` | index.js:48-134 | a failed initiation is rethrown and nothing else runs; otherwise the session is the id initiation returned, and every part is uploaded under it; completion is requested exactly when initiation and every part succeed, with that id and the sorted manifest, and its outcome is the result; otherwise the first part error is rethrown |
| `Uploader.ZeroByteUpload` | index.js:62-126 | a zero-byte file uploads no parts and requests completion with an empty manifest |
| `Uploader.SuccessNeedsEveryStage` | index.js:71-129 | a successful upload means initiation, every part and completion succeeded |
| `Uploader.ManifestUnique` | index.js:116-124 | the manifest for given part results is unique |
| `Uploader.ArrivalOrderIrrelevant` | index.js:99-126 | when every part succeeds, the order the uploads settled in does not change the upload |

## Left out

- S3 client construction, credentials, region and transfer acceleration (index.js:13-30) are SDK configuration. Every `send` is an abstract function from invocation number to outcome.
- `fs.statSync` and `path.basename` (index.js:51-52) are file-system access. The file size is an input natural, and the key is not modelled.
- The byte stream from `fs.createReadStream` (index.js:87) is I/O. Only the window passed to it is modelled, by `PartPlanner.WindowOf`.
- Each part's command, with its one read stream as the body, is built once (index.js:87, 90-97), and the retry wrapper passes that same command to every attempt (index.js:35, 40). A retry therefore re-sends a stream the earlier attempt may already have consumed. The model does not track stream contents. Whatever such a retry yields is part of `uploadPart(id, range)(k)`, which depends on the invocation number `k`.
- Every awaited call is assumed to settle. An outcome is a success or a thrown error, with no case for a call that never settles. Such a call would leave `uploadFile` waiting forever (index.js:35, 113), since the source sets no timeout.
- The Bucket and Key are passed unchanged to every command (index.js:65-68). They are not part of the model.
- The `setTimeout` waits (index.js:39) are returned as delays in milliseconds rather than waited out.
- The concurrent fan-out (index.js:86-113) is reduced to its observable effect: the order in which parts settle, given as any order of 1..n. Part uploads still running after `Promise.all` rejects keep pushing entries that nobody reads. This is not modelled.
- Console logging (index.js:38, 76, 128, 132) and the example `main` (index.js:140-155) are plumbing.
- `Math.ceil` on JavaScript doubles is modelled as exact integer ceiling division. The two agree for file sizes below 2^53 bytes.
- Errors are modelled as strings, not arbitrary thrown values. The outer `catch` (index.js:131-134) also rethrows file-system errors, which are outside the model.
