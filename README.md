# Image storage, push broadcast and upload routing of api-recetas, in Dafny

api-recetas is a recipe-sharing backend in Node.js. This project models three of its files:

- `ImageService` (src/service/imagenService.js) stores recipe images in an S3 bucket.
  - Files are validated against a media-type allow-list and a size ceiling.
  - Uploads come as multipart files or as `data:` URLs.
  - Each object gets a key under a folder and a public URL.
  - The key can be read back from the URL.
  - Images can be deleted, and the service can report missing AWS settings.
- `NotificationService.enviarATodosLosUsuarios` (src/service/notificationService.js) broadcasts a push notification.
  - Blank device tokens are dropped.
  - The rest are cut into batches of 500, and one multicast is sent per batch.
  - The counts the responses report are added up.
- The multer configuration (src/middleware/uploadMiddleware.js) does two things.
  - It names every uploaded object `<folder><timestamp>-<uuid>.<ext>`, choosing the folder from the route.
  - It admits only `image/*` files.

Modules, one per file:

| module | file | models |
|---|---|---|
| `JsText` | js_text.dfy | the JavaScript string built-ins the code relies on: `includes`, `startsWith`, `split`/`join` on one character, `trim`, `String(n)` |
| `NodePath` | node_path.dfy | POSIX `path.extname` |
| `ImageConfig` | image_config.dfy | the environment and the constants read from it at load time, `parseInt`, `validateConfiguration`; `generateImageUrl` reads `AWS_REGION` on every call, which agrees with the load-time `region` while the environment does not change |
| `ImageService` | image_service.dfy | `validateImage`, `generateImageKey`, `generateImageUrl`, `isValidBase64Image`, the checks of `uploadImage`/`uploadBase64Image` that run before the store is called, the error mapping, the verdict of `deleteImage` |
| `S3Url` | s3_url.dfy | `extractKeyFromS3Url`: the bucket pattern, the split fallback, the round trip with `generateImageUrl` |
| `ImageStore` | image_store.dfy | class `ImageBucket`, whose `objects` map the methods `UploadImage`, `UploadBase64Image` and `DeleteImage` update |
| `NotificationService` | notification_service.dfy | the token filter, the batching loop, the send loop, the totals |
| `UploadMiddleware` | upload_middleware.dfy | the `key` callback, `fileFilter`, the 5 MiB limit |

How the outside world enters the model:

- Environment variables are a `map<string, string>`.
- `uuidv4()` and `Date.now()` are parameters.
- `Buffer.from(data, 'base64')` is a parameter `decode`. A `None` from it stands for a decoder that throws.
- Each S3 call ends as a `StoreOutcome` that the caller supplies: completed, or threw an `Error` with a message, or threw something else. A call that throws leaves the bucket unchanged.
- A JavaScript value that may be `null`/`undefined` is an `Option`.
- `sendMulticast` is a function from the call's index and its batch to a reply: a response with `successCount` and `failureCount`, or a thrown error.

## Model

| member | source | states |
|---|---|---|
| JsText.Trim | src/service/imagenService.js:127 | the trimmed string is empty exactly when every character is ECMAScript white space or a line terminator |
| JsText.Split | src/service/imagenService.js:264 | a split has at least one part and no part contains the separator |
| JsText.JoinSplit | src/service/imagenService.js:264-269 | joining the parts of a split with the same separator returns the string |
| JsText.SplitJoin | src/service/imagenService.js:268-269 | splitting a join of separator-free parts returns the parts |
| JsText.SplitLast | src/middleware/uploadMiddleware.js:26 | the last part of a split is the longest separator-free suffix: it ends the string, and it is either the whole string or preceded by the separator |
| JsText.DecimalInjective | src/middleware/uploadMiddleware.js:26 | distinct timestamps print as distinct decimal strings |
| NodePath.ExtName | src/service/imagenService.js:45 | the extension is empty or a '.' followed by text without '.' or '/', and it ends the last path component once trailing slashes are dropped; it is empty exactly when that component is ".." or has no '.' after its first character |
| ImageConfig.LoadConfig | src/service/imagenService.js:18-23 | the bucket is the variable's text or "undefined"; region, folder and ceiling text fall back to their defaults when unset or empty; the allowed types are the comma-separated parts of `ALLOWED_FILE_TYPES` whenever it is defined (at least one part, so an empty text gives one empty type), else the five defaults |
| ImageConfig.ParseInt | src/service/imagenService.js:23 | `parseInt` gives `NaN` when, after leading white space, the text starts with neither a digit nor a sign; a text starting with a decimal digit and no "0x" prefix gives a non-negative number; a negative result needs a leading '-' |
| ImageConfig.ParseIntNaN | src/service/imagenService.js:23 | after white space and an optional sign, `parseInt` gives `NaN` exactly when no decimal digit comes next, or "0x"/"0X" comes next with no hexadecimal digit after it ("-", "+x", "0x", "0xg" are all `NaN`) |
| ImageConfig.OrDefault | src/service/imagenService.js:19 | the variable when it is set and non-empty, else the fallback |
| ImageConfig.ParseIntDecimal | src/service/imagenService.js:23 | `parseInt` reads back the decimal form of every natural number |
| ImageConfig.ParseIntDecimalValue | src/service/imagenService.js:23 | after leading white space and an optional sign, `parseInt` reads the longest run of decimal digits as a base-10 number, negated after '-', and ignores whatever follows the run (an 'x' or 'X' after a lone "0" starts a hexadecimal number instead) |
| ImageConfig.ParseIntHexValue | src/service/imagenService.js:23 | after leading white space, an optional sign and "0x" or "0X", `parseInt` reads the longest run of hexadecimal digits as a base-16 number, negated after '-', and ignores whatever follows the run |
| JsText.TrimStartDropsBlank | src/service/imagenService.js:23 | what `trimStart` drops from the front is white space |
| JsText.TrimStartAfterBlank | src/service/imagenService.js:23 | white space followed by text that does not begin with white space trims to that text |
| ImageConfig.DefaultsWhenUnset | src/service/imagenService.js:18-23 | with nothing configured: bucket "undefined", region us-east-1, folder recetas/, the five default image types, ceiling 5242880 |
| ImageConfig.ValidateConfiguration | src/service/imagenService.js:343-360 | `valid` holds exactly when the error list is empty; the list is one "X no configurado" per unset required variable, in the fixed order |
| ImageConfig.MissingAmongExact | src/service/imagenService.js:346-354 | a variable's message appears exactly when the variable is required and unset |
| ImageConfig.ValidIffAllSet | src/service/imagenService.js:356-358 | the configuration is valid exactly when all three variables are set |
| ImageService.ValidateImage | src/service/imagenService.js:26-42 | valid exactly when the type is allowed and the size does not exceed the ceiling; a disallowed type is reported before the size is looked at |
| ImageService.DefaultCeilingIsInclusive | src/service/imagenService.js:34 | under the default ceiling 5242880 bytes are accepted and 5242881 are rejected as too large |
| ImageService.GenerateImageKey | src/service/imagenService.js:44-48 | the key is the folder, then the identifier, then the original extension, and nothing else |
| ImageService.KeysDifferWithIdentifiers | src/service/imagenService.js:44-48 | keys built from distinct identifiers of one length differ, whatever the original names |
| ImageService.GenerateImageUrl | src/service/imagenService.js:70-74 | null exactly for a null or empty key; otherwise `https://` bucket `.s3.` region `.amazonaws.com/` key |
| ImageService.ParseDataUrl | src/service/imagenService.js:135 | what it returns is a match of `^data:([A-Za-z-+/]+);base64,(.+)$`, and every match is what it returns, so the match is unique |
| ImageService.IsValidBase64Image | src/service/imagenService.js:237-245 | true exactly for a present string that matches the data-URL pattern with an allowed media type |
| ImageService.PrepareUpload | src/service/imagenService.js:80-100 | rejected exactly when `validateImage` fails, with its error; otherwise the put holds the generated key, the file's buffer and its type |
| ImageService.MimeExtension | src/service/imagenService.js:180 | for a media type with a '/', the text from the first '/' up to the next '/' or the end; "undefined" for one without '/' |
| ImageService.PrepareBase64Upload | src/service/imagenService.js:127-181 | a put is prepared only for input `isValidBase64Image` accepts, under a key starting with folder + uuid + ".", with an allowed type and a decoded body within the ceiling |
| ImageService.CheckDataUrl | src/service/imagenService.js:127-155 | the first three checks pass exactly the inputs `isValidBase64Image` accepts, and yield a data-URL match of the input with an allowed type; a failure is the empty, format or type error |
| ImageService.CheckRejectionsInOrder | src/service/imagenService.js:127-155 | the empty error exactly for missing or blank input; the format error exactly for non-blank input with no data-URL match; the type error exactly for a match with a disallowed type, naming that type |
| ImageService.DecodeAndName | src/service/imagenService.js:157-181 | after the checks, a put holds the decoded bytes, within the ceiling, under folder + uuid + "." + subtype with the data URL's type; a rejection is the decode or size error |
| ImageService.Base64RejectionsInOrder | src/service/imagenService.js:127-155 | `uploadBase64Image` rejects as empty, as malformed or as a disallowed type exactly when the first failing check is that one, and the type error names the matched type |
| ImageService.Base64LateRejections | src/service/imagenService.js:157-178 | the decode error exactly for an allowed data URL whose data does not decode; the size error exactly for one whose decoded length exceeds the ceiling |
| ImageService.Base64UploadAgreesWithValidity | src/service/imagenService.js:127-155 | the first three checks of `uploadBase64Image` pass exactly the inputs `isValidBase64Image` accepts |
| ImageService.Base64AcceptedUpload | src/service/imagenService.js:170-187 | an accepted data URL puts the decoded bytes, within the ceiling, with the allowed type, under folder + uuid + "." + subtype |
| ImageService.UploadFailureText | src/service/imagenService.js:114-119 | the upload error text is "Error interno del servidor al subir la imagen: " followed by the thrown `Error`'s message, or by "Error desconocido" for any other thrown value |
| ImageService.ClassifyAwsError | src/service/imagenService.js:216-227 | each message case holds exactly when the message has its marker and none of the earlier markers; a message without any marker is kept as it is |
| ImageService.AwsFailureText | src/service/imagenService.js:216-227 | each case has its own text: only an unclassified message is reported after "Error AWS: ", only the bucket case after "Bucket de S3 no encontrado: " with the bucket name, and the three fixed texts belong to one case each |
| ImageService.Base64FailureText | src/service/imagenService.js:211-233 | the generic "Error interno del servidor al subir la imagen" exactly for a thrown value that is not an `Error`; otherwise the text of the case its message falls in |
| ImageService.DeleteVerdict | src/service/imagenService.js:282-320 | an empty key fails; success exactly for a non-empty key whose delete completed or threw an `Error` mentioning NoSuchKey; any other `Error` fails with its message, and a thrown non-`Error` fails with "Error al eliminar la imagen" |
| S3Url.MatchHereShape | src/service/imagenService.js:255-256 | a bucket-pattern match at a position begins with the scheme, the bucket and ".s3.", and its group is non-empty, has no line terminator and follows ".amazonaws.com/"; the greedy group runs from just after the first '/' past ".s3." to the end of the URL or to the first line terminator |
| S3Url.MatchAfterS3Shape | src/service/imagenService.js:255 | the part of the pattern after ".s3." matches with no '/' before the host, and its group follows ".amazonaws.com/", non-empty and without line terminators; the first '/' comes right after ".amazonaws.com", which has at least one character before it; the group starts just after that '/' and ends at the end of the text or at the first line terminator |
| S3Url.MatchHereReads | src/service/imagenService.js:255-256 | conversely, the pattern matches any text made of the scheme, the bucket (its '.' matching any character but a line terminator), ".s3.", a non-empty region without '/', ".amazonaws.com/", a non-empty key without line terminators and a tail that is empty or starts with a line terminator, and its group is exactly the key |
| S3Url.AfterS3Reads | src/service/imagenService.js:255 | the part of the pattern after ".s3." reads a non-empty '/'-free region, the host, '/', and then the key up to the line terminator that starts the tail, or to the end |
| S3Url.FirstMatchNone | src/service/imagenService.js:256 | the unanchored search finds nothing exactly when the pattern matches at no position |
| S3Url.FirstMatchIsLeftmost | src/service/imagenService.js:256 | what the search finds is the match at some position, and no earlier position matches |
| S3Url.FallbackKey | src/service/imagenService.js:264-275 | null exactly when no '/'-separated part before the last contains "amazonaws.com" |
| S3Url.ExtractKeyFromS3Url | src/service/imagenService.js:247-280 | null for a missing URL or one without "amazonaws.com"; otherwise the leftmost bucket-pattern match when there is one, and the fallback's result when there is none |
| S3Url.FirstIndexIncluding | src/service/imagenService.js:265 | the index found is that of the first part containing the text, or -1 when no part does |
| S3Url.ExtractAfterGenerate | src/service/imagenService.js:255-262 | round trip: the key is read back from the URL `generateImageUrl` builds, for a non-empty key without line terminators and a non-empty region without '/' |
| S3Url.PatternKeyFollowsHost | src/service/imagenService.js:255-261 | a key read by the bucket pattern is non-empty, has no line terminator, and follows ".amazonaws.com/" in the URL |
| S3Url.FallbackCutsAfterHostPart | src/service/imagenService.js:264-271 | the fallback key is everything after the '/' that ends the first '/'-separated part containing "amazonaws.com" |
| ImageStore.ImageBucket.Put | src/service/imagenService.js:90-104 | the object is stored under its key, replacing any earlier one, and the result carries the key and its URL |
| ImageStore.ImageBucket.UploadImage | src/service/imagenService.js:76-121 | a rejected file or a put that throws leaves the bucket unchanged; otherwise the file is stored under its generated key, and the returned URL reads back to that key |
| ImageStore.ImageBucket.UploadBase64Image | src/service/imagenService.js:123-235 | nothing is put when any check rejects or the put throws; a stored object is a valid data URL's decoded bytes within the ceiling, under folder + uuid + "." |
| ImageStore.ImageBucket.DeleteImage | src/service/imagenService.js:282-320 | the result is the delete verdict; only a completed delete changes the bucket, removing exactly that key |
| NotificationService.ValidTokens | src/service/notificationService.js:33 | a token is kept exactly when it is present and not blank |
| NotificationService.ValidTokensAppend | src/service/notificationService.js:33 | the filter keeps order: filtering a concatenation concatenates the filtered halves |
| NotificationService.ValidTokensSingle | src/service/notificationService.js:33 | a single token is kept exactly when it is usable |
| NotificationService.FlattenChunks | src/service/notificationService.js:47-53 | concatenating the batches in order gives back the valid tokens |
| NotificationService.ChunksShape | src/service/notificationService.js:48-53 | every batch holds between 1 and 500 tokens, all but the last hold exactly 500, and there are ceil(n / 500) batches |
| NotificationService.BatchTokens | src/service/notificationService.js:47-53 | the slicing loop produces exactly the reference partition into batches of 500 |
| NotificationService.SendToAllUsers | src/service/notificationService.js:31-83 | with no usable token, the result is the "No hay dispositivos registrados" error and nothing is sent; otherwise the batches go out in order, one call each, until a call throws; the operation succeeds exactly when no call throws, and then the totals are the sums over the responses, kept in batch order |
| NotificationService.TotalSuccess | src/service/notificationService.js:69 | the success total is 0 exactly when every response reports no success |
| NotificationService.TotalFailure | src/service/notificationService.js:70 | the failure total is 0 exactly when every response reports no failure |
| NotificationService.TotalsAccountForEveryToken | src/service/notificationService.js:69-70 | when each response accounts for every token of its batch, the two totals add up to the number of tokens sent |
| NotificationService.CompletedSendCoversTokens | src/service/notificationService.js:69-76 | a completed broadcast made ceil(n / 500) calls, and its totals cover every usable token when each response accounts for its batch |
| UploadMiddleware.KeyFolder | src/middleware/uploadMiddleware.js:29-35 | recetas/ exactly when the route mentions "receta"; usuarios/ exactly when it mentions "usuario" but not "receta"; uploads/ otherwise |
| UploadMiddleware.FileExtension | src/middleware/uploadMiddleware.js:26 | the extension is the text after the last '.', or the whole name |
| UploadMiddleware.NoDotIsWholeName | src/middleware/uploadMiddleware.js:26 | a name without '.' is its own extension |
| UploadMiddleware.FileNameTimestamp | src/middleware/uploadMiddleware.js:26 | `parseInt` of the file name gives back the clock reading it was built from |
| UploadMiddleware.ObjectKey | src/middleware/uploadMiddleware.js:24-36 | the key is the chosen folder followed by the decimal timestamp, "-", the identifier, "." and the extension |
| UploadMiddleware.ObjectKeyInjective | src/middleware/uploadMiddleware.js:26-35 | two keys with identifiers of one length are equal only for the same folder, timestamp, identifier and extension |
| UploadMiddleware.FileFilter | src/middleware/uploadMiddleware.js:41-48 | accepts exactly the media types starting with "image/", and rejects the rest with "Solo se permiten archivos de imagen" |
| UploadMiddleware.SizeLimitsAgree | src/middleware/uploadMiddleware.js:39 | in every environment that does not set `MAX_FILE_SIZE`, the ceiling the service loads equals the middleware's limit of 5242880 bytes |
| UploadMiddleware.DefaultTypesPassFilter | src/middleware/uploadMiddleware.js:43 | every type the service allows by default passes the filter |
| UploadMiddleware.SvgPassesOnlyTheFilter | src/middleware/uploadMiddleware.js:43 | "image/svg+xml" passes the filter but is not among the service's default types |

## Left out

- AWS SDK calls are not modelled. The calls themselves become the `StoreOutcome` parameter. This covers `s3Client.send`, the existence probe of `getImageUrl`, `imageExists`, `getSignedUrl`, the `multer-s3`/`aws-sdk` storage engine and `testS3Connection`.
- `getImageUrl` runs an S3 probe before building the URL. It equals `GenerateImageUrl` when the probe completes and is null when the probe throws; the probe is not modelled.
- `getBucketInfo` only returns the configured constants. Those constants are `ImageConfig.Config`.
- The Firebase Admin SDK is not modelled: `initializeApp`, `enviarADispositivo`, `enviarPorTema`, and `sendMulticast` itself, which is a parameter.
- The controllers, routes, authentication, database setup, models and the connectivity script are not part of this model.
- No code in these files orders record writes against uploads and deletes of superseded images: the controllers do not call `ImageService`, so no coordinator is modelled.
- Logging (`console.log`/`console.error`) is not modelled.
- Object metadata (`originalName`, `uploadedAt`, `source`, `size`, `type`) is not modelled: the clock and Date formatting are outside the model.
- `ImageService.ValidateImage`: its errors are kinds (type not allowed, too large), not texts. The texts hold the list of types joined with ", " and the ceiling in MB, and those MB figures are floating-point output.
- `ImageService.PrepareBase64Upload`: likewise, the too-large error carries the byte count instead of the `toFixed(2)` MB message.
- `ImageConfig.ParseInt`: does not model the precision loss of `parseInt` on numbers beyond 2^53.
- `ImageService.PrepareBase64Upload`: `Buffer.from(data, 'base64')` is the `decode` parameter, not a base64 decoder. Node's decoder never throws, so a `decode` that never returns `None` gives the real behaviour.
- `S3Url.BucketMatchesAt`: the bucket name is put into the regular expression unescaped. The model reads each '.' in it as the wildcard and every other character literally, which is right for the characters an S3 bucket name may hold (lower-case letters, digits, '.', '-'). Other regular-expression metacharacters are not modelled.
- `NotificationService.SendToAllUsers`: some failures would throw inside the `try` and are not modelled:
  - a `null` token list;
  - tokens that are not strings;
  - a thrown value that has no `message`.
  
  A thrown reply is modelled with its message.
- `ImageStore.ImageBucket.UploadImage`: does not model a missing `file` argument, which makes `validateImage` throw inside the `try`.
- `ImageStore.ImageBucket.UploadBase64Image`: the input is a string or absent. A truthy non-string makes `.trim` throw inside the `try`, and the caller then gets "Error AWS: " and the TypeError's message; that path is not modelled.
- `ImageService.IsValidBase64Image`: the input is a string or absent. A truthy non-string makes `.match` throw out of the function; that path is not modelled.
- `UploadMiddleware.SizeLimitsAgree`: the limit's value is modelled, but multer's enforcement of it is not.
