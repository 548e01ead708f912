# Cardinal portfolio hub: the decision logic of its PHP request handlers

This project models the pure decision logic inside the PHP back end of the
Cardinal portfolio hub, and proves properties of that model. Pages are
driven by tiles, and the back end stores them with their media. The modules
follow the source files:

- `FrontController` (`index.php`). It covers:
  - the setup redirect;
  - normalising the request URI;
  - the dispatch order: setup page, API, admin assets and pages, public static files, public index;
  - the admin file-name mapping;
  - the cacheable-extension check.
- `Router` (`api/index.php`, top). It strips the `/api` prefix and looks the
  path up in the ordered route table of the request method, where the first
  match wins and `(\d+)` captures become arguments.
- `Media` (`processImage`, `handleUploadMedia`, `handleDeleteMedia`). It covers:
  - the dimension guards;
  - the centred crop to the configured ratio;
  - the choice of responsive variants;
  - the content-addressed file names;
  - the delete glob.
- `Tiles` (`handleCreateTile`, `handleUpdateTile`, `handleReorderTiles`,
  `handleGetPublicTiles`). It covers:
  - the validation order;
  - the inserted row;
  - the dynamic SET list;
  - the update from array position to `order_index`;
  - the public filter and sort.
- `Input` (`validateHex`, `sanitizeInput`, with `htmlspecialchars`). `Session`
  covers session regeneration, CSRF tokens, `isAuthenticated`, login and
  logout. `RateLimit` covers `checkRateLimit` as a pure transition over the
  `rate_limits` rows.
- `PhpStrings` holds the PHP string built-ins the handlers rely on: `strpos`,
  `trim`/`ltrim`/`rtrim`, `substr`, `strtok`, `str_replace`, `pathinfo`,
  `dirname`, and decimal printing.
- `Sequences` holds the generic sequence facts, and `Wrappers` holds `Option`/`Result`.

Modelling conventions:

- **Strings.** PHP strings are byte strings, modelled as `string` with one
  character per byte.
- **Regex line ends.** PCRE's `$` without the `D` modifier also matches before
  one final `"\n"`. Every regex check models this: hex colours, slugs, route
  patterns and `\.php$`.
- **Arithmetic.** The float arithmetic of the crop is exact rational
  arithmetic (`real`). The aspect ratio is `num/den`, and `(int)` truncates.
- **Type errors.** No file declares strict types. A JSON `null` or array that
  reaches a `string` parameter raises a `TypeError` that nothing catches. The
  model reports this as `TileError.TypeFailure`. In the same way, the
  `ValueError` of `imagecreatetruecolor` for an empty canvas escapes both
  `catch (Exception $e)` blocks, and is `UploadError.UncaughtValueError`.
- **Parameters.** The clock, randomness, GD, `md5_file`, `finfo`,
  `filter_var`, `password_verify` and the filesystem are parameters or oracles.

## Model

| member | source | states |
|---|---|---|
| FrontController.NeedsSetup | index.php:8-9 | Setup is needed when the config file is missing or smaller than 500 bytes |
| FrontController.SetupRedirect | index.php:11 | The redirect fires when setup is needed and `/setup.php` does not occur in the URI, or occurs at offset 0 |
| FrontController.SetupPageRedirected | index.php:11 | As written, while setup is needed, a request for `/setup.php…` itself is redirected because its match is at offset 0; `/x/setup.php` is not redirected |
| FrontController.Normalize | index.php:17-19 | The normalised URI contains no `?` and does not start with `/` |
| FrontController.NormalizeIdempotent | index.php:17-19 | Normalising an already normalised URI changes nothing |
| FrontController.NormalizePathAndQuery | index.php:17-19 | `/p?q` normalises to `p`: the query and the leading slash are dropped |
| FrontController.QueryOnlyUriKeepsQuery | index.php:18 | `strtok` skips leading delimiters, so `?q` normalises to `q`, not to "" |
| FrontController.AdminScript | index.php:50-56 | `empty()` names ("" and "0") map to `tiles.php`; a name matching `\.php$`, or matching it before a final newline, is kept; any other name gets `.php` appended; the result always matches `\.php$` |
| FrontController.AdminRoute | index.php:34-64 | The admin branch answers only for `admin/` URIs, and only with a file that exists. An existing file under `assets/` (after the replacement) is served as an asset, and it wins over the page. Otherwise an existing mapped script is served as the page. Otherwise the branch does not answer |
| FrontController.AdminReplacementSinglePass | index.php:35 | Every `admin/` is removed, in a single left-to-right pass: `admin/adadmin/` + r (with r shorter than 6 bytes) leaves `ad` + r, which again starts with `admin/` |
| FrontController.AdminReplacementExample | index.php:35-56 | `admin/adadmin/min/x` loads the admin script `admin/x.php` |
| FrontController.AdminZeroIsTiles | index.php:50-52 | `admin/0` loads `tiles.php`, because `empty("0")` holds |
| FrontController.Route | index.php:21-87 | The first applicable case wins, each as an if-and-only-if: the `setup.php` prefix, then the `api/` prefix, then the admin branch, then a non-empty path naming a regular public file, otherwise the public index. A static file is cacheable exactly when its `pathinfo` extension is in the listed set |
| FrontController.Dispatch | index.php:9-87 | The setup redirect comes first and fires exactly when `SetupRedirect` holds; otherwise the normalised URI is routed |
| FrontController.MissingAdminFallsThrough | index.php:58-70 | An `admin/` URI whose asset and script are both missing falls through to the public file of the same path |
| FrontController.StaticCaching | index.php:72-79 | A top-level public file `stem.ext` gets the immutable header exactly when `ext` is one of jpg, jpeg, png, gif, webp, css, js, woff, woff2, ico |
| Router.UrlPath | api/index.php:17 | The path is the prefix of the URI before the first `?` or `#` |
| Router.StripApi | api/index.php:20 | Exactly one leading `/api` is removed (also when no `/` follows); any other path is unchanged |
| Router.Matches | api/index.php:58 | `preg_match` of an anchored route pattern: the whole path matches, or the whole path but one final newline |
| Router.Captures | api/index.php:58-60 | A numbered pattern captures one non-empty digit run, the rest of the path after the prefix (before an optional final newline); a literal pattern captures nothing |
| Router.RoutesFor | api/index.php:23-56 | The table is present only for GET, POST, PUT, PATCH and DELETE (case-sensitive) |
| Router.FirstMatchWins | api/index.php:56-69 | Either nothing matches and the answer is 404, or the answer is the handler of a matching route that no earlier route matches, called with its captures |
| Router.FindRoute | api/index.php:57-63 | The `foreach … break` loop returns the first match |
| Router.HandleRequest | api/index.php:13-69 | An unknown method is a 404; otherwise the answer is the first match of the method's table on the stripped path |
| Router.SeparatedDisjoint | api/index.php:58 | Two separated patterns never match the same path |
| Router.MatchesViaChomp | api/index.php:58 | For a prefix without a newline, the `$` match is the same as an exact match of the path with one final newline dropped |
| Router.TableSeparated | api/index.php:23-50 | Every two routes of each method's table are separated |
| Router.NumberedMatch | api/index.php:58-60 | A prefix followed by digits matches the numbered pattern, which captures the digits |
| Router.ApiPath | api/index.php:17-20 | The routed path of `/api` + path + query is the path |
| Router.TableUnambiguous | api/index.php:23-50 | For every method and path, at most one route matches, so table order never decides the handler |
| Router.GetTileById | api/index.php:27 | `/api/tiles/<digits>` with any query or fragment reaches `handleGetTile` with the digits as its argument |
| Router.ReorderOnlyByPatch | api/index.php:40-44 | `/api/tiles/reorder` with any query reaches the reorder handler under PATCH, and is a 404 under PUT |
| Router.UnknownMethodNotFound | api/index.php:56-69 | `OPTIONS` and a lower-case `get` are 404s whatever the path |
| Media.CheckDimensions | api/index.php:734-742 | Rejected with "too large" exactly when a side exceeds 10000; otherwise rejected with "too many pixels" exactly when the product exceeds 25,000,000; both pass otherwise |
| Media.GuardsAreIndependent | api/index.php:734-742 | 6000×6000 passes the side check and fails the pixel check; 10001×1 fails the side check; 10000×2500 passes both |
| Media.WiderThanIsRatioComparison | api/index.php:746-748 | The cross-multiplied integer test equals `width/height > ratio` |
| Media.ComputeCrop | api/index.php:745-758 | The crop lies inside the image, is centred (equal margins), has exactly the target ratio, and keeps the full height (srcY 0) when wider, else the full width (srcX 0) |
| Media.CropExample | api/index.php:745-758 | 1600×1200 at 3/4 crops to 900×1200 from x = 350 |
| Media.CropIsLargest | api/index.php:745-758 | No rectangle of the target ratio that fits in the image is wider or taller than the crop |
| Media.Trunc | api/index.php:796-797 | `(int)` of a non-negative value is its floor |
| Media.TruncatedCropContained | api/index.php:751-797 | The truncated origin and size still lie inside the image |
| Media.TruncatedRatioClose | api/index.php:796-797 | The reported integer size misses the ratio by less than one pixel: `-den < w*den - h*num < num` |
| Media.SelectSizes | api/index.php:775-776 | The kept sizes are exactly the configured sizes below the untruncated crop width, with their multiplicities, in configured order |
| Media.AscendingSelectsPrefix | app/bootstrap.php:43 | With ascending sizes the kept sizes form a proper prefix of the list |
| Media.NoneSelected | api/index.php:776 | When no size is below the crop width, no variant is made |
| Media.DefaultSizesExample | app/bootstrap.php:43 | With the default sizes and a 900-pixel crop, the 480 and 768 variants are made |
| Media.VariantKeepsRatio | api/index.php:778-779 | A variant's height is `size*den/num`, the crop's exact ratio |
| Media.Variants | api/index.php:784-788 | One entry per kept size, in order, with path `{dir}/{hash}_{size}w.webp` |
| Media.ProcessImage | api/index.php:709-800 | A decoding failure, then the two guards, decide the first errors. Past the guards, the upload succeeds exactly when every canvas (the crop and each selected variant) has both extents at least 1, and fails with the empty-canvas error otherwise. On success the crop, the truncated size and the variants are as above. The paths are `{dir}/{hash}.{claimed ext}` and `{dir}/{hash}.webp` |
| Media.ProcessImageExample | api/index.php:709-800 | A 1600×1200 upload gives 900×1200 with the 480 and 768 variants, and keeps its claimed extension |
| Media.ProcessImageGeometryExample | api/index.php:748-797 | The same upload crops from x = 350 |
| Media.TinyImageFails | api/index.php:761 | A 1×1 image truncates to a zero-width canvas, which `imagecreatetruecolor` refuses |
| Media.PrimaryPathParts | api/index.php:625-626 | `dirname` of a stored primary path is the upload directory, and its `pathinfo` file name is the hash |
| Media.StoredRowGlob | api/index.php:625-627 | For a stored row, the delete glob is `{dir}/{hash}_*.*` |
| Media.VariantMatchesGlob | api/index.php:784 | Every variant path matches its upload's delete glob |
| Media.StoredPathsMissGlob | api/index.php:625-629 | Neither the primary path nor the WebP path matches the glob |
| Media.DeleteRemovesArtifact | api/index.php:620-629 | Deleting a processed upload's row removes its primary, WebP and variant files (variants on disk) |
| Media.DeletedPathsShareStem | api/index.php:620-629 | Every removed path starts with `{dir}/{hash}` |
| Media.DeleteSparesOtherUploads | api/index.php:620-629 | With md5 names, deleting one upload never removes a file of an upload with another hash |
| Media.UploadChecks | api/index.php:512-557 | Checks in handler order: authentication, the posted CSRF token, the rate limit `upload:<id>` (20 per 3600 s), the file entry, the upload error, 10 MB, and the sniffed type in the allow-list. Each check's error is `Unauthenticated`, `InvalidCsrf`, `UploadLimitExceeded`, `NoFile`, `UploadFailed`, `FileTooLarge` or `InvalidFileType`, and it occurs exactly when the earlier checks pass and that check fails. Before the limiter the table is unchanged; once the limiter is reached it is the limiter's table, which records the upload when the limiter allows it |
| Media.UploadMedia | api/index.php:512-591 | Succeeds exactly when the checks pass and `processImage` succeeds, on the claimed name. The table is the one the checks leave. The exceptions of `processImage` become the caught "Failed to process image"; its empty-canvas `ValueError` is not an `Exception`, so it stays uncaught |
| Media.ProcessImageRename | api/index.php:719-720 | Renaming the upload changes only the primary path |
| Media.ClaimedNameOnlyPicksExtension | api/index.php:561 | For the whole handler, renaming changes nothing but `pathOriginal` |
| Media.GifNamedPngRefused | api/index.php:549-557 | A GIF named `x.png` is refused as an invalid type: the check reads the sniffed type only |
| Media.StoredExtensionFromClaimedName | api/index.php:766 | A PNG uploaded as `x.jpg` is stored with the extension `.jpg` |
| Media.DeleteMedia | api/index.php:593-638 | Refused unless authenticated with a valid token and no tile uses the id. On success exactly that row is gone, the others are unchanged, and files change only when the row existed |
| Tiles.AsString | api/index.php:315-318 | Coercion to a `string` parameter fails exactly for null and arrays |
| Tiles.IsEmptyValue | api/index.php:279 | `empty()` holds for "", "0", 0, false, null and the empty array |
| Tiles.SlugExamples | api/index.php:286 | `my-tile-2` and `my-tile-2\n` pass; `My-Tile`, `a/b`, "" and `\n` do not |
| Tiles.SanitizedSlug | api/index.php:286-315 | A slug that passes the check is stored as the first n bytes of itself without its trailing newline |
| Tiles.AuthError | app/bootstrap.php:125-131 | Refused exactly when not authenticated |
| Tiles.CsrfError | api/index.php:340 | For a string token, refused exactly when it does not validate; a missing token is compared as "" |
| Tiles.StringCheck | api/index.php:286-301 | Passes exactly when the value coerces to a string that satisfies the check. Otherwise the refusal is the TypeError for null or an array, and the check's own error for any other value |
| Tiles.Assignments | api/index.php:371-381 | Fails with the TypeError exactly when a present text column holds null or an array; otherwise every clause binds a present column to its sanitized or raw value |
| Tiles.AssignedColumns | api/index.php:371-373 | A column gets a clause exactly when it is listed and present (`array_key_exists`) |
| Tiles.AssignedInOrder | api/index.php:371 | Clauses follow list order |
| Tiles.AssignedOnce | api/index.php:371 | A list without repeats sets each column at most once |
| Tiles.UpdateCheckError | api/index.php:336-361 | Passes exactly when auth and CSRF pass, a set slug matches the pattern, a set and non-empty colour is a hex colour, and a set URL is valid. The checks run in that order, and the first failing field decides the error: its own error, or the TypeError for null or an array |
| Tiles.UpdateTile | api/index.php:334-388 | Succeeds exactly when the checks pass, no text column holds null or an array, and some allowed key is present; the SET list is then the assignments followed by `updated_at`. "No fields to update" comes exactly when the checks pass and no allowed key is present. Check errors and the TypeError propagate |
| Tiles.UpdateSetList | api/index.php:366-383 | A successful update sets exactly the allowed columns present in the body, in allowed order, and then `updated_at` last |
| Tiles.UpdateColumnsDistinct | api/index.php:369-383 | No column is set twice |
| Tiles.NumericTextRoundTrip | api/index.php:442-445 | The decimal text of any int is numeric and `(int)` gives the int back |
| Tiles.IsNumeric | api/index.php:442 | `is_numeric` for ints and for integer strings with an optional sign and surrounding whitespace |
| Tiles.ToInt | api/index.php:443 | `(int)` of such a value: the int itself, or the signed decimal value of the trimmed text |
| Tiles.ParseIds | api/index.php:440-445 | Entry by entry, the id named by a numeric entry, and nothing for others |
| Tiles.LastPosition | api/index.php:440-446 | The last position naming an id, after which none does |
| Tiles.Reordered | api/index.php:430-446 | No row appears or disappears, and only `order_index` changes. A tile named in the array gets its last position, counting skipped entries; others are unchanged |
| Tiles.ApplyReorder | api/index.php:440-446 | The loop computes `Reordered` |
| Tiles.PlaceAll | api/index.php:440-446 | The loop over the parsed entries leaves each tile named by an entry at the position of its last mention, and every other tile as it was |
| Tiles.ReorderTiles | api/index.php:419-451 | Succeeds exactly when auth and CSRF pass and `ids ?? []` is an array, and then gives `Reordered`; a non-array is "Invalid ids array" |
| Tiles.ReorderExample | api/index.php:440-446 | With `[a, "x", " b ", a]`, tile b gets 2 (positions are not compacted), a gets its last position 3, and an unnamed c is unchanged |
| Tiles.PaddedNumeric | api/index.php:442 | A decimal with a blank on each side is numeric and converts to its number |
| Tiles.NotNumericX | api/index.php:442 | `"x"` is not numeric |
| Tiles.NextOrderIndex | api/index.php:306-322 | The new position exceeds every existing one; it is 1 for an empty table and otherwise the maximum plus one |
| Tiles.CreateCheckError | api/index.php:264-301 | Passes exactly when auth and CSRF pass, slug, title and target_url are not `empty()`, the slug matches the pattern, the URL is valid, and a non-empty colour is a hex colour. The checks run in that order, and the first failing one decides the error (the TypeError for null or an array) |
| Tiles.CreateTile | api/index.php:264-325 | Succeeds exactly when the checks pass and the title, and any given blurb and call-to-action, coerce to strings. The inserted row sanitizes the slug at 50 bytes, the title at 100, a given blurb at 500 and a given call-to-action at 50. The URL, colour, media id, visibility and publish date are stored raw when given. The defaults are blurb "", call-to-action "Visit", visible 1, and null colour, publish date and media. The position is `NextOrderIndex` |
| Tiles.DefaultBlurb | api/index.php:317 | The default blurb sanitizes to "" |
| Tiles.DefaultCta | api/index.php:318 | The default call-to-action sanitizes to "Visit" |
| Tiles.PublicRows | api/index.php:90-91 | Each public row is kept with its multiplicity (`visible = 1` and no publish date or one not after now); no other row is kept |
| Tiles.Insert | api/index.php:92 | Inserting into a sorted list keeps it sorted and permutes the input |
| Tiles.SortByOrder | api/index.php:92 | The result is sorted by `order_index` and is a permutation |
| Tiles.PublicTiles | api/index.php:83-93 | The listed rows are exactly the public rows, each as often as stored, by ascending `order_index` |
| Input.ValidateHex | app/bootstrap.php:162-164 | True exactly for `#` and six hex digits, optionally followed by one `\n` |
| Input.ValidateHexExamples | app/bootstrap.php:163 | Both letter cases and one trailing newline pass; three digits, a non-hex letter, a missing `#` and two newlines fail |
| Input.EscapeChar | app/bootstrap.php:155 | The five ENT_QUOTES entities replace `& < > " '`; every other byte is kept |
| Input.Escape | app/bootstrap.php:155 | The output holds no raw `<`, `>`, `"` or `'` |
| Input.UnescapeEscape | app/bootstrap.php:155 | Escaping loses nothing: reading the entities back gives the input |
| Input.EscapeAmpersands | app/bootstrap.php:155 | Every `&` in the escaped text opens one of the five entities |
| Input.EscapePlain | app/bootstrap.php:155 | Text without special bytes is unchanged |
| Input.AsciiIsUtf8 | app/bootstrap.php:155 | ASCII text is valid UTF-8, so `htmlspecialchars` never blanks it |
| Input.SanitizeInput | app/bootstrap.php:152-156 | No raw `< > " '` appear, and every `&` opens one of the five entities. When the trimmed, cut text is valid UTF-8, the result reads back to it and it has at most `maxLength` bytes; otherwise the result is "" |
| Input.SanitizePlain | app/bootstrap.php:152-156 | Short plain ASCII text without blanks at its ends passes through unchanged |
| Input.SanitizeCutInsideCharacter | app/bootstrap.php:154-155 | Cutting inside a multi-byte character makes the whole result "" |
| Input.SanitizeEncodesTwice | app/bootstrap.php:155 | Sanitising is not idempotent: `&` becomes `&amp;` and then `&amp;amp;` |
| Session.StartSecureSession | app/bootstrap.php:87-104 | Already active: unchanged. Unset `created`: it is set to now. Older than 1800 s: a fresh id and `created` = now. Otherwise unchanged. No other variable changes |
| Session.GenerateCsrfToken | app/bootstrap.php:109-114 | An existing token is returned unchanged, otherwise the fresh one is stored and returned; nothing else changes |
| Session.ValidateCsrfToken | app/bootstrap.php:116-118 | True exactly when a token is set and equals the submitted one |
| Session.IsAuthenticated | app/bootstrap.php:121-123 | Authenticated exactly when both `user_id` and `user_email` are set |
| Session.CsrfTokenStable | app/bootstrap.php:109-118 | Generating twice returns the first token whatever randomness is offered, and that token, and only it, validates |
| Session.Login | api/index.php:148-205 | Logs in exactly when the limiter allows `login:<ip>` (5 per 900 s), the email and password are not `empty()`, the user exists and the password verifies. Then the result carries the looked-up user and the fresh token. The session is the old one with the fresh id, that user's id, email and role, and the fresh token; everything else, `created` included, is kept. `TooManyAttempts` occurs exactly when the limiter refuses. `MissingCredentials` occurs exactly when the limiter allows and a field is `empty()`. `InvalidCredentials` covers the rest. On a refusal the session is unchanged |
| Session.LoginAttemptsBounded | api/index.php:157 | Over any run of attempts from one address, at most 5 are counted in the window |
| Session.Logout | api/index.php:207-216 | After logout the session is not authenticated and no token validates |
| RateLimit.Prune | app/bootstrap.php:173-176 | Only rows at or after the cutoff remain |
| RateLimit.PruneContents | app/bootstrap.php:176 | A row remains exactly when it was there and is not before the cutoff, for every key |
| RateLimit.CheckRateLimit | app/bootstrap.php:167-199 | Allowed exactly when the store does not fail and fewer than `limit` rows for the key are strictly after the cutoff. When refused, the table is exactly as before (rollback); when allowed, it is pruned plus one row for the key |
| RateLimit.CutoffRowKeptButNotCounted | app/bootstrap.php:176-179 | A row exactly at the cutoff survives pruning but is not counted |
| RateLimit.WindowBoundPreserved | app/bootstrap.php:183-193 | If at most `limit` attempts are counted before a call, at most `limit` are counted after it, at every later time |
| RateLimit.OtherKeysUnaffected | app/bootstrap.php:176-190 | A call for one key leaves every other key's count unchanged |
| RateLimit.RunStaysWithinLimit | app/bootstrap.php:167-199 | From an empty table, after any run of calls with nondecreasing times, at most `limit` attempts are counted in the window ending at the last call |
| PhpStrings.Find | index.php:11 | `strpos`: the first offset where the needle occurs, or none |
| PhpStrings.Strtok | index.php:18 | The first token is non-empty and has no delimiter; there is none exactly when the string is only delimiters |
| PhpStrings.TrimLeft | index.php:19 | `ltrim` drops the longest prefix of stripped bytes |
| PhpStrings.Trim | app/bootstrap.php:153 | The result is no longer than the input and neither starts nor ends with a trim byte |
| PhpStrings.TrimIsSlice | app/bootstrap.php:153 | The result of trim is a contiguous slice of the input, and everything before and after that slice is trim bytes |
| PhpStrings.Prefix | app/bootstrap.php:154 | `substr($s, 0, $n)` keeps `min(n, |s|)` leading bytes, and for negative n leaves n bytes off the end |
| PhpStrings.ReplaceAll | index.php:35 | Text without the pattern is unchanged |
| PhpStrings.DecimalRoundTrip | api/index.php:784 | The decimal text of a natural reads back to it |
| PhpStrings.Extension | index.php:72 | The `pathinfo` extension contains neither `/` nor `.` |
| PhpStrings.PathParts | api/index.php:625-626 | `dirname` and `basename` of `dir/name` are `dir` and `name` |
| PhpStrings.Dirname | api/index.php:625 | A path without `/` gives `.`. Otherwise the directory, `/` and the basename make up the path. The result is `/` only when everything before the basename is slashes |
| PhpStrings.DirnameTopLevel | api/index.php:625 | A top-level name, `/name` or `//name`, has directory `/` |
| PhpStrings.Basename | api/index.php:626 | The bytes after the last `/`: the whole path when it has none |
| PhpStrings.NameParts | api/index.php:626 | The stem and extension of `stem.ext` are `stem` and `ext` |

## Left out

- GD decoding, resampling and encoding, `md5_file`, and `finfo` MIME sniffing are foreign library calls. The decoded size, the hash and the sniffed type are parameters. Encoder return values are ignored by the source, so writing never fails in the model.
- Partially written files are not cleaned up when a later step fails. The source has no rollback, so the model has none.
- SQL execution, the schema, and the seed and check scripts (init-db.php, seed-demo.php, check-tiles.php) are not modelled. The tiles and rate-limit stores are sequences and maps. SQLite type affinity (a string `visible` compared with `= 1`) is not modelled: `visible` is an int in `Listed`.
- The clock, timezones, and the difference between PHP `date()` and SQLite `datetime('now')` are not modelled. Timestamps are abstract integers.
- Sessions and cookies themselves, `session_regenerate_id`, `password_verify`, `sleep` and `random_bytes` are parameters. The timing behaviour of `hash_equals` is not modelled, only its result.
- `filter_var(FILTER_VALIDATE_URL)` is the oracle `urlOk`.
- `parse_url` is modelled only for request URIs that start with a path. Authority forms (`//host/...`) are not modelled.
- File existence is a set of paths. Reading files, `mime_content_type` and the headers sent are not modelled.
- JSON objects and invalid JSON bodies are not modelled. A body is a map from keys to strings, ints, booleans, null or lists. Floats are not modelled.
- Tiles.IsNumeric: covers integer strings with optional sign and surrounding whitespace only, because the model has no floats; decimal and exponent numeric strings are not modelled, nor is the saturation of `(int)` at 64 bits.
- Tiles.SortByOrder: leaves the order among rows with equal `order_index` open, as SQLite does.
- Media.DeleteMedia: the glob is modelled for the md5 names the upload produces. Glob metacharacters in a directory or name are not modelled.
- Media.ProcessImage: assumes the coercion rules of PHP 8.0. There a float with a fraction, passed to an int parameter of GD, is truncated silently. From PHP 8.1 the same call raises a deprecation notice, for `$targetWidth` and `$targetHeight` at api/index.php:761, `$srcX` and `$srcY` at :762, and `$newHeight` at :781. The error handler of app/bootstrap.php:234-253 then answers 500 and exits in production. The model does not model that exit: a 1001×1001 upload (crop width 750.75) succeeds in the model.
- Media.UploadMedia: the crop and WebP files that `processImage` has written before a variant canvas fails are not modelled. The uncaught `ValueError` is an outcome of its own, without the response PHP then sends.
- PhpStrings.Dirname: covers paths without repeated or trailing slashes, which is what the upload handler builds; the other cases of `dirname` and `basename` are not modelled.
- PhpStrings.ReplaceAll: states only that text without the pattern is unchanged; the full single-pass behaviour is stated through FrontController.AdminReplacementSinglePass.
- `handleGetTiles`, `handleGetTile`, `handleDeleteTile`, `handleGetMedia`, `handleServeMedia`, the settings handlers and `handleHealth` are not modelled. Each one is a single query plus output, with no decision logic beyond the authentication and CSRF checks modelled above.
- `logActivity`, `error_log`, security headers and `jsonResponse` output are not modelled.
- The admin and public pages (public/index.php, admin/*.php) are not modelled. They are UI.
- backup.php's copying and retention are not modelled.

Behaviour of the source worth knowing, which the model follows:

- The default variant sizes are ascending (480 to 1920), so the largest variants are the ones dropped for small crops.
- The stored extension comes from the claimed file name, not from the sniffed type.
- The URI is cut with `strtok`, which also skips leading `?` characters.
- Create sanitizes the slug and call-to-action at 50 bytes, while update cuts them at 100.
