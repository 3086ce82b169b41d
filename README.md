# Thumbnail function model

A Dafny model of the Azure Function `Thumbnail` (ImageFunctions/Thumbnail.cs).
An Event Grid "blob created" event triggers the function, which then:

1. chooses an image encoder from the blob's file extension;
2. derives a destination container (the "code") and a thumbnail name from a
   blob name of the form `<code>_<filename>`;
3. computes the thumbnail size from the source size and the `THUMBNAIL_WIDTH`
   setting;
4. creates the container, resizes and encodes the image, and uploads the
   thumbnail.

The pure parts are modelled exactly, as Dafny functions:

- the extension normalisation and the encoder switch, including the regular
  expression pre-filter;
- the two blob-name functions, over a model of
  `Split('_', RemoveEmptyEntries)`;
- the integer arithmetic of the size. C#'s truncating `/` is written out as
  `CsDiv`, and `Math.Round(decimal)` as `RoundHalfEven`.

`Run`'s control flow is a function from one invocation to its outcome. The
outcome is either a normal return or a rethrown exception, together with the
ordered list of the effects that the function performs. Those effects are
creating the container, loading, resizing, encoding, uploading, and logging.

Modules:

- `Outcomes`: the exceptions the code can raise, `Result` and `Option`.
- `Text`: the .NET string operations used, which are `Replace(".", "")`,
  `ToLower`, a case-insensitive substring search, and `Split` with and
  without empty entries. Each one comes with lemmas such as join after
  split and split after join, and the scan being equivalent to "occurs at
  some index".
- `Encoders`: `GetEncoder`.
- `BlobNames`: `GetCodeFromFullFileName` and `GetFilenameFromFullFileName`.
  The tokens they use are proved equal to an independent scanner (`Scan`,
  `TokensAreScan`), which skips separators and then takes the longest run
  without one.
- `Dimensions`: the divisor and height computation of lines 107 and 111.
- `Thumbnail`: `Run`.

Where the code does something its names do not suggest, the model follows
the code:

- **Dots.** Every `.` is removed from the extension, not only the leading
  one, so `p.ng` selects PNG.
- **Filename.** The filename is the second non-empty piece of the name, not
  everything after the first `_`. `AB_photo_final.png` gives `photo`.
- **Height.** The height is integer division, `H / (W / t)`. The cast to
  `decimal` comes after the division, so `Math.Round` never changes the
  value. The aspect ratio is kept when both divisions are exact, and in
  general it is not (`InexactExample`).
- **Upload.** The upload uses `UploadBlobAsync(name, stream)`, which does not
  overwrite. Running the same event again after a success therefore fails
  at the upload (`RetryAfterSuccessConflicts`).
- **Container.** The container is created before the image is loaded and
  sized, so a later failure leaves the container in place.

## Model

| member | source | states |
|---|---|---|
| Text.RemoveAll | ImageFunctions/Thumbnail.cs:45 | `Replace(".", "")`: the result has no `c`, is no longer than the input, and is the input when it has no `c` |
| Text.RemoveAllLength | ImageFunctions/Thumbnail.cs:45 | exactly the occurrences of `c` are removed: the length drops by their number, which with `RemoveAllAppend` and the `c`-free case determines the result |
| Text.RemoveAllAppend | ImageFunctions/Thumbnail.cs:45 | removing a character from a concatenation removes it from each part |
| Text.LowerChar | ImageFunctions/Thumbnail.cs:51 | the lower-case mapping maps `A`-`Z` onto `a`-`z` by the fixed offset, leaves every other character alone, and never yields an upper-case letter |
| Text.Lower | ImageFunctions/Thumbnail.cs:51 | `ToLower` keeps the length |
| Text.LowerAt | ImageFunctions/Thumbnail.cs:51 | `ToLower` works character by character |
| Text.LowerOfLowerCase | ImageFunctions/Thumbnail.cs:51 | a string without upper-case letters is unchanged by `ToLower` |
| Text.LowerIdempotent | ImageFunctions/Thumbnail.cs:51 | `ToLower` is idempotent |
| Text.ContainsIgnoreCase | ImageFunctions/Thumbnail.cs:47 | the case-insensitive search, tried at each starting position; no contract of its own, `ContainsIgnoreCaseAt` states what it computes |
| Text.OccurrenceIsFound | ImageFunctions/Thumbnail.cs:47 | a case-insensitive occurrence at any index is found by the left-to-right search |
| Text.FoundIsOccurrence | ImageFunctions/Thumbnail.cs:47 | what the search finds is an occurrence at some index |
| Text.ContainsIgnoreCaseAt | ImageFunctions/Thumbnail.cs:47 | the search succeeds if and only if the pattern occurs at some index |
| Text.SplitOn | ImageFunctions/Thumbnail.cs:139 | `Split` without removal always returns at least one piece |
| Text.SplitOnPieces | ImageFunctions/Thumbnail.cs:139 | no piece contains the separator, and a string without one is a single piece |
| Text.JoinSplitOn | ImageFunctions/Thumbnail.cs:139 | joining the pieces with the separator gives back the string |
| Text.SplitOnJoin | ImageFunctions/Thumbnail.cs:139 | splitting a join of separator-free pieces gives back the pieces |
| Text.SplitOnAppend | ImageFunctions/Thumbnail.cs:139 | splitting at one separator splits each side separately |
| Text.RemoveEmpty | ImageFunctions/Thumbnail.cs:139 | `RemoveEmptyEntries` never adds pieces |
| Text.RemoveEmptyKeeps | ImageFunctions/Thumbnail.cs:139 | every piece kept is non-empty and one of the original pieces |
| Text.RemoveEmptyLength | ImageFunctions/Thumbnail.cs:139 | exactly the empty pieces are dropped: the number of pieces drops by their number, which with `RemoveEmptyKeeps` and `RemoveEmptyAppend` determines the result |
| Text.RemoveEmptyAppend | ImageFunctions/Thumbnail.cs:139 | dropping empty pieces commutes with concatenation |
| Encoders.MatchesSupportedPattern | ImageFunctions/Thumbnail.cs:47 | the regular expression with alternatives `gif`, `png`, `jpe?g` and IgnoreCase: one of `gif`, `png`, `jpg`, `jpeg` occurs somewhere; no contract of its own, `PrefilterAdmitsSupported` and `PrefilterIsNotTheTest` relate it to the switch |
| Encoders.SelectFormat | ImageFunctions/Thumbnail.cs:51-67 | the switch; no contract of its own, `EncoderChoice` states its cases as equivalences |
| Encoders.Normalize | ImageFunctions/Thumbnail.cs:45-51 | every `.` removed, then lower-cased; no contract of its own, `RemoveDotsLower`, `EncoderIgnoresCase` and `EncoderIgnoresDots` state its properties |
| Encoders.LowerEqualIsFound | ImageFunctions/Thumbnail.cs:47 | a string whose lower-case form is the pattern passes the search for it |
| Encoders.PrefilterAdmitsSupported | ImageFunctions/Thumbnail.cs:47-67 | the regular expression accepts every extension the switch accepts, so the pre-filter never changes the choice |
| Encoders.GetEncoder | ImageFunctions/Thumbnail.cs:41-71 | the encoder is the switch's choice for the extension with every `.` removed and lower-cased, whatever the pre-filter says |
| Encoders.EncoderChoice | ImageFunctions/Thumbnail.cs:51-67 | PNG exactly for `png`, JPEG exactly for `jpg` or `jpeg`, GIF exactly for `gif`, and no encoder exactly for every other normalised name |
| Encoders.RemoveDotsLower | ImageFunctions/Thumbnail.cs:45-51 | removing dots and lower-casing commute |
| Encoders.EncoderIgnoresCase | ImageFunctions/Thumbnail.cs:45-51 | the encoder does not depend on letter case (`.PNG` is `.png`) |
| Encoders.RemoveDotInside | ImageFunctions/Thumbnail.cs:45 | an extra `.` anywhere is removed like the others |
| Encoders.EncoderIgnoresDots | ImageFunctions/Thumbnail.cs:45-51 | inserting a `.` anywhere does not change the encoder (`p.ng` is `png`) |
| Encoders.DottedLowerCase | ImageFunctions/Thumbnail.cs:45-67 | for `.` followed by a lower-case name without dots, the encoder is the switch's choice for that name |
| Encoders.PrefilterIsNotTheTest | ImageFunctions/Thumbnail.cs:47-67 | `xpng` passes the pre-filter yet gets no encoder |
| Encoders.PrefilterPrefixExample | ImageFunctions/Thumbnail.cs:47-67 | `pngs` passes the pre-filter yet gets no encoder |
| BlobNames.Tokens | ImageFunctions/Thumbnail.cs:139 | `Split(new char[] { '_' }, RemoveEmptyEntries)`; no contract of its own, `TokensAreRuns`, `TokensAppend` and `TokensAreScan` state what it computes |
| BlobNames.TokensAreRuns | ImageFunctions/Thumbnail.cs:139 | every token of `Split('_', RemoveEmptyEntries)` is non-empty and has no `_` |
| BlobNames.GetCode | ImageFunctions/Thumbnail.cs:135-144 | `ArgumentException` exactly when the name has no `_`, otherwise a value or an index error; a code is never empty and never contains `_` (which value: `CodeIsFirstRun`; when the index error: `ShortNamesFailWithIndexError`) |
| BlobNames.GetFilename | ImageFunctions/Thumbnail.cs:146-155 | the same for the filename (which value: `FilenameIsSecondRun`) |
| BlobNames.DropSeparators | ImageFunctions/Thumbnail.cs:139 | the scanner's first step is a suffix of the input that does not start with `_` |
| BlobNames.DroppedAreSeparators | ImageFunctions/Thumbnail.cs:139 | that step removes only `_` characters |
| BlobNames.LeadingRun | ImageFunctions/Thumbnail.cs:139 | the scanner's run is a `_`-free prefix that ends at the end of the input or at a `_` |
| BlobNames.SingleToken | ImageFunctions/Thumbnail.cs:139 | a non-empty string without `_` is its own single token |
| BlobNames.TokensAppend | ImageFunctions/Thumbnail.cs:139 | the tokens of `a_b` are the tokens of `a` followed by those of `b` |
| BlobNames.TokensDropSeparators | ImageFunctions/Thumbnail.cs:139 | leading `_` do not change the tokens |
| BlobNames.TokensAfterSeparator | ImageFunctions/Thumbnail.cs:139 | one leading `_` contributes nothing |
| BlobNames.TokensAfterRun | ImageFunctions/Thumbnail.cs:139 | a `_`-free run followed by `_` contributes exactly itself |
| BlobNames.TokensOfRun | ImageFunctions/Thumbnail.cs:139 | the tokens of a string that starts with a non-separator are its run, then the tokens of the rest |
| BlobNames.TokensUnfold | ImageFunctions/Thumbnail.cs:139 | the tokens satisfy the scanner's recursion |
| BlobNames.Scan | ImageFunctions/Thumbnail.cs:139 | the reference definition of the tokens: skip `_`, take the longest run without `_`, repeat; no contract of its own, `TokensAreScan` equates it with `Tokens` |
| BlobNames.TokensAreScan | ImageFunctions/Thumbnail.cs:139 | `Split('_', RemoveEmptyEntries)` and the independent scanner agree on every string |
| BlobNames.NoTokensIffOnlySeparators | ImageFunctions/Thumbnail.cs:139-140 | there are no tokens if and only if the name is made of `_` only |
| BlobNames.CodeIsFirstRun | ImageFunctions/Thumbnail.cs:139-140 | the code is the first maximal run without `_`, once leading `_` are skipped |
| BlobNames.FilenameIsSecondRun | ImageFunctions/Thumbnail.cs:150-151 | the filename is the second such run |
| BlobNames.TwoPartName | ImageFunctions/Thumbnail.cs:135-155 | `a_b` gives code `a` and filename `b` |
| BlobNames.FilenameIsNotRemainder | ImageFunctions/Thumbnail.cs:146-155 | `a_b_c` gives code `a` and filename `b`, not `b_c` |
| BlobNames.ShortNamesFailWithIndexError | ImageFunctions/Thumbnail.cs:137-155 | the filename fails with an index error exactly when there is a `_` but fewer than two tokens; the code fails that way exactly when the name is a non-empty run of `_` |
| BlobNames.EmptyPiecesDropped | ImageFunctions/Thumbnail.cs:139-151 | separators before the code and doubled separators are ignored |
| BlobNames.EmptyPiecesExample | ImageFunctions/Thumbnail.cs:139-151 | `_AB__x` gives code `AB` and filename `x` |
| BlobNames.ExtraPiecesExample | ImageFunctions/Thumbnail.cs:150-151 | `AB_photo_final.png` gives code `AB` and filename `photo` |
| BlobNames.SeparatorAtOneEnd | ImageFunctions/Thumbnail.cs:137-155 | `AB_` and `_AB` (for any separator-free code) give the code but an index error for the filename |
| BlobNames.AllSeparatorsExample | ImageFunctions/Thumbnail.cs:137-155 | `___` fails with an index error in both functions |
| Dimensions.CsDiv | ImageFunctions/Thumbnail.cs:107 | C# integer division: the magnitude is the quotient of the magnitudes, and the sign is negative only when exactly one operand is |
| Dimensions.CsDivRemainder | ImageFunctions/Thumbnail.cs:107 | the truncating remainder is smaller than the divisor in magnitude and has the sign of the dividend |
| Dimensions.CsDivNonNegative | ImageFunctions/Thumbnail.cs:107 | on non-negative operands, C# division agrees with Euclidean division |
| Dimensions.RoundHalfEven | ImageFunctions/Thumbnail.cs:111 | `Math.Round(decimal)` is within one half of its input and takes the even neighbour at a half |
| Dimensions.RoundWholeNumber | ImageFunctions/Thumbnail.cs:111 | rounding a whole number gives it back |
| Dimensions.ThumbnailSize | ImageFunctions/Thumbnail.cs:107-116 | a size exists exactly when the target is non-zero and no wider than the image; its width is the target; otherwise division by zero, at the divisor for target 0 and at the height otherwise |
| Dimensions.HeightIsIntegerQuotient | ImageFunctions/Thumbnail.cs:107-111 | for `1 <= t <= W` and `H >= 0` the size is `t` by `H / (W / t)`: the rounding changes nothing |
| Dimensions.HeightBounds | ImageFunctions/Thumbnail.cs:107-111 | the height is between 0 and `H`, and is the largest `h` with `h * divisor <= H` |
| Dimensions.NoReductionAboveHalfWidth | ImageFunctions/Thumbnail.cs:107-111 | when `W < 2t` the height is not reduced at all |
| Dimensions.AspectRatioWhenExact | ImageFunctions/Thumbnail.cs:107-111 | when both divisions are exact the aspect ratio is kept |
| Dimensions.AspectRatioWithoutExactness | ImageFunctions/Thumbnail.cs:107-111 | the converse of `AspectRatioWhenExact` fails: (5, 5, 2) gives 2 x 2, keeping 1:1, although 2 does not divide 5 |
| Dimensions.ExactExamples | ImageFunctions/Thumbnail.cs:107-116 | (1920, 1080, 480) gives 480 x 270; (1000, 750, 300) gives 300 x 250 |
| Dimensions.InexactExample | ImageFunctions/Thumbnail.cs:107-116 | (1000, 750, 400) gives 400 x 375, not the 400 x 300 that the aspect ratio would give |
| Dimensions.RoundingComesTooLate | ImageFunctions/Thumbnail.cs:111 | 1083 / 4 gives 270, while rounding 270.75 would give 271 |
| Dimensions.DivisionFailures | ImageFunctions/Thumbnail.cs:107-111 | target 0 fails at the divisor; a target wider than the image fails at the height |
| Thumbnail.ConvertWidth | ImageFunctions/Thumbnail.cs:89 | `Convert.ToInt32`: an unset variable gives 0, a number in the 32-bit range gives itself, anything else fails |
| Thumbnail.Process | ImageFunctions/Thumbnail.cs:89-119 | the try block once an encoder is known, step by step; no contract of its own, `ProcessShape` states its shape |
| Thumbnail.Run | ImageFunctions/Thumbnail.cs:74-133 | the whole function; no contract of its own, the lemmas below state its outcomes and effect order |
| Thumbnail.NullInputDoesNothing | ImageFunctions/Thumbnail.cs:81 | a null input stream gives no effect and no error |
| Thumbnail.UnsupportedExtensionOnlyLogs | ImageFunctions/Thumbnail.cs:85-125 | with no encoder, the only effect is the log line; there is no upload and no error |
| Thumbnail.ProcessShape | ImageFunctions/Thumbnail.cs:89-119 | the try block never logs; it uploads only when it finishes, and then it has exactly five effects ending with the upload |
| Thumbnail.FailuresAreLoggedAndRethrown | ImageFunctions/Thumbnail.cs:128-132 | every exception is logged exactly once, as the last effect, and rethrown; a run that completes logs no exception |
| Thumbnail.UploadExactlyOnSuccess | ImageFunctions/Thumbnail.cs:81-119 | an upload happens if and only if every step succeeds, and the run is then exactly: create the code's container, load, resize to the configured width and computed height, encode, and upload under the filename |
| Thumbnail.ContainerComesFirst | ImageFunctions/Thumbnail.cs:94-111 | a load or resize is always preceded by the container's creation, which is the first effect |
| Thumbnail.SizingFailureLeavesContainer | ImageFunctions/Thumbnail.cs:95-111 | a division-by-zero failure leaves the container created, with only the load in between |
| Thumbnail.UnsetWidthFailsAfterContainer | ImageFunctions/Thumbnail.cs:89-107 | an unset width fails at the divisor, after the container was created |
| Thumbnail.RetryAfterSuccessConflicts | ImageFunctions/Thumbnail.cs:119 | after a successful run, the same event fails at the upload because the thumbnail exists |
| Thumbnail.SuccessfulRun | ImageFunctions/Thumbnail.cs:81-119 | when every step can succeed, the run completes with the five effects, resizing to `t` by `H / (W / t)` |
| Thumbnail.EndToEndExample | ImageFunctions/Thumbnail.cs:81-119 | a 1920 x 1080 JPEG named `<code>_<file>` at width 480 becomes a 480 x 270 JPEG named `<file>` in container `<code>` |

## Left out

- The Azure SDK calls are not modelled as code: `BlobServiceClient`,
  `GetBlobContainerClient`, `CreateIfNotExists` and `UploadBlobAsync`. They
  are network I/O. The model sees them only as a `Storage` value, which
  says whether container creation fails, which blobs already exist, and
  whether an upload fails for another reason.
- `GetBlobNameFromUrl` (lines 34-39), `Path.GetExtension` (line 84) and the
  Event Grid deserialisation (line 83) are not modelled. They wrap .NET URI
  and path parsing that is not visible here, so the extension and the blob
  name are inputs of the model. A null URL or a null extension is not
  modelled.
- `Environment.GetEnvironmentVariable` is host plumbing. The width setting
  is an input: unset, numeric, or not numeric.
- ImageSharp's decode, resize and encode (`Image.Load`, `Mutate`, `Save`)
  are foreign codec code. The model records them as effects and takes the
  image's size, or its failure to decode, as an input. Its result for
  non-positive sizes is not modelled: height 0 when `H < W / t`, or a
  negative target.
- The informational log lines (lines 100-114) carry no behaviour. Only the
  "no encoder" line and the logged exception are effects.
- `async`/`await`, the host's retries and concurrency are not modelled.
- `Text.Lower`, `Text.ContainsIgnoreCase`: case mapping is ASCII only. The
  model assumes a culture whose lower case of `A`-`Z` is `a`-`z`.
  `ToLower()` (line 51) and `RegexOptions.IgnoreCase` (line 47) use the
  current culture. Under a Turkish or Azerbaijani culture `I` lower-cases
  to dotless `ı`, so `.GIF` would get no encoder. The model, through
  `EncoderChoice` and `EncoderIgnoresCase`, gives GIF. Non-ASCII letters
  are not mapped at all.
- `Text.SplitOn`: its contract does not count occurrences. That `Split`
  returns one piece more than there are separators is not stated.
- `Text.Lower`, `Text.RemoveAll`, `Text.SplitOn`: they work on values
  (`seq<char>`). The strings are immutable in the source too, so nothing
  about aliasing or in-place update is lost.
