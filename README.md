# koa-send request-path pipeline, in Dafny

This project models koa-send's `send(ctx, path, opts)` (index.js), the Koa middleware helper that maps a request path onto a file below a root directory and streams it.

The core is the chain of checks in lines 46-70:

1. Remember whether the raw path ends in `/`.
2. Percent-decode it. A failure yields `-1`, so the loose test `-1 == path` refuses both undecodable paths and text whose Number value is -1.
3. Refuse NUL characters.
4. Append the `index` file to a trailing-slash request.
5. Without a root, refuse paths that do not look absolute. Then refuse paths holding the text `..`.
6. Join onto the root and normalise.
7. Refuse a result that does not begin with the root string.
8. Skip hidden files.

What survives is stat-ed. Three stat errors skip the request; any other error is rethrown with status 500. A file that exists is streamed. The response-finish and socket-error listeners then make sure the stream is destroyed at most once.

Files:

- `js_string.dfy`, module `JsString`. The JavaScript string primitives the pipeline leans on:
  - `charAt`-style indexing that reads `undefined` past the end;
  - `substring`;
  - `indexOf`, with `~` applied through `ToInt32`;
  - `~s.indexOf(sub)` used as a condition;
  - the Number conversion behind `-1 == s`: whitespace trimming, sign, decimal digits, fraction and exponent.
- `uri_codec.dfy`, module `UriCodec`. `decodeURIComponent` over `%XX` escapes and UTF-8 sequences, with None for the URIError. Its partner is `encodeURIComponent`, and the round trip between them is proved.
- `posix_path.dfy`, module `PosixPath`. POSIX `path.normalize`, `path.join` and `path.basename`, written as a walk over the names between separators. Proved about them:
  - split/join round trips;
  - idempotence and canonical form of `normalize`;
  - what a join onto a normalised directory produces;
  - `basename` of a rendered path.
- `send.dfy`, module `KoaSend`. It holds:
  - the options;
  - the helpers `decode`, `isAbsolute` and `leadingDot`;
  - `Validate`, the outcome of lines 46-70 as a function;
  - `Send`, the generator body as a method with a mutable `path`, early returns and `fs.stat` as a parameter;
  - the stat classification of lines 76-77;
  - the lemmas relating all of these.
- `stream_cleanup.dfy`, module `StreamCleanup`. The `destroy`/`cleanup` listener pair as a class whose fields are the two registrations and a destroy counter.

Where the pipeline's guarantees are weaker than one might expect, the model follows the code.

- **Root bound.** Line 67 checks that the normalised path begins with the root *string*. So a request `/../www-secret` under the root `/srv/www` is served as `/srv/www-secret`, a sibling of the root. `ClimbOneLevel` proves exactly when a request `/../name` escapes this way, under a non-empty root and for a plain `name`: one clean name that does not start with `.` and holds no `%` or NUL. Requests outside that shape, such as `/../www%2Dsecret`, can escape the same way but are not covered by that lemma.
  - The string-prefix property is proved for every resolved path.
  - Containment by names is proved only for requests without a `..` name (`DotDotFreeStaysInRoot`).
- **The `..` screen.** It applies only without a root, and it is textual, so `/a..b` is refused as well (`DotDotScreen`).
- **NUL versus decode failure.** A literal or `%00` NUL is refused as "null bytes" only when the whole path decodes. A path that fails to decode elsewhere is refused as "failed to decode" first (`NulRefused`).
- **Decoding to "-1".** A path that decodes to text whose Number value is -1 is refused as undecodable. Proved families of such text: `-1`, and `-1.` followed by any number of zeros, and `-1` followed by k zeros with an exponent part of value -k, each with any white space around it (`MinusOneSpacedFraction`, `MinusOneExponent`).

## Model

| member | source | states |
|---|---|---|
| JsString.CharAt | index.js:145-146 | indexing a string yields a character exactly when the index is in range, and that character |
| JsString.Substring | index.js:147 | `substring` clamps both ends to the length and returns the slice between them |
| JsString.IndexFrom | index.js:54 | the search result is -1 or an occurrence, and no earlier position holds one |
| JsString.IndexOfZeroIsPrefix | index.js:67 | `indexOf(root) == 0` holds exactly when the string starts with the root |
| JsString.IndexOf | index.js:54 | `indexOf` is -1 exactly when the text does not occur, and otherwise the first position where it occurs |
| JsString.BitNot | index.js:54 | `~` yields a signed 32-bit value, which is 0 exactly for an argument equal to -1 modulo 2^32 |
| JsString.ToInt32 | index.js:54 | the 32-bit conversion under `~` lies in the signed 32-bit range and agrees with its argument modulo 2^32 |
| JsString.Includes | index.js:54 | `~s.indexOf(sub)` is truthy only when `sub` occurs, and always when it occurs in a string shorter than 2^32-1 |
| JsString.OccursChar | index.js:54 | a one-character string occurs exactly when the character is in the text |
| JsString.StartsWithAfter | index.js:67 | a common prefix does not change whether one string starts with another |
| JsString.TrimStart | index.js:51 | the Number conversion drops a run of leading JavaScript whitespace and nothing else |
| JsString.TrimEnd | index.js:51 | the Number conversion drops a run of trailing JavaScript whitespace and nothing else |
| JsString.DigitRun | index.js:51 | the longest run of decimal digits at the front of the text |
| JsString.ParseUnsignedDecimal | index.js:51 | a decimal literal starts with a digit or a `.` |
| JsString.NumberIsMinusOne | index.js:51 | text whose Number value is -1 has at least two characters, one of them `-` |
| JsString.NotMinusOneByFirstChar | index.js:51 | text starting with something other than whitespace or `-` is never loosely equal to -1 |
| JsString.MinusOneChars | index.js:51 | text loosely equal to -1 holds only whitespace and numeral characters |
| JsString.NotMinusOneByChar | index.js:51 | text holding any other character is never loosely equal to -1 |
| JsString.MinusOneLiteral | index.js:51 | the text "-1" is loosely equal to -1 |
| JsString.ParseInteger | index.js:51 | a non-empty run of digits reads as its decimal value |
| JsString.ParseFraction | index.js:51 | digits `a`, a `.` and digits `f` read as the value of `a` and `f` together, scaled down by one power of ten per digit of `f` |
| JsString.ParseWithExponent | index.js:51 | digits followed by an exponent part of value x read as the digits' value scaled by 10^x |
| JsString.TrimAround | index.js:51 | the Number conversion's trimming removes any white space around text that neither starts nor ends with white space |
| JsString.MinusOneAround | index.js:51 | white space, `-` and any literal whose value is one make text loosely equal to -1 |
| JsString.MinusOneSpacedFraction | index.js:51 | for any white space around it and any k, `-1.` followed by k zeros is loosely equal to -1 |
| JsString.MinusOneExponent | index.js:51 | for any white space around it and any k, `-1` followed by k zeros and an exponent part of value -k is loosely equal to -1 |
| UriCodec.EscapeAt | index.js:130 | an escape is `%` followed by two hex digits, and its byte is below 256 |
| UriCodec.EscapedBytes | index.js:130 | reading `n` consecutive escapes yields `n` bytes from the first `3n` characters |
| UriCodec.EscapedByteAt | index.js:130 | byte `j` of the escapes read is the escape at index `3j` |
| UriCodec.CodePoint | index.js:130 | a well-formed UTF-8 sequence yields a Unicode scalar value with continuation bytes only after the lead |
| UriCodec.DecodeEscape | index.js:130 | an escape sequence consumes three characters for each byte its lead byte announces, and `%00` decodes to NUL |
| UriCodec.Decode | index.js:130 | decoding never lengthens the text, and text without `%` decodes to itself |
| UriCodec.InsideEscape | index.js:130 | every character of a decoded escape sequence after its first `%` is a hex digit or the `%` of a continuation byte |
| UriCodec.DecodeKeepsChar | index.js:130 | a character that is neither `%` nor a hex digit survives decoding |
| UriCodec.DecodeKeepsEncodedNul | index.js:130 | `%00` in a path that decodes yields a NUL in the decoded text |
| UriCodec.EscapeOfByte | index.js:130 | the `%XX` escape written for a byte reads back as that byte |
| UriCodec.EscapedPercentBytes | index.js:130 | the escapes written for a run of bytes read back as those bytes |
| UriCodec.Utf8RoundTrip | index.js:130 | decoding the UTF-8 bytes of a scalar value gives the value back |
| UriCodec.CodePointEncodes | index.js:130 | a byte sequence that decodes to a code point is exactly the UTF-8 encoding of that code point |
| UriCodec.MalformedEscapeFails | index.js:49-51 | a `%` anywhere that does not start two hex digits makes decoding fail, so the request is refused as "failed to decode" |
| UriCodec.DecodeEncodedChar | index.js:130 | decoding an encoded character followed by more text gives the character followed by the rest decoded |
| UriCodec.DecodeEncode | index.js:130 | `decodeURIComponent(encodeURIComponent(s)) == s` for every string |
| UriCodec.EncodeHasNoSlash | index.js:46 | an encoded path never contains a `/` |
| PosixPath.Split | index.js:64 | a path splits into at least one name, none holding a separator |
| PosixPath.JoinSplit | index.js:64 | joining the names of a path by `/` gives the path back |
| PosixPath.SplitJoin | index.js:64 | splitting names joined by `/` gives the names back |
| PosixPath.SplitAppend | index.js:64 | the names of `a/b` are the names of `a` followed by those of `b` |
| PosixPath.Step | index.js:64 | one name changes the stack by at most one entry. A name other than `..` only extends it, and `..` in an absolute path only shortens it |
| PosixPath.Collapse | index.js:64 | the walk adds at most one name per name read |
| PosixPath.CollapseReduced | index.js:64 | the normalising walk leaves clean names, with `..` only at the front of a relative path and never in an absolute one |
| PosixPath.CollapseAppend | index.js:64 | walking two runs of names is walking the first and then the second |
| PosixPath.CollapseFixed | index.js:64 | walking names that are already reduced changes nothing |
| PosixPath.CollapseKeepsBase | index.js:64 | names without `..` only ever extend the starting directory |
| PosixPath.LastName | index.js:111 | the text after the last separator, holding no separator |
| PosixPath.Basename | index.js:111 | `basename` holds no separator |
| PosixPath.CollapseRender | index.js:64 | writing reduced names out and walking them again gives the same names |
| PosixPath.RenderEnds | index.js:64 | a rendered absolute path starts with `/`, and its last character follows the trailing flag |
| PosixPath.Normalize | index.js:64 | a path starting with `/` normalises to a path starting with `/` |
| PosixPath.Join | index.js:64 | a join whose first non-empty part starts with `/` yields a path starting with `/` |
| PosixPath.NormalizeIdempotent | index.js:64 | normalising twice is normalising once |
| PosixPath.NormalizeCanonical | index.js:64 | an absolute path normalises to clean names between single separators |
| PosixPath.AbsSegmentsOfNormalize | index.js:64 | normalising an absolute path keeps its names |
| PosixPath.JoinOntoDirectory | index.js:64 | joining a path onto a normalised directory walks the path's names starting from the directory's names |
| PosixPath.JoinAbsolute | index.js:64 | a join onto an absolute directory, or of an absolute path, is already normal and canonical |
| PosixPath.ContainedHasPrefix | index.js:67 | a path whose names extend the directory's names has the directory's string as a prefix |
| PosixPath.JoinWithoutDotDotStaysInside | index.js:64 | joining a path without `..` names onto a directory keeps the directory's names in front |
| PosixPath.BasenameRender | index.js:111 | the basename of rendered names is the last name |
| PosixPath.BasenameOfAbsolute | index.js:111 | the basename of an absolute path is its last name, or empty for `/` |
| KoaSend.RootString | index.js:40 | the root string is empty exactly without a root, and otherwise absolute with the root's names |
| KoaSend.DecodePath | index.js:128-134 | `decode` returns -1 exactly when decodeURIComponent throws, and otherwise the text decodeURIComponent returns, which is never longer than the path |
| KoaSend.LooselyMinusOne | index.js:51 | the Number -1 is loosely -1, and text that is loosely -1 has at least two characters, one of them `-` |
| KoaSend.TrailingSlash | index.js:46 | true exactly when the raw path ends in `/`, and false for the empty path |
| KoaSend.Candidate | index.js:57 | the decoded path is kept in front, and it is left unchanged exactly when no index is set or the raw path does not end in `/` |
| KoaSend.IsAbsolute | index.js:144-148 | true exactly for a leading `/`, for `:` and `\` at positions 1 and 2, or for a leading `\\` |
| KoaSend.LeadingDot | index.js:110-112 | true exactly when the basename starts with `.` |
| KoaSend.Validate | index.js:46-70 | "failed to decode" exactly when the decoded value is loosely -1. "null bytes" only for a NUL and always for one. A resolved path has passed the screens, is the normalised join and is not hidden unless allowed. With a root it starts with the root string. With a root, or for a requested path starting with `/`, it is canonical and absolute. Ignored only for a hidden target when hidden files are not allowed. Every error status is 400 or 500 |
| KoaSend.WithoutRoot | index.js:60-70 | without a root, status 500 exactly for paths that do not look absolute, and "malicious path" exactly for absolute paths holding `..`. Any other path is Ignored when its normalised form is hidden and hidden files are not allowed, and is otherwise resolved to its normalised form |
| KoaSend.WithRoot | index.js:64-70 | with a root, "malicious path" exactly when the target misses the root prefix, Ignored when it is hidden, the target otherwise |
| KoaSend.DecodePathEncoded | index.js:128-134 | `decode` undoes encodeURIComponent |
| KoaSend.MinusOneRequest | index.js:51 | the request "-1" is refused as "failed to decode" |
| KoaSend.IndexAppended | index.js:46-57 | the index is appended, and nothing else changed, exactly when it is set and the raw path ends in `/` |
| KoaSend.EncodedRequestTakenAsIs | index.js:46-57 | an encodeURIComponent-written request, even one ending in `%2F`, is taken as it decodes, without the index |
| KoaSend.EncodedNulDecodes | index.js:130 | `/%00x` decodes to a path holding NUL |
| KoaSend.EncodedNulRequest | index.js:54 | the request `/%00x` is refused with "null bytes" under any options |
| KoaSend.NulRefused | index.js:49-54 | every request holding a literal or `%00` NUL that decodes is refused with "null bytes" |
| KoaSend.SlashPathDecodeFailure | index.js:49-51 | for a `/` path, "failed to decode" means exactly that decoding threw |
| KoaSend.NameOccurs | index.js:61 | each name of a joined path occurs in it as text |
| KoaSend.DotDotScreen | index.js:61 | the textual `..` screen catches every `..` name, and also refuses `/a..b`, which has none |
| KoaSend.HiddenByLastName | index.js:70 | with a root, the target is hidden exactly when the last name of the walk from the root starts with `.` |
| KoaSend.TargetUnderRoot | index.js:64 | with a root, the target is the walk of the requested names starting from the root's names |
| KoaSend.RelativeScreened | index.js:49-57 | `relative/path` passes the screens unchanged and does not look absolute |
| KoaSend.RelativeRequest | index.js:60 | without a root, `relative/path` is refused with status 500 |
| KoaSend.DotDotFreeStaysInRoot | index.js:64-67 | a resolved request without `..` names stays below the root, name by name |
| KoaSend.ContainedNeverMalicious | index.js:67 | the string bound never refuses a target whose names extend the root's |
| KoaSend.PlainRequest | index.js:49-54 | a `/` path without `%` or NUL passes the screens as it is |
| KoaSend.DecodedScreened | index.js:49-57 | a request that decodes to a `/` path without NUL passes the screens, and its candidate is the decoded path with the index rule applied |
| KoaSend.PlainTarget | index.js:57-70 | a request that decodes to itself, without a trailing `/`, targets the rendering of its walk from the root, which is not hidden when the last name has no leading dot |
| KoaSend.PlainOutcome | index.js:64-70 | with a root, a screened request whose target is not hidden is served exactly when the target passes the root bound, and refused as malicious otherwise |
| KoaSend.RootedOutcome | index.js:57-70 | with a root, the outcome of a `/` request follows from the walk of its names |
| KoaSend.ClimbWalk | index.js:64 | `/../name` walks to the directory's parent and then into `name` |
| KoaSend.ReplaceLastPrefix | index.js:67 | a sibling passes the string bound exactly when its name extends the directory's last name, though it is not below the directory |
| KoaSend.ClimbRequest | index.js:49-57 | `/../name` decodes to itself and gets no index |
| KoaSend.ClimbOneLevel | index.js:64-67 | under a non-empty root, for a plain `name` (one clean name, not starting with `.`, without `%` or NUL), `/../name` is served from the root's sibling exactly when `name` begins with the root's last name, and is refused otherwise |
| KoaSend.CodeIndex | index.js:77 | `indexOf` over the codes is -1 for a missing or unknown code, and otherwise the first position holding it |
| KoaSend.IsNotFound | index.js:76-77 | a stat failure is skipped exactly for ENOENT, ENAMETOOLONG and ENOTDIR |
| KoaSend.Send | index.js:45-92 | every refusal and skip of the checks happens without a stat. A resolved path is stat-ed once and served with its modification time. A missing file is skipped. Any other stat error is rethrown with status 500 |
| StreamCleanup.Step | index.js:89-102 | a finish never destroys the stream, a signal destroys it at most once more, and a valid state stays valid |
| StreamCleanup.Run | index.js:89-102 | each delivered signal destroys the stream at most once more |
| StreamCleanup.DetachedIgnores | index.js:99-102 | once both listeners are removed, no signal changes anything |
| StreamCleanup.ReleasedOnce | index.js:89-102 | the stream is destroyed exactly when the first signal is a socket error, at most once, and no listener remains after the first signal |
| StreamCleanup.RunValid | index.js:89-102 | the registrations stay paired and the destroy count stays at most one |
| StreamCleanup.Listeners.constructor | index.js:89-90 | both listeners are registered and the stream is intact |
| StreamCleanup.Listeners.Cleanup | index.js:99-102 | both listeners are removed and the stream is left alone |
| StreamCleanup.Listeners.Destroy | index.js:94-97 | the stream is destroyed once, then both listeners are removed |
| StreamCleanup.Listeners.Emit | index.js:89-90 | a signal runs its listener only while that listener is registered |
| StreamCleanup.Listeners.EmitAll | index.js:89-102 | signals delivered in order leave the registrations as the step-by-step model says |
| StreamCleanup.ErrorThenFinish | index.js:89-102 | a socket error and then a late finish destroy the stream once |
| StreamCleanup.FinishThenError | index.js:89-102 | a finish and then a socket error never destroy the stream |
| StreamCleanup.Serve | index.js:89-102 | for any signals, the stream is destroyed at most once, and exactly when the first signal is a socket error |

## Left out

- `resolve(opts.root)` (index.js:40) depends on the working directory. The root is taken as an already resolved directory, given as its list of names. A `root` option that is empty or absent is None.
- `debug`, `assert` and the argument defaulting (index.js:34-43) are logging and argument checks. `maxage` is read but never used.
- The `stat` thunk and the generator/`yield` machinery (index.js:74, 118-122) are asynchronous I/O. `Send` takes the stat result as a function parameter.
- The response plumbing after a successful stat is not modelled: `Last-Modified` formatting, `extname` content type and `fs.createReadStream` (index.js:83-85). `Send` records the modification time and the path it serves.
- `path.normalize` and `path.join` are modelled with POSIX separators only. Windows semantics are not modelled, although `isAbsolute` recognises the `C:\` and `\\` forms.
- Strings are sequences of Unicode code points, while JavaScript strings are UTF-16 code units.
  - For `decodeURIComponent` this changes nothing: every decoded character is a scalar value.
  - `isAbsolute` reads positions 1 and 2, so it can differ for a path whose first character lies outside the Basic Multilingual Plane.
- KoaSend.LooselyMinusOne: the Number conversion is modelled with exact decimal values, so text like "-1.00000000000000000001" is not loosely -1 here. JavaScript rounds it to -1. Hexadecimal, binary and octal literals do not matter, because none of them is negative.
- With no root, a request like `C:\x` or `\\x` passes `isAbsolute` (index.js:144-148), but POSIX `join` and `normalize` treat it as relative. Its resolved path is then relative and is read from the working directory. `Validate` promises a canonical absolute path only with a root or for a path starting with `/`.
- JsString.Includes: `~s.indexOf(sub)` is equated with "occurs" only for strings shorter than 2^32-1 characters. Beyond that the 32-bit conversion of a found index can be 0. `Validate`'s NUL clause carries the same length bound.
- Which stream is destroyed, and the listeners' effect on the response and socket objects themselves, are not modelled. `StreamCleanup` counts the destroy calls and tracks the two registrations.
