# Lunar calendar site: framework, codec and calendar data, in Dafny

The repository serves a Chinese lunar calendar as a web site. Its core has
three parts.

- **A small HTTP framework** (`MyServer` in lib/mini-server.js). It covers:
  - the `next` chain of normal and error handlers;
  - path routes with `:name` placeholders;
  - lazy request parsing;
  - a static-file handler.
- **A WebSocket codec** (lib/ws.js): the server's opening handshake and
  the frame packer and unpacker.
- **The calendar data code:**
  - the date utilities of lib/utils.js;
  - the festival annotation of festival.js;
  - the builder in build-data.js, which turns day lines of the Hong Kong
    Observatory almanac into months of `DateInfo` records.

This project restates that core as pure Dafny functions over immutable
datatypes and proves what the code promises. Where the code does
something its authors evidently did not intend, it proves that too. Files
and modules:

| file | module | models |
|---|---|---|
| base.dfy | Base | `Option`, `Result`, error kinds, joining and prefixes |
| utf8.dfy | Utf8 | UTF-8 as `Buffer.from(s, 'utf8')` and `toString('utf8')` use it |
| uri.dfy | Uri | `encodeURIComponent` and `decodeURIComponent` |
| ws_handshake.dfy | WsHandshake | `handshake` and `acceptValue` |
| ws_frame.dfy | WsFrame | `packMsg`, `unpackMsg`, the unmasking loop, the `data` listener |
| dispatch.dfy | Dispatch | the handler sets, `use`, `catch` and the `next` function |
| route.dfy | Route | `pathToExpr`, regular-expression matching of a route, `usePath`, `get` |
| posix_path.dfy | PosixPath | `path.posix.join('/', p)` and `path.extname` |
| request.dfy | Request | `parseRequest`, the `pathname`/`search`/`query` getters, `resetParse` |
| static_config.dfy | StaticConfig | `copyConfig`, the static defaults, `MIME` |
| dir_listing.dfy | DirListing | `dirTemplate` |
| static_files.dfy | StaticFiles | the static responder's decisions |
| calendar_utils.dfy | CalendarUtils | the date functions of lib/utils.js |
| calendar_types.dfy | CalendarTypes | `DateInfo`, `MonthData`, `Holiday` of global.d.ts |
| build_data.dfy | BuildData | `TC2SC`, `CalendarData`, `lunarTransform`, `parseMonths` |
| festival.dfy | Festival | `HOLIDAYS` and `applyHoliday` |

## How the JavaScript is modelled

- **Exceptions** are the `Failure` case of a `Result`. Each carries its
  error kind (`RangeError`, `TypeError`, `URIError`, `SyntaxError` or a
  plain `Error`) and the message the code writes.
- **Numbers.** Where the code tests a JavaScript number,
  `CalendarUtils.Num` holds a finite real, `NaN` or an infinity.
  - Elsewhere integers are unbounded.
  - Truncating `%` is written out (`JsRem`).
  - The 32-bit words of the mask loop are a `uint32` newtype with an
    explicit xor.
- **Files.** The static handler decides from a map of files and
  directories that stands in for the file system. Opening a path that ends
  in `/` fails with `ENOTDIR` unless it names a directory, as open(2) does.
- **Strings.** A Dafny `string` is a sequence of Unicode scalar values.
  A JavaScript string is a sequence of UTF-16 code units and can hold a
  lone surrogate, which the model cannot represent.
- **Hashing.** SHA-1 and base64 are a function parameter of the handshake.
- **Handlers** are values that announce their action. The request loop of
  `next` is a trace of the calls made and the way the chain ended.

### Where the code departs from its intended behaviour

The model follows the code in each case.

- **Error handlers.** An error handler that calls `next()` without an
  argument resumes the normal handlers where they stopped, so a request can
  go back from the error chain to the normal chain
  (lib/mini-server.js:226-244; `Dispatch.ErrorHandlerResumes`).
- **String routes.** `usePath` has a branch that compares a string route
  with the pathname exactly (lib/mini-server.js:293-299). That branch is
  never taken. `pathToExpr` tests `quickTest.test(...) == null`, which is
  never true, so every string route becomes an unanchored regular
  expression, and a route like `/a` also matches `/x/a/b`.
- **Requests that get no reply.** With `fallthrough` off, the static
  handler writes nothing for an error other than `ENOENT`, and the request
  is left unanswered (lib/mini-server.js:403-413; `StaticFiles.SettleCases`).
  A plain file requested with a trailing `/` is one such error: the open
  fails with `ENOTDIR` (`StaticFiles.FileWithSlashFails`).
- **Unreachable branches of the static handler.** `path.join` keeps a
  trailing `/`, and opening a path that ends in `/` fails unless it names a
  directory. The redirect to `pathname.slice(0, -1)` (lib/mini-server.js:370)
  and the "Base dir is not a directory!" throw (:368) are therefore never
  reached (`StaticFiles.MismatchIsDirectoryOnly`, `StaticFiles.RootNotDirectory`).
- **Redirect locations are not re-encoded.** The slash redirect sends the
  decoded pathname as `Location` (lib/mini-server.js:369-371). A directory
  name outside Node's header characters makes `setHeader` throw
  `ERR_INVALID_CHAR` (`StaticFiles.InvalidLocationRejects`), and a `%` in
  a directory name is decoded a second time when the redirect is followed.
- **Frames of 126 octets and more.** Section 5.2 of RFC 6455 puts a 16-bit
  payload length in the two octets after a length code of 126. After
  reading it, `unpackMsg` advances by 8 octets where 2 are due. A masked
  frame of 126 octets or more therefore always fails its length check, and
  an unmasked one loses 6 octets (`WsFrame.FramePayloadMediumMasked`,
  `WsFrame.PackUnpackMedium`).
- **Frames beyond 65535 octets.** Section 5.2 of RFC 6455 gives such a
  frame a length code of 127 and a 64-bit length. `packMsg` instead writes
  a 32-bit length at offset 4 of a 4-octet head, and that write throws
  `RangeError` (`WsFrame.PackMsg`).
- **Fragmented text.** Under section 5.4 of RFC 6455, the opcode of a
  message's first frame gives its type, and its continuation frames carry
  opcode 0. The code takes the type from `prev.slice(0, 1).pop()`, which is
  the first pending buffer, not a number. A text message sent in fragments
  therefore arrives as binary (`WsFrame.FragmentedTextIsBinary`).

## Model

| member | source | states |
|---|---|---|
| Base.ConcatAppend | lib/ws.js:168 | Concatenating the pending fragments with one more gives the earlier concatenation followed by the new fragment |
| Utf8.EncodeChar | lib/ws.js:102-104 | A character encodes to one to four octets; it takes a single octet exactly when it is below 0x80, and every octet after the first is a continuation octet |
| Utf8.DecodeHeadEncodeChar | lib/ws.js:171-173 | The decoder reads an encoded character back and consumes exactly its octets, whatever follows |
| Utf8.DecodeLossyEncode | lib/ws.js:171-173 | Decoding the UTF-8 encoding of any string of Unicode scalar values gives the string back |
| Utf8.DecodeStrictEncode | lib/ws.js:102-104 | The encoding of any string of Unicode scalar values is well formed, and strict decoding returns the string |
| Utf8.EncodeDecodeStrict | lib/ws.js:102-104 | Every well-formed octet sequence is the encoding of what it decodes to |
| Utf8.EncodeDecodeHead | lib/ws.js:171-173 | A well-formed first character re-encodes to exactly the octets the decoder consumed |
| Uri.DecodeURIComponent | lib/mini-server.js:306-309 | Every failure of `decodeURIComponent` is the `URIError` "URI malformed" |
| Uri.DecodeEncodeURIComponent | lib/mini-server.js:143 | `decodeURIComponent(encodeURIComponent(s))` is `s` for every string of Unicode scalar values |
| Uri.EncodeURIComponentAlphabet | lib/mini-server.js:143 | The encoding holds only unreserved characters, `%` and upper-case hex digits, so a directory link cannot contain `/`, `"` or `<` |
| Uri.DecodeWithoutEscapes | lib/mini-server.js:358 | Text without `%` decodes to itself |
| Uri.ContinuationEscapesOf | lib/mini-server.js:308 | `%XX` escapes of continuation octets read back as those octets |
| WsHandshake.HeaderLines | lib/ws.js:72-81 | The reply has the four fixed lines, plus an accept line exactly when the `sec-websocket-key` header is present and non-empty; that line carries the SHA-1/base64 of the key followed by the GUID |
| WsHandshake.Handshake | lib/ws.js:70-86 | Joining the lines and a final `EOL` with `EOL` ends every line with CRLF and adds one more CRLF |
| WsHandshake.HandshakeFraming | lib/ws.js:72-83 | The reply starts with the status line and CRLF and ends with an empty line (CRLF CRLF) |
| WsHandshake.HandshakeWithoutKey | lib/ws.js:72-83 | Without a key the reply is exactly the four fixed lines and the empty line |
| WsHandshake.HandshakeWithKey | lib/ws.js:77-96 | With a key the accept line comes fifth, before the empty line |
| WsFrame.ReadUInt16BE | lib/ws.js:140-141 | `readUInt16BE` succeeds exactly when two octets exist at the offset and reads them big-endian |
| WsFrame.ReadUInt32BE | lib/ws.js:146 | `readUInt32BE` succeeds exactly when four octets exist; the key octets of the word it reads are those four octets |
| WsFrame.WordBytes | lib/ws.js:146 | Reading four octets as a big-endian word and splitting the word gives the octets back |
| WsFrame.WordXor | lib/ws.js:154 | Xoring a big-endian 32-bit word with the mask xors each of its octets with the matching key octet |
| WsFrame.MaskBytesAt | lib/ws.js:152-160 | Octet k of the unmasked message is octet k xor key octet k mod 4 |
| WsFrame.MaskInvolution | lib/ws.js:145-161 | Masking twice with the same key restores the data |
| WsFrame.UnmaskWords | lib/ws.js:152-155 | After the word loop, the first `len & ~3` octets are unmasked and the rest are untouched |
| WsFrame.Unmask | lib/ws.js:145-161 | The word loop and the up to three trailing octet steps give exactly the octet-wise xor with the key |
| WsFrame.PackMsg | lib/ws.js:100-123 | Packing succeeds exactly when the payload has at most 65535 octets. The frame starts with 0x81 and ends with the payload, and its header decodes under RFC 6455 to the payload length. Longer payloads throw `RangeError` |
| WsFrame.UnpackMsg | lib/ws.js:128-189 | Returning nothing means exactly one buffer was added to the pending list. Returning a message means the list was emptied, and a failure leaves it as it was or empty. Opcode 0 with nothing pending throws |
| WsFrame.OnData | lib/ws.js:43-48 | The listener emits a message exactly when `unpackMsg` returned a truthy one, and then emits that message; an empty text is not emitted |
| WsFrame.LongFramesRefused | lib/ws.js:136-137 | A frame with length code 127 throws `RangeError` and leaves the pending list as it was |
| WsFrame.Classify | lib/ws.js:171-188 | Opcode 1 gives the payload decoded as UTF-8 text, 9 a ping and 10 a pong; opcode 8 gives a close whose status is the first two octets read big-endian and whose message is the rest, and throws `RangeError` for fewer than two octets; any other opcode gives the binary payload |
| WsFrame.FramePayloadShort | lib/ws.js:133-161 | A masked frame of fewer than 126 octets gives back exactly the payload that was masked into it |
| WsFrame.FramePayloadMediumMasked | lib/ws.js:140-150 | A masked frame of 126 to 65535 octets always fails with a length mismatch (expected n, actual n - 6) |
| WsFrame.UnmaskedShortPayload | lib/ws.js:162 | An unmasked short frame's payload is everything after the two header octets |
| WsFrame.UnmaskedMediumPayload | lib/ws.js:140-143 | An unmasked 16-bit-length frame's payload is read from offset 10, not 4 |
| WsFrame.UnpackShortFrame | lib/ws.js:128-189 | A short client frame is queued when not final, and otherwise classified with its own opcode, or the inherited one for opcode 0 |
| WsFrame.UnpackClientText | lib/ws.js:128-173 | A final, masked, short text frame unpacks to its string |
| WsFrame.OnDataText | lib/ws.js:43-48 | Such a frame makes the listener emit the string, unless it is empty |
| WsFrame.FragmentedTextIsBinary | lib/ws.js:130-188 | Text split over a first frame and a continuation frame comes out as binary data, the concatenation of both payloads |
| WsFrame.PackUnpackText | lib/ws.js:100-173 | Packing a string of fewer than 126 octets and unpacking the frame gives the string back |
| WsFrame.PackUnpackMedium | lib/ws.js:114-143 | A payload of 126 to 65535 octets comes back as the text of the payload without its first six octets |
| Dispatch.SetAdd | lib/mini-server.js:217-219 | `Set.add`: the set gains the element at the end unless already present; order and distinctness are kept |
| Dispatch.UseAgain | lib/mini-server.js:255-259 | Registering a handler that is already registered changes nothing |
| Dispatch.UseAllOrder | lib/mini-server.js:255-266 | Successive `use` calls keep the earlier handlers as a prefix, add every new one once and leave the error handlers alone |
| Dispatch.Run | lib/mini-server.js:226-244 | The chain makes at most one call per registered handler |
| Dispatch.RunShape | lib/mini-server.js:226-244 | Normal and error handlers are each called in registration order, each at most once; the chain ends by responding or returning exactly when the last call did |
| Dispatch.HandleRequest | lib/mini-server.js:220-244 | Each request starts both cursors at the first handler. Normal and error handlers are each called in registration order, at most once |
| Dispatch.AllPass | lib/mini-server.js:235-243 | When every normal handler calls `next()`, each runs once in order and the chain is exhausted |
| Dispatch.ThrowIsNext | lib/mini-server.js:230-242 | A handler that throws `e` has the same effect as one calling `next(e)` |
| Dispatch.NullIsAnError | lib/mini-server.js:227 | `next(null)` goes to the next error handler, since only `undefined` counts as no error |
| Dispatch.ErrorHandlerResumes | lib/mini-server.js:226-234 | An error handler that calls `next()` resumes the normal chain where it stopped |
| Dispatch.ThrowThenRecover | lib/mini-server.js:226-243 | A throwing first handler followed by a recovering first error handler continues with the second normal handler |
| Dispatch.NormalStep | lib/mini-server.js:235-243 | Without an error, the next normal handler is called and its action decides what follows |
| Route.WordRun | lib/mini-server.js:111 | The `\w+` run: every character in it is a word character and the one after it is not |
| Route.PlaceholderEnd | lib/mini-server.js:111 | A placeholder is a `:` preceded by `/` and followed by word characters up to a `/` or the end |
| Route.TokenizeFaithful | lib/mini-server.js:106-115 | The rewrite keeps the route text: unparsing its tokens gives the route back, and a capture is always followed by a `/` literal or ends the route |
| Route.NoColonNoCapture | lib/mini-server.js:111-113 | A route without `:` compiles to itself as one literal |
| Route.NameError | lib/mini-server.js:111-114 | Group names are accepted exactly when none starts with a digit and none repeats; otherwise a `SyntaxError` |
| Route.Compile | lib/mini-server.js:111-114 | `new RegExp(expr)` succeeds exactly when the group names are valid and distinct; otherwise it throws `SyntaxError` |
| Route.MatchSound | lib/mini-server.js:303 | A match found accepts the text and leaves no capture that could be extended |
| Route.MatchUnique | lib/mini-server.js:303 | The accepting match with maximal captures is the one found |
| Route.MatchComplete | lib/mini-server.js:303 | If the route can accept the text at a position, a match is found there |
| Route.SearchLeftmost | lib/mini-server.js:303 | `String.prototype.match` reports the leftmost position where the route matches, or none when it matches nowhere |
| Route.SearchFinds | lib/mini-server.js:303 | Any accepting position guarantees a match at that position or to its left |
| Route.DecodeParams | lib/mini-server.js:306-309 | Decoding the captures succeeds exactly when each capture decodes; the keys are the group names and a failure is `URIError` |
| Route.DecodeParamsValues | lib/mini-server.js:306-310 | Each parameter is the decoded capture of its group |
| Route.EncodedParam | lib/mini-server.js:306-309 | A capture that is the encoding of a string decodes to that string |
| Route.PathStep | lib/mini-server.js:300-313 | The wrapper calls the handler exactly when it assigns `req.params`; otherwise it calls `next()` or throws |
| Route.NoMatchPasses | lib/mini-server.js:312 | A pathname the route does not match passes on with `next()` |
| Route.MatchRunsHandler | lib/mini-server.js:303-311 | A matching pathname runs the handler with each parameter the decoded capture |
| Route.MalformedParamThrows | lib/mini-server.js:306-309 | A capture that is not a valid escape makes the wrapper throw `URIError`, which the chain routes to the error handlers |
| Route.GetOnlyGet | lib/mini-server.js:321-327 | A non-GET request never reaches a `get` handler, though the route's parameters are still assigned |
| PosixPath.JoinRootShape | lib/mini-server.js:22 | `path.posix.join('/', p)` is the resolved segments of `p` spelled under `/`, with a trailing `/` kept |
| PosixPath.JoinRootNormal | lib/mini-server.js:22 | The joined pathname is rooted and normal: no empty, `.` or `..` segment |
| PosixPath.JoinRootIdempotent | lib/mini-server.js:358 | Joining an already joined pathname again changes nothing |
| PosixPath.JoinRootTrailing | lib/mini-server.js:358-360 | The joined pathname ends in `/` exactly when it is `/` or the input ended in `/` |
| PosixPath.JoinRootClimb | lib/mini-server.js:358-359 | A leading `../` cannot climb above the root |
| PosixPath.SegmentsSpelled | lib/mini-server.js:358 | The segments of a spelled path are the segments it was spelled from |
| PosixPath.JoinRootSpelled | lib/mini-server.js:358 | A spelled path joins to itself |
| PosixPath.JoinRootAvoids | lib/mini-server.js:22 | Joining introduces no character that was not in the input, other than `/` |
| PosixPath.ExtOfName | lib/mini-server.js:344 | An extension is empty or a dot followed by no dot; it ends the name and is shorter than the name |
| PosixPath.ExtName | lib/mini-server.js:344 | `path.extname` returns `""` or a dot with no further dot or slash |
| PosixPath.ExtOfNameSplit | lib/mini-server.js:344 | The extension of `stem + ".ext"` is `".ext"` for a non-empty stem |
| PosixPath.ExtOfNameNone | lib/mini-server.js:344 | A name with no dot after its first character has no extension |
| PosixPath.ExtNameUnder | lib/mini-server.js:344 | The extension of a path is that of its last name |
| Request.IndexOf | lib/mini-server.js:20 | `indexOf('?')` finds the first `?`, or reports there is none |
| Request.ParseUrl | lib/mini-server.js:19-24 | The search is the suffix from the first `?`, empty exactly when there is none; the pathname joins `/` with the part before it |
| Request.ParseUrlOf | lib/mini-server.js:19-24 | A URL spelled as a path without `?` plus a search parses into exactly those two parts |
| Request.ParseUrlStable | lib/mini-server.js:19-24 | The pathname is normal, and reparsing pathname plus search gives the same result |
| Request.ParseRequest | lib/mini-server.js:16-26 | A parsed request is left as it is; otherwise its URL text is parsed and `params` is reset |
| Request.Pathname | lib/mini-server.js:19-30 | On a parsed request the getter returns the stored pathname; otherwise it is `/` joined with the URL up to its first `?`, and is already normal |
| Request.Search | lib/mini-server.js:19-34 | On an unparsed request the search is a suffix of the URL, empty exactly when the URL has no `?`, and otherwise starting at its first `?` |
| Request.ParseRequestIdempotent | lib/mini-server.js:16-30 | Parsing twice is parsing once |
| Request.ParamsSurvive | lib/mini-server.js:17-25 | Parameters assigned after parsing survive later getter calls |
| Request.ResetReparses | lib/mini-server.js:49-51 | A changed URL is ignored until `resetParse`, after which it is parsed afresh |
| Request.ResetParse | lib/mini-server.js:49-51 | `resetParse` drops the parsed record and keeps the URL and parameters |
| Request.QueryAsWritten | lib/mini-server.js:35-41 | As written, the getter builds no query when none is stored |
| Request.QueryNeverBuilt | lib/mini-server.js:35-41 | As written, `query` is `undefined` on every request, parsed or reset |
| Request.Query | lib/mini-server.js:35-41 | Corrected, the getter stores and returns a query and keeps the pathname and search |
| Request.QueryOfSearch | lib/mini-server.js:35-41 | Corrected, the query is the `URLSearchParams` of the search |
| StaticConfig.CopyConfig | lib/mini-server.js:156-162 | The result has exactly the default keys, each taking the given value unless that is `undefined` |
| StaticConfig.CopyConfigDefaults | lib/mini-server.js:156-162 | With nothing given the defaults come back; given keys outside the defaults are dropped |
| StaticConfig.CopyConfigIdempotent | lib/mini-server.js:156-162 | Copying a copied configuration again changes nothing |
| StaticConfig.StaticOptions | lib/mini-server.js:164-171 | `index` defaults to `['index.html']`; `dirIndex` and `fallthrough` hold when their given values are truthy |
| StaticConfig.StaticDefaults | lib/mini-server.js:334-335 | With no options the static handler serves `index.html` and neither lists nor falls through |
| StaticConfig.MimeOf | lib/mini-server.js:345 | A known extension gets its table entry; `application/octet-stream` is returned exactly for extensions the table does not know, and every result has the form `type/subtype` |
| StaticConfig.MimeKeysAreExtensions | lib/mini-server.js:173-201 | Every key of `MIME` is a dot followed by characters without a dot |
| StaticConfig.MimeOfName | lib/mini-server.js:344-345 | A file named `stem + ext`, with `ext` in the table, gets the type of `ext` |
| StaticConfig.MimeOfPlainName | lib/mini-server.js:344-345 | A file name without an extension gets `application/octet-stream` |
| DirListing.ItemOf | lib/mini-server.js:142-144 | An entry is shown as a folder exactly when it is a directory |
| DirListing.Items | lib/mini-server.js:141-146 | The list shows one item per entry, in order |
| DirListing.DirTemplate | lib/mini-server.js:124-150 | The page is titled with the trimmed base and lists the directories first, then the other entries |
| DirListing.SortDirsFirst | lib/mini-server.js:125 | The stable sort puts directories before the rest and keeps the order within each group |
| DirListing.SortPermutes | lib/mini-server.js:125 | The sort neither drops nor duplicates an entry |
| DirListing.TrimDirectoryTitle | lib/mini-server.js:126 | The trailing slash of a directory path is removed |
| DirListing.TrimKeeps | lib/mini-server.js:126 | `/` alone, and paths without a trailing slash, keep their title |
| DirListing.ItemLink | lib/mini-server.js:143 | A link decodes back to the entry name, contains no raw `/`, and ends in `/` exactly for a directory |
| StaticFiles.Key | lib/mini-server.js:357-359 | The file looked up is named by plain names only, so never by `.` or `..` |
| StaticFiles.PathnameSpellsKey | lib/mini-server.js:358-359 | The safe pathname spells the key of the file opened |
| StaticFiles.KeyStaysUnderBase | lib/mini-server.js:358-359 | A leading `../` resolves to the same file, so the handler cannot leave its base directory |
| StaticFiles.FindIndex | lib/mini-server.js:378-384 | The index page is the first configured name that is a file of the directory, and none when no configured name is |
| StaticFiles.FileNames | lib/mini-server.js:379-382 | The candidates are exactly the names of the plain files |
| StaticFiles.ActionOf | lib/mini-server.js:403-413 | Each outcome maps to one chain action: `next()`, `next(err)`, a reply, or silence |
| StaticFiles.HandleErrors | lib/mini-server.js:358-361 | A malformed escape throws `URIError`; a missing file is `ENOENT` |
| StaticFiles.RedirectWhen | lib/mini-server.js:364-373 | The handler decides a 301 exactly when a directory is requested without its trailing slash and that directory's path with the slash is a valid header value. The location is that path, already normalised, naming the same directory |
| StaticFiles.InvalidLocationRejects | lib/mini-server.js:86-90 | When that path holds a character a header value may not hold, setting `Location` throws `ERR_INVALID_CHAR` instead of redirecting |
| StaticFiles.RedirectFollowed | lib/mini-server.js:358-373 | Following a redirect whose location has no `%` requests the same directory with its slash and is not redirected again |
| StaticFiles.FileWithSlashFails | lib/mini-server.js:358-361 | A plain file requested with a trailing slash fails to open with `ENOTDIR`, which goes to `next(err)` with fallthrough and gets no reply without it |
| StaticFiles.RootNotDirectory | lib/mini-server.js:358-361 | A base that is a plain file makes a request for `/` fail with `ENOTDIR` |
| StaticFiles.MismatchIsDirectoryOnly | lib/mini-server.js:367-373 | "Base dir is not a directory!" is never thrown, and a redirect never drops the trailing slash |
| StaticFiles.FileServed | lib/mini-server.js:343-347 | A plain file is sent with its size and the MIME type of its extension |
| StaticFiles.DirectoryHandled | lib/mini-server.js:374-400 | A directory requested with a trailing slash goes to the directory branch with its entries |
| StaticFiles.IndexFound | lib/mini-server.js:378-390 | A found index page is sent as a file |
| StaticFiles.IndexPageServed | lib/mini-server.js:378-390 | A directory holding the configured index file is answered with that file |
| StaticFiles.DefaultIndexPage | lib/mini-server.js:378-390 | With default options, a directory holding `index.html` is answered with it as `text/html` |
| StaticFiles.ListingWhen | lib/mini-server.js:395-399 | A listing is produced only when `dirIndex` is on, and lists the requested directory under its trimmed name |
| StaticFiles.ListingFromDirectory | lib/mini-server.js:374-398 | A listing comes only from a directory requested with a trailing slash, rendered by `dirTemplate` |
| StaticFiles.SettleCases | lib/mini-server.js:403-413 | `ENOENT` falls through or answers 404; any other error goes to `next(err)` with fallthrough and answers nothing without |
| CalendarUtils.JsRem | lib/utils.js:69-70 | JavaScript's `%` truncates: the remainder has the sign of the dividend and agrees with `%` for non-negative operands |
| CalendarUtils.WeekdayToNum | lib/utils.js:42-46 | Succeeds exactly for the seven weekday characters, with their position from 1; otherwise `RangeError` |
| CalendarUtils.NumToWeekdayAsWritten | lib/utils.js:51-55 | As written, every integer throws and every value that gets through yields `undefined` |
| CalendarUtils.NumToWeekday | lib/utils.js:51-55 | Corrected in both defects of the guard (the inverted integer test and the `>= 7` bound): succeeds exactly for the integers 1 to 7 and inverts `weekdayToNum` |
| CalendarUtils.SundayRefusedByBound | lib/utils.js:42-52 | The written bound `weekday >= 7` refuses 7, the number `weekdayToNum` gives 日, and admits the numbers of the other six days; the corrected guard names 7 as 日 |
| CalendarUtils.WeekdayRoundTrip | lib/utils.js:42-55 | Weekday character to number and back, and number to character and back, are identities |
| CalendarUtils.NumToMonthName | lib/utils.js:60-62 | A name exactly for the integers 1 to 12, namely `MONTH_NAMES[m - 1]` |
| CalendarUtils.MonthNamesDistinct | lib/utils.js:60-62 | Different months have different names |
| CalendarUtils.YearToGanzhiAsWritten | lib/utils.js:68-72 | As written, from year 4 on: a stem of the table as written and the branch of `(year - 4) mod 12` |
| CalendarUtils.YearToGanzhi | lib/utils.js:68-72 | Corrected, from year 4 on: the stem of `(year - 4) mod 10` and the branch of `(year - 4) mod 12` |
| CalendarUtils.GanzhiPeriod | lib/utils.js:68-72 | The sexagenary name repeats every 60 years |
| CalendarUtils.YearToShengxiao | lib/utils.js:77-79 | An animal exactly from year 4 on, or when the truncated remainder is (negative) zero; it is `SHENGXIAO[(year - 4) mod 12]` |
| CalendarUtils.ShengxiaoFollowsBranch | lib/utils.js:68-79 | The animal repeats every 12 years and always matches the year's earthly branch |
| CalendarUtils.GanzhiAsWrittenRepeats | lib/utils.js:21 | As written, 1978 is named 午午: the fifth stem duplicates a branch |
| CalendarUtils.GanzhiStemsAreNotBranches | lib/utils.js:21-22 | Corrected, no stem is a branch, and 1978 is 戊午 |
| CalendarUtils.IsLeapYearAsWritten | lib/utils.js:84-88 | As written, every integer year throws `RangeError`, and only non-integers get through |
| CalendarUtils.LeapFormulaMissesCenturies | lib/utils.js:87 | The formula as written is "divisible by 4"; it disagrees with the Gregorian rule exactly on centuries not divisible by 400, such as 1900 |
| CalendarUtils.IsLeapYear | lib/utils.js:84-88 | Corrected: defined exactly for positive years and true exactly for Gregorian leap years |
| CalendarUtils.LeapPeriod | lib/utils.js:84-88 | Leap years repeat every 400 years |
| CalendarUtils.CheckYearRange | lib/utils.js:93-101 | Accepts exactly the safe integers 1901 to 2100; anything else throws "Year range: 1900-2100" |
| BuildData.Tc2Sc | build-data.js:34-36 | Replaced names become their simplified forms, which are not replaced again; other text is kept |
| BuildData.Tc2ScIdempotent | build-data.js:34-36 | Simplifying twice is simplifying once |
| BuildData.ReplaceFirstAt | build-data.js:118 | `replace` with a character changes only its first occurrence |
| BuildData.ReplaceFirstAbsent | build-data.js:118 | Without an occurrence the text is kept |
| BuildData.LunarTransform | build-data.js:110-135 | A month token (ending in 月) opens that month, spelled with the simplified leap character, on its 初一. A day token keeps the current month. The solar term passes through; a missing token throws `TypeError` |
| BuildData.LunarMonthCarried | build-data.js:110-135 | After a month token, the following day tokens carry that month |
| BuildData.Step | build-data.js:140-161 | An unknown weekday or a non-integer month or day throws before anything changes; every failure is one of the parse errors |
| BuildData.StepAppends | build-data.js:149-160 | A line adds its day to its month, which it opens on day 1; the other months are unchanged |
| BuildData.StepDay | build-data.js:144-160 | The appended day has the line's year, month, day and weekday, its simplified solar term and its lunar date; day 1 records the month's start weekday |
| BuildData.StepUnopenedMonth | build-data.js:149-156 | A day other than the first, in a month not yet opened, throws reading `days` of `undefined` |
| BuildData.StepPreserves | build-data.js:140-161 | Each line keeps every month well formed: it opens with day 1, has that start weekday, and its days carry its year and month |
| BuildData.ParseLinesPreserves | build-data.js:140-161 | The whole pass keeps the months well formed |
| BuildData.ParseLinesLast | build-data.js:140-161 | After the pass, the last day parsed carries the builder's current lunar month |
| BuildData.ParseYear | build-data.js:136-164 | A year without a start month fails before parsing. A success records a start month for the next year and keeps every other one |
| BuildData.ParseYearHandsOn | build-data.js:162 | The start month recorded for the next year is the lunar month of the last day parsed |
| BuildData.BuildYearsStarts | build-data.js:179-187 | Building from a year with a known start fails, if at all, only with a parse error, never for want of a start month, since each year records the next one's |
| BuildData.BuildYearsDomain | build-data.js:179-187 | A completed run holds exactly the years from the first to the last |
| BuildData.BuiltYearsInRange | build-data.js:181 | The years `buildAll` builds are exactly the years `checkYearRange` accepts, so every year the calendar functions let through has its data |
| BuildData.BuildStartsAt1901 | build-data.js:42-44 | From the initial table, only a build that begins in 1901 can start |
| BuildData.StartMissingIsNotParseError | build-data.js:53-54 | A missing start month is told apart from every parse error |
| Festival.NthDay | festival.js:21 | The day the corrected rule names is the n-th given weekday of the month |
| Festival.MothersAndFathersDay | festival.js:14-16 | `15 - startWeekday` is the second Sunday of May and `22 - startWeekday` the third Sunday of June, for every start weekday |
| Festival.ThanksgivingAsWritten | festival.js:21 | `26 - startWeekday` is always a Thursday. It is the fourth Thursday exactly when the month starts Monday to Thursday, and the third otherwise |
| Festival.ThanksgivingNovember2024 | festival.js:21 | November 2024 starts on a Friday; the rule gives the 21st, the third Thursday, instead of the 28th |
| Festival.ThanksgivingAsWrittenResolves | festival.js:21 | For a November starting Friday to Sunday, the rule as written marks the third Thursday |
| Festival.ThanksgivingCorrected | festival.js:21 | The corrected rule always marks the fourth Thursday of November |
| Festival.IndexIsLatest | festival.js:59-68 | The lunar map holds a month exactly when some day has it; a lunar date maps to the last day in year order that has it |
| Festival.LatestIsLast | festival.js:59-68 | The reference lookup finds the last matching day, and nothing when there is none |
| Festival.EntriesValid | festival.js:60-67 | Every map entry points at a real day with that lunar month and date |
| Festival.IndexFitsYear | festival.js:59-68 | The map built from a year only points at days of that year |
| Festival.LunarRuleFindsLatest | festival.js:74-77 | A lunar rule throws when the month is absent, and otherwise marks the last day with that lunar date, if any |
| Festival.SolarRules | festival.js:81-88 | A solar rule reads `months[M - 1].days[D - 1]` and throws for a missing month; a weekday callback reads the day it computes |
| Festival.SolarDay | festival.js:85-87 | A solar day, when present, is the D-th day of the M-th month |
| Festival.FirstOf | festival.js:25 | The callback takes the first listed name present in the lunar month |
| Festival.FirstPresentRule | festival.js:25 | New Year's Eve is the 三十 of the twelfth month when it exists, otherwise its 廿九 |
| Festival.Attach | festival.js:94-100 | A name is added: the first is stored alone, then the names become a list in rule order |
| Festival.UpdateDay | festival.js:94-100 | Changing one day changes no other day and no month's shape |
| Festival.ApplyRules | festival.js:69-101 | The rule loop changes only festival names; it keeps the months' shape, the year and the flag |
| Festival.ApplyRulesNames | festival.js:69-101 | After the loop, each day's names are the ones it had followed by every rule resolving to it, in rule order. Nothing else about the day changes |
| Festival.ApplyRulesSplit | festival.js:69-101 | The loop over a list of rules is the loop over a prefix followed by the loop over the rest |
| Festival.StopsAtMissingDay | festival.js:90-93 | The first rule that finds no day ends the function: later rules are skipped and `hasHolidayData` keeps its value |
| Festival.Target | festival.js:107-109 | An override names a day only when its month and day exist |
| Festival.Merge | festival.js:103-114 | The merge keeps the months' shape, the year and the flag |
| Festival.MergeSets | festival.js:106-110 | When every override names a day, each day's holiday becomes the last override naming it, or stays as it was |
| Festival.MergeStops | festival.js:106-112 | The first override naming no day stops the merge: the earlier ones stay applied and the flag becomes false |
| Festival.MergeFlag | festival.js:103-114 | The merge reports success exactly when every override names a day |
| Festival.ApplyHoliday | festival.js:56-115 | An early return leaves the flag as it was; a completed pass always sets it |
| Festival.HasHolidayData | festival.js:102-114 | The flag ends true exactly when the pass completed and every loaded override named a day, or when it returned early with the flag already true |

## Left out

- **I/O.** Sockets, `socket.write`, reading files and `fs.promises.open`,
  `stat`, `readdir`, piping a file into the response, `listen`, and the
  stray `fs.open('dir', ...)` call in the directory branch are left out.
  The static handler decides from a map of paths to files and
  directories, and its reply names the file and size it would send.
- **Hashing.** SHA-1 and base64 (`crypto.createHash`) are a function
  parameter of `WsHandshake.AcceptValue`, since hashing is not part of
  the codec's logic.
- **Event wiring** is not modelled: `EventEmitter`, the `upgrade`,
  `close`, `end` and `error` handlers, `broadcast`, and the 404 reply to
  upgrades at another path. It is wiring around the modelled codec; the
  404 branch also refers to an undefined variable.
- **The `Response` helpers** (`status`, `json`, `html`, `send`,
  `redirect`) are not modelled. The static model names the reply, its
  status and its location instead of writing headers.
- **Logging** (`Log.*`, the `monthLen` counter) has no effect on results
  and is left out.
- **Other repository files** are not part of this model: `randomInt`,
  `randomHex`, `isEmptyObj`, the tables `LUNAR_DATES` and `JIEQI_NAMES`,
  the front end, server.js, lib/jsonfile.js and lib/auto-refresh.js.
- **Almanac scraping.** `fetchYearData`, the Big5 decoding and the
  regular expressions of `coarseYearData` are left out. The model starts
  from day lines already split into fields; a field the pattern leaves
  unmatched is `None`.
- **`loadHolidayData`** and its JSON file are an input of
  `Festival.ApplyHoliday`: the loaded records, or `None` when loading
  throws. Records come with month and day already parsed by `parseInt`
  (`None` for `NaN`). The `wage` of a holiday is an integer.
- **Festival rules.** Only the callback forms the table uses are
  modelled: `offset - month.startWeekday` and "the first of these lunar
  dates present". `DayKey.NthWeekday` is the corrected Thanksgiving rule.
  A rule with any other callback is outside the model.
- **Error messages.** Messages produced by the engine are paraphrased:
  reading a property of `undefined`, calling a non-function, and the
  `SyntaxError` text of an invalid group name. The messages the code
  writes itself are kept verbatim.
- **Floating point** appears only through `CalendarUtils.Num`, which
  gives the values the date functions test. All other arithmetic is
  exact.
- **Route patterns.** Routes that spell regular-expression metacharacters,
  and `RegExp` objects passed to `usePath`, are not modelled (`Route.Plain`
  excludes them). The model covers routes made of literal text and `:name`
  placeholders.
- **Default handler parameters.** `MyServer` constructor options,
  `rawServer`, `on`, and the `protocol`/`header` getters of `Request` are
  plain accessors and are left out.
- **The `query` result** is modelled as the search text it is built from.
  `URLSearchParams` parsing is not modelled.
- **Unused static options.** `charset` and `exclude` are read by the
  static handler but never used, so the model ignores them.
- **Masking storage.** The unmasking loop works on a sequence standing in
  for the `DataView` over a fresh copy of the body. The copy means no
  aliasing needs modelling.
- **Integer widths.** Frame lengths above 65535 are refused before any
  64-bit arithmetic, as in the code.
- RedirectWhen: the location is checked with Node's header rule (tab,
  0x20-0x7E and 0x80-0xFF), so a directory such as `中` throws
  `ERR_INVALID_CHAR`. A `%` in a directory name is decoded again when the
  redirect is followed: `100%` then throws `URIError` and `a%41` requests
  `/aA/`. `RedirectFollowed` therefore covers `%`-free locations only.
- DecodeLossyEncode: holds for strings of Unicode scalar values only. In
  JavaScript, `Buffer.from` encodes a lone surrogate as EF BF BD, which
  decodes to U+FFFD, so such a string does not come back. Dafny strings
  cannot hold a lone surrogate.
- DecodeStrictEncode: holds for strings of Unicode scalar values only. A
  JavaScript string with a lone surrogate does not round-trip, for the same
  reason.
- DecodeEncodeURIComponent: holds for strings of Unicode scalar values only.
  `encodeURIComponent` throws `URIError` on a lone surrogate, and the model
  has no such input.

## Findings

| source | as written | input that shows it | evidently intended | confidence | as-written member | corrected member |
|---|---|---|---|---|---|---|
| lib/utils.js:21 | The fifth heavenly stem is 午, which is an earthly branch | 1978 is named 午午 | The stem 戊, so 1978 is 戊午 | high; not executed | CalendarUtils.GanzhiAsWrittenRepeats | CalendarUtils.GanzhiStemsAreNotBranches |
| lib/utils.js:51-55 | The guard throws for every integer (`Number.isInteger(weekday) \|\|`); non-integers index nothing. Its upper bound `weekday >= 7` is a second defect, in the next row | `numToWeekday(3)` throws `RangeError` | Throw for non-integers and values outside 1 to 7, and return `WEEKDAYS[weekday - 1]` | high; not executed | CalendarUtils.NumToWeekdayAsWritten | CalendarUtils.WeekdayRoundTrip |
| lib/utils.js:52 | The upper bound is `weekday >= 7`, so even with the integer test un-inverted, 7 is refused, although the message says "1-7" and `weekdayToNum` maps 日 to 7 | `numToWeekday(7)` with the integer test fixed throws `RangeError` | Refuse only values above 7 (`weekday > 7`) | high; not executed | CalendarUtils.SundayRefusedByBound | CalendarUtils.NumToWeekday |
| lib/utils.js:84-88 | The guard throws for every integer year, and the formula ignores the century rule | `isLeapYear(2024)` throws; the formula says 1900 is a leap year | Accept positive integers and apply the Gregorian rule | high; not executed | CalendarUtils.LeapFormulaMissesCenturies | CalendarUtils.IsLeapYear |
| lib/mini-server.js:35-41 | The query is built only when one already exists (`!== 'undefined'`) | `req.query` on any request is `undefined` | Build `URLSearchParams(search)` when none exists yet | high; not executed | Request.QueryNeverBuilt | Request.QueryOfSearch |
| festival.js:21 | Thanksgiving is `26 - startWeekday`, which is the fourth Thursday only when November starts Monday to Thursday | November 2024 starts on a Friday: the rule gives the 21st, the third Thursday | The fourth Thursday of November, the 28th in 2024 | high; not executed | Festival.ThanksgivingAsWrittenResolves | Festival.ThanksgivingCorrected |
