# A verified model of the agent service's hand-written Go semantics

The agent service replaces a Go service and keeps, in TypeScript, the behaviour of the Go code it replaced: how
`encoding/json` reads and merges JSON, how `time.Time` is read and written, how `net/http` cleans paths and follows
redirects. This project models those algorithms, and the checker of the repository's lockfile, in Dafny 4.11 and proves
what they promise. `dafny verify dfyconfig.toml` checks the whole project.

## How the model is laid out

- **Bytes and text** (`Utf8`, `Strings`, `Segments`, `Options`). Bytes are integers from 0 to 255; text is a sequence of
  Unicode scalar values. `Utf8.Cut` cuts a byte string into runes and single bad bytes, and everything that scans UTF-8
  is proved against it.
- **The JSON reader** (`Json`, `JsonReader`, `JsonGrammar`, `JsonComplete`, `JsonSound`, `JsonErrors`). `JsonReader` is
  the iterative parser: a class with the shared index, the runs of plain bytes and the explicit stack of open frames.
  It is proved to compute the recursive reader of `Json`, and that one to accept exactly the derivation trees of
  `JsonGrammar`, which knows nothing of reading. `JsonErrors` says what a refusal means for longer inputs. An error
  carries only `eof`, the one thing a caller can tell apart.
- **Typed decoding** (`Decode`, `BindInPlace`, `DecodeMerge`). `Decode.Bind` is the binding on values. `BindInPlace` is
  the binding as the program does it, on heap objects that are assigned field by field and reused when a member is
  repeated; it is proved to leave exactly what `Decode.Bind` computes and to touch nothing else. `DecodeMerge` is the
  algebra of repeated members, and says which value every node binds to.
- **Writing** (`JsonWriter`, `Retraction`, `SendJson`). What the writer throws on, that parsing undoes writing, that
  decoding what was written for a decoded value gives it back, and the answer written in pieces to a socket.
- **Times** (`Calendar`, `Decimal`, `Time`). The date functions are those of section 21.4.1 of ECMA-262, so the fields
  of a `Date` are arithmetic on integers here.
- **Requests and answers** (`Body`, `Upstream`, `Paths`, `Location`, `Redirect`). Loops and event handlers are methods
  and classes over arbitrary events and answers; `Redirect.World` is everything the gateway and the URL parser may do.
- **The lockfile** (`Lockfile`, `Snapshot`). Node's lookup, the worklist, the verdict on the flags, and the snapshot.

A loop and the function that specifies it are written apart, and that function is then pinned by laws that do not use
it: the lemmas whose names end in `Exact` say in other terms — the derivation trees, the UTF-16 of a character, the
characters of a set, the parts of a URL, rewriting laws of paths, a run's hosts and schemes — what is computed, and
exactly when. Character classes are spelled out as strings by small lemmas beside them that have no row of their own
(`Json.LettersExact`, `Decimal.DigitExact`, `Paths.UnreservedExact`, `KeptExact` and `SchemeByteExact`,
`Location.HostByteExact`, `Upstream.SpaceExact`, `Snapshot.SpaceExact`).

`Decode.Env` holds the two foreign parts of decoding as functions: `canon` (a number literal read as a float64 and
written back) and `fold` (simple case folding of a member name). Where a theorem needs laws of them, it says so
(`Retraction.Lawful`: what `canon` gives is a number literal that `canon` leaves alone).

## What turned out not to hold as stated

- **The cap and white space** (`Body.WhiteSpaceOverTheCap`, `Body.CapExact`). A body over the cap whose first 1 MiB is
  only white space is refused with "EOF", not as too large, since only "unexpected EOF" is reworded; with `{}` behind the
  white space the whole body would have been accepted. The cap never turns a body that would be accepted into a bad
  request exactly when the bytes that were read are not all white space. `Body.CapVerdict` has the other verdicts.
- **Times beyond a `Date`** (`Time.SqlTimeRefuses`, `Time.DecodedTimeRefused`, `Time.DateRefused`). As a function of any
  instant, `toSqlTime` refuses the seconds outside the years 1 to 9999 only among those a `Date` can hold: beyond
  8.64e12 seconds the year is NaN and passes the check (`Time.SqlTimeOfInvalidDate`). The program never gets there.
  Every instant it converts is that of a time text or of a `Date`; those are proved to lie within the limit, and for
  them the refusals are exactly the seconds outside the years 1 to 9999.
- **Leading zeros** (`JsonSound.ParseFirstExact`, `JsonSound.LeadingZero`). `parseFirstJson` reads the longest number there
  is, but a zero is never gone on with: `01` is read as 0, with the rest ignored.
- **Names with `node_modules/` inside** (`Lockfile.NearestExactly`). The lookup follows Node's rule for whatever is
  installed exactly from places none of whose names contain `node_modules/`; from any other, one stray entry misleads it.
- **Depth** (`Retraction.DecodeRetraction`). A value nested deeper than 10000 (only a deeper schema could make one) is
  written but cannot be read back; up to the cap the round trip holds, and the theorem says both.
- **Entries without integrity** (`Snapshot.RoundTrip`, `Snapshot.FreshSnapshot`, `Snapshot.NoIntegrityIsNotClean`). The
  placeholder for a missing integrity is two words, so the snapshot written for such a lockfile cannot be read back:
  writing and then checking is silent exactly when every key and integrity is a single word.
- **Names outside `node_modules/`** (`Snapshot.NameOutside`). The name of a lock path is documented as what follows its
  last `node_modules/`; a path without one, such as a workspace's, loses its first twelve characters instead.
- **HEAD** (`Redirect.RewrittenForGood`). After a 301, 302 or 303 the verb is GET for good, but for a HEAD, which stays.

## Model

| member | source | states |
|---|---|---|
| Utf8.ValidLengthExact | src/gateway/json.ts:52-66 | `validLength` is `k` exactly when the next `k` bytes are the encoding of one scalar value (section 4 of RFC 3629) |
| Utf8.CutUnique | src/gateway/json.ts:52-66 | every byte string is cut into runes and single bad bytes in one way only |
| Utf8.EncodeRoundTrip | src/gateway/json.ts:105-172 | text encoded as UTF-8 is well-formed and reads back as itself |
| Utf8.LossyRoundTrip | src/persistence.ts:27-34 | bytes survive being text exactly when they are well-formed UTF-8 |
| Utf8.LossyExact | src/gateway/errors.ts:86-93 | the text of any bytes is the cut, rune by rune: the character, or one U+FFFD for a bad byte |
| Utf8.EncodeOrdered | src/gateway/json.ts:52-66 | encodings are ordered byte by byte as the characters are, so that no other encoding has these well-formed sequences |
| Json.HexValExact | src/gateway/json.ts:174-186 | the hexadecimal digits in either case, and nothing else |
| Json.SimpleEscapeExact | src/gateway/json.ts:132-157 | the eight letters that may follow a backslash, and what they stand for |
| Json.PairExact | src/gateway/json.ts:143 | a surrogate pair is read as the one character whose UTF-16 it is |
| JsonReader.Reader.ReadHex4 | src/gateway/json.ts:174-186 | four hex digits, or where and why not, with the index untouched |
| JsonReader.Reader.ReadEscape | src/gateway/json.ts:132-157 | one escape, surrogate pairs and lone surrogates included, equals the specification and moves the index behind it |
| JsonReader.Reader.ReadPlain | src/gateway/json.ts:105-121 | the fast path either finishes the string as the specification does, or stops at the first byte it cannot take with nothing lost |
| JsonReader.Reader.ReadRuns | src/gateway/json.ts:118-172 | the slow path, entered anywhere, finishes what the fast path began |
| JsonReader.Reader.ReadString | src/gateway/json.ts:105-172 | both paths together read the string the specification reads |
| JsonReader.Reader.ReadLiteral | src/gateway/json.ts:188-197 | a word is taken whole or refused at the byte where it differs |
| JsonReader.Reader.ReadNumber | src/gateway/json.ts:199-217 | the number grammar, kept verbatim |
| JsonReader.Reader.ReadKey | src/gateway/json.ts:219-227 | a member name and its colon |
| JsonReader.Reader.Attach | src/gateway/json.ts:265-279 | one turn after a finished value: appending to the top frame and going on or closing keeps what the open frames will come to |
| JsonReader.Reader.Run | src/gateway/json.ts:229-281 | the loop over the explicit stack ends, and returns what the recursive reader returns |
| JsonReader.ParseJson | src/gateway/json.ts:78-84 | the parser equals the recursive reader, which must reach the end |
| JsonReader.ParseFirstJson | src/gateway/json.ts:87-89 | the same, where the rest is ignored |
| JsonComplete.RawRead | src/gateway/json.ts:105-172 | over bytes that need no escape the reader reads their UTF-8 text, one U+FFFD for each bad byte, whichever path it is on; `plain` exactly when all are ASCII |
| JsonComplete.StringComplete | src/gateway/json.ts:105-172 | every way of writing a string is read as the text it denotes, and is `plain` exactly when it has no escape and no byte above 0x7f |
| JsonComplete.Utf16Read | src/gateway/json.ts:132-157 | any text written as `\u` escapes of its UTF-16 code units, in digits of either case, is read as that text |
| JsonComplete.LoneSurrogate | src/gateway/json.ts:132-157 | a surrogate that is not the first of a pair is U+FFFD, and what follows it is read on its own |
| JsonGrammar.TreeExact | src/gateway/json.ts:265-279 | what an array or object denotes, item by item and member by member in the order written |
| JsonGrammar.DepthExact | src/gateway/json.ts:236 | the depth is that of the deepest nesting |
| JsonComplete.NumeralComplete | src/gateway/json.ts:199-217 | every numeral of the grammar is read to its end and kept verbatim |
| JsonComplete.ValueComplete | src/gateway/json.ts:91-281 | every derivation tree within the depth cap is read as the value it denotes, members in source order; a deeper one is refused |
| JsonSound.ValueSound | src/gateway/json.ts:91-281 | whatever is read has a derivation tree with that value |
| JsonSound.ParseExact | src/gateway/json.ts:78-281 | `parseJson` accepts exactly the JSON texts nested at most 10000 deep between white space, with the value they denote |
| JsonSound.Unambiguous | src/gateway/json.ts:78-281 | a text has one value, however it is derived |
| JsonSound.TooDeep | src/gateway/json.ts:236 | a well-formed text that is too deep is refused for good |
| JsonSound.ParseFirstExact | src/gateway/json.ts:87-281 | `parseFirstJson` accepts exactly the texts that begin with a value nested at most 10000 deep, with that value and its end; a number is one the text does not go on with |
| JsonSound.LeadingZero | src/gateway/json.ts:199-217 | `01` is read as 0 |
| JsonErrors.RefusedForGood | src/gateway/json.ts:96-99 | a refusal without `eof` holds for every extension, again without `eof` |
| JsonErrors.RefusedForNow | src/gateway/json.ts:96-99 | a refusal with `eof` comes with an extension that is accepted |
| JsonErrors.EofExact | src/gateway/json.ts:96-99 | `eof` is true exactly when the input is refused and some extension is accepted |
| JsonErrors.FirstStable | src/gateway/json.ts:258-264 | the first value does not change when more bytes follow, unless it is a number at the very end |
| JsonErrors.NumberStaysNumber | src/gateway/json.ts:199-217 | and a number at the end stays a number, or is refused |
| Decode.Zero | src/gateway/decode.ts:175-192 | the zero value has the schema's shape |
| Decode.ZeroExact | src/gateway/decode.ts:175-192 | the zero value is the one value of the shape that is blank throughout: empty text, no number, false, the zero time, null |
| Decode.ParseInt64Exact | src/gateway/decode.ts:155-160 | accepted are exactly digits, with a minus or without, that spell an int64, and what is returned is that number |
| Decode.LookupExact | src/gateway/decode.ts:229 | a member binds to the field of exactly its name, and without one to the last field whose name folds alike |
| Decode.Bind | src/gateway/decode.ts:198-236 | a bound value has exactly the schema's fields, in order, every int in the int64 range, on top of whatever was there |
| Decode.Decode | src/gateway/decode.ts:239-249 | so has a decoded body |
| DecodeMerge.BindExact | src/gateway/decode.ts:198-236 | which value a node binds to over an earlier one, kind by kind, and none exactly where no value is named: a scalar needs its kind of node, an int the spelling of an int64, a time plain text; a list is bound item over earlier item, an object field by field |
| DecodeMerge.DecodeExact | src/gateway/decode.ts:239-249 | a body decodes to a value exactly when it is a JSON text whose value binds to it; an empty one to the blank value |
| BindInPlace.MakeZero | src/gateway/decode.ts:175-192 | the zero value built on the heap: new objects only, a tree, standing for the pure one |
| BindInPlace.BindInto | src/gateway/decode.ts:198-236 | binding in place succeeds exactly when the pure binding does, leaves what it computes, and changes only the objects of the earlier value |
| BindInPlace.BindFields | src/gateway/decode.ts:225-234 | the loop over the members: the same object, holding what the fold of the members computes |
| BindInPlace.BindElements | src/gateway/decode.ts:220-224 | the items merge into the earlier ones at their places without any two sharing an object |
| BindInPlace.DecodeInPlace | src/gateway/decode.ts:239-249 | parser and binding together: the value on the heap stands for the decoded one |
| BindInPlace.DecodeFirstInPlace | src/gateway/decode.ts:257-267 | the same for the first value of a request body, with the kinds of refusal |
| DecodeMerge.BindAppend | src/gateway/decode.ts:228-232 | binding members is a left fold over them |
| DecodeMerge.BindObjectTwice | src/gateway/decode.ts:225-234 | binding objects A and then B is binding A followed by B |
| DecodeMerge.RepeatMerges | src/gateway/decode.ts:225-234 | a member given twice with objects is the member given once with both, wherever it stands |
| DecodeMerge.MembersByField | src/gateway/decode.ts:228-232 | each field is what its own members make of it, and the object is refused exactly when a field is |
| DecodeMerge.FieldsDecide | src/gateway/decode.ts:228-232 | lists of members that say the same to every field bind alike |
| DecodeMerge.SwapMembers | src/gateway/decode.ts:228-232 | members of different fields may change places |
| DecodeMerge.DropUnknown | src/gateway/decode.ts:229-231 | members no field knows may be left out |
| DecodeMerge.NullKeeps | src/gateway/decode.ts:199-200 | null changes nothing, but resets a list |
| DecodeMerge.ItemsMerge | src/gateway/decode.ts:220-224 | item `k` merges into what was at `k`; the rest of the earlier list is dropped |
| JsonWriter.ThrowsExactly | src/gateway/json.ts:299-344 | `jsonPieces` throws exactly on the values `hasUnencodable` finds |
| JsonWriter.UnencodableExact | src/gateway/json.ts:299-303 | `hasUnencodable` finds such a time exactly when one is somewhere in the value |
| JsonWriter.TextExact | src/gateway/json.ts:318-350 | the pieces put together are the items or fields between commas, in brackets, with no blank |
| JsonWriter.QuotedExact | src/gateway/json.ts:323 | a string is written character by character: a letter for seven of them, a code for the other control characters, the rest as they are |
| Retraction.PrinterUndone | src/gateway/json.ts:318-350 | the text of an encodable value parses to its tree exactly when it is within the depth cap |
| Retraction.DecodeRetraction | src/gateway/decode.ts:239-249 | what is written for a decoded value decodes to that value, exactly up to the depth cap |
| SendJson.Send | src/http/json.ts:66-87 | an unencodable value leaves an empty body; any other is written whole with a newline whatever the backpressure, or a prefix of it when the socket dies, and nothing when it is gone from the start; no write but the last is shorter than 1 MiB |
| Body.BodyReader.Run | src/http/body.ts:37-73 | over every sequence of events the reader settles at most once, listens exactly until then, and comes to the expected outcome |
| Body.BodyReader.OnData | src/http/body.ts:50-58 | a chunk is kept, and settles the read exactly when it passes the cap |
| Body.ChunkingIsNothing | src/http/body.ts:37-73 | the outcome depends on the bytes alone: the first `limit`, `exceeded` exactly when more arrived, CallerGone exactly when close or error came first |
| Body.PrefixDecides | src/gateway/decode.ts:257-267 | for a struct schema what a prefix decodes to, or is refused for, holds for the whole body |
| Body.EndOfInputIsProvisional | src/gateway/decode.ts:262-263 | an end of input is never final |
| Body.CapVerdict | src/http/body.ts:81-90 | the verdict under the cap against that of the whole body, case by case |
| Body.WhiteSpaceOverTheCap | src/http/body.ts:81-90 | a cut that is all white space is a bad request, although the whole body may be accepted |
| Body.CapExact | src/http/body.ts:81-90 | whatever was cut off, a bad request stands for the whole body exactly when the cut is not all white space |
| Body.FirstExact | src/gateway/decode.ts:257-267 | decoded is exactly a body that begins with a value that fits; "EOF" exactly white space; "unexpected EOF" exactly what has no first value yet |
| Body.VerdictExact | src/http/body.ts:81-90 | accepted is exactly what begins with a value that fits, however much was cut off; too large exactly what breaks off where bytes were cut off |
| Upstream.Utf8Text | src/persistence.ts:27-34 | text exactly for well-formed bytes, and it encodes back to them |
| Upstream.CutRunes | src/gateway/errors.ts:86-93 | the loop yields the cut, and `valid` exactly when it has no bad byte |
| Upstream.UpstreamMessageOf | src/gateway/errors.ts:82-98 | the envelope's message, or the body cut at a rune |
| Upstream.LiftedExact | src/gateway/errors.ts:60-85 | a message is lifted exactly when it is not blank and the body is a JSON text that decodes to an envelope with it |
| Upstream.EnvelopeLifts | src/gateway/errors.ts:60-85 | so it is from the plain envelope, in whatever layout |
| Upstream.MessageExact | src/gateway/errors.ts:86-97 | of any other body the first 500 characters, raw bytes only with ill-formed ones in full, and no message when all is blank |
| Upstream.MessageIsWhole | src/gateway/errors.ts:94-97 | at most 500 runes, a prefix of the text, raw bytes exactly when it is whole and not UTF-8, and no rune split |
| Upstream.ScannersAgree | src/gateway/errors.ts:86-93 | a JSON string, a message and a text column see the same text in the same bytes |
| Upstream.ReadCapped | src/gateway/errors.ts:118-137 | at most `limit` bytes, those that arrived before a failure included |
| Calendar.DayRoundTrip | src/db/time.ts:38-46 | every day has a date, and that date names the day |
| Calendar.DateRoundTrip | src/gateway/decode.ts:108-152 | every date names a day that has it |
| Calendar.Tomorrow | src/gateway/decode.ts:108-109 | the dates are those of the Gregorian calendar, counted from 1970-01-01, each one day after the one before |
| Time.MatchExact | src/gateway/decode.ts:106 | the expression matches exactly the texts of its fields, in one way |
| Time.NormaliseExact | src/gateway/decode.ts:106-136 | exactly which texts are refused, which are read but unencodable (offsets of a day or more) and which are normalised |
| Time.NormalForm | src/gateway/decode.ts:118-136 | what normalising rewrites: the hour to two digits, the fraction to its shortest with a point, the offset to minutes below 60 or `Z`; the rest, sign included, stays |
| Time.ZoneShifts | src/gateway/decode.ts:142-152 | a clock reading ahead of UTC is that much earlier than the same reading in UTC, one behind it later |
| Time.ClockCounts | src/gateway/decode.ts:142-152 | readings of one day lie as far apart as their hours, minutes and seconds, in range or not |
| Time.NanosFloor | src/gateway/decode.ts:151 | the nanoseconds are the fraction of a second, of any length, cut off at the ninth digit |
| Time.NormalisedInstant | src/gateway/decode.ts:118-152 | normalising keeps the instant |
| Time.NormaliseIdempotent | src/gateway/decode.ts:118-136 | normalising again changes nothing |
| Time.Rfc3339RoundTrip | src/db/time.ts:56-60 | the text of an instant of years 1 to 9999 names that instant |
| Time.Rfc3339IsNormal | src/db/time.ts:56-60 | and is in normal form |
| Time.SqlTimeNamesMicrosecond | src/db/time.ts:49-53 | the SQL text names the instant cut off at the microsecond |
| Time.SqlTimeRefuses | src/db/time.ts:38-53 | exactly the seconds outside years 1 to 9999 are refused, among those a `Date` can hold |
| Time.SqlTimeOfInvalidDate | src/db/time.ts:38-53 | beyond those nothing is refused, and the text is no time |
| Time.DecodedTimeIsInDate | src/gateway/decode.ts:142-152 | every time text that is read names an instant a `Date` can hold |
| Time.DecodedTimeRefused | src/db/time.ts:30-53 | of a decoded time, exactly the seconds outside years 1 to 9999 are refused |
| Time.DateRefused | src/db/time.ts:23-53 | and so of a `Date` |
| Time.SqlTimeBack | src/db/time.ts:63-68 | a stored time without microseconds comes back as its RFC 3339 text |
| Time.FromSqlExact | src/db/time.ts:63-68 | what is read back from a column: exactly times to the second, or with a fraction of zeros, as that time in UTC |
| Time.ZeroTimeIsZero | src/db/time.ts:33 | the zero time is normal and counts as zero |
| Time.ZeroTimeExact | src/db/time.ts:33 | and the zero instant is the one that is written as the zero time |
| Paths.UnescapeBytes | src/http/muxCompat.ts:31-47 | the loop decodes as specified, and refuses a percent sign without two hex digits |
| Paths.EscapeWith | src/http/muxCompat.ts:66-73 | the loop escapes byte by byte |
| Paths.EscapeRoundTrip | src/http/muxCompat.ts:31-73 | unescaping what was escaped gives the bytes back, for every set of kept bytes without the percent sign |
| Paths.EscapeExact | src/http/muxCompat.ts:66-72 | a byte is written as it is, or as a percent sign and two digits in upper case |
| Paths.UnescapedExact | src/http/muxCompat.ts:31-47 | refused is exactly a percent sign that two hexadecimal digits do not follow |
| Paths.UnescapedReads | src/http/muxCompat.ts:31-47 | an escape is the byte its digits spell, wherever it stands; other bytes stand for themselves |
| Paths.CleanPath | src/http/muxCompat.ts:50-61 | the loop over a stack of segments cleans as specified |
| Paths.CleanIsKept | src/http/muxCompat.ts:50-61 | the result is rooted, free of dots and empty segments but for a trailing slash, and exactly such paths are left alone |
| Paths.CleanIdempotent | src/http/muxCompat.ts:50-61 | cleaning again changes nothing |
| Paths.UpCancels | src/http/muxCompat.ts:50-61 | a double dot and the segment before it may be left out, wherever they stand |
| Paths.NothingSaid | src/http/muxCompat.ts:50-61 | so may an empty segment or a single dot, but for the empty one at the end |
| Paths.UpAtRoot | src/http/muxCompat.ts:50-61 | and a double dot at the root: with the row on clean paths these leave one result for every path |
| Paths.CleanRoots | src/http/muxCompat.ts:50-53 | a path that is not rooted is cleaned as if it were |
| Paths.RedirectsOnce | src/http/muxCompat.ts:123-153 | a request to the Location of a clean-up redirect is passed on with that path and the same query |
| Paths.MuxExact | src/http/muxCompat.ts:123-153 | every target by its path and query: refused for a bad escape, redirected to the clean form, or passed on as the decoded bytes and a URL with the same segments; other forms, and a fragment in an authority, are refused |
| Paths.SegmentFromEnd | src/http/muxCompat.ts:95-106 | walking back from the end finds the segment of the split path |
| Paths.CleanHasNoDots | src/http/muxCompat.ts:86-106 | no segment of a path that is let through is a dot segment |
| Paths.SegmentSent | src/http/muxCompat.ts:80 | an escaped segment holds nothing that could end or split it, and unescapes to the same bytes |
| Paths.ResolvePath | src/gateway/location.ts:110-138 | the loop over the text computes what a stack of segments does |
| Paths.ResolvedHasNoDots | src/gateway/location.ts:110-138 | whatever is resolved is rooted and free of dot segments |
| Paths.ResolvedUnchanged | src/gateway/location.ts:110-138 | a rooted path without dot segments is resolved to itself |
| Paths.ResolveUp | src/gateway/location.ts:110-138 | a double dot takes the segment before it away, an empty one too |
| Paths.ResolveDot | src/gateway/location.ts:110-138 | a single dot says nothing, and stands for the root at the very start |
| Paths.ResolveUpAtRoot | src/gateway/location.ts:110-138 | above the root there is nothing: what follows begins anew |
| Paths.ResolveEnd | src/gateway/location.ts:136 | a dot segment at the end leaves a slash |
| Paths.ResolveRoots | src/gateway/location.ts:137 | without dot segments only a slash in front is added: together these say what every path resolves to |
| Paths.MergeExact | src/gateway/location.ts:111 | a rooted reference stands for itself, any other in place of the last segment of the base |
| Paths.PathIntegrity | src/http/muxCompat.ts:80-153 | a segment of a path that is let through, escaped into an endpoint, passes dot resolution unchanged, keeps its place and unescapes to the same bytes |
| Location.SchemeOf | src/gateway/location.ts:55-68 | the loop finds the scheme as specified |
| Location.SchemeMeans | src/gateway/location.ts:55-68 | a scheme is found exactly when the reference begins with one and a colon; malformed exactly when it begins with a colon |
| Location.HostExact | src/gateway/location.ts:71-87 | which hosts are acceptable: those characters, `%25` or encoded bytes that are not ASCII, and a port of digits, behind brackets or the last colon |
| Location.BackslashExact | src/gateway/location.ts:172 | a backslash goes out as `%5C`, and nothing else is changed |
| Location.ReferenceExact | src/gateway/location.ts:144-199 | where a reference goes, by the parts it is written in, and why it is refused; against any base |
| Location.ReferenceParts | src/gateway/location.ts:144-199 | and every text that goes anywhere is written in such parts |
| Location.ResolvedReferenceIsProper | src/gateway/location.ts:144-199 | the path that comes out is rooted, dot-free, well escaped and ends nothing early; the query is nothing else |
| Location.TextReadsBack | src/gateway/location.ts:190-195 | the text given to fetch, read by the same rules, is the scheme, host, path and query it was put together from |
| Location.ResolvesOnce | src/gateway/location.ts:144-199 | resolving what was resolved changes nothing |
| Location.EndpointArrives | src/gateway/client.ts:166 | a segment of a path that was let through reaches the gateway as one segment, at its place, on that host, with the same bytes |
| Redirect.SubdomainMeans | src/gateway/location.ts:103-107 | the same name, or labels in front of it, and no colon or percent sign |
| Redirect.HostnameExact | src/gateway/location.ts:92-97 | the host name is what stands before the port, or between the brackets |
| Redirect.FirstLocationExact | src/gateway/client.ts:194-195 | of several Location headers the first is taken |
| Redirect.Follow | src/gateway/client.ts:161-220 | at most ten requests; each one's target, verb, body, Authorization and Content-Type as a function of the answers before it; and how the run ends, a caller who hung up told from a gateway that did not answer |
| Redirect.StrippedForGood | src/gateway/client.ts:182-209 | once Authorization is off it stays off |
| Redirect.AuthorizationStaysHome | src/gateway/client.ts:172-209 | while it is sent every host so far is the first or below it by both readings (the exact name when that has no subdomains), and no hop stepped down from https |
| Redirect.AuthorizationExact | src/gateway/client.ts:170-209 | and it is sent exactly while every host so far is the first or within its domain by both readings and no hop stepped down from https to http |
| Redirect.BodyNeedsKeptVerb | src/gateway/client.ts:210-211 | a body is sent only after nothing but 307 and 308, and then with the original verb |
| Redirect.RewrittenForGood | src/gateway/client.ts:178-211 | after 301, 302 or 303 the verb is GET (HEAD stays) without a body for good; Content-Type never changes |
| Redirect.RunsAgree | src/gateway/client.ts:161-220 | of two runs of one call in one world, one is the beginning of the other |
| Lockfile.ResolveDep | scripts/check-dependencies.cjs:191-200 | the loop finds what the lookup finds |
| Lockfile.LocationExact | scripts/check-dependencies.cjs:191-200 | the places of the lookup as text: each name in a `node_modules/` below the one before |
| Lockfile.NearestAncestor | scripts/check-dependencies.cjs:191-200 | for a package installed inside a chain of others, the innermost place that exists, and nothing exactly when none does |
| Lockfile.NearestExactly | scripts/check-dependencies.cjs:191-200 | and that for whatever is installed exactly when no name in the chain contains `node_modules/` |
| Lockfile.EdgeExact | scripts/check-dependencies.cjs:218-228 | which edges there are: dependencies and peers, and unless they are left out optional dependencies and optional peers |
| Lockfile.ClosureIsLeast | scripts/check-dependencies.cjs:202-230 | what is reached is closed under the edges and inside every closed set |
| Lockfile.Reachable | scripts/check-dependencies.cjs:208-230 | the worklist ends, cycles included, with exactly that set |
| Lockfile.MandatoryInsideRuntime | scripts/check-dependencies.cjs:235-237 | what is needed without optional packages is part of the runtime graph |
| Lockfile.DevFlagProblems | scripts/check-dependencies.cjs:233-255 | the problems entry by entry, and none exactly when the flags are right |
| Lockfile.ProblemsExact | scripts/check-dependencies.cjs:233-255 | which problem is reported of which entry, by the graph and its flags |
| Lockfile.FlagsExact | scripts/check-dependencies.cjs:233-255 | no problem exactly when the entries without `dev` are the runtime closure and nothing mandatory may be dropped as optional |
| Snapshot.ComputedMeans | scripts/check-dependencies.cjs:102-112 | the keys of the entries, each with the integrity of its first entry |
| Snapshot.KeyExact | scripts/check-dependencies.cjs:93-110 | the key of a package at its place: section, the name it has or is installed under, version |
| Snapshot.NameOutside | scripts/check-dependencies.cjs:92-93 | outside any `node_modules/` the name is what is left behind the twelfth character |
| Snapshot.SnapshotConflicts | scripts/check-dependencies.cjs:118-133 | a conflict for every later entry whose integrity differs from the first |
| Snapshot.NoConflicts | scripts/check-dependencies.cjs:118-133 | none exactly when one key never has two integrities |
| Snapshot.ConflictsExact | scripts/check-dependencies.cjs:118-133 | the conflicts that are reported: each later entry that differs, with the first of its key |
| Snapshot.RenderSnapshot | scripts/check-dependencies.cjs:135-145 | the header, then section by section one line for each entry |
| Snapshot.RenderedExact | scripts/check-dependencies.cjs:135-145 | what ships first, what is only built with behind it, each key and integrity on a line of its own |
| Snapshot.ParseSnapshot | scripts/check-dependencies.cjs:147-161 | the loop over the lines, with its refusals |
| Snapshot.LinesExact | scripts/check-dependencies.cjs:149 | lines end at a line feed, with or without a carriage return |
| Snapshot.ReadLineExact | scripts/check-dependencies.cjs:150-155 | a line is blank or a comment, three words behind a known section, or malformed |
| Snapshot.ParseExact | scripts/check-dependencies.cjs:147-161 | a text is read exactly when no line is malformed and no key listed twice, as the table of its lines |
| Snapshot.RoundTrip | scripts/check-dependencies.cjs:135-161 | reading what was written gives the table back exactly when all its parts are single words, in whatever order the lines are |
| Snapshot.SnapshotProblems | scripts/check-dependencies.cjs:164-188 | what the lockfile gained, changed and lost, or that the text cannot be read |
| Snapshot.NoDifferences | scripts/check-dependencies.cjs:164-188 | none exactly when the text reads as the lockfile's snapshot |
| Snapshot.DifferencesExact | scripts/check-dependencies.cjs:164-188 | which differences are reported, key by key |
| Snapshot.SnapshotExact | scripts/check-dependencies.cjs:102-188 | no conflict and no difference exactly when every entry's integrity is the listed one and nothing else is listed |
| Snapshot.FreshSnapshot | scripts/check-dependencies.cjs:353-358 | writing the snapshot and checking it at once is silent exactly when it is clean |
| Snapshot.NoIntegrityIsNotClean | scripts/check-dependencies.cjs:110 | the first entry of a key without integrity makes the snapshot unclean |

## Left out

- Float64 rounding and printing: a number literal's canonical text is the function `canon` of `Decode.Env`.
- Simple case folding of member names: the function `fold` of `Decode.Env`, any function at all except where stated.
- The order of an object's members when field names look like array indices: fields keep the schema's order.
- BindInPlace.BindInto: says nothing of the objects after a refusal, since the program drops them.
- Error wording and log lines: problems and refusals are constructors, and only `eof` is kept of a syntax error.
- Node's own reading of bytes as UTF-8 text when a path is routed: the parameter `reading` of `Paths.MuxCompat`.
- WHATWG URL parsing, punycode and fetch: the parameters `agrees` and `decode` of `Location.Web`, and `Redirect.World`.
- Location.TextReadsBack: for hosts without a percent sign, since the text of a percent-encoded host is not part of this model.
- Location.ResolvesOnce: likewise.
- Location.EndpointArrives: likewise, for the gateway's own host, and given that URL parsing agrees.
- Abort signals and the deadline of a call: a request that fails, and whether the caller has left by then, are the world's.
- The request line's CONNECT and OPTIONS forms, CORS, authentication, controllers, sockets and timers.
- `expect: 100-continue` and the pause of a request stream beyond the flag: `Body.BodyReader` keeps the handlers only.
- The wording and order of `sort` in the snapshot: any rearrangement of a section's lines.
- The allowlist, alias, release and URL rules of the dependency check: each is one predicate on one entry.
- MySQL access, migrations, configuration predicates and query parsing.
