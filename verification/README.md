# Verified models of the build tree's stateful algorithms

This project models, in Dafny, the parts of the repository that carry real algorithmic state, and
proves what they are for. Run `dafny verify dfyconfig.toml` to check everything.

* **cgic** (`cgic.c`): the virtual input stream with its put-back ring (`MpStream`), the boundary
  matcher (`Boundary`), the search for the first boundary, where it is exact and where it is not
  (`FirstMatch`, `FirstBoundary`, `FirstBoundaryMisled`, `FirstBoundaryHidden`, `FirstBoundaryFront`,
  `FirstBoundaryExamples`), part headers (`Header`, `HeaderFields`, `HeaderParams`), the multipart/form-data parser (`Multipart`,
  RFC 7578 and section 5.1.1 of RFC 2046) and its round trip (`HeaderRoundTrip`, `MultipartRoundTrip`);
  urlencoded forms (`FormInput`); newline normalisation into bounded buffers (`Newlines`).
* **SDDP packets** (`SddpPacket.c`): parser (`SddpText`, `SddpParser`), writer into a bounded buffer
  (`SddpWriter`), the round trip between them (`SddpRoundTrip`, `SddpComesBack`), and what any header
  lines do (`SddpLines`).
* **BitBake's parallel recipe parsing** (`cooker.py`): sharing out the jobs (`JobChunks`), workers,
  feeder threads, queue and main loop as an interleaved step system (`ParallelParse`), its safety and
  its ending (`ParallelParseSafety`), and layer priorities (`LayerPriority`).
* **BitBake's caches** (`cache.py`, `codeparser.py`): the signature stream codec (`SiggenStream`,
  `SiggenFaithful`), virtual recipe names (`VirtualNames`), the memoised validity check
  (`RecipeCache`), the lock-file merge protocol (`SharedCache`), and the code parser caches
  (`ParseCache`).
* **BitBake's dependency graphs** (`data.py`, `build.py`): closures and hash inputs (`Walks`,
  `Sorting`, `Dependencies`), the worklists that emit functions (`EmitFunc`), tasks between two tasks
  (`Tasks`), adding and deleting tasks (`TaskStore`).
* **pyinotify's rename tracking** (`PathText`, `WatchPaths`) and the **copy-on-write dictionaries**
  (`Cow`, `CowDict`).

The method is the same everywhere. Code that changes things step by step is a method, of a class where
the source has an object, proved equal to a specification function or relation; what the source
promises is then proved of the specification, for all inputs, all runs or all interleavings. C strings
are sequences of characters in which NUL ends the string; Python sets and dictionaries are sets and
maps, and their iteration order is arbitrary wherever the source iterates over them.

Where the code does not do what its comments or its purpose suggest, the model follows the code:

* The comment on the put-back ring allows 1024 characters to be put back; a full ring looks empty, so
  only fewer than 1024 are kept (`MpStreams.RingQueuesIffRoom`).
* The first boundary is searched as `--B`, whose first character recurs. A false match that goes beyond
  the leading dashes swaps the characters it puts back. For boundaries with two leading dashes (in `--B`),
  or with more and no second dash right behind the character that follows them, the search for a
  boundary that is there is exact iff nothing misleads in front of it
  (`FirstBoundaryMisled.FirstBoundaryIff`); with no dash at all behind the leading ones this holds of
  every stream (`FirstBoundaryMisled.PlainBoundaryIff`). A misleading start is the leading dashes and the
  next character, except two dashes and that character once more often than in the boundary. Exact here
  includes the text passed over, which the parser drops. What the parser needs is that the search stops
  behind the first boundary. For every boundary that is decided by what is in front of it
  (`FirstBoundaryFront.FrontDecides`). With no dash behind the leading ones it does, iff the boundary is
  not hidden, that is, not directly behind a start of it that goes beyond the dashes and is not hidden
  itself (`FirstBoundaryHidden.FirstBoundaryFoundIff`). With two leading dashes and lone ones behind them,
  as in a UUID, and a line end in front, it does iff nothing is found in the text in front
  (`FirstBoundaryFront.LineEndStopsIff`). With a dash behind the leading ones a boundary may even be found
  that is not there (`FirstBoundaryExamples.FirstSearchInventsBoundary`). The search for the
  later boundaries, `CRLF--B`, is exact on every stream.
* White space behind the colon of a header line is skipped even past the end of the line, so a content
  type of white space only swallows the blank line and what follows (`HeaderRoundTrip.TypeLineBlank`),
  and any field with a blank value takes the next line for its value (`HeaderFields.BlankFieldTakesNext`).
* A text fits the SDDP writer's buffer only if the returned count is strictly below the buffer size.
* A COW dictionary looks up plain bindings on its whole chain before mutable ones. So a mutable value
  just set is not read where the key has an immutable value, or was deleted, there or further up
  (`Cow.MutableIsReadIff`), and deleting a key in a dictionary also takes it from a copy with a mutable
  value of its own (`Cow.DeletionTakesOwnValue`). `Cow.ReadIsNearestIff` says when a read gives the
  binding of the nearest level, taking the plain one of two at the same level.
* A variant `mc:M:V` whose `V` starts with a colon loses the whole of `V`
  (`VirtualNames.McVariantAgreesIff`).
* `deltask` removes the dependency on the deleted task from listed tasks only.
* `tasksbetween` lists nothing when there is no task other than the end, even for the end itself.
* `parse_python` fills in the variable execs iff its key was not cached, so the caches show for code that
  has any (`ParseCache.CacheShowsIff`).
* A directory renamed between watched ones that is not watched itself takes the watches below it along
  unnoticed (`WatchPaths.EntryRenameIff`).
* The parser keeps the spaces in front of the version of an SDDP request, so such a version comes back
  (`SddpRoundTrip.IsVersion`); one of a response does not.
* `deps` of None and of `{}` are both passed through the signature codec unchanged.

## Model

| member | source | states |
|---|---|---|
| MpStreams.RingQueuesIffRoom | meta-lea/recipes-core/http-multipart-form-data-upload/files/cgic.c:335-351 | Pushing data appends it behind the waiting characters exactly when fewer than 1024 then wait; at 1024 the full ring looks empty |
| MpStreams.WaitingPop | meta-lea/recipes-core/http-multipart-form-data-upload/files/cgic.c:363-372 | Advancing the read position, across the wraparound, removes the oldest waiting character and no other |
| MpStreams.MpStream.Read | meta-lea/recipes-core/http-multipart-form-data-upload/files/cgic.c:353-393 | The characters read are the next ones of the virtual stream (ring, then input up to the declared length), as many as asked for or left; offset advances by them; EOF exactly at the declared end |
| MpStreams.MpStream.Push | meta-lea/recipes-core/http-multipart-form-data-upload/files/cgic.c:398-402 | The put-back loop makes of the ring what pushing the characters one by one makes of it, room or not |
| MpStreams.MpStream.PutBack | meta-lea/recipes-core/http-multipart-form-data-upload/files/cgic.c:395-403 | With room, the data waits behind what already waits, the rest of the input is untouched, offset goes back, and offset plus waiting characters remains what was taken from the input |
| Boundaries.ScanSearches | meta-lea/recipes-core/http-multipart-form-data-upload/files/cgic.c:732-764 | When the first character of the boundary does not recur in it, the matcher with FIFO put-back, from any of its states, finds the first occurrence and emits exactly what precedes it, or ends with none in the stream; the ring is empty whenever a match is in progress |
| Boundaries.NextBoundaryIsSearch | meta-lea/recipes-core/http-multipart-form-data-upload/files/cgic.c:701-793 | For every stream and every boundary as a request yields it, the search after the first boundary returns exactly the bytes before the first CRLF--B, and fails iff there is none with two characters behind it |
| Boundaries.ScanIgnoresSplit | meta-lea/recipes-core/http-multipart-form-data-upload/files/cgic.c:732-764 | A waiting character makes no difference: the search depends on the virtual stream only |
| Boundaries.ScanStream | meta-lea/recipes-core/http-multipart-form-data-upload/files/cgic.c:732-764 | The loop over the stream and its ring computes the matcher's result and leaves the ring empty; it terminates although it puts characters back |
| Boundaries.ReadTrailer | meta-lea/recipes-core/http-multipart-form-data-upload/files/cgic.c:765-777 | Behind the boundary a line end is consumed, two characters starting with a dash remain readable, any other two are dropped, fewer are an error |
| Boundaries.AfterNextBoundary | meta-lea/recipes-core/http-multipart-form-data-upload/files/cgic.c:701-813 | The function as a whole is that search on the virtual stream, with the body kept or not, and leaves at most two characters waiting |
| FirstMatches.FalseMatch | meta-lea/recipes-core/http-multipart-form-data-upload/files/cgic.c:745-758 | A false match of any length beyond the leading dashes puts the rest of them and the next character behind what followed: exactly these characters then wait, in this order |
| FirstBoundaries.FirstScanSearches | meta-lea/recipes-core/http-multipart-form-data-upload/files/cgic.c:726-764 | From any state of the ring the matcher on --B is an exact search of every stream in which nothing misleads before the boundary: no leading dashes with the next character, but for their harmless repetition |
| FirstBoundaries.FirstBoundaryIsSearch | meta-lea/recipes-core/http-multipart-form-data-upload/files/cgic.c:701-793 | On such streams, for every boundary, the first search returns exactly what precedes the first --B, and fails iff there is none with two characters behind it |
| FirstBoundaries.AllDashesIsSearch | meta-lea/recipes-core/http-multipart-form-data-upload/files/cgic.c:701-793 | For a boundary of dashes only this holds of every stream |
| FirstBoundaryMisled.GoesAstray | meta-lea/recipes-core/http-multipart-form-data-upload/files/cgic.c:726-764 | For the telling boundaries, a misleading start before the boundary makes the search emit something else than what precedes it |
| FirstBoundaryMisled.FirstBoundaryIff | meta-lea/recipes-core/http-multipart-form-data-upload/files/cgic.c:701-793 | For the telling boundaries, where the boundary occurs with two characters behind it, the search is exact iff nothing misleads before it |
| FirstBoundaryMisled.FindsOccurrence | meta-lea/recipes-core/http-multipart-form-data-upload/files/cgic.c:726-764 | With no dash behind the leading ones, whatever was swapped, what the search finds is an occurrence of the boundary |
| FirstBoundaryMisled.PlainBoundaryIff | meta-lea/recipes-core/http-multipart-form-data-upload/files/cgic.c:701-793 | For such boundaries and every stream, the search is exact iff nothing misleads before a boundary that has two characters behind it |
| FirstBoundaryHidden.HiddenBehind | meta-lea/recipes-core/http-multipart-form-data-upload/files/cgic.c:745-758 | Which boundaries are hidden is the same in the stream as it is, and with the characters of a false match swapped |
| FirstBoundaryHidden.FirstBoundaryFoundIff | meta-lea/recipes-core/http-multipart-form-data-upload/files/cgic.c:701-793 | For such boundaries: where the first one has two characters behind it, the search stops right behind it iff it is not hidden by a start of it directly in front, which goes beyond the dashes and is not hidden itself |
| FirstBoundaryExamples.FalseStartHides | meta-lea/recipes-core/http-multipart-form-data-upload/files/cgic.c:745-758 | Any start of such a boundary that goes beyond its dashes, directly in front of it, makes the search run past it, to the end if no dash follows |
| FirstBoundaryExamples.FirstSearchMissesBoundary | meta-lea/recipes-core/http-multipart-form-data-upload/files/cgic.c:745-758 | A concrete stream with a boundary that is missed |
| FirstBoundaryExamples.FirstSearchInventsBoundary | meta-lea/recipes-core/http-multipart-form-data-upload/files/cgic.c:745-758 | A concrete stream without the boundary, with a dash behind its leading ones, in which the search finds it |
| FirstBoundaryExamples.MisledUnharmed | meta-lea/recipes-core/http-multipart-form-data-upload/files/cgic.c:745-758 | For a boundary that is not telling, a concrete stream with a misleading start on which the search is exact all the same |
| Headers.ReadHeaderLine | meta-lea/recipes-core/http-multipart-form-data-upload/files/cgic.c:924-983 | The reader, which puts back the character behind a CR and behind the blanks after a colon, gives name, value and success of the line as a function of the virtual stream, and leaves exactly what follows the line |
| Headers.DecomposeValue | meta-lea/recipes-core/http-multipart-form-data-upload/files/cgic.c:815-922 | The pointer walk gives the value and, for each wanted name, its last well-formed parameter before a malformed one, each clipped to its buffer |
| Text.StrEqNc | meta-lea/recipes-core/http-multipart-form-data-upload/files/cgic.c:2303-2324 | Two strings are equal without regard to case iff they have the same length and every character matches |
| Text.EqNcIff | meta-lea/recipes-core/http-multipart-form-data-upload/files/cgic.c:2303-2324 | Texts match iff they differ at most in which letters are capitals |
| Multipart.ReadPartHeaders | meta-lea/recipes-core/http-multipart-form-data-upload/files/cgic.c:494-520 | Header lines are absorbed until the first one that is not a header, and the stream is left behind it |
| Multipart.AtEnd | meta-lea/recipes-core/http-multipart-form-data-upload/files/cgic.c:483-493 | Two characters decide whether the submission ends; if it does not, the virtual stream is as before |
| Boundaries.ScanShrinks | meta-lea/recipes-core/http-multipart-form-data-upload/files/cgic.c:701-793 | Every boundary found consumes at least its own length, so the loop over the parts ends |
| Multipart.ReadPart | meta-lea/recipes-core/http-multipart-form-data-upload/files/cgic.c:494-606 | A part becomes one entry, a field or an upload, if it is form data and none if not; a missing boundary is an error |
| Multipart.ParsePostMultipartInput | meta-lea/recipes-core/http-multipart-form-data-upload/files/cgic.c:447-607 | For every input, declared length and boundary the parser with its ring equals the pure parser on the input cut at the declared length; a missing first boundary is an empty submission, a missing later one an error |
| HeaderRoundTrip.DispositionIff | meta-lea/recipes-core/http-multipart-form-data-upload/files/cgic.c:815-922 | A rendered Content-Disposition value, cut to the buffer, decomposes into form-data, the name and the file name iff neither holds a quote and no more than the last quote is cut off |
| HeaderRoundTrip.TypeIff | meta-lea/recipes-core/http-multipart-form-data-upload/files/cgic.c:815-922 | A content type comes back iff it has no white space in front, no quote in front, no semicolon and fits the buffer |
| HeaderRoundTrip.PartHeadersIff | meta-lea/recipes-core/http-multipart-form-data-upload/files/cgic.c:494-520 | For every part: its rendered headers are read back, and the body is what follows, iff name, file name and type are free of colon, CR, LF and NUL, the names of quotes, the disposition is at most 1024 characters and the type is one that comes back |
| HeaderFields.HeaderComesBack | meta-lea/recipes-core/http-multipart-form-data-upload/files/cgic.c:494-520 | Whatever other header fields a part is sent with, in front of, between or behind its own two, and in whatever order and case those are, exactly its name, file name, type and body are read |
| HeaderFields.LowerCaseIsHeader | meta-lea/recipes-core/http-multipart-form-data-upload/files/cgic.c:515-520 | Its own two field names in lower case do as well |
| HeaderFields.ForeignHeader | meta-lea/recipes-core/http-multipart-form-data-upload/files/cgic.c:494-520 | Header fields of a part that is no form data, or says nothing of it, never make it form data |
| HeaderFields.LineEndsAlike | meta-lea/recipes-core/http-multipart-form-data-upload/files/cgic.c:924-983 | A header line is read alike whether it ends with CRLF, CR or LF |
| HeaderFields.ColonIsDropped | meta-lea/recipes-core/http-multipart-form-data-upload/files/cgic.c:924-983 | A colon within a value is dropped with the white space behind it, line ends included |
| HeaderFields.NameIsVisible | meta-lea/recipes-core/http-multipart-form-data-upload/files/cgic.c:924-983 | White space within a name is dropped |
| HeaderFields.BlankFieldTakesNext | meta-lea/recipes-core/http-multipart-form-data-upload/files/cgic.c:924-983 | A field with a blank value takes the next line as its value |
| HeaderParams.DecomposeSays | meta-lea/recipes-core/http-multipart-form-data-upload/files/cgic.c:815-922 | For any value with any list of parameters, in whatever order and spacing, quoted or not: each wanted name gets the value of its last parameter, clipped to the buffer, and none if it has none; a malformed one ends the list |
| MultipartRoundTrip.BodyComesBackIff | meta-lea/recipes-core/http-multipart-form-data-upload/files/cgic.c:701-793 | A body followed by CRLF--B comes back iff it does not contain CRLF--B: no occurrence can straddle its end |
| FirstBoundaryFront.FrontDecides | meta-lea/recipes-core/http-multipart-form-data-upload/files/cgic.c:701-793 | For every boundary, text in front and text behind: the search stops right behind the boundary iff it does so on the boundary and what is in front of it alone |
| FirstBoundaryFront.PlainStopsIff | meta-lea/recipes-core/http-multipart-form-data-upload/files/cgic.c:701-793 | With no dash behind the leading ones it stops there iff the boundary is not hidden |
| FirstBoundaryFront.UnmisledStops | meta-lea/recipes-core/http-multipart-form-data-upload/files/cgic.c:701-793 | With any boundary it stops there if nothing in front misleads |
| FirstBoundaryFront.FlushSwapped | meta-lea/recipes-core/http-multipart-form-data-upload/files/cgic.c:745-758 | With two leading dashes and lone ones behind them, the characters swapped by a false match are emitted, or turn into a shorter match that goes on |
| FirstBoundaryFront.LineEndStopsIff | meta-lea/recipes-core/http-multipart-form-data-upload/files/cgic.c:701-793 | For such a boundary, at the start or behind a character that it does not contain, a line end say, the search stops right behind it iff it finds nothing in the text in front alone |
| FirstBoundaryFront.PlainFrontIff | meta-lea/recipes-core/http-multipart-form-data-upload/files/cgic.c:701-793 | With no dash behind the leading ones, what remains after the two characters behind the boundary tells whether it was found |
| FirstBoundaryFront.UnchangedIff | meta-lea/recipes-core/http-multipart-form-data-upload/files/cgic.c:701-793 | For the telling boundaries, the text in front is passed over unchanged iff nothing in it misleads |
| MultipartRoundTrip.MultipartRoundTrip | meta-lea/recipes-core/http-multipart-form-data-upload/files/cgic.c:447-607 | Any list of parts whose headers can come back and whose bodies lack CRLF--B, with any further header fields and with parts that are no form data among them, rendered with any epilogue and any preamble behind which the search stops at the first boundary, parses to exactly the parts that are form data, in order: names, file names, content types, bodies and lengths |
| MultipartRoundTrip.ParseRendered | meta-lea/recipes-core/http-multipart-form-data-upload/files/cgic.c:447-607 | The same of the parser with its ring, whatever the connection holds behind the declared length |
| MultipartRoundTrip.BrokenOff | meta-lea/recipes-core/http-multipart-form-data-upload/files/cgic.c:447-607 | A submission that breaks off anywhere behind a boundary keeps the entries of all whole parts; that is an error iff a part was begun |
| MultipartRoundTrip.NoBoundaryIsEmpty | meta-lea/recipes-core/http-multipart-form-data-upload/files/cgic.c:455-467 | Without a boundary a submission is empty and no error, for the boundaries and texts on which the first search invents none |
| FormInput.UnescapeChars | meta-lea/recipes-core/http-multipart-form-data-upload/files/cgic.c:1104-1141 | The three-state decoder gives the decoded text, and its write position never passes its read position |
| FormInput.ParseFormInput | meta-lea/recipes-core/http-multipart-form-data-upload/files/cgic.c:1002-1100 | The scan gives the pairs of the form in order: a name without value gets an empty one, an empty name ends the form |
| FormInput.EncodedComesBack | meta-lea/recipes-core/http-multipart-form-data-upload/files/cgic.c:1104-1170 | Every urlencoding of a text (plain characters, plus for space, escapes with digits of either case) decodes to it and contains no separator |
| FormInput.EncodeEncodes | meta-lea/recipes-core/http-multipart-form-data-upload/files/cgic.c:1143-1170 | Every byte string has such an encoding |
| FormInput.FormRoundTrip | meta-lea/recipes-core/http-multipart-form-data-upload/files/cgic.c:1002-1141 | Any list of pairs with non-empty names, each sent with its value or, if that is empty, as a name alone, comes back in order from any of its encodings, each text up to its first NUL |
| FormInput.EmptyNameEnds | meta-lea/recipes-core/http-multipart-form-data-upload/files/cgic.c:1002-1100 | Behind a form, an empty name ends the reading, whatever follows it |
| FormInput.CutEscapeIsDropped | meta-lea/recipes-core/http-multipart-form-data-upload/files/cgic.c:1104-1141 | An escape that the end cuts off is dropped, and nothing else |
| Newlines.FormEntryString | meta-lea/recipes-core/http-multipart-form-data-upload/files/cgic.c:1475-1553 | The buffer receives the first max-1 characters of the text with each CR/LF burst replaced by the larger number of line feeds (or none); truncation is reported iff the full form is longer, and emptiness iff it is empty |
| Newlines.BurstBecomes | meta-lea/recipes-core/http-multipart-form-data-upload/files/cgic.c:1475-1553 | A burst of CRs and LFs in any order becomes the larger number of line feeds, or nothing, and the text around it is normalised on its own |
| Newlines.LinesAreKept | meta-lea/recipes-core/http-multipart-form-data-upload/files/cgic.c:1475-1553 | A text of lines, empty ones included, is delivered with one line feed per line, whichever of the four line ends it came with |
| Newlines.FormEntryLines | meta-lea/recipes-core/http-multipart-form-data-upload/files/cgic.c:1475-1553 | A buffer with room for the lines receives each of them with a single line feed |
| Newlines.NormalIsShorter | meta-lea/recipes-core/http-multipart-form-data-upload/files/cgic.c:1475-1553 | The normalised text is never longer than the text |
| Newlines.NormalIsIdempotent | meta-lea/recipes-core/http-multipart-form-data-upload/files/cgic.c:1475-1553 | Normalising twice is normalising once |
| Newlines.FormStringSpaceNeeded | meta-lea/recipes-core/http-multipart-form-data-upload/files/cgic.c:1463-1473 | The space of the first entry of the name, or 1 and NotFound iff there is none |
| Newlines.FormEntryWhole | meta-lea/recipes-core/http-multipart-form-data-upload/files/cgic.c:1471-1471 | A buffer of the space asked for receives the whole normalised value, never truncated |
| Newlines.FormStringMultiple | meta-lea/recipes-core/http-multipart-form-data-upload/files/cgic.c:1399-1461 | Every value of the name is returned, in order and untruncated |
| SddpText.SkipSpacesFrom | meta-lea/recipes-core/control4-sddpd-service/files/SddpPacket.c:46-56 | The first character that is not a space, or NULL when nothing else is left |
| SddpText.SkipTokenFrom | meta-lea/recipes-core/control4-sddpd-service/files/SddpPacket.c:58-74 | The end of the first token behind leading spaces, or NULL when there is no token |
| SddpText.FindNextToken | meta-lea/recipes-core/control4-sddpd-service/files/SddpPacket.c:76-86 | The start of the next token, or NULL when there is none |
| SddpText.DupValue | meta-lea/recipes-core/control4-sddpd-service/files/SddpPacket.c:156-182 | Trailing spaces and tabs and then one pair of quotes are dropped, even of a lone quote |
| SddpText.FindLineEnd | meta-lea/recipes-core/control4-sddpd-service/files/SddpPacket.c:330-337 | The first CRLF at or behind the position, or the end of the text |
| SddpText.QuotedValueRoundTrip | meta-lea/recipes-core/control4-sddpd-service/files/SddpPacket.c:128-182 | A quoted value comes back whatever it is |
| SddpText.PlainValueIff | meta-lea/recipes-core/control4-sddpd-service/files/SddpPacket.c:128-182 | An unquoted value comes back iff it neither starts with a space, ends with a space or tab, nor is wrapped in quotes |
| SddpParser.SddpPacket.ParseHeaderLine | meta-lea/recipes-core/control4-sddpd-service/files/SddpPacket.c:184-259 | A line without colon fails and changes nothing; the first line of a known header sets it, later and unknown ones change nothing |
| SddpParser.ParseFirstLine | meta-lea/recipes-core/control4-sddpd-service/files/SddpPacket.c:272-319 | The pointer code agrees with the specification of request and response lines, including that the protocol is measured to the end of the whole text |
| SddpParser.ParseSDDPPacket | meta-lea/recipes-core/control4-sddpd-service/files/SddpPacket.c:321-370 | For every text the parser returns the packet of the specification, or NULL exactly where that has none; a body exists only behind a terminated empty line |
| SddpLines.ParseSays | meta-lea/recipes-core/control4-sddpd-service/files/SddpPacket.c:321-370 | For any header lines behind a first line that parses, and a body or none: it is no packet iff some line has no colon; otherwise each header has the value of the first line that names it in whatever case, those without a line are absent, other names make no difference, and the body is as sent |
| SddpLines.OtherLineIsIgnored | meta-lea/recipes-core/control4-sddpd-service/files/SddpPacket.c:184-259 | A line of another name anywhere leaves what is read of all other lines as it is |
| SddpLines.EmptyVersionIff | meta-lea/recipes-core/control4-sddpd-service/files/SddpPacket.c:272-319 | A request line with an empty version is read iff anything follows the line |
| SddpWriter.OutBuffer.StrCat | meta-lea/recipes-core/control4-sddpd-service/files/SddpPacket.c:412-417 | Appending to the C string in the buffer, inside its bounds |
| SddpWriter.OutBuffer.Write | meta-lea/recipes-core/control4-sddpd-service/files/SddpPacket.c:412-417 | The count goes on past the end of the buffer, while the buffer stays a terminated prefix of all text offered and never overflows |
| SddpWriter.OutBuffer.WriteHeader | meta-lea/recipes-core/control4-sddpd-service/files/SddpPacket.c:419-434 | An absent header writes nothing; an empty one writes its line |
| SddpWriter.WriteSDDPPacket | meta-lea/recipes-core/control4-sddpd-service/files/SddpPacket.c:454-516 | For any buffer and size the count is that of the whole text and its terminator (0 for an unwritable packet), the buffer holds a prefix of the text, and all of it iff the count is below the size |
| SddpRoundTrip.RequestLineRoundTrip | meta-lea/recipes-core/control4-sddpd-service/files/SddpPacket.c:272-319 | A written request line parses to its verb, argument and version |
| SddpRoundTrip.ResponseLineRoundTrip | meta-lea/recipes-core/control4-sddpd-service/files/SddpPacket.c:272-319 | A written response line parses to its status code, its reason with spaces, and its version |
| SddpRoundTrip.HeaderRoundTrip | meta-lea/recipes-core/control4-sddpd-service/files/SddpPacket.c:184-259 | A written header line sets exactly that header to exactly that value |
| SddpRoundTrip.HeaderIsWritten | meta-lea/recipes-core/control4-sddpd-service/files/SddpPacket.c:419-507 | Transaction number, age and timeout are written as they are, any other value in quotes |
| SddpRoundTrip.NameCaseIsIgnored | meta-lea/recipes-core/control4-sddpd-service/files/SddpPacket.c:184-259 | A header name may be spelled in any case |
| SddpRoundTrip.PacketRoundTrip | meta-lea/recipes-core/control4-sddpd-service/files/SddpPacket.c:321-516 | Every well-formed packet comes back from its text, absent and empty headers and bodies told apart |
| SddpComesBack.ParsedIsOneLine | meta-lea/recipes-core/control4-sddpd-service/files/SddpPacket.c:321-370 | No field of a parsed packet but its body holds a line end |
| SddpComesBack.FirstLineIff | meta-lea/recipes-core/control4-sddpd-service/files/SddpPacket.c:272-319 | A first line that can be written comes back iff its tokens are tokens, a request's verb does not look like a protocol, and a response's reason starts with no space |
| SddpComesBack.PacketComesBackIff | meta-lea/recipes-core/control4-sddpd-service/files/SddpPacket.c:321-516 | A packet that can be written comes back iff it is well-formed: so too no field has a line end, and unquoted values are neither padded nor wrapped in quotes |
| SddpRoundTrip.WriteThenParse | meta-lea/recipes-core/control4-sddpd-service/files/SddpPacket.c:321-516 | Whenever the returned count is below the buffer size, parsing the buffer gives back the packet written |
| JobChunks.ChunksPartition | poky/bitbake/lib/bb/cooker.py:2162-2164 | n strided chunks in a row hold every job of the rest of the list exactly as often as the list does |
| JobChunks.Chunkify | poky/bitbake/lib/bb/cooker.py:2162-2164 | chunkify gives the strided chunks, which share out the list without loss or duplication |
| JobChunks.StridedAt | poky/bitbake/lib/bb/cooker.py:2162-2164 | Chunk i holds every n-th job from the i-th on, in order, and no other |
| JobChunks.ChunksAreEven | poky/bitbake/lib/bb/cooker.py:2162-2164 | No chunk is more than one job longer than another |
| ParallelParse.StepConserves | poky/bitbake/lib/bb/cooker.py:2054-2079 | Every step of a worker, a feeder, a death or the main loop keeps jobs left + pending + fed + queued + consumed equal to the jobs to parse |
| ParallelParse.InitConserved | poky/bitbake/lib/bb/cooker.py:2153-2172 | The start shares out every job |
| ParallelParseSafety.StepInv | poky/bitbake/lib/bb/cooker.py:2254-2364 | Every step keeps the jobs, the counters (parsed, cached, current, error) and that workers no longer watched have stopped, those that left normally with empty hands |
| ParallelParseSafety.EveryRunIsSafe | poky/bitbake/lib/bb/cooker.py:2054-2364 | All this holds after every interleaving of workers, feeders, deaths and main loop |
| ParallelParseSafety.CleanMeansComplete | poky/bitbake/lib/bb/cooker.py:2254-2364 | A finish without error has consumed every job exactly once, cached + parsed = total, and nothing is left in any hand |
| ParallelParseSafety.ComplaintMeansDeath | poky/bitbake/lib/bb/cooker.py:2273-2275 | The complaint that not all recipes were parsed implies that a worker was killed with a job in its hand |
| ParallelParseSafety.DeathIsNeverSilent | poky/bitbake/lib/bb/cooker.py:2254-2275 | Once a worker has died with a job in its hand, no continuation finishes without error |
| ParallelParseSafety.LoopEnds | poky/bitbake/lib/bb/cooker.py:2254-2364 | When every worker has stopped, whatever is queued, the main loop ends within a stated number of its own steps, and not as interrupted |
| ParallelParseSafety.DeadWorkersEndInError | poky/bitbake/lib/bb/cooker.py:2254-2364 | From every reachable state in which a worker was killed with a job in its hand and none runs any more, the main loop ends within a bound in the complaint that not all recipes were parsed or in the error of a queued recipe |
| ParallelParseSafety.RecipeErrorMeansFailure | poky/bitbake/lib/bb/cooker.py:2283-2318 | An end in the error of a recipe means that the last result consumed is of a recipe to parse whose parsing fails, and that no earlier one failed |
| ParallelParseSafety.HealthyRunEndsClean | poky/bitbake/lib/bb/cooker.py:2254-2364 | If no recipe fails, no worker was killed and nobody interrupted: once every worker has stopped, the main loop ends without error within the bound |
| ParallelParseSafety.HealthyRunCanEndClean | poky/bitbake/lib/bb/cooker.py:2054-2364 | From wherever such a run has come to, there is a continuation to an end without error, every recipe parsed: nothing gets stuck |
| ParallelParseSafety.NoJobAfterQuit | poky/bitbake/lib/bb/cooker.py:2054-2079 | Once the main process has stopped, for whatever reason, no worker takes another job |
| LayerPriorities.PriorityTable.CalcLayerPriority | poky/bitbake/lib/bb/cooker.py:1208-1218 | On an acyclic layer graph the recursive, table-updating calculation gives a layer its order-independent priority and disturbs no layer already done |
| LayerPriorities.PriorityTable.CalcAll | poky/bitbake/lib/bb/cooker.py:1221-1222 | Whatever the order of the list, every layer gets that priority |
| LayerPriorities.AboveDependencies | poky/bitbake/lib/bb/cooker.py:1208-1218 | A layer without a given priority ranks above every layer it depends on and above the minimum |
| LayerPriorities.PriorityIs | poky/bitbake/lib/bb/cooker.py:1208-1218 | A given priority other than 0 stays; any other is exactly one more than the largest of the minimum and those of the layers depended on |
| SiggenStream.SavingProcess.SaveDeps | poky/bitbake/lib/bb/cache.py:290-304 | The saved items and new tables are those of the codec's specification, for every dictionary |
| SiggenStream.RestoringProcess.RestoreDeps | poky/bitbake/lib/bb/cache.py:307-326 | The restored dictionary and new tables are those of the specification; a number never given is a KeyError |
| SiggenFaithful.SaveItemsDecode | poky/bitbake/lib/bb/cache.py:290-304 | From tables in step, what is saved decodes to what was given and leaves the tables in step |
| SiggenFaithful.InStepSave | poky/bitbake/lib/bb/cache.py:290-304 | A save behind messages still under way keeps the whole channel decodable |
| SiggenFaithful.RestoreDecodes | poky/bitbake/lib/bb/cache.py:307-326 | Restoring is decoding onto interned objects, and touches no other process's numbers |
| SiggenFaithful.EveryRunIsFaithful | poky/bitbake/lib/bb/cache.py:282-338 | For any sequence of streams, each from a reset that keeps the interned objects, with any saves in any number of processes delivered in any interleaving that keeps each process's order: no back-reference is missed, every dictionary comes back equal, and no process sends a value in full twice in a stream |
| SiggenFaithful.EqualValuesAreOneObject | poky/bitbake/lib/bb/cache.py:317-325 | Equal values restored anywhere, from any process, before or after a reset, are one object |
| VirtualNames.VirtualNameRoundTrip | poky/bitbake/lib/bb/cache.py:341-366 | virtualfn2realfn undoes realfn2virtual, for any class string, colons included |
| VirtualNames.VirtualNamesDiffer | poky/bitbake/lib/bb/cache.py:358-366 | Virtual names are equal iff file, class and multiconfig are |
| VirtualNames.BackAgainIff | poky/bitbake/lib/bb/cache.py:341-366 | Taking any name apart and putting it together again gives it back iff its multiconfig and its class are not there and empty |
| VirtualNames.McVariantAgreesIff | poky/bitbake/lib/bb/cache.py:368-379 | variant2virtual of mc:M:V agrees with realfn2virtual iff V does not start with a colon |
| VirtualNames.PlainVariantAgrees | poky/bitbake/lib/bb/cache.py:368-379 | Any other variant is named like a class |
| VirtualNames.VariantNamesIff | poky/bitbake/lib/bb/cache.py:368-379 | Two variants have the same name iff they are of the same file and the same but for a V lost to a leading colon |
| VirtualNames.VariantsDiffer | poky/bitbake/lib/bb/cache.py:368-379 | Variants of different files never share a name, whatever the variants |
| RecipeCache.Cache.CheckFiles | poky/bitbake/lib/bb/cache.py:578-633 | The checks succeed iff the recorded times, dependency times, existence flags and appends are those of now |
| RecipeCache.RecordMatchesIff | poky/bitbake/lib/bb/cache.py:578-633 | A record made when the files were in one state matches in another iff the recipe is there, neither it nor a file it depends on has another time, no checksummed file has come or gone, and the appends are the same |
| RecipeCache.Cache.Remove | poky/bitbake/lib/bb/cache.py:660-670 | Removing one recipe leaves every other clean recipe valid |
| RecipeCache.Cache.CacheValidUpdate | poky/bitbake/lib/bb/cache.py:566-658 | True iff everything recorded of the recipe matches and every variant has a full array; no other real recipe's standing changes |
| RecipeCache.Cache.CacheValid | poky/bitbake/lib/bb/cache.py:555-564 | The first answer is that of the check, later ones repeat it, and no call for another file changes it |
| RecipeCache.Cache.LoadInfos | poky/bitbake/lib/bb/cache.py:541-553 | The variants' names and arrays in order, or a KeyError exactly where one is absent |
| RecipeCache.FullLoads | poky/bitbake/lib/bb/cache.py:541-553 | A recipe whose variants are all present and full loads, each with a full array |
| RecipeCache.ValidIsLocal | poky/bitbake/lib/bb/cache.py:541-658 | Validity and load of a file depend only on the entries of its own names |
| RecipeCache.Cache.CheckAll | poky/bitbake/lib/bb/cache.py:541-670 | In any sequence of checks of different files each answer is the one it would get alone and first, and every file found valid loads fully at the end, whatever was removed in between |
| SharedCache.MergeData | poky/bitbake/lib/bb/cache.py:897-901 | Only absent keys are added; existing entries stay |
| SharedCache.StepInv | poky/bitbake/lib/bb/cache.py:869-936 | Every step of savers, deaths and the merging process keeps the locks and the files consistent |
| SharedCache.StepLogged | poky/bitbake/lib/bb/cache.py:869-936 | With every step, each process saves what it was called with, every completed save is in a file or its keys in the cache, and every entry of the cache was there at the start or given to a completed save |
| SharedCache.NoSharedFile | poky/bitbake/lib/bb/cache.py:880-892 | In every interleaving, two processes never hold the same file number |
| SharedCache.NoFileIsOverwritten | poky/bitbake/lib/bb/cache.py:883-892 | A completed file is left alone by every step but its own merge |
| SharedCache.EntriesStay | poky/bitbake/lib/bb/cache.py:897-901 | No entry of the merged cache is changed or lost in any run |
| SharedCache.MergeIsComplete | poky/bitbake/lib/bb/cache.py:903-936 | When a merge ends, for every save completed before it, every key of the data the process was called with is in the cache; every entry has a value that the cache had at the start or that some completed save was given for that key; and the cache is the one on disk unless it is still as loaded |
| SharedCache.NothingSavedNothingWritten | poky/bitbake/lib/bb/cache.py:903-936 | Without a completed save nothing is written to disk and no entry is added |
| SharedCache.SaveCanEnd | poky/bitbake/lib/bb/cache.py:869-895 | From wherever a save has come to, the steps of its own process complete it, whatever numbers are taken: what it was called with is then in a file |
| SharedCache.MergeCanEnd | poky/bitbake/lib/bb/cache.py:903-936 | A merge can always be ended in as many steps as there are files and one more, and leaves no file |
| ParseCache.CodeParserCache.InternSet | poky/bitbake/lib/bb/codeparser.py:105-115 | With an injective hash, the interned set equals the set given |
| ParseCache.CodeParserCache.NewPythonCacheLine | poky/bitbake/lib/bb/codeparser.py:119-184 | The cached or interned line equals the line that would be new |
| ParseCache.CodeParserCache.NewShellCacheLine | poky/bitbake/lib/bb/codeparser.py:186-192 | The cached or interned shell line equals the set given |
| ParseCache.PythonParser.ParsePython | poky/bitbake/lib/bb/codeparser.py:332-379 | Whatever the caches hold, references, execs, extra and the sets of contains are those found without them, each in a set no one else holds and no two the same; the variable execs are filled in iff the key was in neither cache; a KeyError iff it was in neither and there is no code |
| ParseCache.CacheShowsIff | poky/bitbake/lib/bb/codeparser.py:342-374 | The report through the caches differs from that without iff the key is cached and the code has variable execs |
| ParseCache.ParseShell | poky/bitbake/lib/bb/codeparser.py:394-417 | The set handed out is fresh and says what the code executes, cached or not |
| EmitFuncs.EmitFunc | poky/bitbake/lib/bb/data.py:206-227 | Behind the function itself, each shell function it reaches is written exactly once, whatever the caches hold and although the sets they hand out are changed; with every function written, those its text calls and its "vardeps" name are written |
| EmitFuncs.EmitFuncPython | poky/bitbake/lib/bb/data.py:233-262 | The same of Python functions |
| Dependencies.GenerateDependencies | poky/bitbake/lib/bb/data.py:388-405 | The recorded names are exactly the tasks and what they reach, with their dependencies and values, so the recorded graph is closed and hashing never misses a key |
| Dependencies.GenerateDependencyHash | poky/bitbake/lib/bb/data.py:407-440 | taskdeps of a task is exactly what it reaches over one or more edges, and its hash is the digest of its hash input |
| Dependencies.HashInputIsDetermined | poky/bitbake/lib/bb/data.py:428-438 | The hash input is determined by the task's value and the names and values of its closure: not by task order or set order |
| Dependencies.HashInputTells | poky/bitbake/lib/bb/data.py:408-435 | Of two configurations that differ at most in the text of one name, which the task is or needs, the hash inputs are the same iff that text is |
| Dependencies.HashInputTellsNames | poky/bitbake/lib/bb/data.py:428-435 | A further dependency shows in the hash input, even one without a text |
| Dependencies.HashIsLocal | poky/bitbake/lib/bb/data.py:407-440 | Two configurations that agree on a task and on what it reaches give it the same closure and hash input |
| Dependencies.RecipeHashes | poky/bitbake/lib/bb/data.py:375-440 | Both stages in a row: closures and hashes are those of the full configuration, though only what is needed was recorded |
| Dependencies.SameHash | poky/bitbake/lib/bb/data.py:375-440 | Two configurations with any task lists that agree on a task's value, its dependencies and its closure give it the same hash |
| Dependencies.ChangedHash | poky/bitbake/lib/bb/data.py:375-440 | With a digest that tells all inputs apart, a task's hash changes iff the changed text of one name that the task is or reaches does, in both stages in a row |
| Sorting.SortedUnique | poky/bitbake/lib/bb/data.py:429-429 | A set has only one sorted listing |
| Tasks.TasksBetween | poky/bitbake/lib/bb/build.py:996-1023 | It always terminates; it reports a circular dependency iff some chain from the start comes back to itself; otherwise it lists without repetition exactly the tasks on some chain from start to end, given a task other than the end |
| Tasks.ChainFollower.FollowChain | poky/bitbake/lib/bb/build.py:1004-1021 | The depth-first search over the shared chain leaves it as it was and adds exactly the chain and the tasks on the ways to the end |
| Tasks.AcyclicIsSimple | poky/bitbake/lib/bb/build.py:996-1023 | On an acyclic recipe no circular dependency is reported |
| Tasks.OrderedIsSimple | poky/bitbake/lib/bb/build.py:996-1023 | Nor where the dependencies on other tasks can be ordered: that a task depends on itself makes no difference |
| TaskStores.TaskStore.AddTask | poky/bitbake/lib/bb/build.py:933-955 | The task is listed once, gains the dependencies in after, becomes one of the tasks in before, and no other dependency changes; no list ever names a task twice |
| TaskStores.TaskStore.DelTask | poky/bitbake/lib/bb/build.py:957-972 | The task, its dependencies and the dependencies of listed tasks on it are gone, and nothing else |
| TaskStores.WithoutRemoves | poky/bitbake/lib/bb/build.py:957-972 | Removing the first occurrence removes the task, since no list names one twice |
| TaskStores.FullNameIs | poky/bitbake/lib/bb/build.py:933-936 | A task named without the prefix is the one named with it |
| PathText.NormPathIsIdentity | poky/bitbake/lib/pyinotify.py:725-725 | Normalising the text of an absolute path of plain names changes nothing |
| PathText.DotIsDropped | poky/bitbake/lib/pyinotify.py:725-725 | A dot or an empty component is dropped |
| PathText.DotsTakeBack | poky/bitbake/lib/pyinotify.py:725-725 | Two dots take back the name in front of them |
| PathText.DotsAtRoot | poky/bitbake/lib/pyinotify.py:725-725 | Behind the root they are dropped |
| PathText.PrefixIffBelow | poky/bitbake/lib/pyinotify.py:780-788 | With the separator appended, a directory's text is a prefix of exactly the paths below it, not of a sibling that shares its letters |
| PathText.StrInjective | poky/bitbake/lib/pyinotify.py:718-798 | Different paths have different texts |
| WatchPaths.SysProcessEvent.ProcessMoveSelf | poky/bitbake/lib/pyinotify.py:758-798 | The loop over the watches, in any order, rebases exactly the paths that start with the old one |
| WatchPaths.RebaseOther | poky/bitbake/lib/pyinotify.py:785-788 | The string rewriting of a watch's path agrees with the move in the tree, for descendants and for everything else |
| WatchPaths.RenameTracked | poky/bitbake/lib/pyinotify.py:718-798 | One rename between watched parents, reported as three events, moves every stored path with its directory |
| WatchPaths.LostTracked | poky/bitbake/lib/pyinotify.py:758-798 | When a directory moves to where nobody watches, every other watch keeps its true path, even if a stale move is remembered for it; without one, the lost watch is marked and no other path changes |
| WatchPaths.MarkedOnce | poky/bitbake/lib/pyinotify.py:789-798 | A lost watch is marked once, however often it is reported |
| WatchPaths.EntryRenameIff | poky/bitbake/lib/pyinotify.py:718-756 | When an entry that is not watched is renamed between watched directories, the stored paths are the true ones afterwards iff no directory below it is watched |
| WatchPaths.EveryRunTracked | poky/bitbake/lib/pyinotify.py:718-798 | After any run of recorded renames, lost directories and other entries leaving and arriving, whatever stale entries the maps hold, the stored path of every watch that was not lost, or taken along by an entry that left, is the real one, and distinct ones are distinct |
| Cow.PlainIsRead | poky/bitbake/lib/bb/COW.py:53-107 | An immutable value is read as soon as it is set, and a deleted key is gone |
| Cow.MutableIsReadIff | poky/bitbake/lib/bb/COW.py:53-104 | A mutable value is read after it is set iff the key has no immutable value and no deletion there or further up; otherwise the read is as before |
| Cow.ChangeIsReadIff | poky/bitbake/lib/bb/COW.py:60-104 | An in-place change of what a read gave is read iff the key reads as a mutable value, and otherwise nothing changes |
| Cow.ReadIsNearestIff | poky/bitbake/lib/bb/COW.py:88-104 | A read gives the binding of the nearest level on the chain, the plain one of two at one level, iff that is not a mutable one with a plain binding of the key further up |
| Cow.ChangesStayBelow | poky/bitbake/lib/bb/COW.py:44-121 | No operation on a dictionary, in-place changes of the mutable values it handed out included, is seen by a dictionary not copied from it |
| Cow.GetIsInvisible | poky/bitbake/lib/bb/COW.py:60-80 | A read for change, which stores a copy, changes what no dictionary reads |
| Cow.EveryRunReadsNearest | poky/bitbake/lib/bb/COW.py:44-121 | After any run of copies, sets, deletes, reverts, reads and in-place changes in which no key is given a plain binding above a mutable one, every dictionary reads as the nearest binding on its chain |
| Cow.CopySees | poky/bitbake/lib/bb/COW.py:44-48 | A copy sees for every key what the dictionary it was copied from sees |
| Cow.CopyFollows | poky/bitbake/lib/bb/COW.py:44-104 | Whatever is done after copying, the copy keeps reading what its source then reads, for every key it has no binding of its own for |
| Cow.LaterSetIsReadInCopy | poky/bitbake/lib/bb/COW.py:53-107 | So a value set at the source later, or its deletion, is seen in the copy |
| Cow.RevertUndoes | poky/bitbake/lib/bb/COW.py:109-112 | Reverting takes back a binding just made where there was none of its kind |
| Cow.DeletionTakesOwnValue | poky/bitbake/lib/bb/COW.py:88-107 | Without that discipline it fails: deleting a key above a copy's own mutable value hides that value |
| CowDicts.CowHierarchy.GetItem | poky/bitbake/lib/bb/COW.py:60-104 | The lookup loops give the specified reading; a read for change leaves a copy of an inherited mutable value at the level, a read-only one leaves everything as it was |
| CowDicts.CowHierarchy.SetMutableItem | poky/bitbake/lib/bb/COW.py:53-58 | The level binds the value under the mutable name and no two bindings share an object |
| CowDicts.CowHierarchy.RevertItem | poky/bitbake/lib/bb/COW.py:109-112 | The level's own binding goes, the plain one first, and fails iff it has neither |

## Left out

- Bytes: characters stand for bytes, `isspace`, `isalnum` and `tolower` for their ASCII meaning; signed-char indexing of the hex table by bytes from 128 on is not modelled.
- Memory: allocation always succeeds; `RAPPEND`'s growing buffer and the linked list of entries are sequences; `FreeSDDPPacket` and the string copies' lifetimes are not modelled.
- Uploads: temporary files are byte sequences; their naming, opening and removal are not modelled.
- Environment: the extraction of the boundary from CONTENT_TYPE (meta-lea/recipes-core/http-multipart-form-data-upload/files/cgic.c:159-188) is only the assumption that a boundary has no white space and is short enough for its buffer; a failing read is the end of the input.
- FirstBoundaryIff: for boundaries with more than two leading dashes (in --B) and a dash second behind them the condition is only sufficient: swapped characters may come back in order (MisledUnharmed). Where the boundary does not occur with two characters behind it, the converse is stated for boundaries without a dash behind the leading ones only.
- LineEndStopsIff: for boundaries with more than two leading dashes and a dash behind the character that follows them, or with adjacent dashes behind the leading ones, which preambles the search stops behind is said by the matcher itself (`StopsBehind`), by UnmisledStops in one direction.
- ParsePostMultipartInput: the declared length is a natural number; a negative one, which the source takes from the environment as it is, makes it read without a limit and is not modelled.
- MpStream: the read or write of more characters than the ring has room for is stated of the ring's positions only (`Push`, `RingQueuesIffRoom`), not of the virtual stream, which it no longer refines.
- FormEntryString: a buffer of no characters at all, where the source writes past it, is not modelled.
- FormStringMultiple: the two passes over the entries are one; the null-terminated array is a sequence.
- SddpPacket: the twelve header pointers are a map from headers to values.
- ParallelParse: processes, feeder threads, queue and main loop are a step system on values; signals, profiling, events, progress and `add_info` are not modelled; whether a put finds the queue full is left open to the interleaving; a result is known by its job, and any recipe may be one whose parsing raises.
- LayerPriorities: the minimum priority is a parameter; the layers' patterns and the version checks of dependencies are not modelled; a cyclic graph, on which the source recurses without end, is excluded.
- SiggenFaithful: pickling is the step of saving or restoring one dictionary; an object's three dictionaries are three such steps; process numbers are not reused while a stream lasts, and all processes of a stream are reset before it.
- RecipeCache: times and existence are fixed while files are checked; checksum lists are already split into names and flags; recipe files have no colon in their names; loading and syncing of the cache file is not modelled.
- SharedCache: locks and file operations are atomic steps, one process merges, and every process holds data; version checks count as unreadable files.
- ParseCache: the Python and shell walks, the hash of a set and of a line are parameters, the hashes injective; the digest of a code stands for the code, and a fixed name always for the same code; `extra` holds the code instead of its digest; line-number padding is not modelled.
- EmitFunc: the text written is the list of the functions written; the exported variables in front of it are not modelled.
- GenerateDependencies: `build_dependencies` is a given function from names to dependencies and values.
- GenerateDependencyHash: the digest is a given function, and only its input is analysed.
- TasksBetween: a task without a "deps" flag has no dependencies; the source would fail on it.
- TaskStore: the datastore's flags are fields; overrides and expansion are not modelled.
- WatchPaths: watches are a map from descriptors to paths; `auto_add` and the cleanup of old moves are not modelled; nothing is stated of the watches at and below a directory that moved to where nobody watches, or below an unwatched one that moved; that a rename may replace an empty watched directory is left out.
- CowHierarchy: values are integers, mutable ones lists of integers; a mutable value is set that no other dictionary holds; nested COW dictionaries, iteration, keys that name attributes of the class, and the empty tuple as a value are not modelled.
- FileChecksumCache, siggen, runqueue, taskdata, fetchers and the server process: other components.
- The sockets, daemon and signal code of the SDDP service, and cgic's output, cookies and numeric getters: wrappers that would add easy members only.
