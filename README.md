# vphys collision mesh converter, modelled in Dafny

The converter reads a Source 2 `.vphys` file and writes the collision
triangles of its "default" collision group. It has two parts:

- **The KV3 text parser** (`Kv3Parser`). A cursor moves over the text. Skip
  routines pass over header lines, comment lines and white space. Mutually
  recursive methods parse objects, arrays, byte blobs and scalar strings into
  a tree of dictionaries, lists and strings. `GetValue` answers dotted paths
  such as `m_parts[0].m_rnShape.m_hulls[3].m_Hull.m_Faces` against that tree.
- **The conversion in `Program`.**
  1. `GetCollisionAttributeIndices` collects the indices of the collision
     attributes whose group string is `"default"` or `"Default"`.
  2. `Main` walks the hulls, then the meshes. It keeps the shapes whose
     collision attribute index is one of those, decodes their hex byte blobs
     with `BytesToVec`, and emits triangles. For a hull it fans the faces of a
     half-edge structure; for a mesh it reads indexed triangles.

The model has six modules:

- `Results`: the `Option` and `Result` outcome types. `Err` stands for any
  exception.
- `Scanner`: character classes, text searches, and where each skip routine
  stops.
- `Document`: the value tree, how a path is split, how a segment is parsed,
  and `Query`, the meaning of `GetValue`.
- `Kv3`: the class `Parser`, with its `content`, `index` and `parsedData`
  fields and the cursor-moving methods, each proved against the functions
  above.
- `Geometry`: the hex decoding, `BytesToVec`, vertex and half-edge grouping,
  the hull fan walk and the mesh assembly. Each loop is a method proved equal
  to a recursive function, and lemmas state what that function means.
- `Conversion`: the attribute scan and the hull and mesh loops, as methods
  over a `Parser`, with lemmas about which shapes end up in the output.

## Model

| member | source | states |
|---|---|---|
| Scanner.FirstFromFinds | Kv3Parser.cs:226 | The search for one of a set of characters passes only characters outside the set. It stops on one inside the set unless it reaches the end (`IndexOf`). |
| Scanner.FirstFromAt | Kv3Parser.cs:226 | Any position with no set character before it and a set character (or the end) at it is the search result. |
| Scanner.IndexOfAny | Kv3Parser.cs:168 | `IndexOfAny` returns -1 exactly when no character of the set occurs from the cursor on. Otherwise it returns the first position at or after the cursor that holds one. |
| Scanner.TokenEndStops | Kv3Parser.cs:165-170 | A key or scalar ends at the first of `= \n{[}],` at or after the cursor, or at the end of the text. No delimiter occurs before that. |
| Scanner.NextLineAfterNewline | Kv3Parser.cs:124-129 | A line skip lands just after the first newline from the cursor, or at the end of the text when no newline follows. |
| Scanner.WhiteSpaceEndStops | Kv3Parser.cs:134-145 | The white-space skip passes only white space. It stops at the end or on a non-white character, and does not move when none is there. |
| Scanner.CommentsEndStops | Kv3Parser.cs:147-163 | The comment skip stops at the end of the text or on a line not starting with `/`, and does not move when the cursor is not on `/`. |
| Scanner.HeaderEndStartsLine | Kv3Parser.cs:114-132 | Started at a line start, the header skip stops at the first line that starts with `{`, or at the end of the text when there is none. |
| Scanner.WordsKeepNonSpace | Kv3Parser.cs:233 | Splitting on `' '` and dropping empty entries keeps every non-space character, in order. |
| Scanner.JoinSingleSpaced | Kv3Parser.cs:234 | Joining non-empty space-free words with `" "` gives text with single spaces only between words. |
| Scanner.WordsOfWord | Kv3Parser.cs:233 | A non-empty text without spaces splits into exactly itself. |
| Scanner.WordsSkipSpaces | Kv3Parser.cs:233 | Any run of spaces in front of the text adds no pieces, so leading and repeated spaces give no empty entries. |
| Scanner.WordsSpaced | Kv3Parser.cs:233 | A space always ends a piece: splitting `a + " " + b` gives the pieces of `a` followed by the pieces of `b`. With the two lemmas above, the pieces are exactly the maximal runs of non-space characters, in order. |
| Scanner.WordsJoin | Kv3Parser.cs:233-234 | Splitting a single-space join of non-empty space-free words gives those words back. |
| Scanner.NormalizeShape | Kv3Parser.cs:233-234 | The cleaned blob text `Normalize` is single-spaced. It has the same non-space characters as the raw text, in the same order. Splitting it gives the same pieces as splitting the raw text. |
| Document.SplitDots | Kv3Parser.cs:57 | `Split('.')` gives at least one piece, and no piece holds a dot. |
| Document.JoinSplitDots | Kv3Parser.cs:57 | Joining the pieces of a split with `.` gives the path back. |
| Document.SplitJoinDots | Kv3Parser.cs:57 | Splitting a `.`-join of dot-free pieces gives those pieces back. |
| Document.TrimStart | Kv3Parser.cs:70 | `int.Parse` drops leading white space: what is left is a suffix of the text that does not start with white space. |
| Document.TrimStartDropsWhite | Kv3Parser.cs:70 | Everything the leading trim drops is white space, so it drops exactly the leading white space. |
| Document.TrimEnd | Kv3Parser.cs:70 | `int.Parse` drops trailing white space: what is left is a prefix of the text that does not end with white space. |
| Document.TrimEndDropsWhite | Kv3Parser.cs:70 | Everything the trailing trim drops is white space, so it drops exactly the trailing white space. |
| Document.ParseInt | Kv3Parser.cs:70 | A value `int.Parse` accepts lies in the 32-bit range. |
| Document.ParseIntAccepts | Kv3Parser.cs:70 | A number (an optional `-` or `+` and at least one decimal digit) with only white space around it, followed by any run of NUL characters, yields its value when that fits in 32 bits, and fails otherwise. |
| Document.ParseIntText | Kv3Parser.cs:70 | Whatever `int.Parse` accepts is such a number with white space around it, followed by NUL characters only, and the value is that number's. |
| Document.DecimalString | Program.cs:96 | The interpolated index is a non-empty digit string. |
| Document.DecimalValue | Program.cs:96 | The digits of the interpolated index denote that index. |
| Document.ParseDecimal | Kv3Parser.cs:70 | `int.Parse` reads back any index up to `int.MaxValue` written into a path. |
| Document.ParseSegment | Kv3Parser.cs:62-72 | A segment is its own key with no index exactly when it holds no `[`. |
| Document.ParseSegmentUnclosed | Kv3Parser.cs:65-70 | A segment whose first `[` has no `]` after it raises (a negative substring length). |
| Document.ParseSegmentIndexed | Kv3Parser.cs:65-70 | With the first `[` at b and the next `]` at e, the key is the text before b and the index is what `int.Parse` reads between them. A text it rejects raises. |
| Document.ParseIndexedSegment | Kv3Parser.cs:65-70 | A segment `key[n]` parses to key `key` and index `n`. |
| Document.ResolveAppend | Kv3Parser.cs:59-101 | Walking a path in two parts is walking the first and then the second from where the first ended. |
| Document.ResolveMissingSticks | Kv3Parser.cs:81-85 | Once a lookup has failed, no further segments revive it. |
| Document.QueryParts | Kv3Parser.cs:51-105 | `Query`, the reading of `GetValue`, on dot-free segments joined with `.` returns the string at the end of the walk, or "" when there is none. |
| Document.QueryMissingKey | Kv3Parser.cs:77-85 | A key missing from the object reached gives "", whatever follows it. |
| Document.QueryIndexPastEnd | Kv3Parser.cs:91-99 | An index at or past the end of the array reached gives "", whatever follows it. |
| Document.QueryPastEnd | Kv3Parser.cs:91-99 | The path whose index equals the array's length gives "". This is where the scans of `Program` stop. |
| Document.QueryNegativeIndex | Kv3Parser.cs:88-111 | A negative index raises inside `GetValue`. The handler turns that into "". |
| Document.QueryMalformedIndex | Kv3Parser.cs:65-72 | A segment that raises while being split into key and index gives "". |
| Document.QueryUnclosedIndex | Kv3Parser.cs:65-72 | A segment whose first `[` has no `]` after it gives "", whatever the document. |
| Document.QueryRejectedIndex | Kv3Parser.cs:65-72 | A segment whose bracket text `int.Parse` rejects gives "", whatever the document. |
| Document.QueryNonScalar | Kv3Parser.cs:103 | A path ending on an object or an array gives "". |
| Document.QueryKeyIgnoredOnArray | Kv3Parser.cs:74-100 | On an array, a segment's key is ignored and only its index is applied. |
| Document.QueryKeys | Kv3Parser.cs:51-105 | A path of plain keys leading through nested objects to a string returns that string. |
| Document.ResolveKeys | Kv3Parser.cs:74-86 | A path of plain keys walks nested objects exactly as a dictionary lookup chain does. |
| Kv3.ValuesAt | Kv3Parser.cs:333 | Element k of the list is the value of the k-th parsed element. |
| Kv3.FieldKey | Kv3Parser.cs:271-277 | A parsed key is non-empty and free of delimiters, and a delimiter follows it. |
| Kv3.FieldsKeys | Kv3Parser.cs:288 | The object's keys are exactly the keys read. |
| Kv3.LastWriteWins | Kv3Parser.cs:288 | For a repeated key, the value stored is the last one read. |
| Kv3.FieldsInOrderAt | Kv3Parser.cs:255-295 | The pairs of an object lie inside its braces, in text order and without overlap. |
| Kv3.PlacedInOrderAt | Kv3Parser.cs:316-340 | The elements of an array lie inside its brackets, in text order and without overlap. |
| Kv3.Parser.constructor | Kv3Parser.cs:18-23 | A new parser has empty text, cursor 0 and no data. |
| Kv3.Parser.Parse | Kv3Parser.cs:25-49 | Succeeds exactly when the document reading `DocumentAt` of the text succeeds. The cursor then stands where that reading ends and `parsedData` is its value. A failure leaves `parsedData` unchanged. |
| Kv3.Parser.SkipCommentsAndMetadata | Kv3Parser.cs:114-132 | Fails exactly when more than the capped number of lines would be skipped. Otherwise the cursor ends at the header's end. |
| Kv3.Parser.SkipWhitespace | Kv3Parser.cs:134-145 | Fails exactly when the white space run is longer than the cap allows. Otherwise the cursor ends where it stops. |
| Kv3.Parser.SkipComments | Kv3Parser.cs:147-163 | Fails exactly when too many comment lines follow. Otherwise the cursor ends after the last of them. |
| Kv3.Parser.GetKeyOrValueEnd | Kv3Parser.cs:165-170 | Returns the first delimiter position at or after the cursor, or the text length. |
| Kv3.Parser.ParseValue | Kv3Parser.cs:172-215 | Succeeds exactly when the reading `ValueAt` from the cursor succeeds. It returns that reading's value and leaves the cursor at its end. |
| Kv3.Parser.ParseByteArray | Kv3Parser.cs:217-243 | Succeeds exactly when a `]` follows. The value is then the normalised text between the brackets, and the cursor ends just past the `]`. |
| Kv3.Parser.ParseObject | Kv3Parser.cs:245-304 | Succeeds exactly when the object reading `ObjectFrom` just past the `{` succeeds. It returns the map that reading builds and leaves the cursor at its end. |
| Kv3.Parser.ParseMember | Kv3Parser.cs:257-294 | Succeeds exactly when the round `MemberAt` succeeds, and leaves the cursor at its end. A closing `}` gives None; otherwise it gives the key text and value of the pair read. |
| Kv3.Parser.ParseKeyValue | Kv3Parser.cs:271-288 | Succeeds exactly when the pair reading `KeyValueAt` succeeds. It returns that pair's key text and value and leaves the cursor after the value. |
| Kv3.Parser.ParseArray | Kv3Parser.cs:306-349 | Succeeds exactly when the array reading `ArrayFrom` just past the `[` succeeds. It returns the list that reading builds and leaves the cursor at its end. |
| Kv3.Parser.ParseElement | Kv3Parser.cs:316-339 | Succeeds exactly when the round `ElementAt` succeeds, and leaves the cursor at its end. A closing `]` gives None; otherwise it gives the element's value. |
| Kv3.ValueAtPlaced | Kv3Parser.cs:172-215 | A value read starts where the comment and white-space skips stop. It has the shape its first character announces: an object up to a `}`, an array up to a `]`, a blob as the normalised text up to the first `]`, a scalar as the text up to the next delimiter. The end of the text fails; a scalar always reads when the skips fit. |
| Kv3.ValueHerePlaced | Kv3Parser.cs:180-208 | The dispatch on the first character yields a value of the shape that character announces. |
| Kv3.ObjectLoopCloses | Kv3Parser.cs:255-297 | An object loop that succeeds ends just past a `}`. |
| Kv3.ArrayLoopCloses | Kv3Parser.cs:316-342 | An array loop that succeeds ends just past a `]`. |
| Kv3.KeyValueAtField | Kv3Parser.cs:271-287 | A pair read has as key the token at the cursor, which runs to the next delimiter, and a value of the text after it. A delimiter at the cursor is an empty key, which fails. |
| Kv3.ObjectLoopInOrder | Kv3Parser.cs:255-295 | The pairs each round reads follow the earlier ones in text order, up to the closing `}`. |
| Kv3.ObjectLoopBuilt | Kv3Parser.cs:288 | The map the loop builds is the one its pairs write in order. |
| Kv3.ObjectFields | Kv3Parser.cs:245-304 | An object's pairs lie in text order between its braces, and its map is the one they write: with FieldsKeys and LastWriteWins, its keys are the keys read and each holds its last value. |
| Kv3.ArrayLoopInOrder | Kv3Parser.cs:316-340 | The elements each round reads follow the earlier ones in text order, up to the closing `]`. |
| Kv3.ArrayLoopBuilt | Kv3Parser.cs:333 | The list the loop builds holds its elements' values in order. |
| Kv3.ArrayElements | Kv3Parser.cs:306-349 | An array's elements lie in text order between its brackets, and its list holds their values in that order. |
| Kv3.ObjectEmptyKey | Kv3Parser.cs:271-276 | An object whose first key position holds a delimiter other than `}` fails. |
| Kv3.DocumentObject | Kv3Parser.cs:25-49 | A document read is the value at the end of the header: an object whose `{` is the first character of its line. A text that is all header fails. |
| Kv3.Parser.GetValue | Kv3Parser.cs:51-112 | Returns `Query(parsedData, path)` and changes nothing. |
| Kv3.Parser.Descend | Kv3Parser.cs:74-100 | One step of the lookup loop is `Step` on the current value and segment. |
| Geometry.GetBitsHex | Program.cs:29 | On a hex digit of either case, `GetBits` gives its value 0 to 15. |
| Geometry.OrDisjoint | Program.cs:31 | OR-ing a shifted high nibble with a low nibble is their sum. |
| Geometry.PairByteHex | Program.cs:31 | Two hex digits combine to 16 times the high digit plus the low digit. |
| Geometry.GetByteHex | Program.cs:31 | `GetByte` on two hex digits is their byte value. The case of the letters does not matter. |
| Geometry.HexBytes | Program.cs:37-54 | A successful byte stage yields at most half as many bytes as characters. |
| Geometry.HexTokens | Program.cs:37-54 | Text of hex pairs decodes to one byte per pair, each equal to 16 times the high digit plus the low digit. |
| Geometry.HexBytesTrailing | Program.cs:41-53 | A lone character left at the end raises. A trailing space changes nothing. |
| Geometry.Records | Program.cs:56-78 | Every record has the size of the element type. |
| Geometry.RecordsAt | Program.cs:56-78 | Record k is bytes `k*size` up to `(k+1)*size`. |
| Geometry.RecordsLength | Program.cs:56-78 | There are `|bytes| / size` records; leftover bytes are dropped. |
| Geometry.ByteStage | Program.cs:37-54 | The byte loop computes `HexBytes`. |
| Geometry.RecordStage | Program.cs:56-78 | The buffer loop computes `Records`. |
| Geometry.BytesToVec | Program.cs:33-87 | Returns `Vec`, the records of the decoded bytes, or fails when the hex stage raises. |
| Geometry.LittleEndianRoundTrip | Program.cs:69 | Reading a record as a little-endian number and writing it back gives the record. |
| Geometry.LittleEndianValue | Program.cs:69 | Writing a number in range and reading it back gives the number. |
| Geometry.Int32Of | Program.cs:69 | A four-byte record read as an `int` lies in the 32-bit range. |
| Geometry.Int32RoundTrip | Program.cs:69 | The two's-complement bytes of any 32-bit integer read back as that integer, negative ones included. |
| Geometry.BytesRecords | Program.cs:180-182 | `BytesToVec<byte>` gives back the decoded bytes themselves. |
| Geometry.VerticesShape | Program.cs:175-178 | Grouping with `Vertices` succeeds exactly when the count is a multiple of three. Flattening the vertices again gives the coordinates back. |
| Geometry.CoordsAt | Program.cs:175-178 | Vertex k holds coordinates `3k`, `3k+1` and `3k+2`. |
| Geometry.GroupVertices | Program.cs:174-178 | The vertex loop computes `Vertices`. |
| Geometry.EdgesShape | Program.cs:183-193 | Grouping with `Edges` succeeds exactly when the count is a multiple of four. Flattening the edges again gives the bytes back. |
| Geometry.EdgeBytesAt | Program.cs:184-193 | Edge k has next, twin, origin and face equal to bytes `4k` to `4k+3`. |
| Geometry.GroupEdges | Program.cs:183-193 | The edge loop computes `Edges`. |
| Geometry.FanFrom | Program.cs:199-206 | The walk emits no more triangles than iterations left under the cap. |
| Geometry.Fan | Program.cs:196-216 | One face yields at most 10001 triangles. |
| Geometry.HullFace | Program.cs:197-215 | The walk over one face computes `Fan`. |
| Geometry.FanWalk | Program.cs:198-215 | On a closed chain of n edges, the walk from step `it` emits the remaining `n-1-it` fan triangles, in order. |
| Geometry.FanClosedFace | Program.cs:196-216 | A face whose next-chain closes after n edges yields exactly n-1 triangles. Triangle j joins the start's origin with the origins of edges j+1 and j+2 of the chain, and the last triangle closes back on the start. |
| Geometry.FanNextOrigin | Program.cs:198-214 | The walk depends only on the next and origin fields of the edges. |
| Geometry.Fans | Program.cs:196-216 | All faces together yield at most 10001 triangles per face. |
| Geometry.HullFaces | Program.cs:196-216 | The face loop computes `Fans`. |
| Geometry.MeshShape | Program.cs:252-260 | `Mesh` succeeds exactly when there are 3m indices, all naming vertices. It then has m triangles, and triangle k joins vertices `t[3k]`, `t[3k+1]` and `t[3k+2]`. |
| Geometry.AssembleMesh | Program.cs:252-260 | The triangle loop computes `Mesh`. |
| Conversion.AttributesEndUnique | Program.cs:98-101 | The attribute scan has only one stopping index. |
| Conversion.SelectedIncreasing | Program.cs:93-106 | A filtering scan lists indices below its end, in strictly increasing order. |
| Conversion.SelectedMembers | Program.cs:102-105 | A filtering scan lists an index exactly when it is below the end and passes the filter. |
| Conversion.DefaultsIncreasing | Program.cs:93-106 | The collected attribute indices are below the end and strictly increasing, so none is repeated. |
| Conversion.DefaultsMembers | Program.cs:102-105 | An attribute index is collected exactly when it is before the end and its group string is `"default"` or `"Default"`. |
| Conversion.AttributesStop | Program.cs:94-101 | When `m_collisionAttributes` is an array, the scan meets an empty group string at its length at the latest. |
| Conversion.ReadGroup | Program.cs:96 | Reads the group string of attribute `index`. |
| Conversion.CollisionAttributeIndices | Program.cs:89-110 | Stops at the first attribute whose group string is empty, and returns that index. Also returns, in order, the indices before it whose group is a default one. |
| Conversion.GatherWithoutSelection | Program.cs:151-221 | With no default attribute, a shape scan adds no triangles. It fails exactly when some tag is not an integer. |
| Conversion.GatherPicked | Program.cs:151-221 | When every tag parses, the scan's output is the triangles of the selected shapes, concatenated in index order. |
| Conversion.ShapesPicked | Program.cs:151-221 | When every tag parses, the hulls (or meshes) emitted are exactly those whose tag is a default attribute index, in order. |
| Conversion.ShapesWithoutDefaults | Program.cs:162-163 | With no default attribute, no shape is emitted, and only an unparsable tag fails. |
| Conversion.ProcessHull | Program.cs:165-216 | The triangles of hull `index`: positions, falling back to `m_Vertices`, then faces, edges and the fan of every face. |
| Conversion.ProcessMesh | Program.cs:241-260 | The triangles of mesh `index`: triangle indices, then vertices, then the assembled mesh. |
| Conversion.RoundBeforeHalt | Program.cs:151-221 | A round that reads a non-empty tag and succeeds is not one where the loop leaves. |
| Conversion.ProcessShape | Program.cs:163-219 | Dispatches to the hull or the mesh reading. |
| Conversion.ShapesStop | Program.cs:151-159 | When the hull (or mesh) list is an array, the scan meets an empty tag at its length at the latest. |
| Conversion.ReadTag | Program.cs:153 | Reads the collision attribute index text of shape `index`. |
| Conversion.AddShape | Program.cs:161-220 | One round of the shape loop extends the scan's output by that shape. |
| Conversion.ProcessShapes | Program.cs:149-221 | Given a round that the loop leaves at (an empty tag, or a round that raises), it stops at the first empty tag, or just past the first round that raises: on an error, every round before `end - 1` succeeds and round `end - 1` raises. The result is the scan's output up to there. |
| Conversion.Convert | Program.cs:145-265 | Collects the default attributes, then the hull triangles, then the mesh triangles. Each scan ends at its first empty entry or at its first round that raises. An error comes from the first raising hull round, or, after a complete hull scan, from the first raising mesh round. A hull failure stops before the meshes, so no mesh stop is needed then. |

## Left out

- File and console I/O, argument checks, the `Stopwatch`, the messages written
  to the console, and the writing of the `.tri` file after the mesh loop. The
  document text enters `Parse` as a parameter. The model ends with the list of
  triangles that would be written.
- Floating point. A coordinate is the 32-bit pattern that
  `Marshal.PtrToStructure` reads. The converter only copies it, so no float
  arithmetic is modelled. `GCHandle` pinning is not modelled.
- Exceptions. Every exception the converter can raise ends `Main` the same
  way, so each becomes `Err`, without its message and with no distinction
  between kinds. `GetValue`'s own handler, which returns "", is modelled.
- Conversion.CollisionAttributeIndices, Conversion.ProcessShapes and
  Conversion.Convert: each takes a ghost index of a round at which its loop
  leaves, and requires it to be at most `int.MaxValue`.
  - The attribute scan leaves only at an empty group string, since
    `GetValue` never raises. A shape scan leaves at an empty tag or at the
    first round that raises. A loop that meets neither does not end.
  - A node that is an object rather than an array ignores the index, so
    every round reads the same tag. The hull or mesh scan then raises at
    round 0 when that tag is not an integer or its shape fails. Otherwise
    it runs on without stopping.
  - `index++` past `int.MaxValue` is not modelled.
  - Conversion.AttributesStop and Conversion.ShapesStop show that an empty
    entry exists whenever the scanned list is an array.
- Conversion.ProcessShapes: the separate hull and mesh loops of `Main` are one
  method with a `ShapeKind` argument, which also returns where the scan stopped. Their bodies differ only in the paths
  read and in how a shape becomes triangles, which `ProcessShape` dispatches.
  The hull and mesh counters only feed console output and are left out.
- The triangles list of `Main` is returned, not appended in place. When a
  shape fails partway, the source has already appended some of its triangles
  before raising. The model drops them, because the run ends there anyway.
- The reads at the head of each loop and the round after them are factored
  into ReadGroup, ReadTag and AddShape. This keeps each proof small; they run
  the same statements in the same order.
- Kv3.Parser.ParseMember, Kv3.Parser.ParseKeyValue and
  Kv3.Parser.ParseElement are the bodies of the object and array loops, taken
  out as methods. Each parse method is proved equal to a reading function
  (`ValueAt`, `ObjectFrom`, `MemberAt`, `KeyValueAt`, `ArrayFrom`,
  `ElementAt`, `DocumentAt`) that also records where each value lies in the
  text; the source keeps no such record.
- `char.IsWhiteSpace` is the fixed set of characters named in
  Scanner.IsWhiteSpace. `int.Parse` with its default integer style is
  Document.ParseInt: ASCII digits, an optional sign, surrounding white space
  and trailing NUL characters, within 32 bits. The sign is the invariant
  culture's `-` or `+`; culture-specific sign strings are not modelled.
- Text after the root object is ignored by `Parse`, as in the source.
- Characters. A Dafny `char` is a Unicode scalar value, while a C# `char` is
  a UTF-16 code unit. Text outside the Basic Multilingual Plane is one
  character here and two there. Every delimiter the parser looks for is
  ASCII, so the tree is the same; only positions within such text differ.
  The hex decoder of `BytesToVec` is different: it pairs characters, so hex
  text holding characters outside the Basic Multilingual Plane is paired
  differently here. The model can then fail on an incomplete pair where the
  source turns two surrogate units into a byte, and the reverse.
- Conversion.CollisionAttributeIndices also returns `end`, the index at which
  its loop stopped. The source returns only the list. The extra output lets
  the contracts say where the scan ended and changes nothing else.
- Geometry.Fan: the fan walk stops without error after 10001 steps. This
  follows the source's iteration guard, which prints a warning and moves on
  to the next face; the warning is not modelled.
