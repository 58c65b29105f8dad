# Deterministic kernels of the log canonicalizer

The repository turns raw log lines into templates and identities that must come out byte for byte the same on
every machine. This project models the hand-written kernels that promise depends on, and proves what they
promise: scanners, a meaning-preserving rewriting, big-number and calendar arithmetic, a bump allocator, and
the encodings behind an identity.

- **JSON member order** (`KeySort`, `JsonGrammar`, `JsonTree`, `JsonNames`, `NameLaws`, `JsonOrder`, `JsonDocument`,
  `JsonScan`, `JsonEmit`). The grammar of RFC 8259 as trees that keep every blank and separator; what each name
  means, atom by atom; a normal form that puts members in byte order and leaves separators in place; its confluence,
  its converse, its meaning; and the recursive recogniser and emitter as methods that compute it.
- **Masking** (`MaskPieces`, `MaskRules`, `MaskPaths`, `Masker`). Each rule cuts a token into kept and masked
  pieces, as a function and as the loop of the source; the template and its params are in bijection. What each rule
  claims is then told from the bytes of the token alone, in both directions (`TokenShapes`, `MaskLaws`, `PathLaws`,
  `DiagnosticLaws`, `SegmentLaws`).
- **UTF-8 repair** (`Utf8`, with `Bits`). Tables 3-6 and 3-7 of the Unicode Standard, the maximal subpart, the
  eight-byte skip and the replacement pass.
- **128-bit integers** (`Int128`, `Decimal`). Limb arithmetic against the integers.
- **Time** (`Calendar`, `YearResolution`, `Transport`). Two independent calendar algorithms, the nearest-year
  resolver with its one-register state machine, and the transport prefix that is rendered and peeled.
- **Identity** (`Intent`, `DeclaredRuns`, `Preimage`, `Compose`). Class and discriminant of a name, claimed
  runs, the length-prefixed preimage and its decoder, and composition independent of caller order.
- **Arena** (`Arena`, `ArenaWords`). The allocator counted without bound, with disjointness, alignment,
  conservation and replay; and the class in 64-bit words, which wraps, with the exact condition under which it
  does what the unbounded one does.
- **Record readers** (`FlatJson`, `DecimalScale`, `JsonRoles`, `KeyValue`). The flat JSON reader as the inverse
  of a printer, the role choice as an argmin kept incrementally, and the key=value content buffer.

Conventions. A byte is a `char` in the text modules and a number below 256 in `Utf8`; statements about texts
hold for all strings. Code that loops and updates variables is a method proved against a function; what the
code promises is proved about the function. Machine widths are explicit: `Int128`, `DecimalScale` and `ArenaWords`
write out every wrap, and timestamps are counts of nanoseconds. The datetime scanner is deliberately no calendar
validator: it takes every date-time of RFC 3339 (`Transport.StandardIsDatetime`) and more
(`Transport.ScannerIgnoresRanges`, `Transport.ScannerIgnoresColons`); what the writer renders is a date-time of
the standard.

## Findings

Where the code and its documentation differ, the model follows the code:

- `core/api/canon.transport.cppm:202-206` promises that peeling a rendered prefix observes the floored stamp. A
  stamp of 1677 or 2262 fits the 64-bit clock and is rendered, but the reader refuses its year: the promise holds
  if and only if the year is one the reader accepts (`Transport.ObservedExactly`, with the first and the last
  timestamp as inputs in `Transport.EndsAreLost`).
- `core/api/canon.api.cppm:1197-1200` describes a claimed run by what stands around it. A marker that holds a
  digit can swallow the start of another occurrence, and the run behind that one is then not claimed
  (`DeclaredRuns.DigitMarkersShadow`). A described run is lost if and only if every marker it stands behind lies
  inside another run the scan took (`DeclaredRuns.LostExactly`); for a run of one marker the description holds
  on all forms if and only if the marker does not shadow itself (`DeclaredRuns.OneMarkerExactly`).
- `ArenaAllocator::allocate` (`core/api/canon.api.cppm:1338`) states no bound on its size, but its fit test
  (`core/src/arena/arena_allocator.cpp:212`) and the size of a new block (`core/src/arena/arena_allocator.cpp:189-190`)
  are sums modulo 2^64. After `allocate(1, 1)` the request `allocate(SIZE_MAX, 1)` passes the test and hands the
  live byte out again (`ArenaWords.LiveByteGivenAgain`); as the first request on an empty last block it is
  never placed (`ArenaWords.LargestNeverPlaced`). The code does what the unbounded allocator does if and only if no
  sum on its path reaches 2^64 (`ArenaWords.ExactExactly`), and it is sound for all callers that keep twice the
  capacity plus size plus alignment below 2^64 (`ArenaWords.RoomyIsEnough`, `ArenaWords.RunWordSound`).

Two statements that might be expected fail, each with an input and the condition that saves it. Class and
envelope alone do not determine a name (`Intent.PositionsAreNeeded`); with the span positions they do
(`Intent.ClassAndEnvelopeSeparate`). The order of the markers inside one run matters
(`DeclaredRuns.MarkerOrderMatters`), but not when no marker holds a digit (`DeclaredRuns.MarkerOrderIrrelevant`).

## Model

| member | source | states |
|---|---|---|
| JsonGrammar.StringEndExact | core/src/mask/mask.cpp:1226-1255 | The string scanner stops at `e` if and only if the bytes from the quote to `e` are one string of section 7 of RFC 8259: no raw control byte, only declared escapes, four hexadecimal digits after `\u`. |
| JsonGrammar.NumberEndSound | core/src/mask/mask.cpp:1258-1290 | What the number scanner accepts is a number of section 6 of RFC 8259. |
| JsonGrammar.NumberEndComplete | core/src/mask/mask.cpp:1258-1290 | Every number text that no number byte prolongs is scanned whole. |
| JsonGrammar.ScalarEndComplete | core/src/mask/mask.cpp:1293-1302 | Every string, number and literal word that nothing prolongs is scanned whole. |
| JsonGrammar.BlankIs | core/src/mask/mask.cpp:1201-1204 | The blanks are the four bytes of section 2 of RFC 8259. |
| JsonTree.ParseSound | core/src/mask/mask.cpp:1321-1352 | A value the recogniser accepts is a well-formed tree within the depth bound, and the tree prints back to exactly the bytes read. |
| JsonTree.ParseComplete | core/src/mask/mask.cpp:1321-1352 | Every well-formed tree, printed anywhere inside a text, is read back as itself and the reader stops at its last byte. |
| JsonTree.PrintInjective | core/src/mask/mask.cpp:1321-1352 | Two well-formed trees with one text are one tree: the grammar is unambiguous, blanks and separators included. |
| JsonScan.ScanString | core/src/mask/mask.cpp:1226-1255 | The string loop computes the specified end for every source and start. |
| JsonScan.ScanNumber | core/src/mask/mask.cpp:1258-1290 | The number loops compute the specified end. |
| JsonScan.ScanScalar | core/src/mask/mask.cpp:1293-1302 | The scalar scanner computes the specified end. |
| JsonScan.MemberValueAt | core/src/mask/mask.cpp:1306-1315 | The position of a member's value after its name and colon, or the refusal the grammar demands. |
| JsonScan.ValueEnd | core/src/mask/mask.cpp:1321-1352 | The recursive recogniser, with its loop over the slots of a container, accepts exactly the values the grammar parses, and ends where the parse ends. |
| JsonScan.SlotsEnd | core/src/mask/mask.cpp:1335-1349 | The slot loop finds the closer of exactly the bodies the grammar parses. |
| JsonNames.UnescapedBytes | core/src/mask/mask.cpp:1396-1443 | The unescaping loop computes the specified name, and no `\u` escape ever runs out of digits on a scanned string. |
| JsonNames.UnicodeEscapeDecodes | core/src/mask/mask.cpp:1396-1443 | Whatever follows, the escape of a scalar value (one quad, or a surrogate pair) unescapes to the UTF-8 bytes of that value. |
| JsonNames.UnescapedQuote | core/src/mask/mask.cpp:1396-1443 | Unescaping inverts quoting on every byte string, so every byte string is the key of some member name. |
| NameLaws.BodyExactly | core/src/mask/mask.cpp:1226-1443 | A text is the body of a string if and only if it is written in atoms (a byte that stands for itself, one of eight escapes, a `\u` with four hexadecimal digits of either case), and then it unescapes to what the atoms mean: a surrogate pair is one character, a lone surrogate its own three bytes. |
| KeySort.SortByKeySorts | core/src/mask/mask.cpp:1507-1511 | The sort the emitter calls yields a permutation whose keys never descend in the byte order of `KeySort.LessIsByteOrder`. |
| KeySort.LessIsByteOrder | core/src/mask/mask.cpp:1507-1511 | The order is the byte order: a key precedes another if and only if at their first difference its byte is the smaller one, or it ends there. |
| KeySort.AscendingIsByteOrder | core/src/mask/mask.cpp:1507-1513 | Ascending means that each key precedes the next one in byte order. |
| KeySort.AdjacentTestDecides | core/src/mask/mask.cpp:1507-1513 | After sorting, the adjacent-equal test is silent if and only if all keys are distinct, and then they strictly ascend. |
| KeySort.AscendingIsUnique | core/src/mask/mask.cpp:1507-1513 | One bag of entries has at most one strictly ascending arrangement, so nothing depends on the sorting algorithm. |
| JsonOrder.NormalExists | core/src/mask/mask.cpp:1449-1521 | The normal form exists if and only if no object of the tree repeats an unescaped name. |
| JsonOrder.NormalIsOrdered | core/src/mask/mask.cpp:1449-1521 | In the normal form every object at every depth is strictly ascending by unescaped name, and the tree is as well formed as before. |
| JsonOrder.NormalNamesAscend | core/src/mask/mask.cpp:1449-1521 | In every object of the normal form, at every depth, each unescaped name precedes the next one in byte order. |
| JsonOrder.OrderedIsByteOrder | core/src/mask/mask.cpp:1449-1521 | Being in order is that, and nothing else: the statements about order speak of bytes. |
| JsonOrder.OrderedIsNormal | core/src/mask/mask.cpp:1525-1549 | A tree already in order is its own normal form, which makes the rewriting idempotent. |
| JsonOrder.NormalKeepsBytes | core/src/mask/mask.cpp:1449-1521 | The normal form prints to the same multiset of bytes. |
| JsonOrder.NormalKeepsMeaning | core/src/mask/mask.cpp:1449-1521 | The normal form denotes the same JSON value: the same map in every object, the same order in every array. |
| JsonOrder.Confluence | core/src/mask/mask.cpp:1449-1521 | Two trees that differ only by permuting members of objects at any depth, separators staying in place, have the same normal form, or both have none. |
| JsonOrder.SharedNormalForm | core/src/mask/mask.cpp:1449-1521 | The converse: trees that share a normal form differ only by such permutations. |
| JsonEmit.Emit | core/src/mask/mask.cpp:1449-1521 | On every value the recogniser accepts the emitter appends the printed normal form and ends where the recogniser did, or refuses exactly when an object repeats a name. |
| JsonEmit.EmitSlots | core/src/mask/mask.cpp:1472-1505 | The slot loop gathers exactly the normalised slots and the separators in source order, and refuses exactly when a nested object repeats a name. |
| JsonEmit.Arrange | core/src/mask/mask.cpp:1507-1521 | The last step writes the i-th smallest member before the i-th separator of the source, and refuses exactly a repeated name. |
| JsonEmit.JsonMemberOrder | core/src/mask/mask.cpp:1525-1549 | The whole pass reports a change if and only if the specification rewrites the line, and then writes the specified line. |
| JsonDocument.ReadSound | core/src/mask/mask.cpp:1525-1549 | A line read as a document prints back to itself, blanks around the value included. |
| JsonDocument.ReadComplete | core/src/mask/mask.cpp:1525-1549 | Every object or array with blanks around it is read as a document. |
| JsonDocument.NestedExactly | core/src/mask/mask.cpp:1193-1352 | Arrays nested in each other are read if and only if they are at most 128 deep; a value that opens with more brackets is refused whatever it holds (`JsonDocument.OpensDeep`). |
| JsonDocument.RewrittenExactlyWhen | core/src/mask/mask.cpp:1525-1549 | A line is rewritten if and only if it is one document, repeats no name, and in some object a name does not precede the next one in byte order. |
| JsonDocument.RewrittenLine | core/src/mask/mask.cpp:1525-1549 | A rewritten line has the same length and byte multiset, is again one document of the same JSON value, has the names of every object ascending in byte order, and is not rewritten again. |
| JsonDocument.NormalFormDecidesMemberOrder | core/src/mask/mask.cpp:1449-1549 | Two documents without repeated names have byte-identical normal forms if and only if they differ only by permuting members of their objects. |
| MaskPieces.RenderedIsToken | core/src/mask/mask.cpp:1591-1699 | A normal form cut from a space-free, non-empty token is space-free and non-empty. |
| MaskRules.VersionedRef | core/src/mask/mask.cpp:578-608 | A claim keeps every byte of the token outside one masked run of digits and dots that starts with a digit. |
| MaskRules.VersionedRefExactly | core/src/mask/mask.cpp:578-608 | After the last slash a digit-led run of digits and dots that no letter or digit follows is claimed, and exactly that run is masked. |
| MaskRules.BracketTimestampExactly | core/src/mask/mask.cpp:614-625 | A token is claimed if and only if it is one bracketed datetime of the scanner's class. |
| MaskRules.BracketIndexExactly | core/src/mask/mask.cpp:631-655 | Behind the first bracket a letter prefix is kept and exactly the digits before the closing bracket are masked. |
| MaskRules.HashCounterExactly | core/src/mask/mask.cpp:703-741 | A bare counter keeps its mark and masks exactly its digits. |
| MaskRules.MarkerNumberExactly | core/src/mask/mask.cpp:764-789 | An amount keeps its currency mark and masks exactly the digits and at most one fraction. |
| MaskRules.SanitizerPidExactly | core/src/mask/mask.cpp:906-926 | A process tag keeps both fences and what follows, and masks exactly the digits. |
| MaskRules.EmbeddedIdentity | core/src/mask/mask.cpp:854-895 | A claim accounts for every byte of the token, and every masked range is a UUID, a compact UTC instant or a hexadecimal run of at least 16 bytes. |
| MaskRules.IdentityIsMasked | core/src/mask/mask.cpp:795-895 | Every identity of the token is one of the masked ranges, unless a masked range that starts earlier reaches into it. |
| MaskRules.IdentityAlone | core/src/mask/mask.cpp:795-895 | A token that is one identity is masked whole. |
| MaskRules.KvValue | core/src/mask/mask.cpp:1006-1039 | A claim masks one non-empty range behind the first equals sign that is digit-leading after an optional sign, and keeps every other byte. |
| MaskRules.NormalizeVersionedRef | core/src/mask/mask.cpp:578-608 | The loop form gives the claim of the specification, byte for byte, for every token. |
| MaskRules.NormalizeBracketTimestamp | core/src/mask/mask.cpp:614-625 | The loop form gives the claim of the specification for every token. |
| MaskRules.NormalizeBracketIndex | core/src/mask/mask.cpp:631-655 | The loop form gives the claim of the specification for every token. |
| MaskRules.NormalizeHashCounter | core/src/mask/mask.cpp:703-741 | The bare reading first and the reading inside a wrapper shell second give the claim of the specification for every token. |
| MaskRules.NormalizeMarkerNumber | core/src/mask/mask.cpp:764-789 | The loop form gives the claim of the specification for every token. |
| MaskRules.NormalizeEmbeddedIdentity | core/src/mask/mask.cpp:854-895 | The loop that passes identities whole and copies every other byte gives the claim of the specification for every token. |
| MaskRules.NormalizeSanitizerPid | core/src/mask/mask.cpp:906-926 | The loop form gives the claim of the specification for every token. |
| MaskRules.ValueExtent | core/src/mask/mask.cpp:975-996 | The extent loop stops where the specification says, wildcards read whole and joints crossed only into a digit or a wildcard, and reports whether the remainder is swallowed. |
| MaskRules.AppendMaskedValue | core/src/mask/mask.cpp:1006-1026 | One disposition for both callers: appends the text with exactly the specified range masked, or nothing. |
| MaskRules.NormalizeKvValue | core/src/mask/mask.cpp:1031-1039 | The loop form gives the claim of the specification for every token. |
| MaskLaws.ReferenceExactly | core/src/mask/mask.cpp:578-608 | In both directions and by the bytes: a token is claimed if and only if behind its last slash stand a digit, digits and dots, and then no letter or digit; and exactly that run is masked. |
| MaskLaws.IndexExactly | core/src/mask/mask.cpp:631-655 | Claimed if and only if the first opening bracket is followed by letters or nothing, digits and the closing bracket; exactly the digits are masked. |
| MaskLaws.CounterExactly | core/src/mask/mask.cpp:703-741 | Claimed if and only if a hash sign and digits stand bare with no letter or digit behind them, or fill a shell; exactly the digits are masked. |
| MaskLaws.AmountExactly | core/src/mask/mask.cpp:764-789 | Claimed if and only if a currency mark is followed by digits, at most one fraction, and no letter or digit; exactly the amount is masked. |
| MaskLaws.TagExactly | core/src/mask/mask.cpp:906-926 | Claimed if and only if two equals signs, digits and two equals signs open the token and a letter or nothing follows; exactly the digits are masked. |
| MaskLaws.ValueExactly | core/src/mask/mask.cpp:935-1026 | The value behind a key: nothing moves unless it opens, behind a currency mark if there is one, with a digit or a sign and a digit, and a short number behind a status key is kept; else its extent is masked, to the end when only closing bytes and punctuation follow. |
| MaskLaws.ExtentExactly | core/src/mask/mask.cpp:941-996 | The extent ends at the first byte that is no letter, digit or one of five marks, no comma, colon or slash before a digit or a wildcard, and no part of a wildcard. |
| MaskLaws.ExtentExists | core/src/mask/mask.cpp:941-996 | Every value has such an end, so the rules about extents cover every value. |
| MaskLaws.KeyValueExactly | core/src/mask/mask.cpp:1031-1039 | The value rule looks behind the first equals sign only, and a token that opens with one is not claimed. |
| MaskLaws.IdentityTextIs | core/src/mask/mask.cpp:795-853 | The identities by their bytes: five dashed groups of hexadecimal digits, an instant with no letter or digit beside it, sixteen or more hexadecimal digits that none prolongs. |
| MaskLaws.IdentitiesAreMasked | core/src/mask/mask.cpp:795-895 | Every such text inside a token is one of its masked ranges, unless one that starts earlier reaches into it. |
| MaskPaths.LongestRootWins | core/src/mask/mask.cpp:286-327 | The answer is present if and only if some declared root ends at the last component, and no declared root that ends there is longer. |
| MaskPaths.WindowSuffices | core/src/mask/mask.cpp:282-327 | The look-back window of three components decides every declared root as all the components walked so far would. |
| MaskPaths.FirstRootExactly | core/src/mask/mask.cpp:511-541 | The answer is the first component of the path at which a declared root ends, with the scope of the longest root ending there, and nothing exactly when none ends anywhere. |
| MaskPaths.EphemeralRootExactly | core/src/mask/mask.cpp:550-572 | A token is claimed if and only if a separator and a component follow its first declared root, and the mask covers that component, or for a subtree root everything from it on. |
| PathLaws.PathOpens | core/src/mask/mask.cpp:244-271 | A path opens with a slash or backslashes at the start of the token or behind its lead: opening bytes, a key with its equals sign and more opening bytes, the file scheme, each present or not. |
| PathLaws.PrintedExists | core/src/mask/mask.cpp:217-236 | Every token is components with a slash or a whole run of backslashes between each two. |
| PathLaws.PartsOfPrinted | core/src/mask/mask.cpp:511-541 | The walk reads those components as they are written, each at its place. |
| PathLaws.EphemeralExactly | core/src/mask/mask.cpp:511-572 | By components: at the first one at which a declared root ends the longest root decides. When a component follows that is not empty it is masked, and for a subtree root all behind it too; in every other case the token is not claimed. |
| PathLaws.LongestExists | core/src/mask/mask.cpp:286-327 | Wherever a declared root ends there is a longest one, so the rule covers every token. |
| PathLaws.RootCatalogue | core/src/mask/mask.cpp:169-209 | Each declared root as a path, with what is masked behind it: all that follows for six of them, the next component alone for two. |
| MaskPaths.EphemeralRoot | core/src/mask/mask.cpp:550-572 | A claim keeps every byte outside one masked range, which is not empty and does not open with a path separator. |
| MaskPaths.DiagnosticComposite | core/src/mask/mask.cpp:336-499 | A claim accounts for every byte of the token, masks at least one range, and every masked range is an alphanumeric core. |
| MaskPaths.SegmentsExactly | core/src/mask/mask.cpp:336-499 | For every token without a backslash and without a segment that ends a declared root: claimed if and only if a colon stands before a digit, some segment is letter-led and some core is masked; the masked cores are exactly those led by a digit that are no short number behind a status keyword. |
| DiagnosticLaws.DiagnosticReads | core/src/mask/mask.cpp:336-499 | For every token, written as its segments and the backslash parts of each: claimed if and only if a colon stands before a digit, a letter-led core anchors it and a core is masked, and then as the segments read one after the other: masked behind a declared root, kept when letter-led, kept when a short number behind a status word, masked otherwise. The reading remembers every component, so the window of three is shown to be enough. |
| DiagnosticLaws.SegmentsExist | core/src/mask/mask.cpp:336-499 | Every token is written in such segments. |
| DiagnosticLaws.DiagnosticExactly | core/src/mask/mask.cpp:336-499 | For tokens of plain segments, none ending a declared root, the same with the cores given by their bytes and no walk at all. |
| MaskPaths.LocationExactly | core/src/mask/mask.cpp:336-499 | A source location `name:digits` keeps the name and has the number masked, for every name without separators, unless the name is a status keyword and the number short: then the rule declines. |
| MaskPaths.FindRoot | core/src/mask/mask.cpp:511-541 | The position loop with its sliding window finds the first root the component walk finds. |
| MaskPaths.NormalizeEphemeralRoot | core/src/mask/mask.cpp:550-572 | The loop form gives the claim of the specification for every token, subtree and instance scope alike. |
| MaskPaths.DiagnosticScan.constructor | core/src/mask/mask.cpp:351-362 | A walk starts with nothing written, no anchor and an empty window. |
| MaskPaths.DiagnosticScan.AppendBackslashSegment | core/src/mask/mask.cpp:399-430 | The part loop leaves the shared state where the specification's walk over the backslash parts ends. |
| MaskPaths.DiagnosticScan.FlushSegment | core/src/mask/mask.cpp:432-489 | One flush moves every shared variable (text, masked, anchor, previous core, pending mask, window) to the specified next state. |
| MaskPaths.NormalizeDiagnosticComposite | core/src/mask/mask.cpp:336-499 | The position loop over the shared state gives the claim of the specification for every token. |
| MaskPaths.TryComposite | core/src/mask/mask.cpp:1109-1141 | Whichever of the ten rules claims, the pieces add up to the token and something non-empty is masked. |
| MaskPaths.ComposeForm | core/src/mask/mask.cpp:1127-1141 | The rules tried in the catalogue's order give the first claim of the specification, for every token. |
| Masker.AppendSegment | core/src/mask/mask.cpp:1044-1062 | A segment is appended with exactly the specified value range masked, or whole. |
| Masker.MaskSegmentValues | core/src/mask/mask.cpp:1068-1088 | The delimiter loop gives the specified form, and reports a move if and only if the form holds the delimiter and an equals sign and some segment is masked. |
| Masker.NormalFormSteps | core/src/mask/mask.cpp:1609-1620 | The segment step, then the declared runs, on every form. |
| SegmentLaws.SegmentExactly | core/src/mask/mask.cpp:927-1062 | One segment by its bytes: behind a key (a letter or an underscore, then letters, digits, underscores, dots, dashes; opening bytes before it in the first segment only) the value loses its extent, unless it is no number or a short one behind a status key. |
| SegmentLaws.SegmentsExactly | core/src/mask/mask.cpp:1064-1088 | The segment step reads every segment on its own, and a form without a semicolon not at all. |
| Masker.MaskToken | core/src/mask/mask.cpp:1564-1691 | The total precedence: status keep, composites, then the value rules, equals the specified unit for every token and predecessor. |
| MaskLaws.FirstRuleWins | core/src/mask/mask.cpp:1109-1140 | A token without a separator byte and without a currency mark reaches no rule; of any other the first of the ten rules that claims it decides. |
| MaskLaws.UnclaimedExactly | core/src/mask/mask.cpp:1553-1691 | A token no rule claims, by its bytes: a short number behind a status word is kept, a long hexadecimal run is a param, an address is one exactly with the switch on, a token led by a digit or a sign and a digit is one, so is a digit-led core in a shell, and all the rest is its own normal form. |
| TokenShapes.BareTokenExactly | core/src/mask/mask.cpp:1553-1691 | The same for every token without a separator byte, with no rule named: nothing in the catalogue claims it. |
| TokenShapes.WordIsKept | core/src/mask/mask.cpp:1564-1580 | Letters alone are kept as they are, unless they are sixteen or more hexadecimal digits. |
| MaskLaws.LoneIdentityIsParam | core/src/mask/mask.cpp:1569-1570 | A token that is a UUID, a compact instant or a long hexadecimal run is a param. |
| TokenShapes.NegativeNumber | core/src/mask/mask.cpp:1564-1580 | A minus, a digit and bytes without a separator are a param, unless a hexadecimal run of sixteen stands among them, whose mask alone is then taken. |
| TokenShapes.AddressExactly | core/src/mask/mask.cpp:36-80 | The address test takes exactly four dotted octets, in an opening byte or bare, with a port and closing bytes or none. |
| TokenShapes.AddressBySwitch | core/src/mask/mask.cpp:1571-1573 | Such a token is a param if and only if the switch is on; with the switch off it is kept as it is. |
| TokenShapes.ShelledNumber | core/src/mask/mask.cpp:1576-1577 | A digit-led core in a shell is a param, except a short status number, which is kept with its shell. |
| Masker.UnitIsToken | core/src/mask/mask.cpp:1583-1699 | Every token yields one space-free, non-empty form, and the form is exactly the wildcard if and only if the token is a param. |
| Masker.LiteralWildcardIsParam | core/src/mask/mask.cpp:1583-1699 | A literal wildcard in the input is a param: no composite and no value rule claims it, and its own form is the wildcard. |
| Masker.TokensOfJoined | core/src/mask/mask.cpp:1144-1163 | Tokens joined by single spaces are read back as those tokens. |
| MaskLaws.TokensOfSpaced | core/src/mask/mask.cpp:1144-1163 | However many spaces stand before, between and behind them, a line's tokens are its words. |
| MaskLaws.UnitsAt | core/src/mask/mask.cpp:1591-1699 | Each token is read behind the token before it, and the first behind nothing. |
| Masker.StatelessTemplate | core/src/mask/mask.cpp:1591-1699 | For every content the template has one token per token of the reordered line, each the specified form, and the params are exactly the source tokens under template tokens equal to the wildcard, in order. |
| Masker.ParamAt | core/src/mask/mask.cpp:1585-1586 | Param i is the source token at the (i+1)-th template token equal to the wildcard, and there are no other params. |
| Utf8.EncodingObeysTable | core/api/utf8/well_formed.hpp:40-92 | From Table 3-6 to Table 3-7 of the Unicode Standard: every multi-byte encoding of a scalar value obeys a row of the table. |
| Utf8.TableIsEncoding | core/api/utf8/well_formed.hpp:40-92 | From Table 3-7 back to Table 3-6: every byte sequence that fills a row is the encoding of a scalar value. |
| Utf8.StepExact | core/api/utf8/well_formed.hpp:93-117 | On every non-empty text a step is a whole character when one starts there, and otherwise exactly the maximal subpart of D93b of section 3.9 of the Unicode Standard. |
| Utf8.StepOfChar | core/api/utf8/well_formed.hpp:93-117 | Wherever a character starts, the step is that character. |
| Utf8.MaximalSubpartUnique | core/api/utf8/well_formed.hpp:93-117 | A text has at most one maximal subpart, so the step is pinned down. |
| Utf8.StepAt | core/api/utf8/well_formed.hpp:93-117 | The row loop and the continuation loop compute the specified step at every position. |
| Utf8.PrefixIsLongest | core/api/utf8/well_formed.hpp:119-149 | The step-by-step scan reaches the end of the longest well-formed prefix. |
| Utf8.WordIsAscii | core/api/utf8/well_formed.hpp:126-149 | Masking a word of bytes with 0x80 in each leaves zero if and only if every byte is ASCII. |
| Utf8.WellFormedPrefix | core/api/utf8/well_formed.hpp:126-149 | The scan that skips eight ASCII bytes at a time returns what the plain scan returns: the length of the longest well-formed prefix. |
| Utf8.ReplacedIsWellFormed | core/api/utf8/well_formed.hpp:151-177 | The repaired text is well formed for every byte string. |
| Utf8.ReplacedFixesExactlyWellFormed | core/api/utf8/well_formed.hpp:151-177 | Repair is the identity if and only if the input is well formed. |
| Utf8.ReplacedIdempotent | core/api/utf8/well_formed.hpp:151-177 | Repairing twice is repairing once. |
| Utf8.ReplacedKeepsAscii | core/api/utf8/well_formed.hpp:151-177 | Repair keeps every byte below 0x80, in order and count. |
| Utf8.ReplacedSplits | core/api/utf8/well_formed.hpp:151-177 | Repair works on each side of a non-continuation byte on its own, so a delimiter is never swallowed. |
| Utf8.PiecesOfCuts | core/api/utf8/well_formed.hpp:151-177 | Every text cuts into characters and maximal subparts. |
| Utf8.ReplacedIsRendering | core/api/utf8/well_formed.hpp:151-177 | Whatever such cutting is taken, the repair is that cutting with one U+FFFD for each maximal subpart. |
| Utf8.ReplaceIllFormed | core/api/utf8/well_formed.hpp:158-177 | The copying loop gives the repaired text, well formed, with the same ASCII bytes, equal to the input exactly on well-formed input. |
| Utf8.ReplacementIsChar | core/api/utf8/well_formed.hpp:151-177 | The replacement is the encoding of U+FFFD. |
| Int128.OrderIsValueOrder | core/api/det/det_int128.hpp:48-66 | The limb comparisons are the order of the numbers. |
| Int128.AddIsModular | core/api/det/det_int128.hpp:67-72 | Limb addition with its carry is addition modulo 2^128. |
| Int128.NotIsComplement | core/api/det/det_int128.hpp:77-80 | The complement of v is 2^128 - 1 - v. |
| Int128.SubIsModular | core/api/det/det_int128.hpp:81-85 | Subtraction through the complement is subtraction modulo 2^128. |
| Int128.ShrExact | core/api/det/det_int128.hpp:86-95 | A right shift is division by a power of two, for every shift count. |
| Int128.ShlExact | core/api/det/det_int128.hpp:96-105 | A left shift is multiplication by a power of two modulo 2^128, for every shift count. |
| Int128.AccumulatorFits | core/api/det/det_int128.hpp:113-133 | A limb product plus what stands there plus the carry stays below 2^64. |
| Int128.InnerStep | core/api/det/det_int128.hpp:113-133 | One turn of the inner loop adds exactly one limb product at its weight. |
| Int128.AddRow | core/api/det/det_int128.hpp:113-133 | The inner loop adds one limb times the whole other number at its weight, no accumulator overflowing, and returns what is carried past the last limb. |
| Int128.Mul | core/api/det/det_int128.hpp:113-133 | Schoolbook multiplication on 32-bit limbs, no accumulator overflowing, is the product modulo 2^128 for all operands. |
| Int128.RestoringStep | core/api/det/det_int128.hpp:137-156 | One turn of restoring division keeps the remainder below the divisor and within the consumed prefix of the dividend, so the left shift loses no bit, even for divisors of 2^127 and more. |
| Int128.DivOrMod | core/api/det/det_int128.hpp:137-164 | The bit-serial loop returns the specified quotient or remainder for every divisor, zero included. |
| Int128.DivisionExact | core/api/det/det_int128.hpp:137-164 | n = q*d + r with r < d for every non-zero 128-bit divisor. |
| Int128.SignedIsWrapped | core/api/det/det_int128.hpp:176-193 | The bits of a signed number are its value modulo 2^128, and the sign bit reads it back. |
| Int128.NegateIsWrapped | core/api/det/det_int128.hpp:194-197 | Negation is the wrapped negative. |
| Int128.MagnitudeIsAbs | core/api/det/det_int128.hpp:198-204 | The magnitude is the absolute value, 2^127 for the most negative number included. |
| Int128.SignedOrder | core/api/det/det_int128.hpp:205-210 | The signed comparison is the order of the values. |
| Int128.SignedAddIsWrapped | core/api/det/det_int128.hpp:211-214 | Signed addition is the wrapped sum. |
| Int128.SignedMulIsWrapped | core/api/det/det_int128.hpp:220-226 | Signed multiplication through magnitudes is the wrapped product. |
| Int128.SignedDivIsWrapped | core/api/det/det_int128.hpp:227-233 | Signed division through magnitudes is the wrapped quotient truncated toward zero. |
| Int128.SignedDivExactUnlessMin | core/api/det/det_int128.hpp:227-233 | The quotient is the mathematical truncated one if and only if it is not the most negative number divided by minus one, which wraps to itself. |
| Decimal.ToDecimal | proof/det_proof.cpp:35-58 | The digit loop and the final reversal print the canonical decimal numeral of every 128-bit value. |
| Decimal.CanonicalIsUnique | proof/det_proof.cpp:35-58 | A value has one canonical numeral, so the printed text is determined. |
| Calendar.DayNumberCounts | core/src/utils/time_utils.cpp:142-150 | The closed formula counts days: the next calendar date is one more, and 1970-01-01 is zero. |
| Calendar.DayNumberMonotone | core/src/utils/time_utils.cpp:142-150 | Dates in order have day numbers in order, and different dates different numbers. |
| Calendar.CivilOfDayNumber | core/src/transport/transport.cpp:114-129 | The era algorithm inverts the January-based day count on every date of every year. |
| Calendar.DayNumberOfCivil | core/src/transport/transport.cpp:114-129 | The era algorithm yields a date for every day number, and that date's number is the day number: the two are inverse bijections. |
| Calendar.CivilYearSpan | core/src/transport/transport.cpp:114-129 | The civil year of a day is the one whose span of day numbers holds it. |
| Calendar.MktimeIsDayNumber | core/src/utils/time_utils.cpp:115-157 | Exactly the dates and clock readings that exist in the representable years are accepted, each at its own instant. |
| Calendar.CivilOfMktime | core/src/utils/time_utils.cpp:115-157 | The fields read off the instant of accepted fields are those fields. |
| Calendar.MktimeOfCivil | core/src/utils/time_utils.cpp:115-157 | The fields read off any second of the representable years give that second back. |
| Calendar.MktimeMonotone | core/src/utils/time_utils.cpp:115-157 | Fields are in lexicographic order if and only if their instants are. |
| YearResolution.StampKeepsFields | core/src/utils/time_utils.cpp:231-273 | A stamp built from fields is present in a year exactly when the date exists there, and then reads back as exactly those fields and milliseconds. |
| YearResolution.InstantIn | core/src/utils/time_utils.cpp:256-273 | A stamp has an instant in a year if and only if the year is representable and has the day. |
| YearResolution.ResolveYearless | core/src/utils/time_utils.cpp:436-458 | The three-candidate loop computes the specified nearest candidate. |
| YearResolution.ResolvedIsNearest | core/src/utils/time_utils.cpp:436-458 | Whenever a candidate exists the result is the nearest instant over all years, the later one on a tie. |
| YearResolution.NearestIsUnique | core/src/utils/time_utils.cpp:436-458 | At most one instant is nearest under that rule. |
| YearResolution.ResolvedPresentExactly | core/src/utils/time_utils.cpp:436-458 | The result is present if and only if one of the three years around the reference has the day. |
| YearResolution.WithinHalfYear | core/src/utils/time_utils.cpp:436-458 | Away from the ends of the range every stamp but Feb 29 resolves within 183 days of the reference. |
| YearResolution.Feb29CanBeAbsent | core/src/utils/time_utils.cpp:436-458 | A concrete Feb 29 stamp resolves to nothing near 2101 although 2104 has it. |
| YearResolution.NearTimesRecovered | core/src/utils/time_utils.cpp:436-458 | A time printed without its year is recovered exactly from any reference less than half a common year away. |
| YearResolution.RunAt | core/src/tokenizer/tokenizer_engine.cpp:83-91 | In every run an event's time depends on earlier lines only through the last timed one. |
| YearResolution.RunIsNearest | core/src/tokenizer/tokenizer_engine.cpp:83-91 | In every run a yearless event is absent before any timed event, and afterwards is the nearest reading of its stamp, within 183 days of the last timed event away from the ends of the range. |
| YearResolution.InstantReanchors | core/src/tokenizer/tokenizer_engine.cpp:83-91 | After an instant nothing before it matters. |
| YearResolution.SteadyStreamRecovered | core/src/tokenizer/tokenizer_engine.cpp:83-91 | A stream that never moves by half a year between lines gets all its true times back, in whatever order they come. |
| YearResolution.EventClock.constructor | core/src/tokenizer/tokenizer_engine.cpp:58-64 | A new stream has no year reference. |
| YearResolution.EventClock.Declare | core/src/tokenizer/tokenizer_engine.cpp:69-76 | Declaring a context forgets the year reference. |
| YearResolution.EventClock.ResolveEventTime | core/src/tokenizer/tokenizer_engine.cpp:83-91 | One call answers the step of the state machine and moves the register to the answer when there is one. |
| YearResolution.EventClock.ResolveAll | core/src/tokenizer/tokenizer_engine.cpp:83-91 | A whole stream yields the specified run and leaves the last timed event in the register. |
| Transport.Rfc3339DatetimeLength | core/api/canon.api.cppm:1583-1616 | The scan computes the specified length at every position. |
| Transport.StandardIsDatetime | core/api/canon.api.cppm:1544-1616 | Every date-time of section 5.6 of RFC 3339 with the field ranges of its section 5.7 is in the scanner's class. |
| Transport.ScannerIgnoresRanges | core/api/canon.api.cppm:1583-1616 | The class is wider: a text with month, day and hour 99 is in it and is no date-time of the standard. |
| Transport.ScannerIgnoresColons | core/api/canon.api.cppm:1544-1560 | So is one whose offset lacks the colon. |
| Transport.DatetimeSound | core/api/canon.api.cppm:1544-1616 | What the scan measures is a datetime of the scanner's class. |
| Transport.MeasuredStops | core/api/canon.api.cppm:1544-1616 | And the byte after it continues neither its fraction nor its zone. |
| Transport.DatetimeMeasured | core/api/canon.api.cppm:1544-1616 | A datetime is measured whole whenever the byte after it continues neither its fraction nor its zone. |
| Transport.DatetimeComplete | core/api/canon.api.cppm:1544-1616 | A datetime that a closing bracket or the end of the text follows is measured whole. |
| Transport.ParseIso8601 | core/src/utils/time_utils.cpp:292-355 | The cursor-moving parser computes the specified instant, zone corrections and refusals included; which instants those are is `Transport.OffsetRoundTrip` and `Transport.StandardInstant`. |
| Transport.OffsetRoundTrip | core/src/utils/time_utils.cpp:168-216 | Every second, printed with the local reading at any sign, hours below 24 and minutes below 60, with a colon, without one or with hours alone, and any fraction, is read back as that second if and only if the local year is one the reader accepts. |
| Transport.StandardInstant | core/src/utils/time_utils.cpp:292-355 | Every date-time of section 5.6 of RFC 3339 is read as its local date and clock less what its offset is ahead of UTC; only a leap second and a year outside the window have no reading. |
| Transport.ReadsExactly | core/src/utils/time_utils.cpp:292-355 | The reading of any text: the fields written at its head, when they are a date and a clock reading in the window, with the correction of the zone behind them; nothing for a text that does not open with such fields. |
| Transport.ZoneExactly | core/src/utils/time_utils.cpp:181-216 | The correction of any zone: zero when no sign opens it; for hours alone, hours and minutes, or both with a colon, in range and with no digit behind, their seconds, taken away when the zone is ahead; and a refusal for every other text behind a sign. |
| Transport.SpaceForT | core/src/utils/time_utils.cpp:312-313 | A space between the date and the time reads as the `T` does. |
| Transport.PutTwoDigits | core/src/transport/transport.cpp:131-137 | Writes the two digits at the position, keeps what stands before it, and moves past them. |
| Transport.RenderTransportPrefix | core/src/transport/transport.cpp:181-249 | The buffer begins with the 27-byte prefix and is otherwise unchanged, or nothing is written and the answer is zero, which happens exactly for another row kind, a short buffer or a year without four digits. |
| Transport.RenderedIsStandard | core/src/transport/transport.cpp:181-249 | The rendered interior is a date-time of section 5.6 of RFC 3339: an existing date, a bounded clock reading, a fraction and the zone letter. |
| Transport.Int64Renderable | core/src/transport/transport.cpp:181-249 | Every timestamp a 64-bit nanosecond count holds can be rendered. |
| Transport.ParseRendered | core/api/canon.transport.cppm:202-203 | Reading the rendered interior gives the stamp floored to the second when its year is one the reader accepts, and nothing otherwise. |
| Transport.RawPeeledLine.constructor | core/src/transport/transport.cpp:161-163 | A line starts whole and without a time. |
| Transport.RawPeeledLine.StripSeparator | core/src/transport/transport.cpp:38-44 | Drops exactly the leading blanks, when the row says so. |
| Transport.StrippedExactly | core/src/transport/transport.cpp:38-44 | What is left begins at the first byte that is neither a space nor a tab. |
| Transport.RawPeeledLine.ApplyRow | core/src/transport/transport.cpp:46-103 | One row changes content and time as specified, or leaves both. |
| Transport.RawPeeledLine.PeelRaw | core/src/transport/transport.cpp:161-169 | The rows applied in declaration order give the specified peel. |
| Transport.PeelsInOrder | core/src/transport/transport.cpp:161-169 | Rows are applied in the order they are declared in. |
| Transport.MarkThenPrefix | core/src/transport/transport.cpp:46-103 | A byte order mark hides a bracketed prefix from its row unless the mark's row is declared first: both orders on every such line. |
| Transport.PeelShortens | core/src/transport/transport.cpp:161-178 | A peeled line is a suffix of the line, for every stack of rows. |
| Transport.BracketedPeelsDatetimes | core/src/transport/transport.cpp:46-103 | A bracketed row takes off exactly a bracketed datetime at the head. |
| Transport.BracketedDeclines | core/src/transport/transport.cpp:46-103 | A bracketed row that changes anything had a bracketed datetime at the head. |
| Transport.FixedPeelsDatetimes | core/src/transport/transport.cpp:46-64 | A fixed-width row changes the view if and only if a datetime of exactly its width stands at the head and nothing continues it, and then takes off just that. |
| Transport.ByteOrderMarkCut | core/src/transport/transport.cpp:90-101 | The byte order mark row cuts exactly the bytes EF, BB, BF at the head and takes no time from them. |
| Transport.RenderThenPeel | core/api/canon.transport.cppm:202-206 | Peeling a rendered prefix returns the line whitespace-stripped and the observed stamp. |
| Transport.WrapsUnwrap | core/api/canon.transport.cppm:202-206 | A line wrapped any number of times peels back to itself, whitespace-stripped, with the innermost stamp. |
| Transport.ObservedExactly | core/api/canon.transport.cppm:202-206 | The observed time is the floored stamp if and only if its year is one the reader accepts. |
| Transport.EndsAreLost | core/api/canon.transport.cppm:202-206 | The first and the last 64-bit timestamp, of 1677 and 2262, are rendered and come back without a time. |
| Intent.TrimmedIs | core/src/identity/intent_identity.cpp:85-92 | Trimming takes exactly the spaces and tabs at both ends, by their codes. |
| Intent.ClaimNumeric | core/src/identity/intent_identity.cpp:44-74 | The digit and dot loops compute the specified claim at every position; `Intent.NumericIs` says by the bytes what it is. |
| Intent.SpansPlaced | core/src/identity/intent_identity.cpp:100-140 | The claimed spans ascend, do not overlap and lie inside the name. |
| Intent.SpansShaped | core/src/identity/intent_identity.cpp:44-140 | Every claimed span is a closed parenthesis, a version or a number of two or more digits, anchored at both ends. |
| Intent.NumericIs | core/src/identity/intent_identity.cpp:25-74 | The reading of a number, by its bytes: dotted groups that end free are a version, else a `v` run that ends free is one, else two digits or more that end free are a number, and nothing else is anything. |
| Intent.NumberIsClaimed | core/src/identity/intent_identity.cpp:100-140 | Completeness: two digits or more, with no word byte on either side and no dot and digit behind them, are exactly one number span, unless a span that starts earlier reaches over them. |
| Intent.LoneDigitIsKept | core/src/identity/intent_identity.cpp:15-74 | A lone digit under the same conditions starts no span. |
| Intent.VersionIsClaimed | core/src/identity/intent_identity.cpp:25-74 | Dotted groups, behind a `v` or not, free on both sides, are one version span to their longest free end, and so are the digits behind a `v`. |
| Intent.ParenthesisIsClaimed | core/src/identity/intent_identity.cpp:100-140 | A parenthesis is one span up to the first that closes; one that none closes starts no span. |
| Intent.NothingReachesOver | core/src/identity/intent_identity.cpp:100-140 | Where no parenthesis opened before and the byte in front belongs to no number, no span reaches over the position, so the claims above are unconditional there. |
| Intent.AloneReads | core/src/identity/intent_identity.cpp:12-140 | A name that is one number, one version or one parenthesis has the class `N`, `vX` or `(M)`. |
| Intent.CanonicalizeIntent | core/src/identity/intent_identity.cpp:100-140 | The class loop yields the trimmed name with exactly those spans masked; `Intent.NumberIsClaimed`, `Intent.VersionIsClaimed` and `Intent.ParenthesisIsClaimed` say which spans there must be. |
| Intent.DiscriminantWindow | core/src/identity/intent_identity.cpp:192-239 | The discriminant loop, which never looks at the class, yields the envelope of exactly the same spans. |
| Intent.EnvelopeIsLeast | core/src/identity/intent_identity.cpp:192-239 | The envelope covers every span, and every window that does contains it. |
| Intent.OutsideEnvelopeKept | core/src/identity/intent_identity.cpp:100-239 | Outside the envelope the class has the name's own bytes. |
| Intent.ClassAndEnvelopeSeparate | core/src/identity/intent_identity.cpp:192-239 | Names with equal class, equal envelope and equal span positions are equal. |
| Intent.PositionsAreNeeded | core/src/identity/intent_identity.cpp:192-239 | Two concrete different names share class and envelope, so the positions cannot be dropped. |
| Intent.CanonicalizeMarker | core/src/identity/intent_identity.cpp:148-158 | The class of a versioned marker is the class of its head and one version mask. |
| Intent.DiscriminantOf | core/src/identity/intent_identity.cpp:175-190 | The window of a versioned name opens at the head's first span or at the version, and closes at the end of the name. |
| Intent.OneTokenVersionOf | core/src/identity/intent_identity.cpp:160-173 | The trim, the blank scan and the last occurrence of the introducer give the specified version: a tail of the trimmed one-token name that begins right behind the last introducer, or nothing. |
| Intent.VersionExactly | core/src/identity/intent_identity.cpp:160-173 | A version is returned exactly for a one-token name that holds the declared introducer, and it is all that stands behind the introducer's last place. |
| Intent.ReturnedVersionAgrees | core/api/canon.api.cppm:1276-1284 | For every name and introducer, with the version the recognizer returns, class and discriminant are the two readings of one list of spans: the class masks exactly those spans and the discriminant is their envelope. |
| Intent.VersionedClassAgrees | core/src/identity/intent_identity.cpp:148-190 | For any version that is a tail of the trimmed name, returned by a recognizer or not: class and discriminant claim the same spans if and only if no blank stands between head and version. |
| Intent.BlankBeforeVersion | core/src/identity/intent_identity.cpp:148-190 | The condition is needed: a name of three bytes with a blank before its version breaks the agreement. `Intent.ReturnedVersionAgrees` shows no recognizer returns such a version. |
| DeclaredRuns.ClaimsSound | core/src/identity/intent_identity.cpp:284-323 | For every form and every set of runs whose markers do not end in a digit the claims are strictly ascending and disjoint, and each is a maximal digit run equal to a declared value behind one of its markers. |
| DeclaredRuns.ClaimsComplete | core/api/canon.api.cppm:1196-1204 | When no marker holds a digit a run is claimed if and only if it stands behind a marker at a boundary, equals the value and no letter follows. |
| DeclaredRuns.DocumentedIsText | core/api/canon.api.cppm:1196-1204 | What documented means, by the bytes: the marker stands with no letter or digit before it, the value right behind it, all digits, with no letter or digit behind it. |
| DeclaredRuns.LostExactly | core/api/canon.api.cppm:1196-1204 | For every run, however many markers it has: a documented run of the form is lost if and only if every marker it stands behind lies inside another run the scan took. |
| DeclaredRuns.MarkerOrderMatters | core/src/identity/intent_identity.cpp:284-302 | Two orders of one marker set claim differently: a concrete form and two runs. |
| DeclaredRuns.MarkerOrderIrrelevant | core/src/identity/intent_identity.cpp:284-302 | Without a digit in any marker the claims depend on the set of markers only. |
| DeclaredRuns.DigitMarkersShadow | core/api/canon.api.cppm:1195-1204 | With a digit inside a marker the documented rule fails: a concrete run stands behind a marker and is not claimed. |
| DeclaredRuns.OneMarkerExactly | core/api/canon.api.cppm:1196-1204 | For a run with one marker every documented run of every form is claimed if and only if the marker does not shadow itself; otherwise a form and an unclaimed documented run are constructed from it. |
| DeclaredRuns.ShadowsNeedDigits | core/api/canon.api.cppm:1196-1204 | A marker shadows itself only if it holds a digit, and not every digit does that. |
| DeclaredRuns.RunOrderIrrelevant | core/src/identity/intent_identity.cpp:305-323 | The claims depend on the set of runs only, not on their order or repetition. |
| DeclaredRuns.ClaimAt | core/src/identity/intent_identity.cpp:284-302 | One step advances past the run the first opening marker opens, and records it exactly when it is the value. |
| DeclaredRuns.ClaimDeclaredRuns | core/src/identity/intent_identity.cpp:305-323 | The scan, the sort and the removal of duplicates yield the specified claims, the early search included. |
| DeclaredRuns.AbsentValue | core/src/identity/intent_identity.cpp:309-313 | A form that does not hold the value holds no claim of it, which justifies the early search. |
| DeclaredRuns.ApartPlaced | core/src/mask/mask.cpp:1165-1185 | Over such claims the copy loop never steps backwards. |
| DeclaredRuns.ReplaceDeclaredRuns | core/src/mask/mask.cpp:1165-1185 | The form with exactly the claims read as the wildcard, or nothing when there is none. |
| DeclaredRuns.RunReadsAsWildcard | core/src/mask/mask.cpp:1165-1185 | A claimed run reads as `<*>` and the text around it as itself. |
| DeclaredRuns.DeclaredDiscriminantOf | core/src/identity/intent_identity.cpp:241-268 | The discriminant with exactly the claims inside the envelope and before the version read as the wildcard. |
| DeclaredRuns.VersionIsKept | core/api/canon.api.cppm:1287-1293 | The version at the end of a name stays as it is printed, whatever runs are declared; before it exactly the runs claimed inside the discriminant are replaced. |
| Preimage.AppendLittleEndian | core/src/compose/compose.cpp:28-39 | The shift loop appends the low bytes, lowest first. |
| Preimage.AppendI64Le | core/src/compose/compose.cpp:34-39 | A signed 64-bit number enters as the eight bytes of its two's complement, lowest first. |
| Preimage.SerializeManifest | core/src/compose/compose.cpp:76-173 | The head, the text lists and the nine row loops, each appending field by field, give exactly the encoding that `Preimage.ManifestBack` decodes. |
| Preimage.TextBack | core/src/compose/compose.cpp:41-45 | A length-prefixed text is read back, whatever follows. |
| Preimage.MarkerBack | core/src/compose/compose.cpp:94-107 | A marker row is read back from its bytes, whatever follows. |
| Preimage.LocationBack | core/src/compose/compose.cpp:115-123 | A location row with its four lists is read back from its bytes, whatever follows. |
| Preimage.ManifestBack | core/src/compose/compose.cpp:76-173 | A manifest whose sizes are below 2^32 is read back from its bytes, hook addresses reduced to their presence, whatever follows. |
| Compose.CanonicalIsUnique | core/src/compose/compose.cpp:57-71 | A set of name-distinct packages has one canonical order, however the caller lists it. |
| Compose.CanonicalKeeps | core/src/compose/compose.cpp:57-71 | Ordering loses and invents no package. |
| Compose.CanonicalAscends | core/src/compose/compose.cpp:57-71 | Each package's name precedes the next one's in byte order. |
| Compose.PreimageBack | core/src/compose/compose.cpp:551-566 | The identity preimage is uniquely decodable: a decoder gives back the versions and the packages in canonical order. |
| Compose.PreimageSeparates | core/src/compose/compose.cpp:551-566 | Equal preimages come from equal versions and, hook addresses aside, the same packages. |
| Compose.ComposePackages | core/src/compose/compose.cpp:543-619 | The package loop builds the specified tables over the canonical order, and the specified preimage; `Compose.FreshShows` says what its views hold. |
| Compose.CompositionOrderFree | core/src/compose/compose.cpp:543-619 | Tables and preimage are the same for every order a name-distinct package set is listed in. |
| Compose.AddDistinct | core/src/compose/compose.cpp:581-590 | The membership loop keeps first occurrences, in order. |
| Compose.DistinctKeepsFirst | core/src/compose/compose.cpp:581-590 | The distinct names stand at exactly the positions that repeat no earlier name, in order. |
| Compose.ViewShows | core/src/compose/compose.cpp:469-537 | Refused exactly for a dialect that names no package or a channel no package lists; else every table of the view has exactly the rows without a gate and those gated by the declared name, in the order and as often as the composition has them. |
| Compose.FreshShows | core/src/compose/compose.cpp:543-619 | A fresh composition shows, of every table, exactly the rows without any gate. |
| Compose.ViewsForget | core/src/compose/compose.cpp:469-537 | A view of a view of any depth is the view of the original composition under the last declaration, and is refused exactly when some declaration is unknown; `Compose.ViewShows` says what it holds. |
| Compose.WithholdsExactly | core/src/compose/compose.cpp:455-463 | Nothing is withheld for a channel if and only if its view shows every marker the dialect admits. |
| Arena.PowerTest | core/src/arena/arena_allocator.cpp:17-20 | Only powers of two pass the bit test. |
| Arena.PowersPass | core/src/arena/arena_allocator.cpp:17-20 | Every power of two passes it. |
| Arena.AlignUpIsMask | core/src/arena/arena_allocator.cpp:38-44 | On addresses that do not wrap the mask computation is the least multiple of the alignment at or above the value. |
| Arena.NewBlockFits | core/src/arena/arena_allocator.cpp:188-192 | Counted without bound, a new block always fits the request that caused it. |
| Arena.AdvanceKeepsBlocks | core/src/arena/arena_allocator.cpp:181-186 | Advancing to a retained block rewinds no live byte: its offset is already zero. |
| Arena.OldRegionApart | core/src/arena/arena_allocator.cpp:198-228 | Counted without bound, a region handed out earlier lies apart from the bytes handed out now. |
| Arena.StepSound | core/src/arena/arena_allocator.cpp:177-254 | Counted without bound, every operation keeps the arena sound: live regions aligned, inside one block, pairwise disjoint, stored texts intact, bytes used equal to the sum of offsets. |
| Arena.RunSound | core/src/arena/arena_allocator.cpp:177-254 | So does every run of operations. `ArenaWords.RunWordSound` carries it to the 64-bit code. |
| Arena.UsedWithinCapacity | core/src/arena/arena_allocator.cpp:262-312 | Bytes used never exceed the capacity, and every byte of a live region is owned. |
| Arena.ReplayIsTheSame | core/src/arena/arena_allocator.cpp:240-254 | After a reset the same requests get the same answers and take no new block, and the arena ends in the state it ended in before. |
| ArenaWords.AlignUpWraps | core/src/arena/arena_allocator.cpp:39-44 | In 64-bit words the rounding is the exact one modulo 2^64, and it wraps to at most zero. |
| ArenaWords.PaddingNeverWraps | core/src/arena/arena_allocator.cpp:207-210 | Whatever wraps on the way, the padding a word computes is the exact padding. |
| ArenaWords.ExactExactly | core/src/arena/arena_allocator.cpp:177-228 | On every sound arena inside the address space an allocation in 64-bit words places what the unbounded one places if and only if none of the sums on its path (fit test, growth, size and alignment) reaches 2^64. |
| ArenaWords.RoomyIsEnough | core/src/arena/arena_allocator.cpp:177-228 | A bound the caller can test: when twice the capacity plus size plus alignment is below 2^64 no sum on the path wraps. |
| ArenaWords.LiveByteGivenAgain | core/src/arena/arena_allocator.cpp:212-214 | An input that wraps: after `allocate(1, 1)` the request `allocate(SIZE_MAX, 1)` passes the fit test, sets offset and bytes used back to zero, and the live byte is free again. |
| ArenaWords.LargestNeverPlaced | core/src/arena/arena_allocator.cpp:188-226 | On an unused last block smaller than that `allocate(SIZE_MAX, 1)` is never placed, however many blocks the system still has: the retry loop ends with the system's refusal. |
| ArenaWords.StepAgrees | core/src/arena/arena_allocator.cpp:177-254 | Within the bound every operation of the 64-bit code is the unbounded operation, and the arena stays inside the address space. |
| ArenaWords.StepWordSound | core/src/arena/arena_allocator.cpp:177-254 | Within the bound every operation of the 64-bit code keeps the arena sound: live regions aligned, inside one block, pairwise disjoint, stored texts intact, bytes used equal to the sum of offsets. |
| ArenaWords.RunWordSound | core/src/arena/arena_allocator.cpp:177-254 | So does every run of operations that each stay within the bound. |
| ArenaWords.ArenaAllocator.constructor | core/src/arena/arena_allocator.cpp:122-134 | A new arena is sound: one empty block, nothing used, nothing live. |
| ArenaWords.ArenaAllocator.Create | core/src/arena/arena_allocator.cpp:122-134 | Construction is refused exactly for an empty initial block. |
| ArenaWords.ArenaAllocator.GrowToFit | core/src/arena/arena_allocator.cpp:177-196 | Moves to the next retained block, or appends one of the larger of the wrapped double and the wrapped sum of size and alignment, or reports that the system has none. |
| ArenaWords.ArenaAllocator.Place | core/src/arena/arena_allocator.cpp:205-227 | For every request and every supply of blocks the retry loop terminates in the specified wrapped state with the specified address. |
| ArenaWords.ArenaAllocator.AllocateBytes | core/src/arena/arena_allocator.cpp:198-228 | Every request follows the wrapped step; within the bound that is the unbounded step, the answer is its answer, and the arena stays sound. |
| ArenaWords.ArenaAllocator.StoreString | core/src/arena/arena_allocator.cpp:230-238 | Every text follows the wrapped step, the copy stands at the answered address and the empty text answers null; within the bound the arena stays sound. |
| ArenaWords.ArenaAllocator.ResetAll | core/src/arena/arena_allocator.cpp:240-254 | All offsets rewound, nothing live; a sound arena stays sound. |
| ArenaWords.ArenaAllocator.Owns | core/src/arena/arena_allocator.cpp:296-312 | True if and only if the address is not null and lies inside some block. |
| ArenaWords.ArenaAllocator.Capacity | core/src/arena/arena_allocator.cpp:267-273 | The sum of all block sizes, modulo 2^64. |
| FlatJson.FlatComplete | core/src/strategy/simdjson_scratch.hpp:316-342 | Every flat escape-free object printed with the blanks and commas the reader allows is read, its members reported in order. |
| FlatJson.FlatSound | core/src/strategy/simdjson_scratch.hpp:316-342 | Whatever the reader accepts is such a printed object, and the report is its members. |
| FlatJson.FlatBytes | core/src/strategy/simdjson_scratch.hpp:205-342 | The byte classes of the reader, by their codes. |
| JsonRoles.ExtractString | core/src/strategy/simdjson_scratch.hpp:205-226 | The string loop computes the specified end. |
| JsonRoles.ConsumeValue | core/src/strategy/simdjson_scratch.hpp:258-289 | The value reader computes the specified scalar and end. |
| JsonRoles.ReadKeyValue | core/src/strategy/simdjson_scratch.hpp:294-311 | The member reader computes the specified member and end. |
| JsonRoles.ScanFlatJson | core/src/strategy/simdjson_scratch.hpp:317-342 | Succeeds if and only if the line is a flat object without a declined member, and then the sink has taken every member in order. |
| JsonRoles.CompoundKeyNameIs | core/src/strategy/simdjson_scratch.hpp:243-253 | No dot gives the key, one dot the name after it, more dots nothing. |
| JsonRoles.TierTest | core/src/strategy/json.cpp:517-518 | The resolved name has the key's length if and only if the key has no dot. |
| JsonRoles.RankIs | core/src/strategy/json.cpp:86-107 | The rank of a string member: under a name of a role's list its place in that list, under a compound key that ends in the name that place past every exact one, and for any other role none. |
| JsonRoles.NoRankOutside | core/src/strategy/json.cpp:86-98 | A member under any other name, or that is no string, has no rank. |
| JsonRoles.ChoiceIsBest | core/src/strategy/simdjson_scratch.hpp:430-449 | After any members the incremental choice is the string member of least rank, the earliest on ties, or nothing when none offers. |
| JsonRoles.BestIsUnique | core/src/strategy/simdjson_scratch.hpp:430-449 | At most one member is best, so the choice is determined. |
| JsonRoles.UnrelatedMovesNothing | core/src/strategy/json.cpp:499-503 | Inserting a member that names no role, anywhere, moves no choice. |
| JsonRoles.CompoundNeverMoves | core/src/strategy/json.cpp:100-107 | A compound key inserted beside an exact name changes nothing. |
| JsonRoles.JsonRecordSink.constructor | core/src/strategy/json.cpp:598-601 | A new sink has taken nothing. |
| JsonRoles.JsonRecordSink.Offer | core/src/strategy/json.cpp:574-579 | Exactly the named role moves, and only to a lower rank. |
| JsonRoles.JsonRecordSink.CaptureOrdinal | core/src/strategy/json.cpp:584-596 | Exactly the first number under a catalogue name is read, and the counter is the number of values present. |
| JsonRoles.FirstNumberIs | core/src/strategy/json.cpp:584-596 | The number a field takes is that of the first member under the field's own name that is a number, and there is none exactly when no such member stands in the list. |
| JsonRoles.JsonRecordSink.TakeMember | core/src/strategy/json.cpp:509-521 | Declines exactly the OTEL members, and keeps every invariant of choices, ordinals and counter over the members taken. |
| DecimalScale.ParseDecimalScaled | core/api/canon.api.cppm:380-430 | The two digit loops with their overflow guards compute the specified value, absent exactly when the text is no decimal or the value leaves 64 bits. |
| DecimalScale.ScaledTruncates | core/api/canon.api.cppm:380-430 | The value is the decimal times the scale, truncated toward zero. |
| DecimalScale.DecimalExactly | core/api/canon.api.cppm:380-430 | A text is read if and only if it is digits with at most one dot and at least one digit, between bytes of seven kinds that are trimmed, and its value fits 64 bits; and then as the decimal times the scale, cut to a whole number. |
| KeyValue.ExtractPairs | core/src/strategy/kv.cpp:190-239 | The scan computes the specified pairs. |
| KeyValue.PairsInOrder | core/src/strategy/kv.cpp:190-239 | The pairs lie in disjoint ascending ranges of the line, each around an equals sign, key and value not empty. |
| KeyValue.PrintedFound | core/src/strategy/kv.cpp:190-239 | Every printed list of pairs, bare or quoted, is extracted as it was printed. |
| KeyValue.LogfmtBytes | core/src/strategy/kv.cpp:24-37 | The byte classes of the scan, by their codes. |
| KeyValue.RecordIs | core/src/strategy/kv.cpp:66-154 | The record from the pairs' texts alone: each field from the first pair that names and fills it; the content the other pairs in order with single spaces between, the first message as its value alone when nothing stands before it, every other pair as key, equals sign and value. |
| KeyValue.WidthsFit | core/src/strategy/kv.cpp:190-239 | Written side by side the pairs fit in the line. |
| KeyValue.ContentBound | core/src/strategy/kv.cpp:79-83 | The content needs at most the line plus one separator for each pair after the first, so the buffer bound is never reached. |
| KeyValue.WritePair | core/src/strategy/kv.cpp:87-136 | One pair writes exactly its contribution at the write position and keeps what stands before. |
| KeyValue.WriteAll | core/src/strategy/kv.cpp:87-136 | The pair loop never writes past its buffer and leaves exactly the specified content and fields. |
| KeyValue.Parse | core/src/strategy/kv.cpp:66-154 | Absent exactly when the line holds no pair; otherwise the fields and the content of `KeyValue.RecordIs`, from the texts of the pairs, and the whole line when no content was written. |

## Left out

- DeclaredRuns.ClaimsComplete: stated for sets of runs whose markers hold no digit; with digits `DeclaredRuns.LostExactly` states, run by run, which documented runs are lost.
- MaskPaths.DiagnosticComposite: the contract bounds what is masked; what is masked, for every token, is `DiagnosticLaws.DiagnosticReads`.
- TokenShapes.ShelledNumber: stated for the shells other than the square one; a square shell can be a bracketed index or timestamp first, and `MaskLaws.UnclaimedExactly` covers it when no rule claims it.
- Intent.NumberIsClaimed: under a span that starts earlier (an open parenthesis, a version) a number is part of that span; `Intent.NothingReachesOver` says where none does.
- ArenaWords.ArenaAllocator.AllocateBytes: the addresses of new blocks are parameters (within the bound fresh, aligned, apart from the others and inside the address space), and the exception of a system without memory is the end of that list.
- Preimage.ManifestBack: an address of a package hook enters only as present or absent, as in the code.
- Compose.ComposePackages: distinct names are required, because the fences that terminate on a conflict are modelled as preconditions; the other conflict classes and the shadow report are not modelled.
- KeySort.SortByKeySorts: library sorts are modelled by one sort that meets their contract; `KeySort.AscendingIsUnique` shows no other sort could answer differently on distinct keys.
- SHA-256 and the identity digest: foreign code; the preimage stands for it.
- The version comparison of the package order: unreachable, because names are distinct.
- NUMA placement, poisoning on reset, moved-from arenas and logging.
- Storage of template and params in the arena: the masker returns values.
- Reading through simdjson, OTEL records, descended members, and `JsonRecordSink::apply`.
- The stamp, level and component parsers the key=value reader calls: parameters of the model.
- The other timestamp formats of `core/src/utils/time_utils.cpp`, and log levels.
- The fixed-width transport row's stamp parser beyond the ISO form, and stack resolution by name.
- Overflow of the 64-bit nanosecond count inside the clock library: instants are integers.
- Conversions of `u128` and `i128` to narrower types.
- Token predicates (addresses, hexadecimal runs, wrapper shells) are functions, as in the code; only the rules that write a normal form are also loops.
- Pre-commit checks over the rule catalogues (`core/src/mask/mask.cpp:1700-1767`).
- Failure lexicon, format strategies and command-line tools.
