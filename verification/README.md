# KuiBaDB verification

A Dafny model of four parts of KuiBaDB, a PostgreSQL-compatible server written in Rust, with proofs about every
input, every run or every interleaving:

- **The SQL expression front end.** The terminals of the LALRPOP grammar with the longest-match rule (`Lexer`), writing
  lexemes back as text (`Rendering`), the expression grammar as a derivation relation with a deterministic parser
  (`Grammar`), source positions (`Spans`), a printer with minimal parentheses (`Printer`), identifiers, target lists and
  SELECT (`Targets`), signed numeric literals (`NumericLiterals`), semantic analysis (`Sem`) and expression digests
  (`SemHash`).  On top of these: the terminals as regular expressions and what single texts are (`TokenPatterns`,
  `LiteralTexts`), whole statements (`Statements`), and which procedures a text calls (`Operators`).
- **The wire protocol** (PostgreSQL Frontend/Backend Protocol 3.0, sections 52.6 to 52.8 of the PostgreSQL 13 manual).
  Integers in network byte order on hosts of either byte order (`ByteOrder`), strings (`Utf8`), the backend messages and
  their serialisers (`Messages`), a decoder that inverts them (`MessageDecoder`), frames in and out of a socket
  (`Framing`), the first packet of a session (`Startup`).
- **The session** (`Session`, `SessionTraces`, `SessionOutcomes`): what `postgres_main` sends over any input and any pattern
  of I/O failures, as words of the grammar `N? (E | R S* K Z (C Z)* E?)`, and which word each input gets; and `Urings`
  (`RoundRobin`), whose callers share wrapping counters.
- **The settings** (`GucNames`, `GucRegistry`, `GucStates`, `SettingEffects`): name mangling, the tables and the name map
  that `build.rs` generates, gated assignment at run time, and what it amounts to setting by setting.

`dafny verify dfyconfig.toml` checks the project. Code of the repository that changes state (the reused buffers, the
socket, the digest context, `ParseState`, `GucState`, `Urings`) is modelled by classes and loops, each tied to a function
by its `ensures`; the theorems are about those functions.

## Notes on the behaviour found

- *Lexing.* `(?i)` is Unicode-aware, so U+017F and U+212A match the letters s and k of a keyword; the model keeps this.
  Text between double quotes is an identifier only if it is of class ID: `"foo"` and `"Select"` are not in the language
  (`Targets.QuotedIdentifier` gives the exact condition).
- *Literals.* The type of an integer literal depends on its magnitude alone, so -2147483648 is INT8.
- *Target lists.* The number after the last target must fit a `u16`, so 65535 targets are rejected and 65534 accepted
  (`Sem.TargetsExact`). This follows a release build, where the addition wraps; a debug build panics instead.
- *Messages.* `as u16` and `as u32` truncate silently. A message survives the wire exactly when its strings are NUL-free,
  it has at most 65535 columns of at most 2^31-1 bytes, and the frame length fits 32 bits
  (`MessageDecoder.RoundTripIffEncodable`).
- *Query.* The last byte of a Query body is dropped without being looked at; a start-up packet may carry anything after
  its terminator.
- *Round robin.* Use counts within a lap differ by at most 1, over `w` wraparounds of the 64-bit counter by at most `w + 1`, and
  they stay within 1 in every window of every length exactly when the number of rings divides 2^64
  (`RoundRobin.WithinOneIffDivides`).
- *Mangling.* For names of non-empty `[a-z0-9]` components, an underscore between a letter and a digit leaves no mark: `a_1`
  and `a1` get the same enum item.  One between two digits stays, so `a1_2` is safe.  A name can be read back from its item
  exactly when every underscore in front of a digit follows a digit (`GucNames.InvertsIffClear`), and two names clash exactly
  when they differ only in underscores that leave no mark (`GucNames.ClashIff`).
- *Search path.* At the end of a run it is valid exactly when it was recomputed after the last assignment of `search_path`
  (`GucStates.ValidIffRecomputed`).

## Model

| member | source | states |
|---|---|---|
| Lexer.LongestMatches | src/parser/sql.lalrpop:133-175 | what the scan of one terminal takes is in the language of its regular expression |
| Lexer.LongestIsLongest | src/parser/sql.lalrpop:133-175 | and nothing longer at that position is |
| Lexer.TierDisjoint | src/parser/sql.lalrpop:133-175 | two terminals of one tier never match the same text, so ties are always decided |
| Lexer.ScanExact | src/parser/sql.lalrpop:133-175 | the token found is the longest match of any terminal, ties broken by tier; scanning fails only where nothing matches |
| Lexer.LexExact | src/parser/sql.lalrpop:133-175 | a token list is the lexer's output exactly when it tiles the input: white space in the gaps, the prescribed longest match everywhere else |
| Rendering.TokenStands | src/parser/sql.lalrpop:133-175 | a token is recognised wherever the next character cannot continue it |
| Rendering.RenderLexes | src/parser/sql.lalrpop:133-175 | any token list written with white space, or none where tokens cannot merge, lexes back to it |
| Rendering.LexedTextRerenders | src/parser/sql.lalrpop:133-175 | whatever lexes, lexes to the same tokens again when written with single spaces |
| TokenPatterns.PatternLanguage | src/parser/sql.lalrpop:133-175 | the language of each terminal is that of the regular expression the grammar writes for it |
| TokenPatterns.KeywordText | src/parser/sql.lalrpop:135-165 | a text is a keyword exactly when it spells it letter by letter in either case, with U+017F for s and U+212A for k, and nothing else is |
| TokenPatterns.TextClass | src/parser/sql.lalrpop:133-175 | a text that matches several patterns is a keyword first, then a lower-case identifier, then another identifier; everything else has one pattern |
| TokenPatterns.BlankText | src/parser/sql.lalrpop:133-175 | a text has no tokens exactly when it consists of Unicode white space |
| LiteralTexts.QuotedText | src/parser/sql.lalrpop:119-122 | a text between single quotes is a varchar constant with exactly the characters between them |
| LiteralTexts.DigitText | src/parser/sem.rs:45-72 | from the digits to the constant: type, layout, position and value, by the number they spell |
| LiteralTexts.PointText | src/parser/sem.rs:45-72 | digits around a point are the float they read as, or an error |
| Grammar.ExprSound | src/parser/sql.lalrpop:224-285 | every tree the parser builds is derived by a_expr, on any prefix of the tokens |
| Grammar.ExprComplete | src/parser/sql.lalrpop:224-285 | every derivation is what the parser's loops build, so sums and products associate to the left |
| Grammar.ParseIffDerives | src/parser/sql.lalrpop:224-285 | the parser accepts a token sequence with a tree exactly when the grammar derives that tree |
| Grammar.Unambiguous | src/parser/sql.lalrpop:224-285 | no token sequence has two trees |
| Spans.ParsedSpansNest | src/parser/sql.lalrpop:224-285 | in every parsed text spans nest, operands are disjoint and in order, and operators and literals stand in the text where the spans say, parentheses or not |
| Spans.ParsedByteSpansNest | src/parser/sql.lalrpop:224-285 | the same for the byte offsets that `@L` and `@R` give, after characters of any encoded length |
| Printer.TextRoundTrip | src/parser/sql.lalrpop:224-285 | every buildable tree, printed with any white space or none, lexes and parses back to itself up to positions |
| Printer.PrintIsShortest | src/parser/sql.lalrpop:224-285 | every parsed tree is buildable, and no text that parses to it has fewer tokens than its printing |
| NumericLiterals.NumericOnlyProduces | src/parser/sql.lalrpop:88-103 | the smallest i32 is never produced, so negation never overflows |
| NumericLiterals.LiteralTyping | src/parser/sem.rs:45-72 | an integer literal is INT4, INT8 or a float by its magnitude alone; its signed value is exact on the integer types, and beyond them it is accepted exactly when it reads as a float, with the sign applied |
| NumericLiterals.DecimalTyping | src/parser/sem.rs:45-72 | a literal with a point always takes the float path |
| NumericLiterals.DisplayReadsBack | src/parser/syn.rs:72-85 | the display text of every number NumericOnly can produce lexes and parses back to it |
| Decimals.ParseOfInt | src/parser/syn.rs:72-85 | printing an integer and `from_str` undo each other on every integer in range |
| Decimals.ParseDigits | src/parser/sql.lalrpop:94-103 | on a digit string `from_str` succeeds exactly up to the type's maximum, leading zeros included |
| Decimals.ParseIntExact | src/common.rs:24-32 | `from_str` of an integer reads exactly an optional sign and digits that stand for a number within the bounds |
| Targets.QuotedIdentifier | src/parser/sql.lalrpop:202-210 | a quoted word is an identifier exactly when it is neither all lower case nor a keyword, and then keeps its case |
| Targets.CollectTargets | src/parser/sql.lalrpop:300-306 | pushing targets onto one vector gives the parse of the comma-separated list |
| Targets.ParseSelectIffDerives | src/parser/sql.lalrpop:287-326 | a SELECT statement is accepted with a target list exactly when the grammar derives that list |
| Statements.SemicolonOptional | src/parser/sql.lalrpop:20-23 | a SELECT statement is accepted with and without its semicolon, as the same list, and nothing else is |
| Statements.TargetSpelled | src/parser/sql.lalrpop:287-298 | a target is an expression, or an expression, `as` and a label in one of the three forms of an identifier |
| Statements.EntriesNamed | src/parser/sem.rs:304-340 | entry k has number k + 1 and its label for a name, or `?column?` |
| Statements.ListAccepted | src/parser/sem.rs:304-340 | a list is accepted exactly when every expression is and it has at most 65534 entries |
| Statements.FirstListError | src/parser/sem.rs:304-340 | the first expression that fails gives the error of the list; 65535 that do not are too many |
| Sem.ParseState.TransformExprRecurse | src/parser/sem.rs:278-283 | the recursion gives the analysis of the expression |
| Sem.ParseState.TransformAExprOp | src/parser/sem.rs:264-276 | operands first, left before right, then the operator; the first error wins |
| Sem.ParseState.TransformExpr | src/parser/sem.rs:285-296 | the expression kind is restored on success and on failure |
| Sem.ParseState.TransformTargetEntry | src/parser/sem.rs:304-322 | an entry gets the next number and its label or `?column?`; past 65535 it fails |
| Sem.ParseState.TransformTargetList | src/parser/sem.rs:325-340 | the whole list is analysed in order, stopping at the first error |
| Sem.TargetsExact | src/parser/sem.rs:304-340 | a list is accepted exactly when every expression is and the numbers fit, and entries are numbered consecutively |
| Sem.AnalyzeIffTyped | src/parser/sem.rs:221-283 | analysis succeeds exactly on the typable expressions (every operator resolves to a procedure with a result type, every literal parses), with their only type |
| Sem.AnalyzedIsWellTyped | src/parser/sem.rs:221-283 | the result is well typed at every node, has the nodes, order and positions of the syntax tree, and calls at each node the procedure its own operator has for its operands |
| Operators.PrefixLooked | src/parser/sem.rs:208-253 | a prefix operator is looked up by its own name, part by part, no left type and its operand's type, with every outcome of the lookup |
| Operators.InfixLooked | src/parser/sem.rs:183-253 | an infix operator by its own name and the types of its operands, the left one first |
| Operators.FirstError | src/parser/sem.rs:264-276 | the error of an operand is the error of the expression, the left operand's first |
| Operators.TextCalls | src/parser/sem.rs:221-283 | every call of an analysed text is to the procedure of the operator character written at that place, for the types of the operands written there |
| Sem.AnalysisKeepsMeaning | src/parser/sem.rs:221-283 | the analysed tree evaluates to what the source tree means when operators are chosen at run time by the types of their operands |
| Sem.RejectedCannotRun | src/parser/sem.rs:221-283 | an expression that analysis rejects has no meaning to lose |
| Sem.OnlySignFlips | src/parser/sem.rs:45-72 | negating a float flips the top bit and no other |
| SemHash.HashConst | src/parser/sem.rs:92-114 | the digest of a constant of a literal type is that of its tag, type and value bytes |
| SemHash.HashFunc | src/parser/sem.rs:125-136 | the digest of a call is that of its tag, result type, procedure and argument digests in order |
| SemHash.HashExpr | src/parser/sem.rs:152-157 | the digest of an expression, by its kind |
| SemHash.FeedsSpelled | src/parser/sem.rs:92-136 | the bytes fed on a host with the most significant byte first, spelled out: the tags of eight bytes, the type, and the value by its kind |
| SemHash.FedReversed | src/parser/sem.rs:92-136 | on the other kind of host, every number the other way round |
| SemHash.SameHashEqual | src/parser/sem.rs:92-157 | trees equal apart from positions have equal digests |
| SemHash.HashIdentifies | src/parser/sem.rs:92-157 | trees with equal digests are equal apart from positions, or two different strings they consume have the same digest |
| SemHash.DigestDecidesMeaning | src/parser/sem.rs:92-157 | two analysed expressions with one digest are equal up to positions and have the same value, for every catalog and sound procedures, unless the digest function collides on strings they consume |
| SemHash.ValidHashersExist | src/parser/sem.rs:92-114 | the assumptions on type encodings can be met over any 16-byte digest: a type description has fixed-width fields |
| ByteOrder.SerBeIsNetworkOrder | src/utils/ser.rs:12-49 | `to_be` followed by the memory image is network byte order on hosts of either byte order |
| ByteOrder.ByteBuf.SerBe | src/utils/ser.rs:47-49 | appends exactly the big-endian bytes |
| ByteOrder.ByteBuf.SerBeAt | src/utils/ser.rs:52-54 | overwrites exactly the bytes of the value in place |
| Utf8.DecodeInverts | src/protocol.rs:129-134 | `from_utf8` gives back the string `as_bytes` encoded |
| Utf8.SpellsIffEncodes | src/utils/ser.rs:56-60 | the bytes of a character are the one well-formed sequence that spells it: shortest form, by ranges of lead and continuation bytes |
| Utf8.DecodeExact | src/protocol.rs:129-134 | `from_utf8` accepts exactly the concatenations of well-formed sequences and gives the characters they spell |
| Messages.Find | src/protocol.rs:113-118 | the first position of the byte at or after the start, or -1 if there is none |
| Messages.ReadCstr | src/protocol.rs:120-137 | on success the string is NUL-free, its encoding and terminator stand at the cursor, and the cursor moves past them within the data |
| Messages.ReadCstrInverts | src/protocol.rs:120-137 | reading a terminated NUL-free string gives it back |
| Messages.ReadCstrFails | src/protocol.rs:120-137 | a string is refused exactly for want of a zero byte, or when what precedes the first one is not UTF-8 |
| Messages.SerCstr | src/utils/ser.rs:56-60 | appends the string's bytes and a zero byte |
| Messages.SerializeErrmsg | src/protocol.rs:211-245 | whatever the buffer held, it ends as the frame of the present fields, with the length patched in |
| Messages.SerializeCommandComplete | src/protocol.rs:364-374 | the same for CommandComplete |
| Messages.SerializeParameterStatus | src/protocol.rs:387-398 | the same for ParameterStatus |
| Messages.SerializeRowDescription | src/protocol.rs:468-491 | the same for any list of fields |
| Messages.SerializeDataRow | src/protocol.rs:497-519 | the same for any list of columns, null or not |
| Messages.Serialize | src/protocol.rs:97-99 | the same for every message |
| Messages.LengthField | src/protocol.rs:211-245 | the length field of every frame that fits is its total size minus 1 |
| MessageDecoder.ReadErrFieldsInverts | src/protocol.rs:211-245 | all eight choices of present S, C and M fields are recovered |
| MessageDecoder.ReadFieldInverts | src/protocol.rs:474-486 | a field description is recovered: absent oid and attribute number, negative modifier and length included |
| MessageDecoder.ReadColumnInverts | src/protocol.rs:503-514 | a column is recovered, null apart from empty |
| MessageDecoder.DecodeAtExact | src/protocol.rs:97-99 | the decoder accepts the frames of encodable messages and nothing else, anywhere in a stream |
| MessageDecoder.RoundTripIffEncodable | src/protocol.rs:468-519 | a message survives encoding and decoding exactly when a frame can carry it |
| MessageDecoder.StreamExact | src/protocol.rs:90-95 | a byte stream decodes to a message sequence exactly when it is the concatenation of their encodings and each is encodable |
| Framing.Sock.WriteMessage | src/protocol.rs:90-95 | exactly the frame is appended to the output, whatever the shared buffer held |
| Framing.Sock.ReadBody | src/protocol.rs:28-37 | the reused buffer holds exactly the body, without residue; too short a length takes the process down |
| Framing.Sock.ReadMessage | src/protocol.rs:39-43 | type and body of the frame at the current position, and the position after it |
| Framing.MessageAtExact | src/protocol.rs:28-43 | a frame is read at a position exactly when its encoding stands there |
| Framing.FramesRecovered | src/protocol.rs:28-43 | any frames sent back to back are read as exactly those frames |
| Framing.DeserializeQueryExact | src/protocol.rs:347-358 | a Query body is accepted exactly when it is UTF-8 text followed by one byte of any value |
| Framing.QueryBytesExact | src/protocol.rs:347-358 | the same by byte ranges |
| Framing.QueriesRecovered | src/protocol.rs:28-80 | the queries a client sends are the queries the server sees |
| Startup.CancelExact | src/protocol.rs:58-69 | a packet is a cancel request exactly when it is the encoding of one |
| Startup.Deserialize | src/protocol.rs:140-168 | the cursor loop stays within the data, ends on every input, and computes the parse of the packet |
| Startup.ReadPairsInverts | src/protocol.rs:149-158 | a run of pairs before an empty name is read as those pairs |
| Startup.ReadPairsSound | src/protocol.rs:149-158 | nothing else is accepted |
| Startup.StartupInverts | src/protocol.rs:140-178 | decoding a client's packet gives its version halves, the last-wins parameters, the user, and the database or else the user |
| Startup.StartupSound | src/protocol.rs:140-168 | an accepted packet is the encoding of well-formed pairs with a user among them, followed by anything |
| Startup.StartupIsNoRequest | src/protocol.rs:58-81 | a start-up packet of any version but 1234, 3.0 in particular, is never taken for a cancel or TLS request |
| Startup.RequestCodes | src/protocol.rs:58-81 | the codes are 1234 and 5678 for cancel, 1234 and 5679 for TLS |
| Startup.UserAndDatabase | src/protocol.rs:140-178 | the parameters named `user` and `database` decide who connects where |
| Startup.Complaints | src/protocol.rs:140-168 | a well-formed packet without `user` is refused for that, and exactly a packet under four bytes for its size |
| Session.Backend.Send | src/protocol.rs:90-95 | one message is added to the trace and its bytes to the output |
| Session.Backend.ReportAllGucs | src/protocol.rs:400-421 | one ParameterStatus per reported setting, in map order |
| Session.Backend.ServeOne | src/lib.rs:256-293 | one turn of the loop: ReadyForQuery, then the end of the session or one completed query |
| Session.Backend.ServeQueries | src/lib.rs:256-293 | the loop sends what its step-by-step description says, over any input and I/O faults |
| Session.Backend.ServeLogin | src/lib.rs:229-254 | rejection without a greeting, or the greeting and the query loop |
| Session.Backend.DoPostgresMain | src/lib.rs:217-294 | the conversation, TLS refusal included |
| Session.Backend.PostgresMain | src/lib.rs:299-314 | the bytes written are exactly those of the trace, which ends with the error response if the conversation broke |
| SessionTraces.TraceInGrammar | src/lib.rs:205-314 | the output of every session that does not bring the process down is a word of `N? (E \| R S* K Z (C Z)* E?)` |
| SessionTraces.ServedCounts | src/lib.rs:205-314 | in every such trace of a served client there is one more Z than C, one R, one K, and at most one E, at the end |
| SessionTraces.ReportsExactly | src/protocol.rs:400-421 | every setting flagged for it is reported exactly once, no other is, whatever the order of the map |
| SessionTraces.ReportedValues | src/protocol.rs:400-421 | each report carries the setting's current value |
| SessionTraces.ServeAnswersQueries | src/lib.rs:256-293 | without I/O faults there is one completion for every readable query up to the first frame that is not one |
| SessionTraces.EndToEnd | src/lib.rs:217-294 | a client that logs in, sends queries and terminates is sent the greeting and one completion per query, after the TLS refusal if it asked |
| SessionOutcomes.TurnedAwayIff | src/lib.rs:217-244 | without I/O failures a client is turned away, with one error, exactly when its packet does not decode or names an encoding that differs from the server's beyond ASCII case |
| SessionOutcomes.ServedExactly | src/lib.rs:245-294 | a client that is let in gets one completion per query and then the end its next bytes call for: none after Terminate or -1, else the error for an unexpected message, an unreadable query or the end of input |
| SessionOutcomes.TailSplits | src/lib.rs:256-293 | every sequence of bytes is some queries and then one of those ends, or a length field below 4 |
| SessionOutcomes.LoopFails | src/lib.rs:256-293 | the first failing flush or read of the loop decides how many queries are answered and the error |
| SessionOutcomes.OpeningFails | src/lib.rs:217-228 | a failure before the loop sends nothing but the error, after the TLS answer if that was written |
| SessionOutcomes.NoPacket | src/lib.rs:217-219 | input that ends within the first packet is answered by an error |
| SessionOutcomes.CancelPanics | src/lib.rs:219-223 | a cancel request is answered by nothing and takes the process down |
| SessionOutcomes.UndersizedPanics | src/protocol.rs:28-37 | a length field below 4 takes the process down after the queries before it have been answered |
| SessionOutcomes.WordLetters | src/lib.rs:205-314 | the first bytes of the words, letter by letter: N? (E \| R S* K Z (C Z)* E?) |
| SessionOutcomes.FixedMessages | src/protocol.rs:279-340 | AuthenticationOk, BackendKeyData, ReadyForQuery and the TLS answer, byte for byte |
| SessionOutcomes.Completion | src/lib.rs:201-203 | a completed query is answered by the tag HELLOWORLD |
| SessionOutcomes.ErrorSays | src/lib.rs:205-213 | every error is FATAL, with code XX000, 08006 or 08P01 by its kind |
| SessionTraces.ClientReadsTrace | src/lib.rs:205-314 | whatever the input and the faults, the client decodes every byte a session writes after the TLS answer, and gets exactly the messages of its trace, if settings and error texts are free of NUL and under a GiB |
| RoundRobin.Urings.PickNonIopoll | src/lib.rs:150-155 | the index is in range and the counter advances by one, wrapping |
| RoundRobin.Urings.PickIopoll | src/lib.rs:141-148 | the same, falling back to the other list and its counter when there are no iopoll rings |
| RoundRobin.RunCountsTickets | src/lib.rs:141-155 | over any interleaving, how often a ring is used depends only on the tickets drawn from its counter |
| RoundRobin.FairWithoutWraparound | src/lib.rs:141-155 | within a lap, use counts of two rings differ by at most 1 |
| RoundRobin.FairAcrossWraparounds | src/lib.rs:141-155 | over `w` wraparounds by at most `w + 1` |
| RoundRobin.FairIfDivides | src/lib.rs:141-155 | over any window at all by at most 1, if the ring count divides 2^64 |
| RoundRobin.WithinOneIffDivides | src/lib.rs:141-155 | the bound of 1 holds for every window of every length exactly when the ring count divides 2^64 |
| RoundRobin.InterleavingsAreFair | src/lib.rs:141-155 | the bounds hold for the rings handed out over every interleaving of any number of calls of both kinds |
| GucNames.CamelComponent | build.rs:112-136 | the loop over the characters of a component computes its camel-case form, for any Unicode case mappings |
| GucNames.CamelCharacters | build.rs:112-136 | in an ASCII component the first character and every capital after a small letter are capitals, every other letter is small |
| GucNames.UnderscoresIgnored | build.rs:108-112 | on any text an underscore in front, at the end or beside another one changes nothing |
| GucNames.CamelIsItem | build.rs:108-153 | on names of non-empty `[a-z0-9]` components the trim, split, filter, map and fold amount to capitalising after each underscore and keeping only the underscores between digits |
| GucNames.InvertsIffClear | build.rs:108-153 | such a name can be read back from its enum item exactly when every underscore in front of a digit follows a digit |
| GucNames.LostLeavesNoMark | build.rs:139-153 | without an underscore for which that fails, the name has the same item |
| GucNames.ClashIff | build.rs:108-153 | two names get one item exactly when they differ only in such underscores |
| GucNames.CamelCaseInverts | build.rs:108-153 | a snake-case name, with components `[a-z][a-z0-9]*`, can be read back from its enum item |
| GucNames.DigitComponentsClash | build.rs:139-153 | an example of each kind: `a_1` clashes with `a1`, and `a1_2` is read back |
| GucRegistry.LoadGucs | build.rs:65-82 | each definition goes to the partition of its type, in file order; an unknown type is refused |
| GucRegistry.PartitionConcat | build.rs:65-82 | the partitions keep the order of the file |
| GucRegistry.PartitionOne | build.rs:65-82 | and each holds the definitions whose vartype is its own text |
| GucRegistry.FormatGucs | build.rs:156-182 | the parallel vectors describe the definitions entry by entry |
| GucRegistry.GenGucdef | build.rs:230-349 | the four tables and the name map of any definition list whose types are known |
| GucRegistry.ItemsDistinctIff | build.rs:205-222 | the items of an enum are distinct exactly when no two of its names differ only in underscores that leave no mark |
| GucRegistry.ItemsDistinct | build.rs:205-222 | distinct names that can be read back, all snake-case ones included, give distinct enum items |
| GucRegistry.RegistryAgrees | build.rs:280-347 | looking up a definition's name gives an index at which metadata, name and boot value are that definition's own |
| GucRegistry.UnknownNames | build.rs:334-345 | a name no definition has is not in the map |
| SettingEffects.DefinitionFound | build.rs:280-347 | a definition of vartype INT, BOOL, STR or REAL is found at an index of that kind, where name, boot value, context, flags and both hooks are its own |
| SettingEffects.OnlyFourTypes | build.rs:65-82 | exactly the definition lists of these four types are accepted |
| GucStates.GucState.LogMinMessagesPreassign | src/guc.rs:252-268 | the log level hook accepts the six known levels, and only if the filter reloads |
| GucStates.GucState.RunHook | src/guc.rs:252-273 | the hook's answer, and the one hook that invalidates the search path |
| GucStates.GucState.Apply | src/guc.rs:157-174 | assignment happens exactly when context and hook allow it |
| GucStates.GucState.SetInt | src/guc.rs:176-178 | a SET of an integer setting |
| GucStates.GucState.SetStr | src/guc.rs:180-182 | a SET of a string setting |
| GucStates.GucState.SetReal | src/guc.rs:184-186 | a SET of a real setting |
| GucStates.GucState.SetBool | src/guc.rs:188-190 | a SET of a boolean setting |
| GucStates.GucState.LoadGuc | src/guc.rs:192-214 | an entry is applied when its name is known and its value converts to the setting's type |
| GucStates.GucState.LoadEntries | src/guc.rs:223-233 | the entries of the file are applied in order |
| GucStates.Load | src/guc.rs:216-236 | boot values, then the entries of the first document; a document that is no hash is refused |
| GucStates.LastAcceptedWins | src/guc.rs:192-236 | after loading, every setting has the value of the last entry accepted for it, or its boot value |
| SettingEffects.FileAssigns | src/guc.rs:143-174 | a file assigns a setting without a hook exactly in the contexts KuiBaDB, SigHup, SuSet and UserSet |
| SettingEffects.SetAssigns | src/guc.rs:143-190 | SET does exactly in the contexts SuSet and UserSet |
| SettingEffects.LogLevelAssigns | src/guc.rs:252-268 | the log level takes six values, from the file, if the filter reloads |
| SettingEffects.SearchPathAssigns | src/guc.rs:270-273 | search_path takes any value from either source |
| SettingEffects.LastEntryStands | src/guc.rs:192-236 | a file leaves the value of the last convertible entry for a setting that is not Internal and has no hook |
| SettingEffects.NoEntryNoChange | src/guc.rs:192-236 | without one the boot value stays |
| SettingEffects.IntegerConverts | src/common.rs:15-41 | what an integer of the file becomes for each type of setting |
| SettingEffects.BooleanConverts | src/common.rs:15-41 | the same for a truth value |
| SettingEffects.TextConverts | src/common.rs:15-41 | the same for a text, which is true only if it spells `true` |
| SettingEffects.RealConverts | src/common.rs:15-41 | the same for a float |
| SettingEffects.NothingElseConverts | common.rs:24-32 | nothing else converts, and nothing else is a key |
| SettingEffects.ShownByType | src/guc.rs:110-141 | the text shown, by type |
| SettingEffects.ReportedByBit | src/guc.rs:60-62 | a setting is reported exactly when bit 0x10 of its flags is set |
| GucStates.SetChangesOneSlot | src/guc.rs:157-190 | one call changes at most the slot it names |
| GucStates.SetNeverMoves | src/guc.rs:143-155 | no sequence of SET calls moves a setting whose context is below SuSet |
| GucStates.RunsRespectContexts | src/guc.rs:143-236 | over a load and any SET calls, internal settings keep their boot value and the others closed to SET their loaded one |
| GucStates.SearchPathInvalidates | src/guc.rs:157-174 | an assignment of search_path from either source takes effect and leaves the derived path invalid, or is refused and changes nothing |
| GucStates.ValidIffRecomputed | src/guc.rs:270-273 | over any run the derived path is valid exactly when it was recomputed after the last assignment of search_path |
| GucStates.LoadLeavesInvalid | src/guc.rs:216-236 | loading a file never makes it valid |
| GucStates.GeneratedRegistryIsValid | src/guc.rs:88-108 | under the generated registry every name leads to an existing slot with its own definition's metadata |

## Left out

- LALRPOP's generated tables: the grammar is modelled, and a parser that accepts exactly its language.
- The other statements of the grammar (SET, SHOW, CREATE, LOCK, COPY, transactions): shallow constructors over the same tokens.
- Catalog search paths, datums and the body of `TypeDesc::hash`: not part of this repository's sources; the catalog is a map, `TypeDesc::hash` any injective fixed-length encoding (`SemHash.ValidHashersExist` gives one), procedures an abstract function.
- MD5 and floats: the digest is any function to 16 bytes, a float its bit pattern, float parsing and printing abstract.
- Generated source text: the tables, enums and map are modelled as values; parsing of boot values by the Rust compiler is not.
- Show hooks: no definition has one; `show` is modelled for the four default forms.
- YAML parsing, the file system and log output: the parsed document is the input, and whether the log filter reloads is an input of each assignment.
- The cancel branch, `todo!()` in the source: it ends a session as a panic, like a length field below 4, and TraceInGrammar excludes such sessions.
- io_uring streams, buffering and tokio: reading and writing act on byte sequences, and any fallible operation may fail.
- The text of error messages: a parameter of the server.
- Effects of the log level hook on the logger: only its answer is modelled.
- Unicode case tables: any that are the usual ones on ASCII (`GucNames.ValidCasing`).
