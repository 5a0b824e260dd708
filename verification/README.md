# Veesker: scanners, formats and state machines, verified

A Dafny model of six parts of the Veesker repository whose code must agree with a simpler
description of it: byte and character machines, and state machines judged over whole runs.

- **SQL text.** `SqlTokens` is the reference view of Oracle SQL text (a list of tokens) and
  `LexLaws` says how little of its context a token depends on. `SqlSplitter` is the
  statement splitter as written, one pass with six states and a cached PL/SQL verdict,
  proved equal to "lex, then cut, asking afresh each time". `SplitterLaws` has what follows
  for all inputs. `ReadOnlyGate` is the second, independent scanner. `InsertExport` with
  `ExportNames`, and `CsvExport`, are the two printers, each read back.
- **The `.vsk` file.** `VskHeader`, `VskFrames`, `VskFile`, `Aad`, `VskEncrypted`: header,
  frames, whole file, authenticated data and the encrypted wrapper.
- **The audit log.** `AuditChain` (verifier) and `AuditWriter` (writer, as a class).
- **The execution gate.** `SafetyGate`: unlock windows, DDL windows, batches, sessions.
- **The Oracle to DuckDB rewriter.** `StringMask`, `ArgLists`, `DecodeCase`, `CaseReader`,
  `Translator`, `LiteralSurvival`; what becomes of date formats is in `FormatSurvival`,
  `FormatCalls`, `FormatEmission`, `FormatWitness` and `FormatFate`.
- **Graph walks.** `VisionGraph` (breadth-first, capped) and `PlanOrder` (post-order).

`Text`, `Bytes` and `Common` hold shared primitives. Loops and objects of the source are
methods and classes here, each tied by its `ensures` to a function of the input or of the
old state; the lemmas are about those functions.

## Where the code and its description differ

The model follows the code. For each difference the members named here give the exact
condition, and an input that meets it where the condition does not already name one.

- A statement does not survive a second split exactly when its last line is a bare slash
  (`SplitterLaws.ResplitStatement`); such statements are emitted
  (`SplitterLaws.BareSlashIsEmitted`, `SplitterLaws.BareSlashIsLost`).
- `toInsertSql` does not escape names. Exports split into their rows exactly when the head
  that all lines share, split on its own, stays whole with its last parenthesis in code
  (`ExportNames.ExportSplitsIntoRows`). Names without double quotes, and names whose quotes
  are doubled, are safe (`ExportNames.EscapedNamesAreWhole`); a lone double quote leaves the
  text open (`ExportNames.QuoteInNameBreaksExport`).
- The read-only check sees the last character of an alternative-quoted literal that is never
  closed, exactly then (`ReadOnlyGate.ScannersAgree`, `ReadOnlyGate.OpenLiteralLeaks`).
- `toCsv` prints a record without fields as an empty line, which reads back as one empty
  field; every other export reads back (`CsvExport.CsvRoundTrip`).
- The reader's comment says the header's and the envelope's format versions must agree; the
  code checks that each is supported and never compares them (reader.ts:284-286, 336-341).
  Whichever supported version the header names, the file is read alike
  (`VskEncrypted.HeaderVersionIsNotCompared`, `VskEncrypted.MixedVersionsAreRead`). The
  envelope's version alone decides the binding, and that is enough for
  `VskEncrypted.BoundToContext`.
- The reader lower-cases a table name before looking for the reserved prefix, so a Kelvin
  sign passes for a k, and only that (`VskFile.ReservedPrefixes`, `VskFile.KelvinNameIsRead`).
  The writer's stricter check never emits one.
- The encrypted writer takes an empty sandbox id and a recipient key of any length; the
  reader refuses both (`VskEncrypted.EncryptedRoundTrip`).
- A failed append that left part of a line swallows the next line. If that line was an audit
  entry and the same session writes another, the day's log stops verifying, with nobody
  having touched it, and only then (`AuditWriter.LogVerifiesIffIntact`,
  `AuditWriter.TornLineBreaksTheLog`).
- DECODE matches NULL with NULL; the CASE it becomes does so only for a key written as the
  word NULL (`DecodeCase.BranchesAgree`, `DecodeCase.NullKeyIsMissed`).
- Mask and restore is the identity exactly when no text outside the literals already reads as
  a placeholder (`StringMask.MaskRoundTrip`, `StringMask.FakeMarkIsLost`).
- A converted date format goes back into the text as a literal in the open, which later
  passes scan again. It stands in the output, in its own place and in any SQL, exactly when
  no placeholder and no row limit is found in it and, if it comes from TO_DATE, the pass for
  TO_CHAR is calm on it, from its start and from behind every parenthesis in it that can
  close an earlier call: each call met there is spelled `TO_CHAR(`, and closes inside or
  cannot take a format from outside (`FormatFate.FormatsReachTheOutput`). Formats without
  parenthesis, semicolon and 0x01 always do (`FormatFate.PlainIsHarmless`);
  `TO_DATE(x, 'to_char (a)')` comes out as `strptime(x, 'TO_CHAR(a)')`
  (`FormatFate.RewrittenFormat`).
- `visionGraph` reports truncation exactly when 150 or more objects are in reach, also when
  there are exactly 150 and none was left out (`VisionGraph.VisionGraph`); there is a
  catalog with just that many (`VisionGraph.FullStar`).

## Model

| member | source | states |
|---|---|---|
| SqlSplitter.SplitSql | sidecar/src/sql-splitter.ts:58-313 | The one-pass scanner with its cached verdict returns the statements and errors of the two-pass reference: lex into tokens, cut at code semicolons of segments that are not PL/SQL (asked afresh each time) and at bare-slash lines |
| SqlSplitter.StepOpener | sidecar/src/sql-splitter.ts:100-167 | In code, the characters consumed and the next state are those of the token that starts here, with the n and nq prefixes left as code |
| SqlSplitter.StepRegion | sidecar/src/sql-splitter.ts:214-285 | Inside a region one step either stays in it or leaves it exactly at the end the lexer gives it |
| SqlSplitter.ScanBlanks | sidecar/src/sql-splitter.ts:189-192 | Finds where the blanks after a slash end |
| SqlSplitter.Flush | sidecar/src/sql-splitter.ts:71-79 | A segment is emitted trimmed, or not at all when nothing but blanks and comments is in it |
| SqlSplitter.StripLeadingComments | sidecar/src/sql-splitter.ts:23-39 | Drops the leading comments as this helper sees them, slash-star-slash counting as a whole one |
| SqlSplitter.DetectPlsqlStart | sidecar/src/sql-splitter.ts:19-44 | True exactly when the text after leading comments begins with a PL/SQL head ending at a word boundary |
| SqlSplitter.PlsqlVerdictStable | sidecar/src/sql-splitter.ts:83-89 | A verdict taken at a semicolon stays right however the segment goes on, so caching it is sound |
| SqlTokens.LexLossless | sidecar/src/sql-splitter.ts:93-287 | Every character of any input is in exactly one token |
| SqlTokens.OpenTokenIsLast | sidecar/src/sql-splitter.ts:93-305 | Only the last token can lack its terminator |
| SplitterLaws.PiecesLossless | sidecar/src/sql-splitter.ts:93-312 | Segments and separators, in order, are the input: no character is lost or doubled |
| SplitterLaws.ErrorsAreOpenRegions | sidecar/src/sql-splitter.ts:289-305 | There is an error exactly when the input ends inside a literal, quoted identifier or block comment, one error, naming that kind |
| SplitterLaws.CutRound | sidecar/src/sql-splitter.ts:168-207 | A segment ends at the end of the input or at a separator that is a semicolon or a slash alone with blanks |
| SplitterLaws.LexDrop | sidecar/src/sql-splitter.ts:93-287 | Lexing can be resumed at any token: what follows lexes on its own to the same tokens |
| SplitterLaws.ResplitStatement | sidecar/src/sql-splitter.ts:71-207 | Splitting any emitted statement again gives it back, alone and without error, if and only if its last line is not a bare slash |
| SplitterLaws.BareSlashIsEmitted | sidecar/src/sql-splitter.ts:168-207 | A statement that ends in a bare slash is emitted |
| SplitterLaws.BareSlashIsLost | sidecar/src/sql-splitter.ts:183-202 | Split again, it loses the slash |
| ReadOnlyGate.StripStringsAndComments | sidecar/src/ai.ts:100-161 | On every input the index-loop scanner returns the reference tokens with comments, literals and quoted identifiers blanked |
| ReadOnlyGate.StripOne | sidecar/src/ai.ts:103-159 | One turn of the loop blanks one region, or copies one character of code |
| ReadOnlyGate.SkipLine | sidecar/src/ai.ts:109-113 | Stops at the newline that ends the comment |
| ReadOnlyGate.SkipBlock | sidecar/src/ai.ts:118-124 | Stops after the first closing mark of the comment |
| ReadOnlyGate.SkipSingle | sidecar/src/ai.ts:126-135 | Stops after the first quote that is not doubled |
| ReadOnlyGate.SkipQ | sidecar/src/ai.ts:137-148 | Stops after the closing delimiter and quote, or before the last character when there is none |
| ReadOnlyGate.SkipIdent | sidecar/src/ai.ts:150-156 | Stops after the next double quote, doubled or not |
| ReadOnlyGate.IsReadOnlySql | sidecar/src/ai.ts:163-188 | Accepts exactly text that starts with SELECT or WITH and has no dangerous word and no FOR UPDATE outside literals, identifiers and comments |
| ReadOnlyGate.ScannersAgree | sidecar/src/ai.ts:100-161 | The scanner blanks just the regions the splitter sees, on every input except text that ends inside an open alternative-quoted literal, hence on every input the splitter accepts |
| ReadOnlyGate.OpenLiteralLeaks | sidecar/src/ai.ts:137-148 | An open alternative-quoted literal whose last character comes back as code |
| ReadOnlyGate.VerdictIgnoresInside | sidecar/src/ai.ts:100-188 | Replacing a whole literal or comment by another one that starts with the same character leaves the read-only verdict as it was |
| LexLaws.LexLocal | sidecar/src/sql-splitter.ts:93-287 | What stands behind a token does not change how the text before it lexes, beyond its first character |
| InsertExport.ToInsertSql | src/lib/csv-export.ts:40-49 | Prints one line per row, and nothing for no rows |
| InsertExport.SolidValue | src/lib/csv-export.ts:51-60 | A printed cell of any content never ends a statement, nor leaves a region open |
| ExportNames.SolidName | src/lib/csv-export.ts:42-46 | A printed name whose quotes are doubled is one whole identifier |
| ExportNames.ExportSplitsIntoRows | src/lib/csv-export.ts:40-60 | For any names, every export splits into exactly one statement per row, the printed line without its semicolon, with no error and whatever the cells hold, if and only if the shared head splits on its own into itself and ends in a code parenthesis |
| ExportNames.LexAfterParen | sidecar/src/sql-splitter.ts:93-287 | Text that ends in a parenthesis in code lexes the same whatever follows |
| ExportNames.EscapedNamesAreWhole | src/lib/csv-export.ts:42-46 | Had the exporter doubled the quotes in its names, every head would be whole |
| ExportNames.PlainNamesAreWhole | src/lib/csv-export.ts:42-46 | With names free of double quotes the head is whole |
| ExportNames.QuoteInNameBreaksExport | src/lib/csv-export.ts:42-46 | A name that is a double quote makes the exported text end inside an identifier |
| ExportNames.LoneQuoteIsNotWhole | src/lib/csv-export.ts:42-46 | Its head is not whole |
| CsvExport.ToCsv | src/lib/csv-export.ts:5-11 | Prints the header and every formatted row, quoted where needed, each ended by CR LF |
| CsvExport.FieldRoundTrip | src/lib/csv-export.ts:33-38 | A printed field followed by a separator reads back as the field |
| CsvExport.CsvRoundTrip | src/lib/csv-export.ts:5-38 | A parser for section 2 of RFC 4180 returns the header and the formatted rows exactly, for any text, if and only if every record has a field |
| VskHeader.SetLe | engine/src/vsk-format/header.ts:41-48 | Writes a number as little-endian bytes in place and nothing else |
| VskHeader.WriteHeader | engine/src/vsk-format/header.ts:37-50 | The 64 bytes are the magic, the version, the fields modulo their width, and zeros |
| VskHeader.HeaderRoundTrip | engine/src/vsk-format/header.ts:37-77 | A written header reads back as itself if and only if every field fits its bytes |
| VskHeader.HeaderCanonical | engine/src/vsk-format/header.ts:52-77 | A header the reader accepts is the one its fields would be written to, up to the reserved bytes |
| VskFrames.ValidNameHasNoNewline | engine/src/vsk-format/errors.ts:25-36 | A table name that passes cannot end its own tag line |
| VskFrames.TagStandsAt | engine/src/vsk-format/reader.ts:178-185 | True exactly when the tag bytes stand here |
| VskFrames.FindNewline | engine/src/vsk-format/reader.ts:186-193 | The first newline inside the section, or its end |
| VskFrames.ReadFrame | engine/src/vsk-format/reader.ts:175-234 | One turn of the loop, every error case included, never slicing outside the section |
| VskFrames.ReadFrames | engine/src/vsk-format/reader.ts:165-274 | The loop returns the frame list or the first error of the section |
| VskFrames.ParseFrameSound | engine/src/vsk-format/reader.ts:175-234 | The bytes a turn consumes are the encoding of the frame it returns |
| VskFrames.ParseFrameComplete | engine/src/vsk-format/reader.ts:175-234 | The encoding of a valid frame is consumed whole and gives the frame back, also when the payload holds newlines or the tag text |
| VskFrames.FramesCanonical | engine/src/vsk-format/reader.ts:165-274 | The loop accepts a section with a list exactly when the section is that list's encoding: it stops exactly at the end, and what it accepts re-encodes to the same bytes |
| VskFile.WriteOneTable | engine/src/vsk-format/writer.ts:24-40 | Appends tag line, size and payload of one table |
| VskFile.PackTables | engine/src/vsk-format/writer.ts:68-73 | Frames the tables in order, or finds one with the reserved prefix |
| VskFile.PackSystem | engine/src/vsk-format/writer.ts:74-78 | Adds the system tables that exist, in their fixed order |
| VskFile.WriteVsk | engine/src/vsk-format/writer.ts:56-110 | The file is header, manifest and frames, or one of the two name errors |
| VskFile.ReadVsk | engine/src/vsk-format/reader.ts:140-277 | Bounds checks, manifest and frames, with the first error that applies |
| VskFile.FileRoundTrip | engine/src/vsk-format/writer.ts:83-101 | Reading a written file returns the manifest bytes and the ordered tables for all payloads, exactly when the size limit holds and the manifest is accepted |
| VskFile.FileCanonical | engine/src/vsk-format/reader.ts:140-277 | The data section of an accepted file is the encoding of its tables; the whole file is the one the writer would produce if and only if the layout is the writer's |
| VskFile.WrittenNamesAreValid | engine/src/vsk-format/writer.ts:61-78 | Every name the writer lets through is one the reader accepts |
| VskFile.ReservedPrefixes | engine/src/vsk-format/reader.ts:199-215 | The reserved prefix is seen exactly where its letters stand in any case, a Kelvin sign counting as a k |
| VskFile.KelvinNameIsRead | engine/src/vsk-format/reader.ts:199-215 | A table named with a Kelvin sign is read as a system table although the writer would refuse it |
| Aad.BuildAad | engine/src/crypto/aad.ts:9-40 | Fails exactly on a NUL in the sandbox id; otherwise the output holds the parts end to end |
| Aad.DecimalRoundTrip | engine/src/crypto/aad.ts:23 | The printed version is digits only and reads back |
| Aad.AadInjective | engine/src/crypto/aad.ts:15-31 | Two contexts give the same bytes if and only if sandbox, version and recipient are equal and the format versions are equal in 16 bits |
| VskEncrypted.SectionsRoundTrip | engine/src/vsk-format/writer.ts:193-212 | The reader finds the envelope block and the cipher text where the writer put them |
| VskEncrypted.EncryptedRoundTrip | engine/src/vsk-format/writer.ts:164-212 | With an ideal cipher and an envelope sealed under the file's own binding, reading the encrypted file is reading the plain one, except for the faults listed by ContextFault and the size limit |
| VskEncrypted.BoundToContext | engine/src/vsk-format/reader.ts:336-374 | A content key sealed for one context opens only under a block of version 2 that names that same sandbox, version and recipient |
| VskEncrypted.HeaderVersionIsNotCompared | engine/src/vsk-format/reader.ts:336-341 | Decryption is the same for header versions 0, 1 and 2 and refused for any other, whatever the envelope says |
| VskEncrypted.MixedVersionsAreRead | engine/src/vsk-format/reader.ts:336-374 | A file whose header says 1 and whose envelope says 2 is read to its plain file |
| AuditChain.VerifyChainFile | src-tauri/src/commands.rs:941-1017 | Accepts exactly files whose HMAC-carrying lines are all genuine and linked; otherwise reports the first that breaks, its place among the non-blank lines and why; all counts are those of the lines read |
| AuditChain.LastSubChain | src-tauri/src/commands.rs:992-1012 | In a linked file an entry of a session chain drags the whole prefix of that chain before it |
| AuditChain.LinkedIsAssembled | src-tauri/src/commands.rs:961-1016 | A linked file with writer-made tags can be cut into prefixes of session chains |
| AuditChain.AcceptedFilesAreSound | src-tauri/src/commands.rs:941-1017 | In any accepted file with writer-made tags the HMAC-carrying lines are prefixes of session chains one after another: none altered, reordered or missing inside one |
| AuditWriter.AuditLog.constructor | src-tauri/src/lib.rs:86-88 | An app session starts with the start marker |
| AuditWriter.AuditLog.AppendToFile | src-tauri/src/commands.rs:849-857 | Effect of an append that succeeds, leaves nothing, or leaves part of a line |
| AuditWriter.AuditLog.WriteAuditEntry | src-tauri/src/commands.rs:802-860 | The in-memory hash moves to the new tag exactly when the line reached the file, and only then is the entry returned |
| AuditWriter.AuditLog.WriteDdlEvent | src-tauri/src/commands.rs:1958-1983 | Adds a line outside the chain and leaves the hash alone |
| AuditWriter.AuditLog.RestartApp | src-tauri/src/lib.rs:86-88 | A new process starts a new sub-chain on the same file |
| AuditWriter.IntactLogsVerify | src-tauri/src/commands.rs:754-1017 | Any run in which no entry follows a lost one in its session verifies, with checked the number of chained lines and sub_chains the number of sessions that wrote one |
| AuditWriter.CleanRunsAreIntact | src-tauri/src/commands.rs:851-857 | Failed writes that leave nothing behind never harm |
| AuditWriter.LogVerifiesIffIntact | src-tauri/src/commands.rs:754-1017 | A log verifies if and only if in no session an entry follows one that was written onto a torn line |
| AuditWriter.TornLineBreaksTheLog | src-tauri/src/commands.rs:851-859 | After a torn write, an entry and one more entry the log does not verify |
| AuditWriter.WriterHoldsItsChain | src-tauri/src/commands.rs:805-859 | After any run the in-memory hash is the last tag of the chain of the current session's entries |
| AuditWriter.RunIsWriterMade | src-tauri/src/commands.rs:802-860 | Every HMAC-carrying line a run leaves was tagged by one of that run's own sessions |
| AuditWriter.AcceptedLogsAreTheRuns | src-tauri/src/commands.rs:754-1017 | Whatever is done to a run's log, if the verifier accepts the result its HMAC-carrying lines are prefixes of that run's own session chains, one after another |
| SafetyGate.Sidecar.OpenSession | sidecar/src/oracle.ts:611-677 | Closes the old session and both windows, also when the new one fails to open |
| SafetyGate.Sidecar.CloseSession | sidecar/src/oracle.ts:679-693 | Leaves no session and no window |
| SafetyGate.Sidecar.UnlockUnsafeDml | sidecar/src/oracle.ts:1982-1997 | Opens a 15-minute window for one table, on prod only |
| SafetyGate.Sidecar.ConfirmDdl | sidecar/src/oracle.ts:1964-1970 | Opens a 5-minute window of a kind |
| SafetyGate.Sidecar.CloseDdlWindow | sidecar/src/oracle.ts:1973-1979 | Closes the DDL window |
| SafetyGate.Sidecar.EnforceSafety | sidecar/src/oracle.ts:1842-1961 | Verdict and windows after one statement are those of Check, branch by branch |
| SafetyGate.Sidecar.EnforceDdl | sidecar/src/oracle.ts:1927-1957 | The DDL part: a stale window is dropped, a live one stays |
| SafetyGate.Sidecar.EnforceAll | sidecar/src/oracle.ts:2038-2042 | With the runner flag up, the pre-scan stops at the first refusal, with the windows spent so far |
| SafetyGate.Sidecar.ExecuteAll | sidecar/src/oracle.ts:2050-2093 | With the runner flag up, executes in order up to the first statement that is not ok |
| SafetyGate.Sidecar.QueryExecute | sidecar/src/oracle.ts:1999-2135 | One whole query as one step of the machine: the runner flag is up from before the pre-scan to after the last statement and down again on every path |
| SafetyGate.PassesIffAllowed | sidecar/src/oracle.ts:1842-1961 | A statement gets through if and only if no rule is against it: read-only, TRUNCATE and unlock on prod, table name on staging, warning elsewhere, DDL window |
| SafetyGate.PassedScan | sidecar/src/oracle.ts:1858-1877 | What a pre-scan without refusal says of the windows it found: a live matching unlock now spent, and a live DDL window, wherever one was needed |
| SafetyGate.ScanRefusesAt | sidecar/src/oracle.ts:2038-2042 | A batch is refused if and only if some statement is refused when its turn comes |
| SafetyGate.BatchIsAllOrNothing | sidecar/src/oracle.ts:2038-2093 | A batch with a refused statement executes nothing; otherwise a prefix is executed in order, all results but the last ok, and short only if the last is not |
| SafetyGate.DmlWindowHasSource | sidecar/src/oracle.ts:1982-1997 | After any run an open unlock window comes from an unlock of this session that nothing has been sent on |
| SafetyGate.UnsafeDmlWasUnlocked | sidecar/src/oracle.ts:1858-1877 | Over any run every MERGE or bulk DML sent to prod was let through by an unlock of the same session for the same table under 15 minutes before, and one query sends at most one |
| SafetyGate.UnlocksAreOneToOne | sidecar/src/oracle.ts:1858-1877 | Over any run the queries that send such a statement map one-to-one into the unlocks behind them |
| SafetyGate.UnlockIsGoodForOne | sidecar/src/oracle.ts:1858-1877 | After an unlock the statement goes out within 15 minutes and not later, and a second one is refused either way |
| SafetyGate.DdlWindowHasSource | sidecar/src/oracle.ts:1964-1979 | After any run an open DDL window is the latest confirmation's, with no unlock, open or close since |
| SafetyGate.DdlWasConfirmed | sidecar/src/oracle.ts:1906-1979 | Over any run, outside dev and local, DDL that no other rule covers passes only under a confirmation less than 5 minutes old and not revoked, of the destructive kind for destructive DDL |
| SafetyGate.RunnerIsFree | sidecar/src/oracle.ts:611-693 | Over any run no safety settings remain without a session; the runner flag is down between steps |
| StringMask.MaskStrings | engine/src/oracle-shim/translator.ts:87-118 | The two loops number and cut out the literals exactly as the reference does |
| StringMask.TakeLiteral | engine/src/oracle-shim/translator.ts:98-113 | A literal extends to its first quote that is not doubled, or to the end |
| StringMask.MarkReadsBack | engine/src/oracle-shim/translator.ts:114-125 | A placeholder is recognised in front of any text, with its number |
| StringMask.UnmaskSplit | engine/src/oracle-shim/translator.ts:120-125 | Restoring on either side of a placeholder's start and joining is restoring the whole |
| StringMask.MaskedHasNoQuote | engine/src/oracle-shim/translator.ts:87-118 | No quote is left in masked text |
| StringMask.MaskRoundTrip | engine/src/oracle-shim/translator.ts:87-125 | Restoring masked SQL gives the SQL back if and only if no text outside its literals reads as a placeholder |
| StringMask.FakeMarkIsLost | engine/src/oracle-shim/translator.ts:120-125 | SQL that is just a placeholder restores to the word undefined |
| StringMask.NoControlNoFake | engine/src/oracle-shim/translator.ts:75-125 | SQL without the control character outside literals has no such text |
| ArgLists.MatchParen | engine/src/oracle-shim/translator.ts:160-170 | Returns where the depth, counted from the parenthesis on, first falls to zero |
| ArgLists.ClosesBalanced | engine/src/oracle-shim/translator.ts:160-170 | A position is the one returned if and only if it is a closing parenthesis with balanced text in between |
| ArgLists.SplitArgs | engine/src/oracle-shim/translator.ts:134-154 | Returns the pieces between top-level commas |
| ArgLists.SplitIsUnique | engine/src/oracle-shim/translator.ts:134-154 | The pieces of a balanced list are the one sequence of balanced arguments without top-level commas that joins with commas to the list |
| ArgLists.CallReadsBack | engine/src/oracle-shim/translator.ts:134-187 | Matching and splitting a printed call returns the very arguments it was printed from |
| DecodeCase.DecodeCall | engine/src/oracle-shim/translator.ts:220-238 | Emits the CASE of the call, or the call itself for fewer than three arguments |
| DecodeCase.Nvl2Call | engine/src/oracle-shim/translator.ts:213-217 | Emits the CASE of the call, or the call itself unless there are three arguments |
| DecodeCase.BranchesAgree | engine/src/oracle-shim/translator.ts:228-237 | The CASE takes the branch DECODE takes if and only if no NULL expression meets a NULL key not written as the word NULL before one that is; otherwise it takes a later one |
| DecodeCase.CaseMeansDecode | engine/src/oracle-shim/translator.ts:220-238 | Outside that case the emitted CASE has the value of DECODE, for all arguments and values |
| DecodeCase.NullKeyIsMissed | engine/src/oracle-shim/translator.ts:231-235 | A DECODE call on which the two differ |
| DecodeCase.CaseMeansNvl2 | engine/src/oracle-shim/translator.ts:213-217 | The CASE emitted for NVL2 has the value of NVL2 |
| CaseReader.CaseReadsBack | engine/src/oracle-shim/translator.ts:216-237 | The text of an emitted CASE, read word by word, gives back the CASE it was printed from |
| CaseReader.DecodeTextMeansDecode | engine/src/oracle-shim/translator.ts:220-238 | The text emitted for a DECODE call reads as a CASE that takes DECODE's branch, if and only if no NULL expression meets a NULL key not written as NULL, and then has DECODE's value |
| CaseReader.Nvl2TextMeansNvl2 | engine/src/oracle-shim/translator.ts:213-217 | The text emitted for an NVL2 call reads as a CASE with the value of NVL2 |
| CaseReader.CaseIsOperand | engine/src/oracle-shim/translator.ts:216-237 | An emitted CASE can be an operand of another one |
| Translator.RewriteCall | engine/src/oracle-shim/translator.ts:178-195 | Every closed call up to the first unclosed one is rewritten and all other text is copied |
| Translator.NextCall | engine/src/oracle-shim/translator.ts:179-183 | The next call of a name, and none before it |
| Translator.DateCall | engine/src/oracle-shim/translator.ts:242-269 | A format is converted only when it is the whole second argument; any other call is left as it was |
| Translator.RewriteSegment | engine/src/oracle-shim/translator.ts:201-283 | The ten passes in order |
| Translator.TranslateSql | engine/src/oracle-shim/translator.ts:285-289 | Mask, rewrite, restore |
| LiteralSurvival.ArgumentsRejoin | engine/src/oracle-shim/translator.ts:134-187 | The list found by matching a call splits into balanced arguments that rejoin to it |
| LiteralSurvival.TameMissesMark | engine/src/oracle-shim/translator.ts:204-280 | No match of a keyword pattern overlaps a placeholder |
| LiteralSurvival.MarkIsUnhit | engine/src/oracle-shim/translator.ts:204-280 | Hence no replacing pass hits one |
| LiteralSurvival.MarkIsKept | engine/src/oracle-shim/translator.ts:213-269 | And no call opens inside one |
| LiteralSurvival.ReplaceKeeps | engine/src/oracle-shim/translator.ts:204-210 | Replacing a pattern everywhere keeps any text that no match touches |
| LiteralSurvival.CallKeeps | engine/src/oracle-shim/translator.ts:213-269 | A placeholder in an argument list is in the text the call becomes, unless it is the call's date format |
| LiteralSurvival.RewriteKeeps | engine/src/oracle-shim/translator.ts:178-195 | Rewriting all calls of a name keeps any text that no call opens in and that single calls keep |
| LiteralSurvival.RestoredInPlace | engine/src/oracle-shim/translator.ts:120-125 | A literal is restored verbatim between what is restored before and after its placeholder |
| LiteralSurvival.LiteralsSurvive | engine/src/oracle-shim/translator.ts:285-289 | For any SQL every string literal stands verbatim in the translation, in the place of its own numbered placeholder, unless some TO_DATE or TO_CHAR call used that placeholder up as its format |
| FormatSurvival.FormatIsOneLiteral | engine/src/oracle-shim/translator.ts:252-254 | Whatever a format converts to, the emitted text is one literal with that content |
| FormatSurvival.FinishOnLiteral | engine/src/oracle-shim/translator.ts:271-289 | The two row-limit passes and the restoring leave a literal in its place if and only if it holds no placeholder and no row limit |
| FormatSurvival.FinishOnSpoilt | engine/src/oracle-shim/translator.ts:271-289 | They never bring back a literal that the pass before has changed |
| FormatCalls.ScanLiteral | engine/src/oracle-shim/translator.ts:258-269 | From any point of a literal on, the pass for TO_CHAR leaves it or departs from it, and leaves it where it is calm |
| FormatCalls.LiteralIsReached | engine/src/oracle-shim/translator.ts:178-195 | Whatever TO_CHAR calls stand before or around an emitted literal, it is copied, scanned from its start, or scanned from where a call around it closes in it |
| FormatCalls.ToCharKeeps | engine/src/oracle-shim/translator.ts:258-269 | A literal emitted for TO_DATE on which the pass is calm stands in its place after it |
| FormatEmission.FormatIsEmitted | engine/src/oracle-shim/translator.ts:242-269 | Where a call uses a format, the converted literal stands, last in the parentheses of the new call |
| FormatEmission.FormatsAreUsed | engine/src/oracle-shim/translator.ts:242-269 | The placeholders used up as formats are exactly those with a place where one of the two date passes emits them |
| FormatEmission.HarmlessIsKept | engine/src/oracle-shim/translator.ts:242-289 | In any SQL, at any place, a used format whose converted literal is harmless stands in the translation where it was emitted |
| FormatWitness.OffenceSpoils | engine/src/oracle-shim/translator.ts:178-195 | The first call the pass is not calm on changes the literal, if it closes and is spelled otherwise or gets a format |
| FormatFate.SpoiltUnlessHarmless | engine/src/oracle-shim/translator.ts:242-289 | For every literal that is not harmless there is SQL whose translation does not hold it in its place |
| FormatFate.FormatsReachTheOutput | engine/src/oracle-shim/translator.ts:242-289 | For each date call and any format text: all uses of it, in any SQL, reach the output in their places if and only if the converted literal is harmless, which is read off the literal alone |
| FormatFate.PlainIsHarmless | engine/src/oracle-shim/translator.ts:242-289 | Formats without parenthesis, semicolon and 0x01 are harmless, commas or not |
| FormatFate.RewrittenFormat | engine/src/oracle-shim/translator.ts:258-289 | An input of translate whose date format comes out changed |
| VisionGraph.Reach | sidecar/src/oracle.ts:2772-2776 | Adds and queues a new node, or marks a full graph as truncated |
| VisionGraph.ExpandDeps | sidecar/src/oracle.ts:2767-2802 | Takes all shown dependency rows in one direction with their edges, or some of them in a full graph |
| VisionGraph.ExpandKeys | sidecar/src/oracle.ts:2804-2831 | Takes all shown foreign keys of a table with both ends, or some of them in a full graph |
| VisionGraph.Expand | sidecar/src/oracle.ts:2759-2832 | Takes all neighbours and edges of one object, or some of them in a full graph |
| VisionGraph.ExpansionKeeps | sidecar/src/oracle.ts:2751-2832 | One turn of the loop keeps the breadth-first invariant |
| VisionGraph.MetByHops | sidecar/src/oracle.ts:2751-2757 | In a walk not cut short, an object some hops away was met after no more than that many |
| VisionGraph.Explore | sidecar/src/oracle.ts:2751-2833 | The loop ends with every node expanded or with a full graph |
| VisionGraph.VisionGraph | sidecar/src/oracle.ts:2732-2869 | At most 150 distinct nodes, the origin first, all within two hops; truncated exactly when 150 or more objects are within two hops, and then with 150 nodes; with up to 150 in reach the nodes are all of them; a node two hops away is there only if all within one hop are; when not truncated the edges are exactly those of the neighbourhood, every edge joins two nodes, and the degrees add up to twice the edges |
| VisionGraph.FullStar | sidecar/src/oracle.ts:2751-2757 | A catalog with exactly 150 objects in reach |
| VisionGraph.Degrees | sidecar/src/oracle.ts:2835-2839 | Counts for each object the edge ends at it |
| VisionGraph.DegreesAddUp | sidecar/src/oracle.ts:2835-2861 | The degrees of the returned nodes add up to twice the edges if and only if no edge dangles |
| PlanOrder.PlanWalk.Group | sidecar/src/flow.ts:364-370 | Groups the nodes by parent, each group in id order |
| PlanOrder.PlanWalk.Visit | sidecar/src/flow.ts:373-377 | Appends the post-order walk below a node and the node itself |
| PlanOrder.PlanExecutionOrder | sidecar/src/flow.ts:363-381 | Terminates on any plan with unique ids, cycles and orphans included, with the order the lemmas below are about |
| PlanOrder.PathIsShort | sidecar/src/flow.ts:373-377 | A chain of parents visits no node twice, so the recursion is no deeper than the plan is long |
| PlanOrder.OrderIsPostOrder | sidecar/src/flow.ts:363-381 | The order holds exactly the nodes that hang from a root; of two the first is the one below the other or on the branch that turns to the smaller id |
| PlanOrder.OrderIsDistinct | sidecar/src/flow.ts:363-381 | No node is listed twice |
| PlanOrder.OrderIsPermutation | sidecar/src/flow.ts:363-381 | The order is a permutation of the plan if and only if every node hangs from a root |
| PlanOrder.PlansAreRooted | sidecar/src/flow.ts:363-381 | With every parent present and its id smaller, every node hangs from a root |
| PlanOrder.ExplainPlanFlow | sidecar/src/flow.ts:441-475 | Events are numbered in execution order and list their children in plan order |
| PlanOrder.ChildStepsComeFirst | sidecar/src/flow.ts:441-475 | Every child id of an event is the id of an event with a smaller step index, and every child is listed |

## Left out

- Text is a sequence of Dafny characters; lone surrogates and UTF-16 code units are not modelled.
- The line numbers in splitter errors.
- src/lib/sql-splitter.ts, a declared copy of the sidecar's splitter.
- ReadOnlyGate.VerdictIgnoresInside: the new text must lex as one closed region of the same kind and begin with the same character.
- ExportNames.ExportSplitsIntoRows: the texts of numbers and dates are those JavaScript can print.
- CsvExport.CsvRoundTrip: the reference parser takes any characters but comma, quote and line breaks in a bare field, a wider set than RFC 4180 names.
- VskFile.ReadVsk: parquet, the manifest's JSON and the version fence are one parameter that accepts or refuses the manifest bytes; the lower-cased user and system name lists are the ordered frames.
- VskFile.WriteVsk: the database's copy to parquet and the existence query for system tables are inputs.
- VskFile.FileRoundTrip: offsets are exact numbers; the reader's conversion to floating point cannot change a verdict, since every file is at most 16 GiB.
- Aad.BuildAad: the sandbox id is its UTF-8 bytes, the version a natural number.
- VskEncrypted.EncryptedRoundTrip: the cipher is an ideal one, the envelope's JSON and base64 an inverse pair, and both ends of the key agreement share one secret; the reader's later load is ReadFile. Reading and writing are functions, with no loop to model.
- AuditChain.VerifyChainFile: a line is what it decrypts to; unreadable files and files that are not UTF-8 are not modelled.
- AuditChain.AcceptedFilesAreSound: the HMAC is ideal: injective in previous hash and body, never the start marker.
- AuditWriter.LogVerifiesIffIntact: entry bodies are taken to be distinct, as their timestamps and contents make them; one day's file, the key always present; a torn piece of a line is never itself a whole entry.
- The audit entry's fields, redaction and encryption of lines.
- SafetyGate.Sidecar.EnforceSafety: the statement classifiers are fields of a statement; the dry-run option is left out; names arrive trimmed and upper-cased.
- SafetyGate.Sidecar.QueryExecute: each call is one step; what the database does with a statement is an input; row data, output buffers and transaction state are left out, and so is a session replaced while a batch is running.
- Translator.RewriteSegment: numbers in ROWNUM limits are exact; the choice of format codes is the source's table and nothing is claimed of it.
- DecodeCase.CaseMeansDecode: an argument's text has one value wherever it stands.
- CaseReader.DecodeTextMeansDecode: in an operand every CASE has its END, and the keywords of a CASE, IS and = stand only inside one or in parentheses, as in any Oracle expression; the reader splits words at the space character only and knows no operator precedence.
- SafetyGate.RunnerIsFree: a query is one step here, so the flag goes up and down inside Sidecar.QueryExecute; the claim about it says no more than that contract.
- VisionGraph.VisionGraph: the catalog queries are fixed functions of the object and each object has one type; owner and name are kept apart, where the source joins them with a dot; the status query is left out; both dependency loops are one method. When truncated, foreign-key edges may name objects that are not nodes.
- PlanOrder.ExplainPlanFlow: costs, cardinalities and runtime statistics.
- Oracle, DuckDB, libsodium, keychain, HTTP, Tauri and file-system calls, the user interface, chat tools, debugger and schedulers.
