# Verified model of the MSYS SDK core

This project models the parts of the MSYS software development kit whose
correctness is hardest to see from the code, and proves what they promise.

* **The Python mIPC dispatcher** (`msys_sdk/client.py`). One reader, any number
  of callers and closers and one event consumer share a pending table, one-slot
  waiters, an event queue and a closed flag. `ClientClass.dfy` holds the object
  with its methods; `Dispatcher.dfy` is the transition system with one step for
  each region that a lock makes atomic, and two for the registration of a call,
  which tests the closed flag under a lock that does not guard the flag;
  `DispatcherProofs.dfy` proves eleven inductive invariants and
  `DispatcherRuns.dfy` the statements about whole runs.
* **The C JSON record codec** (`src/mipc.c`). The printer and the escaper, the
  recursive scanner with its depth bound, member lookup, the string decoder and
  the integer parser. `JsonGrammar.dfy` is an independent grammar of concrete
  syntax trees; `JsonValues.dfy` shows that the scanner accepts exactly that
  grammar, `JsonLookup.dfy` that lookup agrees with the parsed object, and
  `JsonRecord.dfy` that a call record reads back as what was printed.
* **Internationalisation** (`msys_sdk/i18n.py`, `src/i18n.c`, `msys_sdk/i18n_c.py`).
  Templates (`Template.dfy`, `Rendering.dfy`, `RenderAgreement.dfy`), locale names
  (`Locale.dfy`, `LocaleCode.dfy`), plural categories (`Plural.dfy`), catalogs and
  their validation (`Catalogs.dfy`), the fallback chain (`Fallback.dfy`), the
  `Translator` object (`Translator.dfy`), C string literals (`CLiteral.dfy`), the
  generated table with the C lookups (`Table.dfy`), and the agreement of the two
  languages (`TableAgreement.dfy`, `EndToEnd.dfy`).
* **The coalescing input-method worker** (`msys_sdk/ui_input_method.py`) in
  `InputMethod.dfy`, and **the line framing of the stdio bridge**
  (`msys_sdk/stdio_bridge.py`) in `Bridge.dfy`.

Reading order of a component: the specification functions mirror the branches of
the source; each imperative member (a method with loops, arrays or object fields)
is proved equal to such a function; the main lemmas then relate the functions to
an independent statement, such as a grammar, an inverse, the other language's
function, or an invariant of every run.

Conventions. A byte is an integer from 0 to 255. A C string is a sequence of
non-zero bytes, and reading one place behind it gives the terminator. A Python
string is a sequence of Unicode scalar values; C receives its UTF-8 form. Output
buffers are arrays that are written in place; a buffer of length 0 stands for the
absent one. `dafny verify dfyconfig.toml` checks everything.

Places where the code does not do what one might expect are stated exactly, each
with a concrete input:

* `TableAgreement.PortugalDiffers`: the plural rules of the two languages differ for
  Portuguese names for Portugal with further subtags at count 0.
* `TableAgreement.PosixDiffers`: C finds nothing when the default locale is "posix"
  and the requested name is not a locale. `include/msys/i18n.h` says that the default
  locale ends the chain and does not mention this; the model follows the code.
* `CLiteral.TrigraphLost`, `TableAgreement.TrigraphDiffers`: the generated header does
  not guard against trigraphs, which the standard that the repository compiles for
  (`-std=c11`, `Makefile:9`) replaces before anything else, so `??!` is shown as `|`.
* `Locale.SpaceInside`: a space inside a locale name ends it for C and spoils it for
  Python.
* `Locale.LongName`: a locale name of more than 63 bytes has no room in C.

The general statements beside them (`TableAgreement.PluralLookupAgrees`,
`TableAgreement.LookupAgrees`, `CLiteral.LiteralRoundTrip`, `Locale.NormalizersAgree`)
are equivalences with exactly these exceptions.

## Model

| member | source | states |
|---|---|---|
| ClientClass.MsysClient.RegisterCall | msys_sdk/client.py:285-294 | registration under the pending lock: a closed client refuses, an open one hands out a fresh id with an empty waiter |
| ClientClass.MsysClient.DispatchMessage | msys_sdk/client.py:201-218 | a reply goes to the empty waiter registered for its id, every other record to the tail of the event queue |
| ClientClass.MsysClient.MarkTerminal | msys_sdk/client.py:227-232 | only the first caller sets the closed flag and the two terminal errors |
| ClientClass.MsysClient.SweepPending | msys_sdk/client.py:233-241 | the loop over the cleared table fills exactly the pending waiters that were still empty |
| ClientClass.MsysClient.Terminate | msys_sdk/client.py:220-246 | mark, sweep and notice in order; a second call changes nothing |
| ClientClass.MsysClient.RecheckWaiter | msys_sdk/client.py:307-317 | after a timeout an item in the waiter wins; otherwise the call is unregistered |
| ClientClass.MsysClient.UnregisterCall | msys_sdk/client.py:321-324 | only the call's own registration is removed |
| ClientClass.MsysClient.ReaderLoop | msys_sdk/client.py:170-199 | the loop is the fold of dispatching over the wire, up to the first terminal packet |
| DispatcherProofs.KeepAll | msys_sdk/client.py:170-324 | every step of every thread keeps the eleven invariants: ids fresh and distinct, table and waiters consistent, at most one item per waiting call, an active call registered or served, outcomes justified, phases ordered, the pending lock held only between the test and the insertion of one call and never after the sweep, the queue the unread rest of what was posted |
| DispatcherRuns.RunInvariant | msys_sdk/client.py:170-324 | the invariants hold in every state of every run |
| DispatcherRuns.NoCallerHangs | msys_sdk/client.py:220-324 | once the sweep has run nothing is pending, and every call that still waits has a reply or failure in its waiter, also one registered between closing and sweep |
| DispatcherRuns.LateRegistration | msys_sdk/client.py:285-294 | the run in which that happens: a call sees an open client, the client is closed, the call registers, the sweep serves it |
| DispatcherRuns.OnlyTheHolderRegisters | msys_sdk/client.py:285-294 | after the closing only the call that holds the pending lock can still get an id |
| DispatcherRuns.LockIsReleased | msys_sdk/client.py:285-294 | whoever holds the pending lock can take the step that gives it back, and the sweep has not run |
| DispatcherRuns.TerminationProgress | msys_sdk/client.py:220-246 | a started termination can sweep as soon as the lock is free, and post its notice after that |
| DispatcherRuns.CallersProgress | msys_sdk/client.py:285-324 | after termination every unfinished call has an enabled step of its own that brings it nearer its end |
| DispatcherRuns.OneOutcome | msys_sdk/client.py:285-324 | a call settles once; a returned reply carries the call's id, which no other call has; a timeout means nothing reached the waiter and nothing ever will |
| DispatcherRuns.Conservation | msys_sdk/client.py:170-218 | each record read went to exactly one place or is in the reader's hand; events keep wire order; a waiter got the records routed to it |
| DispatcherRuns.DispatchExact | msys_sdk/client.py:201-218 | a record is kept for the event queue exactly when it is no reply or no registered call with its id has an empty waiter; else that call gets it, and a call that still waits and was given nothing always does |
| DispatcherRuns.TerminalIsFinal | msys_sdk/client.py:227-232 | the first terminal error never changes, whichever thread raised it |
| DispatcherRuns.OneNotice | msys_sdk/client.py:242-246 | at most one terminal item is ever posted |
| DispatcherRuns.NoticeAfterSweep | msys_sdk/client.py:233-246 | the terminal item is posted only after the pending callers were failed |
| DispatcherRuns.ConsumerWakes | msys_sdk/client.py:108-138 | a consumer that blocked before termination finds an item afterwards; a later one polls and never blocks |
| DispatcherRuns.RunEvolves | msys_sdk/client.py:273-324 | along a run ids stay, items are only added to a waiter's history, and outcomes are final |
| JsonScanner.SkipSpace | src/mipc.c:171-177 | the cursor stops at the first byte that is no space |
| JsonScanner.SkipJsonString | src/mipc.c:701-734 | the string loop computes the scan that the grammar lemmas are about |
| JsonScanner.SkipJsonNumber | src/mipc.c:804-843 | sign, whole part, fraction and exponent, with the refusals of each |
| JsonScanner.SkipJsonValue | src/mipc.c:736-843 | the recursive descent with its depth bound computes the scan function |
| JsonValues.ValueSound | src/mipc.c:736-843 | any accepted span derives from the grammar within the depth bound |
| JsonValues.ValueComplete | src/mipc.c:736-843 | any grammatical value within the bound is accepted with the end at its end |
| JsonValues.ScannerExact | src/mipc.c:701-843 | both directions as one equivalence |
| JsonLookup.SpellsExact | src/mipc.c:845-879 | a spelt key equals the request exactly when it has no \u escape and decodes to it |
| JsonLookup.KeyEquals | src/mipc.c:845-879 | the comparison loop decides that predicate |
| JsonLookup.FindTopLevelValue | src/mipc.c:881-935 | the member loop computes the search function, with its error cases |
| JsonLookup.FindValueExact | src/mipc.c:881-935 | on a grammatical object the search gives the span of the first top-level member of that name, and "missing" exactly when there is none |
| JsonAccess.GetRaw | src/mipc.c:937-960 | the status and the exact text of the value |
| JsonAccess.DecodeInto | src/mipc.c:1030-1088 | the decoding loop fills the buffer with the longest prefix that leaves room for the terminator, of the whole text or of what was decoded before it was refused |
| JsonAccess.GetString | src/mipc.c:1001-1099 | true length, status, and every byte of the buffer afterwards, on success and on each failure |
| Utf8.EncodeUtf8 | src/mipc.c:977-999 | the bytes stored and their number |
| Utf8.EncodeWellFormed | src/mipc.c:977-999 | every scalar value gets a well-formed octet sequence of section 4 of RFC 3629 that carries it |
| Utf8.DecodeEncodes | src/mipc.c:977-999 | every well-formed octet sequence is the encoding of the value it carries |
| JsonStrings.DecodeExact | src/mipc.c:1031-1075 | decoding fails exactly on an unpaired surrogate and otherwise gives what the units denote |
| JsonStrings.ObjectField | src/mipc.c:937-960 | a field of a grammatical object is the text of the first member it names |
| JsonStrings.ObjectString | src/mipc.c:1001-1099 | get_string on such an object, with its error cases |
| JsonIntegers.GetU64 | src/mipc.c:1101-1132 | digits only and at most 64 bits, otherwise invalid JSON |
| JsonIntegers.ParseDigits | src/mipc.c:1121-1131 | the guarded accumulation never overflows and refuses exactly the numbers beyond 64 bits |
| JsonIntegers.DecimalRoundTrip | src/mipc.c:1101-1132 | printing a number and reading it back gives the number |
| JsonEscape.MeasureEscaped | src/mipc.c:238-256 | the first pass measures the escaped text, within the packet limit |
| JsonEscape.EscapedJsonString | src/mipc.c:226-309 | the second pass writes exactly the measured text and a terminator |
| JsonEscape.EscapeRoundTrip | src/mipc.c:226-309 | decoding the escaped text of any C string gives the string back |
| JsonRecord.JsonObjectShape | src/mipc.c:179-191 | the two trimming loops decide whether braces enclose the text |
| JsonRecord.SendJson | src/mipc.c:193-224 | shape, size and wire decide the status, in this order |
| JsonRecord.SendFormat | src/mipc.c:311-348 | a formatted text that is too long is never handed on |
| JsonRecord.ValidateRawValue | src/mipc.c:413-430 | a raw value must not be too long or blank |
| JsonRecord.SendCallJson | src/mipc.c:454-499 | the order of the argument checks and the exact record on the wire |
| JsonRecord.RecordShape | src/mipc.c:179-191 | every printed record passes the shape test |
| JsonRecord.RecordField | src/mipc.c:484-495 | the first slot of a printed record with a key reads back as its value, whatever the other slots hold |
| JsonRecord.CallRoundTrip | src/mipc.c:454-499 | target, method, id, deadline and payload read back as the original values, for any payload within the depth bound |
| JsonRecord.CallFields | src/mipc.c:454-499 | every field of a call record, each found at its own slot |
| JsonRecord.CallIsCString | src/mipc.c:454-499 | a record made of C strings is one |
| Template.ParseTemplate | msys_sdk/i18n.py:654-695 | token and error lists, built with a literal buffer that errors do not flush |
| Template.ParsePrint | msys_sdk/i18n.py:654-695 | printing a normalised token list and parsing it gives the list back, without errors |
| Template.PrintParse | msys_sdk/i18n.py:654-695 | parsing gives a normalised list, and printing that of an error-free template gives the template back |
| Template.ErrorFreeExactly | msys_sdk/i18n.py:654-695 | the error-free templates are exactly the printed token lists |
| Rendering.RenderTemplate | msys_sdk/i18n.py:542-594 | the rendered text and the problems reported, each unfilled name once and in order |
| Rendering.NoProblemsExactly | msys_sdk/i18n.py:542-594 | nothing is reported exactly when the template is well-formed and every placeholder has a usable argument |
| Rendering.FindParam | src/i18n.c:400-416 | the first parameter with that name, passing over absent names and values |
| Rendering.AppendBytes | src/i18n.c:418-432 | the bounded copy keeps the buffer a prefix of everything appended while the length counts it all |
| Rendering.ScanName | src/i18n.c:462-473 | the name loop ends at the first closing brace and flags exactly the invalid names |
| Rendering.Render | src/i18n.c:434-500 | status, whole length, and every byte of the buffer afterwards |
| Rendering.DeliveredPrefix | src/i18n.c:490-499 | a buffer holds, as a C string, the longest prefix of the text that fits, complete exactly when it fits |
| Rendering.RenderedCString | src/i18n.c:434-500 | texts and parameters without terminators render to a text without one |
| RenderAgreement.RenderersAgree | src/i18n.c:434-500 | C on the UTF-8 bytes and Python on the code points accept the same templates, and for a valid one C appends the UTF-8 form of Python's text |
| RenderAgreement.RenderEncoded | src/i18n.c:434-500 | the whole call against Python's result, for every capacity |
| Locale.NormalizedCanonical | msys_sdk/i18n.py:115-153 | every result matches the canonical pattern and normalizes to itself |
| Locale.CanonicalFixed | msys_sdk/i18n.py:31-35 | the canonical names are the fixed points, but for "posix" |
| Locale.ParentCanonical | msys_sdk/i18n.py:170-184 | each truncation in the fallback chain is canonical again |
| Locale.NormalizersAgree | src/i18n.c:21-132 | both normalizers give the same answer except exactly on longer names that are locales, which C refuses, and on names with an inner space behind a locale name that fits, which Python refuses |
| Locale.CNormalizedCanonical | src/i18n.c:21-132 | whatever bytes C is given, a result is canonical, fits its buffer and is produced again from itself |
| Locale.CanonicalFixedC | src/i18n.c:21-132 | C's fixed points are the canonical names of at most 63 bytes other than "posix" |
| Locale.SpaceInside | src/i18n.c:38-49 | the input on which the two differ because of an inner space |
| Locale.LongName | src/i18n.c:43-45 | an input on which the two differ because of its length |
| LocaleCode.NormalizeLocale | msys_sdk/i18n.py:115-153 | the list-building function computes the result, and its final pattern test never fails |
| LocaleCode.EqualFold | src/i18n.c:9-19 | equality up to ASCII case |
| LocaleCode.CopyName | src/i18n.c:38-49 | leading space skipped, the name copied with dashes for underscores, and refused exactly when it does not fit |
| LocaleCode.NormalizePart | src/i18n.c:61-126 | one subtag rewritten in place, or refused |
| LocaleCode.NormalizeRaw | src/i18n.c:57-129 | the loop over the buffer leaves the normalized name in it, or refuses it |
| LocaleCode.NormalizeInto | src/i18n.c:21-132 | status for every name and capacity, and the output afterwards; nothing is written on failure |
| Plural.Magnitude | src/i18n.c:233-236 | the absolute value of any 64-bit count without leaving the types |
| Plural.CategoriesAgree | src/i18n.c:245-341 | for every name that the normalizers read alike both languages choose the same category, except exactly for Portuguese names for Portugal with more subtags at count 0 |
| Catalogs.ValidateEntry | msys_sdk/i18n.py:758-779 | one message has no issue exactly when key and template are valid; its placeholder names |
| Catalogs.ValidateSections | msys_sdk/i18n.py:742-779 | the first pass finds no issue exactly when every locale is valid, and tabulates all placeholder names |
| Catalogs.CompareSections | msys_sdk/i18n.py:781-794 | the second pass finds no issue exactly when every message is covered by the default locale |
| Catalogs.ValidateCatalog | msys_sdk/i18n.py:698-795 | the validator finds no issue exactly in the valid documents |
| Catalogs.FromDocumentValid | msys_sdk/i18n.py:88-102 | a document without issues becomes a valid catalog |
| Fallback.LocaleCandidates | msys_sdk/i18n.py:170-184 | the loop lists the name and its parents, then the default |
| Fallback.ChainFacts | msys_sdk/i18n.py:404-408 | the chain of any requested locale is non-empty, without repetition, inside the catalog, and contains the default |
| Fallback.RequestedCanonical | msys_sdk/i18n.py:390-403 | the recorded locale is canonical |
| Fallback.DefaultKeysResolve | msys_sdk/i18n.py:509-521 | every key of the default locale resolves, whatever locale was requested |
| Fallback.DefaultPluralsResolve | msys_sdk/i18n.py:523-540 | a key with an "other" form in the default locale always gets a plural form |
| Fallback.CompleteRendering | msys_sdk/i18n.py:542-594 | parameters that fill the default message render any message chosen for the key without a problem |
| Translation.Translator.constructor | msys_sdk/i18n.py:307-329 | a new object is valid, with the chain of its first locale |
| Translation.Translator.SetLocale | msys_sdk/i18n.py:369-416 | requested locale, chain, returned locale and diagnostics; the invariant holds afterwards |
| Translation.Translator.TextFor | msys_sdk/i18n.py:418-456 | the text and the diagnostics; none for a default key with complete parameters |
| Translation.Translator.PluralFor | msys_sdk/i18n.py:458-505 | the same for a count, which is put among the parameters; counts out of range are an error |
| Translation.Translator.ResolveKey | msys_sdk/i18n.py:509-521 | the loop over the chain finds what the resolution function says |
| Translation.Translator.ResolvePluralKey | msys_sdk/i18n.py:523-540 | the nested loops over locales and candidate keys do the same for plural forms |
| Translation.Translator.RenderAndReport | msys_sdk/i18n.py:542-594 | the rendered text, with one diagnostic for each problem |
| Translation.SetBindingLookup | msys_sdk/i18n.py:494-504 | putting the count among the parameters changes no other name |
| Translation.Translator.Emit | msys_sdk/i18n.py:596-618 | the log keeps the newest entries within its limit |
| Translation.KeptTwice | msys_sdk/i18n.py:326-326 | bounding the log at every step is bounding all that was ever put into it |
| CLiteral.PrintLiteral | msys_sdk/i18n_c.py:17-43 | the pieces and the pending run are joined into the literal |
| CLiteral.LiteralRoundTrip | msys_sdk/i18n_c.py:17-43 | C reads the literal back as the UTF-8 bytes of the value exactly when the value holds no trigraph (translation phases 1, 5 and 6 of C11: sections 5.1.1.2, 5.2.1.1, 6.4.4.4 and 6.4.5) |
| CLiteral.TrigraphLost | msys_sdk/i18n_c.py:17-43 | the shortest such value is read as another character |
| Table.LookupExact | src/i18n.c:152-166 | the first row with that locale and key |
| Table.RequestedLocale | src/i18n.c:168-184 | the given name normalized, or else the default one |
| Table.DropSubtag | src/i18n.c:205-213 | the candidate in the buffer becomes its parent, exactly when it has a dash |
| Table.LookupKeys | src/i18n.c:186-222 | the loop over the shortened candidate and the final look at the default |
| Table.LookupPluralExact | src/i18n.c:343-367 | category key, then "other", unless a key does not fit its buffer |
| Table.LookupPlural | src/i18n.c:369-398 | plural forms along the candidates, then of the default, then the plain key |
| TableAgreement.RowsOf | msys_sdk/i18n_c.py:54-58 | the first matching row of the compiled table is the message of the nested dictionaries, with its text as the compiler reads it |
| TableAgreement.CompileExact | msys_sdk/i18n_c.py:46-88 | the compiled table holds the UTF-8 form of everything in the catalog exactly when no message holds a trigraph |
| TableAgreement.KeysFit | src/i18n.c:350-361 | a plural key that a catalog can hold never meets the 256-byte limit |
| TableAgreement.ChainAgrees | src/i18n.c:201-221 | shortening a candidate and then trying the default is resolution along the filtered chain |
| TableAgreement.LookupAgrees | src/i18n.c:186-231 | msys_i18n_lookup over the compiled table returns the message that Python chooses, but for two exact exceptions |
| TableAgreement.PluralLookupAgrees | src/i18n.c:369-398 | the same for plural lookup and every count, with the exact condition under which the two differ |
| TableAgreement.PortugalDiffers | src/i18n.c:333-336 | a valid catalog, locale and count on which the plural rules differ |
| TableAgreement.PosixDiffers | src/i18n.c:168-184 | a valid catalog and name for which C finds nothing and Python does |
| TableAgreement.TrigraphDiffers | msys_sdk/i18n_c.py:46-88 | a valid catalog that compiles and gives another text in C |
| EndToEnd.SameText | src/i18n.c:434-500 | catalog, compiled table, C lookup and C rendering give the UTF-8 form of what Translator.text returns, for a message without a trigraph |
| EndToEnd.SamePlural | msys_sdk/i18n.py:458-505 | the same for Translator.plural, where the chain does not diverge |
| InputMethod.TkInputMethodBinding.QueueRequest | msys_sdk/ui_input_method.py:219-230 | the locked region of queueing: coalescing, and whether a worker must be started |
| InputMethod.TkInputMethodBinding.FetchRequest | msys_sdk/ui_input_method.py:239-244 | the worker takes the waiting request or gives up its place |
| InputMethod.TkInputMethodBinding.CallFailed | msys_sdk/ui_input_method.py:253-257 | a failed request is forgotten unless a newer one waits |
| InputMethod.TkInputMethodBinding.CloseBinding | msys_sdk/ui_input_method.py:273-278 | closing drops the waiting request and leaves a hide as the desired state |
| InputMethod.RunInvariant | msys_sdk/ui_input_method.py:216-300 | the five invariants hold in every state of every run |
| InputMethod.OneWorkerNoLostWakeup | msys_sdk/ui_input_method.py:216-265 | there is at most one live worker, and a waiting request always has one |
| InputMethod.CallsAreSubsequence | msys_sdk/ui_input_method.py:237-265 | the requests that the started calls carried are a subsequence of the accepted ones, and the call under way carries the last of them |
| InputMethod.LastRequestWins | msys_sdk/ui_input_method.py:237-265 | when the worker is idle the last call carried the last accepted request, and the desired state says whether it succeeded |
| InputMethod.ClosedIsFinal | msys_sdk/ui_input_method.py:267-278 | after closing no call is started |
| InputMethod.NewestIsCalledNext | msys_sdk/ui_input_method.py:237-252 | the request that the worker takes next is the newest accepted one, and no call has carried it |
| Bridge.ReadLineFrom | msys_sdk/stdio_bridge.py:110-110 | a bounded read ends at a line feed, at the bound or at the end |
| Bridge.AcceptedExactly | msys_sdk/stdio_bridge.py:28-44 | a line is accepted exactly when it ends in a line feed and holds a good record, so the read bound never matters |
| Bridge.ChildToSocket | msys_sdk/stdio_bridge.py:107-120 | the pump loop computes the packets sent and how it ended |
| Bridge.PumpWire | msys_sdk/stdio_bridge.py:107-120 | a run of writable records is passed on, and the pump goes on with whatever follows |
| Bridge.ForwardsAll | msys_sdk/stdio_bridge.py:107-120 | any sequence of writable records with either line ending arrives unchanged and in order |
| Bridge.ForwardsWholeLines | msys_sdk/stdio_bridge.py:107-120 | on any output of the child the packets are whole lines from its start |
| Bridge.OverlongRejected | msys_sdk/stdio_bridge.py:36-37 | an over-long line after any run of good ones ends the pump with the exact error; the good ones were sent, nothing of the long one is |
| Bridge.BadLineRejected | msys_sdk/stdio_bridge.py:28-44 | the same for any line that is not a terminated good record |

## Left out

- Sockets, poll, file descriptors, clocks, thread creation and environment reads: the wire is an input sequence, a send succeeds or fails by a parameter or a step, and a timeout is a step that may happen at any time.
- JSON parsing in Python: the dispatcher model keeps of a record its id, whether it is a reply with an integer id, and its identity; a record whose type cannot be looked up in a set (a list, say) raises in the reader and is one of the packets that stop it; the bridge takes "parses as a JSON object" as a parameter.
- Catalog texts with a lone surrogate: the validator lets them pass and the header generator raises; the strings of the model have none.
- Table.Compile: what a compiler does with a header in which a trigraph leaves no string literal (an escape that C11 does not know, or no closing quote) is not modelled, nor are a compiler's limits on the length of a literal.
- Null pointers, failing allocations and the overflow branch of get_string (the decoded text is never longer than its spelling): not reachable from the sequences and arrays of the model.
- JsonRecord.SendFormat: takes the text that the format produces; the other record printers (hello, ready, subscribe, event, return, error) are not written out, and JsonRecord.RecordField covers any list of slots.
- Utf8.EncodeUtf8: bit operations are written as division and remainder, which give the same octets.
- DispatcherRuns.OneOutcome: a duplicate reply that arrives between a caller's get and its unregistering is placed in the waiter and never read; the model keeps it in the waiter's history.
- LocaleCode.NormalizeLocale: ASCII names only; Python also folds some other letters into ASCII ones.
- LocaleCode.NormalizePart: the inner loops of the C function are methods of their own, with the same in-place effect.
- Locale.NormalizersAgree: not for names with the separators 0x1C to 0x1F, which only Python strips.
- Fallback.LocaleCandidates: ASCII names only, as in LocaleCode.NormalizeLocale.
- Translation.Translator.constructor: ASCII locale names and environment values only.
- Translation.Translator.SetLocale: ASCII locale names and environment values only; the four environment variables are given as a list of values; the diagnostic callback and the wording of messages are not modelled.
- Translation.Translator.TextFor: parameters are bindings of strings, integers or other values; a parameter argument that is no mapping is not modelled.
- Catalogs.ValidateCatalog: the fields schema, id, description and extensions are one flag; the wording of the issues is not modelled.
- Table.LookupKeys: a null catalog and null entries are not modelled; the buffer of the candidate is.
- InputMethod.TkInputMethodBinding.CloseBinding: the hide that closing sends is not ordered after a worker call already under way, and nothing is claimed about it; Tk bindings and the focus timer are absent.
- Bridge.ChildToSocket: the other direction, the process lifecycle and exit codes are not modelled.
- render_c_header: the text of the header around the entry table, include guards and symbol names.
- msys_sdk/component_ipc.py, tk_app.py, ui_layout.py, ui_fonts.py, ui_identity.py, app_manifest.py, package_i18n.py, application_navigation.py: weaker copies of the members here, toolkit calls, or field checks.
