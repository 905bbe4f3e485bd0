# lua-t: verified models of the event loop, the packer, the CSV parser and the codecs

This project models five parts of the C library behind lua-t and proves what they promise.

| part | files here | what is shown |
|---|---|---|
| Timers of the event loop | `Schedule.dfy`, `Timers.dfy` | The sorted linked list of tasks on the heap does what the list functions say. Over every run of adding, cancelling, passing and cleaning these functions agree with an unordered ledger of delays and waiting times. |
| Observed descriptors | `Interest.dfy`, `Select.dfy`, `Epoll.dfy` | Both back ends follow one map from descriptor to directions over every sequence of calls, and the select dispatch loop misses nobody. |
| Binary packer | `PackInt.dfy`, `PackTree.dfy`, `PackFormat.dfy` | Bit fields at any offset, nested packers and the format language, each with its round trip. |
| CSV | `CsvMachine.dfy`, `CsvPrint.dfy`, `CsvFields.dfy`, `CsvRow.dfy`, `CsvRows.dfy`, `CsvFiles.dfy`, `CsvSplit.dfy` | What every record is worth, well-formed or not. The row parser undoes a printer and can be restarted anywhere; reading a record line by line is parsing it at once; a file of printed rows is read back row by row; the splitter conserves its text. |
| Codecs | `Words.dfy`, `CrcTheory.dfy`, `CrcMirror.dfy`, `CrcResidue.dfy`, `Crc.dfy`, `Rc4.dfy`, `Base64.dfy` | CRC against long division of polynomials and its residue, RC4 against the tables and indices of a run, Base64 against section 4 of RFC 4648, line breaks included. |

Code that changes things step by step is modelled by classes, arrays and loops (`Timers.Loop`, `Select.Loop`,
`Epoll.Loop`, `CsvRow.Row`, `CsvSplit.Splitter`, `Crc.Encoder`, `Rc4.Generator`, the buffer methods of `PackInt`,
`PackTree` and `Base64`). Every such method is proved against a function on values, and the promises are
lemmas about that function. Machine words are natural numbers; `Words` defines the bitwise operations on them
and wrap-around is written out where a C variable has it. The host is little-endian with 64-bit `long`,
`size_t` and `lua_Integer`.

## Where code and promise differ

The code is modelled as it is. In these places it does not keep a promise of its comments, its documentation or
its tests; the condition under which it does is proved.

- `ael->tout` is meant to be the delay of the list head (src/t_ael_l.h:72-75). A pass that runs nothing leaves it
  alone while the delays shrink: it is too large by exactly the time that has passed since it was last written
  (`Schedule.DriftOfRun`). `Schedule.CacheExactInRuns` and, event by event, `Schedule.CacheExactAfter` say when it is
  right; `Schedule.CacheStale` shows a wrong one. It is never too small, and it is -1 exactly for the empty list, so
  the stop test is still exact.
- Lines that end in CR LF are promised by the tests (test/t_csv_parse.lua:237-248 for a null last field). The last
  field of such a line is right if and only if it is bare and not followed by spaces, or the empty quoted text:
  `CsvPrint.CrlfRightWhen`, with the counterexamples in `CsvPrint.CrlfBreaks`. Carriage returns at the end of
  any field are dropped: `CsvPrint.ValueIsText`.
- The splitter (docs/Csv.rst:37-41) can return a token that contains the delimiter. It never does so exactly for
  the delimiters described by `CsvSplit.Restartable`: `CsvSplit.SplitsAllIff`, with `CsvSplit.MissedDelimiter`.
- The loop is to run until no handler is left and `clean` is to remove everything (docs/Loop.rst:187-196). When epoll
  refuses to add a descriptor (docs/Loop.rst:82-94 shows such a call), the node stays with an empty mask. It is
  counted, so the loop does not stop, and removing it or cleaning the loop fails: `Epoll.RefusedAddSticks`, with the
  exact conditions in the contracts of `Epoll.Loop.RemoveHandle` and `Epoll.Loop.Clean`.
- A task reschedules itself for an answer greater than 1 according to docs/Loop.rst:233-236, from 1 on in the code:
  `Schedule.ExecuteShrinks`.
- `t_ael_dnd_execute` says it runs "read or write or both" (src/t_ael_dnd.c:43-47); it never runs both:
  `Select.Execute`, `Select.Loop.Dispatch`. With epoll an error or hang-up on a descriptor that is only read runs
  nothing: `Epoll.ServedAllIff`, with `Epoll.ErrorUnserved`.
- `t_pck_getSize` answers 0 for a packer with an empty part: `PackTree.ReportedExactly`, `PackTree.ReportedCollapses`.
- Calling a packer on a text is to fail when the text is shorter than offset plus length (src/t_pck_l.c:612-613). The
  test lets a read run up to eight bits over the end, and with an empty part in the packer any distance:
  `PackTree.AdmittedOverrun`.
- The 32-bit output index of the Base64 encoder wraps for inputs of more than 3 * 2^30 bytes: `Base64.EncoderExact`.
  The 32-bit index of the decoder never reaches a length of 2^32 or more, so decoding what was encoded ends only for
  inputs of at most 3 * 2^30 - 3 bytes: `Base64.DecoderEnds`, `Base64.RoundTripEnds`.
  The size of a decoded text is right only with fewer than four line breaks: `Base64.DecodedSizeExact`, with
  `Base64.DecodedSizeWrong`.
- The 8-bit counter of RC4 ends a call only for buffers of at most 255 bytes: `Rc4.CounterReaches`.

## Model

| member | source | states |
|---|---|---|
| Schedule.InsertPlaces | src/t_ael_tsk.c:122-162 | Insertion puts the task in front of the first one with at least its delay and changes nothing else. |
| Schedule.InsertSorted | src/t_ael_tsk.c:112-115 | Insertion keeps the list sorted. |
| Schedule.RemovePlaces | src/t_ael_tsk.c:174-218 | Removal takes out the first occurrence of the candidate; an absent candidate changes nothing. |
| Schedule.RemoveMembers | src/t_ael_tsk.c:165-218 | After a removal exactly the other tasks are left, with their delays. |
| Schedule.RemoveOrder | src/t_ael_tsk.c:165-218 | Removal keeps the list sorted and without duplicates. |
| Schedule.ExecuteShrinks | src/t_ael_tsk.c:55-74 | An executed head is due no more, whatever it answers, so a pass ends; it is back in the list for an answer of at least 1. |
| Schedule.RunDueIsPrefix | src/t_ael_tsk.c:85-108 | Running heads while earlier ones reschedule runs exactly the due prefix, in order. |
| Schedule.PassRunsDue | src/t_ael_tsk.c:85-108 | One pass runs exactly the tasks with a delay of at most `et`, once and in list order, and leaves the others reduced by `et` plus the rescheduled ones. |
| Schedule.PassRefines | src/t_ael_tsk.c:85-108 | A task runs in a pass if and only if it has waited its delay; no task is lost, duplicated or run twice. |
| Schedule.StepRefines | src/t_ael_l.c:313-351 | Every operation keeps the list in agreement with the ledger. |
| Schedule.RunRefines | src/t_ael_l.c:382-411 | Over every run the stored delay of each live task is max(0, ms - waited), the list is sorted, and the n-th event runs exactly the tasks that have waited their delay. |
| Schedule.RunsOnTime | src/t_ael_tsk.c:85-108 | A task left alone runs in the pass that brings the elapsed time to its delay. |
| Schedule.NeverEarly | src/t_ael_tsk.c:85-108 | It runs in no pass before that. |
| Schedule.PassCache | src/t_ael_tsk.c:85-108 | A pass that runs a task leaves `tout` equal to the delay of the head; one that runs nothing leaves `tout` alone. |
| Schedule.RunCache | src/t_ael_l.h:72-75 | In every run `tout` is -1 exactly when the list is empty and never below the delay of the head. |
| Schedule.CacheExactAfter | src/t_ael_tsk.c:30-44 | From any reachable `tout`: after which events, in which states, it is the delay of the head. |
| Schedule.DriftAfter | src/t_ael_tsk.c:30-108 | An event that writes `tout` makes it right; an idle pass puts it `et` further ahead of the head; everything else keeps the distance. |
| Schedule.LastWriteIsLast | src/t_ael_tsk.c:122-218 | What the last write of a run is: an event that writes `tout`, and none behind it does. |
| Schedule.DriftOfRun | src/t_ael_tsk.c:30-108 | Over every run `tout` is ahead of the head by exactly the time that has passed since the last write. |
| Schedule.CacheExactInRuns | src/t_ael_l.h:72-75 | In every run that starts with a right `tout` it is right if and only if nothing waits or no time has passed since the last write. |
| Schedule.CacheStale | src/t_ael_tsk.c:30-44 | A concrete idle pass after which `tout` is 10 and the head is due in 6. |
| Timers.Loop.InsertTask | src/t_ael_tsk.c:122-162 | On the heap: the list stays acyclic and sorted, and its entries and `tout` are those of `Schedule.Add`. |
| Timers.Loop.SeekSlot | src/t_ael_tsk.c:147-155 | The walk stops at the last task with a smaller delay. |
| Timers.Loop.LinkAfter | src/t_ael_tsk.c:156-160 | The two link stores put the task into the chain. |
| Timers.Loop.UnlinkTask | src/t_ael_tsk.c:174-214 | Exactly the candidate leaves the chain; only the removal of the head writes `tout`. |
| Timers.Loop.SeekTask | src/t_ael_tsk.c:199-212 | The walk finds the candidate or reaches the end. |
| Timers.Loop.RemoveTask | src/t_ael_tsk.c:174-218 | The candidate is out of the list with its link cleared; if it was absent the list is untouched. |
| Timers.Loop.AddTask | src/t_ael_l.c:313-333 | A fresh task goes in with its delay. |
| Timers.Loop.CancelTask | src/t_ael_l.c:344-351 | The task is no longer in the list. |
| Timers.Loop.CleanTasks | src/t_ael_l.c:589-591 | The list is empty and `tout` says so. |
| Timers.Loop.AdjustTasks | src/t_ael_tsk.c:30-44 | Every delay is reduced by the elapsed time down to 0; `tout` is not written. |
| Timers.Loop.ExecuteTask | src/t_ael_tsk.c:55-74 | The task is unlinked and, for an answer of at least 1, linked again with that delay. |
| Timers.Loop.ProcessTasks | src/t_ael_tsk.c:85-108 | The tasks run, their order, the list and `tout` are those of `Schedule.Pass`. |
| Timers.Loop.Turn | src/t_ael_l.c:402-407 | After a turn the loop goes on if and only if a task or a descriptor is left. |
| Timers.RunGoesOn | src/t_ael_l.c:382-411 | A call on the heap adds one event to the run of the list functions. |
| Timers.Perform | src/t_ael_l.c:313-351 | Any one call is one step of the list functions, and a new task is one the list does not hold. |
| Timers.Replay | src/t_ael_l.c:382-411 | Any sequence of calls on a new loop is a run of the list functions, ends in a valid heap list and agrees with the ledger. |
| Interest.RunObserves | src/t_ael_l.c:199-300 | In the abstract map a direction is observed if and only if it was added after it was last removed. |
| Interest.RunHasNoEmptyMask | src/t_ael_l.c:289-298 | A descriptor without a direction is not in the map. |
| Select.Loop.constructor | src/p_ael_sel.c:74-82 | An empty loop whose state is zeroed. |
| Select.Loop.AddImpl | src/p_ael_sel.c:107-124 | The bits, the mark and the maximum are set as requested. |
| Select.Loop.AddHandle | src/t_ael_l.c:199-249 | The node table follows the abstract map, and the bitmaps, marks, maximum and count agree with it. |
| Select.Loop.RemoveImpl | src/p_ael_sel.c:137-164 | The bits go; when no direction is left the mark goes too and the scan finds the next lower marked descriptor or -1. |
| Select.MaxWithout | src/p_ael_sel.c:156-161 | After the scan `fdMax` is the largest descriptor that is left. |
| Select.Loop.RemoveHandle | src/t_ael_l.c:262-300 | The same agreement after a removal; false exactly for an unobserved descriptor. |
| Select.Loop.Clean | src/t_ael_l.c:593-604 | Nothing is observed, counted or marked any more. |
| Select.Loop.Replay | src/t_ael_l.c:199-300 | After every sequence of calls the node table is the abstract map and all select state agrees with it. |
| Select.Execute | src/t_ael_dnd.c:50-70 | At most one of the two callbacks runs, reading first; none runs exactly when the node and the event share no direction. |
| Select.Loop.Dispatch | src/p_ael_sel.c:197-227 | Each ready observed descriptor gets exactly one call, in ascending order; the early exit on the count of bits skips none. |
| Epoll.Loop.EpollCtl | src/p_ael_epl.c:119-122 | The kernel side: ADD needs an unknown descriptor, MOD and DEL a known one. |
| Epoll.Loop.AddImpl | src/p_ael_epl.c:98-124 | ADD or MOD is chosen so that only the kernel's own refusal can fail, and the merged events are set. |
| Epoll.Loop.AddHandle | src/t_ael_l.c:199-249 | The node table follows the abstract map and the kernel watches it; after a refusal only an empty node may be new. |
| Epoll.Loop.RemoveImpl | src/p_ael_epl.c:137-158 | MOD or DEL succeeds if and only if the node has a direction and MOD is not refused. |
| Epoll.Loop.RemoveHandle | src/t_ael_l.c:262-300 | The exact cases of not observed, error and success, and the new table. |
| Epoll.Loop.Clean | src/t_ael_l.c:593-604 | Cleaning succeeds if and only if no node has an empty mask; then nothing is left. Otherwise some of the nodes with a direction are gone and no others. |
| Epoll.Loop.Replay | src/p_ael_epl.c:98-158 | Over every sequence of unrefused calls every epoll_ctl succeeds and the kernel watches the abstract map. |
| Epoll.Loop.ReplayRefused | src/p_ael_epl.c:98-158 | With refusals at will and cleans that fail: what the kernel watches, which nodes are stuck, and how every call ends, each from the calls before it alone. |
| Epoll.Loop.Perform | src/t_ael_l.c:199-300 | Any one call ends as its node table and the refusal say, and leaves the table that its ending says. |
| Epoll.StuckBySnoc | src/p_ael_epl.c:119-122 | A node becomes stuck by a refused ADD of an unwatched descriptor and is so until an ADD of it is accepted. |
| Epoll.EndingExplained | src/t_ael_l.c:262-300 | How a call ends is decided by the calls before it. |
| Epoll.CallMirrored | src/t_ael_l.c:199-300 | After every call the node table is still what the calls say, stuck nodes included. |
| Epoll.Loop.Dispatch | src/p_ael_epl.c:191-214 | The reports are served in order and counted; each runs reading if there is something to read, else writing if the node asks for it, else nothing. |
| Epoll.ServedOne | src/p_ael_epl.c:199-206 | What a single report runs. |
| Epoll.ServedConcat | src/p_ael_epl.c:193-211 | Reports are served one by one. |
| Epoll.ServedAllIff | src/p_ael_epl.c:199-200 | Every report is served if and only if each has something to read or its node writes. |
| Epoll.ErrorUnserved | src/p_ael_epl.c:199-206 | An error report on a descriptor that is only read, which runs nothing. |
| Epoll.RefusedAddSticks | src/p_ael_epl.c:119-122 | A refused ADD leaves a counted node that neither removal nor cleaning takes away. |
| Epoll.BackendsAgree | src/p_ael_epl.c:98-158 | With the same node table both back ends observe the same directions of the same descriptors. |
| CsvMachine.StripCr | src/t_csv_l.c:34 | Exactly the carriage returns at the end are dropped. |
| CsvMachine.TailDetermines | src/t_csv_l.c:106-109 | An unfinished parse depends only on the pushed fields and the text from `fld`. |
| CsvMachine.RestartIsOneShot | src/t_csv_l.c:175-197 | Parsing the returned tail followed by more text gives the remaining fields and the same flag as parsing everything at once. |
| CsvMachine.ReadRecordIsOneShot | lua/t/Csv.lua:46-63 | Reading a record line by line, with every restart, equals parsing the joined lines. |
| CsvMachine.ReadRecordUses | lua/t/Csv.lua:46-63 | A record takes the fewest lines that complete it. |
| CsvPrint.HalveDouble | src/t_csv_l.c:36-41 | Replacing doubled quotes undoes doubling them, for every text. |
| CsvPrint.HalveRun | src/t_csv_l.c:36-41 | Of any run of quotes every second one goes. |
| CsvPrint.PushedIsText | src/t_csv_l.c:28-43 | The raw text of a quoted field is pushed as its text. |
| CsvPrint.CellFed | src/t_csv_l.c:63-138 | A printed field with spaces around it is pushed as its value at the next delimiter or line feed. |
| CsvPrint.ParsePrinted | src/t_csv_l.c:59-147 | A printed row with a line feed is complete and gives back exactly its fields, null and empty kept apart. |
| CsvPrint.ValueIsText | src/t_csv_l.c:34 | A text survives if and only if it does not end in a carriage return. |
| CsvPrint.ParseCrlf | src/t_csv_l.c:59-147 | With CR LF every field but the last is right, and what the last one becomes. |
| CsvFields.FieldEnds | src/t_csv_l.c:63-138 | Any text of a field, well-formed or not: a separator ends it exactly when the number of quotes is even or it is unquoted, and what is pushed. |
| CsvFields.FieldsRead | src/t_csv_l.c:59-147 | Such texts between delimiters and a line feed are a record of their values. |
| CsvFields.RecordRead | src/t_csv_l.c:59-147 | Every complete record is made of such texts. |
| CsvPrint.CrlfRightWhen | test/t_csv_parse.lua:154-168 | When the last field of a CR LF line is right. |
| CsvPrint.CrlfBreaks | test/t_csv_parse.lua:237-248 | Two CR LF lines with a wrong last field. |
| CsvRow.CString | src/t_csv_l.c:142-143 | The parser sees the line up to its first NUL. |
| CsvRow.Row.PushField | src/t_csv_l.c:28-50 | Null exactly for an untouched field, otherwise the stripped and unquoted text; the count goes up and the field is stored at the new count. |
| CsvRow.FillAt | src/t_csv_l.c:30-48 | What the table holds after a call: the fields of the call at the indices behind the count, a null field as nothing, everything else as before. |
| CsvRow.FillConcat | lua/t/Csv.lua:50 | A call that goes on from the returned count fills the table as one call for both parts does. |
| CsvRow.Row.FieldEnd | src/t_csv_l.c:70-78 | The branches for the delimiter and the line feed behind unquoted and quoted text follow the machine. |
| CsvRow.Row.FieldBegin | src/t_csv_l.c:106-120 | The registers follow the machine at the beginning of a field. |
| CsvRow.Row.DataNaked | src/t_csv_l.c:69-82 | The same for unquoted data. |
| CsvRow.Row.DataQuoted | src/t_csv_l.c:83-87 | The same inside quotes. |
| CsvRow.Row.QuotesOne | src/t_csv_l.c:88-97 | The same behind a quote. |
| CsvRow.Row.QuotesTwo | src/t_csv_l.c:98-105 | The same behind a doubled quote. |
| CsvRow.Row.Quotes1st | src/t_csv_l.c:121-127 | The same behind the opening quote. |
| CsvRow.Row.Quotes2nd | src/t_csv_l.c:128-135 | The same behind two quotes. |
| CsvRow.Row.Parse | src/t_csv_l.c:59-147 | The flag, the fields, their number, their places in the table and the tail are those of the machine. |
| CsvRow.ParseLine | src/t_csv_l.c:165-198 | The same for a whole call, on the line up to its first NUL and from any table and count. |
| CsvRows.PrintThenParse | src/t_csv_l.c:165-198 | Printing a row and handing the line to parseLine gives back the fields behind the count it was given, and counts them. |
| CsvRows.NextRowIsOneShot | lua/t/Csv.lua:46-63 | Behind blank lines the next record is what parsing all remaining lines at once gives, and it takes the fewest lines. |
| CsvRows.TailOfLine | src/t_csv_l.c:194-197 | An unfinished line hands back some text, and only text that was read. |
| CsvRows.NextRecord | lua/t/Csv.lua:46-63 | The iterator skips blank lines and returns the table of the next record and the lines it took, the end, or the error of running out of lines inside a record; the parts of a record go behind one another in the table. |
| CsvFiles.ReadAll | lua/t/Csv.lua:44-66 | A loop over the iterator gives the tables of all rows of the input, and whether it ended between records. |
| CsvFiles.FirstRecord | lua/t/Csv.lua:46-63 | When the input starts with a text that only its line feed completes, the next record is this text and the lines behind it hold the rest. |
| CsvFiles.FileRoundTrip | lua/t/Csv.lua:44-66 | A file of printed rows, line breaks inside quotes included, reads back as exactly their fields, in order; only a row that prints as an empty line is skipped. |
| CsvFiles.WriteThenRead | lua/t/Csv.lua:44-66 | Rows written to a file, cut into lines and read through the iterator come back as their tables. |
| CsvFiles.SplitIsLines | src/t_csv_l.c:211-251 | The tokens of Csv.split at line feeds are the lines of the text, with one more behind the last line feed. |
| CsvFiles.SplitRoundTrip | docs/Csv.rst:34-41 | The tokens of a text of printed rows read back as exactly their fields, in order. |
| CsvFiles.WriteSplitRead | test/t_csv_parse.lua:7-13 | Rows written to a text, split and read through the iterators come back as their tables. |
| CsvSplit.ScanMatches | src/t_csv_l.c:227-238 | Where the matcher stops a whole delimiter of this token has been read. |
| CsvSplit.SplitConserves | src/t_csv_l.c:211-251 | Joining the tokens gives back the text, kept delimiters make that concatenation, and the iterator ends. |
| CsvSplit.ScanFindsFirst | src/t_csv_l.c:227-238 | For a restartable delimiter the matcher stops at its first occurrence. |
| CsvSplit.SplitsAllIff | src/t_csv_l.c:227-238 | No token of any text contains the delimiter if and only if the delimiter is restartable. |
| CsvSplit.UniqueFirst | src/t_csv_l.c:230-234 | It is when its first character does not come again. |
| CsvSplit.MissedDelimiter | src/t_csv_l.c:230-234 | A text and a delimiter that goes unnoticed. |
| CsvSplit.Splitter.Next | src/t_csv_l.c:211-251 | Each call gives the next token and its number; nil for ever behind the last. |
| CsvSplit.SplitAll | src/t_csv_l.c:211-251 | A loop over the iterator gives all tokens and ends. |
| CsvSplit.EmptyDelimiter | src/t_csv_l.c:227-238 | With the empty delimiter the tokens are the single characters and then the empty text. |
| CrcTheory.TableStep | src/t_enc_crc.c:62-73 | One table lookup is eight shifts of the register. |
| CrcTheory.RegisterIsRemainder | src/t_enc_crc.c:62-73 | A register shifted right holds the remainder of long division. |
| CrcTheory.BurstDetected | src/t_enc_crc.c:62-103 | Bits that differ only in a window of the register's width give another register. |
| CrcMirror.FeedAllMirror | src/t_enc_crc.c:77-88 | The register shifted left is the mirror image of one shifted right. |
| CrcMirror.LeftTableStep | src/t_enc_crc.c:77-88 | One CCITT table lookup is eight shifts. |
| CrcMirror.LeftRegisterIsRemainder | src/t_enc_crc.c:77-88 | The CCITT register holds the remainder of long division. |
| Crc.CoefficientsOfWord | src/t_enc_crc.c:235-252 | The generator words are the polynomials they are named after. |
| Crc.RegisterIsPolynomialRemainder | src/t_enc_crc.c:62-103 | Every algorithm leaves the remainder by its polynomial, for every message and start value. |
| Crc.ResultInjective | src/t_enc_crc.c:71-72 | Different registers give different results in either byte order. |
| CrcResidue.OwnBytes | src/t_enc_crc.c:62-73 | A register shifted right and fed with its own bytes is cleared. |
| CrcResidue.ComplementBytes | src/t_enc_crc.c:92-103 | A CRC-32 register fed with the bytes of its complement is 0xdebb20e3. |
| Crc.ResidueLaw | src/t_enc_crc.c:62-103 | A big-endian result sent behind its message, in the byte order the algorithm shifts, leaves 0, or 0xdebb20e3 for CRC-32, from every start register. |
| Crc.OnlyChecksumPasses | src/t_enc_crc.c:62-103 | No other bytes of that length do. |
| Crc.OtherByteOrder | src/t_enc_crc.c:71-102 | The result in the other byte order has the same bytes reversed; results are C ints. |
| Crc.SendAndCheck | src/t_enc_crc.c:318-335 | A receiver that checksums the message and a trailer gets the fixed number exactly when the trailer is the checksum. |
| Crc.ChecksumDetectsBursts | src/t_enc_crc.c:62-103 | Every burst of flipped bits no longer than the register changes the checksum. |
| Crc.ChecksumDetectsByteBursts | src/t_enc_crc.c:62-103 | Messages that differ only inside 2 (CRC-32: 4) consecutive bytes have different checksums. |
| Crc.RegisterConcat | src/t_enc_crc.c:318-335 | A call on one part and then on the next equals one call on both. |
| Crc.Entry16 | src/t_enc_crc.c:136-151 | One table entry of init_16 is eight shifts of its index. |
| Crc.EntryCcitt | src/t_enc_crc.c:165-180 | The same for init_ccitt. |
| Crc.Entry32 | src/t_enc_crc.c:194-207 | The same for init_32. |
| Crc.Encoder.constructor | src/t_enc_crc.c:226-257 | The object starts with the table and the initial register of its algorithm: ones for CRC-32, zero otherwise. |
| Crc.Encoder.Init16 | src/t_enc_crc.c:131-156 | Table and register for CRC-16 and Kermit. |
| Crc.Encoder.InitCcitt | src/t_enc_crc.c:160-185 | Table and register for CCITT. |
| Crc.Encoder.Init32 | src/t_enc_crc.c:189-212 | Table and register for CRC-32. |
| Crc.Encoder.Calc16 | src/t_enc_crc.c:62-73 | The register and result are those of the bit-wise definition. |
| Crc.Encoder.CalcCcitt | src/t_enc_crc.c:77-88 | The same for CCITT. |
| Crc.Encoder.Calc32 | src/t_enc_crc.c:92-103 | The same for CRC-32, complemented. |
| Crc.Encoder.Calc | src/t_enc_crc.c:318-335 | The routine the object was made with: the register and result of its algorithm. |
| Crc.Encoder.Reset | src/t_enc_crc.c:266-272 | The register has its initial value again. |
| Crc.PartsThenWhole | src/t_enc_crc.c:226-335 | A message handed over in parts, and in one piece after a reset, has the same checksum both times. |
| Rc4.SwapKeepsPermutation | src/t_enc_rc4.c:23 | A swap keeps the table a permutation of all bytes. |
| Rc4.AlwaysPermutation | src/t_enc_rc4.c:33-84 | For every non-empty key and any number of bytes the table is a permutation. |
| Rc4.CryptConcat | src/t_enc_rc4.c:65-84 | Crypting in two calls equals crypting the concatenation. |
| Rc4.CryptTwice | src/t_enc_rc4.c:82 | The same key stream applied twice gives back the data. |
| Rc4.CallsAreOneCall | src/t_enc_rc4.c:65-84 | Any sequence of calls equals one call. |
| Rc4.StreamIsUnique | src/t_enc_rc4.c:33-84 | A key has one stream of every length, given by tables, indices and exchanges alone, and it is the one the generator shows. |
| Rc4.CryptIsRc4 | src/t_enc_rc4.c:33-84 | A new instance adds this stream to the data, bit by bit. |
| Rc4.RunExists | src/t_enc_rc4.c:33-84 | There is such a run for every key and length. |
| Rc4.CryptOnce | src/t_enc_rc4.c:65-84 | One call on a new object leaves the data with the stream of its key added. |
| Rc4.InstancesUndoEachOther | src/t_enc_rc4.c:65-84 | Two instances with one key undo each other however the text is cut into calls. |
| Rc4.CounterReaches | src/t_enc_rc4.c:67-69 | The 8-bit counter reaches the length if and only if it is at most 255. |
| Rc4.Generator.constructor | src/t_enc_rc4.c:112-127 | A new object holds the scheduled key. |
| Rc4.Generator.Init | src/t_enc_rc4.c:33-54 | The table after the key schedule, indices at 0. |
| Rc4.Generator.NextByte | src/t_enc_rc4.c:71-82 | One step of the generator and the byte it produces. |
| Rc4.Generator.CryptBuffer | src/t_enc_rc4.c:65-84 | The output is the data under the key stream; the state has advanced by its length. |
| Base64.EncodeIsRfc4648 | src/t_enc_b64.c:41-61 | The encoder's text is the one of section 4 of RFC 4648. |
| Base64.EncoderExact | src/t_enc_b64.c:43-60 | Written through its 32-bit index it is so exactly for inputs of at most 3 * 2^30 bytes. |
| Base64.DecodeEncode | src/t_enc_b64.c:66-87 | Decoding an encoded input, on an index without limit, gives it back with padding kept as zero bytes. |
| Base64.BreakIsSkipped | src/t_enc_b64.c:73-77 | A line feed or carriage return in front of a group changes nothing. |
| Base64.DecodeLines | src/t_enc_b64.c:66-87 | The text of RFC 4648 with any line feeds and carriage returns between its groups decodes to the input and its zero bytes. |
| Base64.DecodeText | src/t_enc_b64.c:66-87 | The same for the buffer, which is untouched behind the result. |
| Base64.DecoderEnds | src/t_enc_b64.c:68-80 | On complete groups the 32-bit index reaches the length if and only if the text is shorter than 2^32. |
| Base64.RoundTripEnds | src/t_enc_b64.c:68-80 | Decoding an encoded input ends if and only if the input has at most 3 * 2^30 - 3 bytes. |
| Base64.RoundTrip | src/t_enc_b64.c:41-87 | For these inputs encoding into one buffer and decoding into another leaves the RFC text in the one and the input with its zero bytes in the other. |
| Base64.EncodeInjective | src/t_enc_b64.c:41-61 | Different inputs have different texts. |
| Base64.DecodedSizeExact | src/t_enc_b64.c:35-36 | The computed size is the decoded one if and only if there are fewer than four line breaks. |
| Base64.DecodedSizeWrong | src/t_enc_b64.c:35-36 | Four line breaks: three bytes are announced, none is decoded. |
| Base64.DecEnc | src/t_enc_b64.c:154-156 | The decoder table inverts the encoder table. |
| Base64.Alphabet | src/t_enc_b64.c:18-22 | The encoder table is the alphabet of RFC 4648. |
| Base64.EncodeBuffer | src/t_enc_b64.c:41-61 | What the encoder leaves in its buffer, index wrap-around included. |
| Base64.Pad | src/t_enc_b64.c:59-60 | The last characters become padding and no others change. |
| Base64.InitTable | src/t_enc_b64.c:151-156 | The decoder table as filled at load time. |
| Base64.DecodeBuffer | src/t_enc_b64.c:66-87 | The decoded bytes are stored, with both indices in 32 bits, and what lies behind them is untouched. |
| PackInt.BitGetSet | src/t_pck_l.h:43-48 | Setting one bit of a byte sets this bit and no other. |
| PackInt.SpellsUnique | src/t_pck__readwrite.c:61-86 | The bits of a field determine one number. |
| PackInt.BigIsReversedLittle | src/t_pck__readwrite.c:28-49 | Big-endian is little-endian on the reversed bytes. |
| PackInt.ShiftOutSpells | src/t_pck__readwrite.c:70-75 | The shift-and-mask reader gives the most-significant-first number of the field's bits, at a byte border too. |
| PackInt.AlignedSpells | src/t_pck__readwrite.c:76-77 | At a byte border the byte-copy paths give the number of the same bits, reversed by bytes for little-endian. |
| PackInt.BorderAgrees | src/t_pck__readwrite.c:70-77 | At a byte border shift-and-mask and the big-endian byte copy give the same number. |
| PackInt.BorderAgreesReversed | src/t_pck__readwrite.c:70-77 | And the little-endian byte copy gives it for the reversed bytes. |
| PackInt.SignExtension | src/t_pck__readwrite.c:79-83 | Flipping and subtracting the sign bit is two's complement for every width. |
| PackInt.SignedRange | src/t_pck__readwrite.c:79-83 | A signed field of 1 to 64 bits reads as its number or as that less 2^width, in the signed range. |
| PackInt.UnsignedRange | src/t_pck__readwrite.c:79-85 | An unsigned one reads as its number; 64 bits come as a signed integer. |
| PackInt.RangeCheck | src/t_pck__readwrite.c:100-112 | A value passes if and only if it fits, and then its two's complement is stored. |
| PackInt.FitsIsReadable | src/t_pck__readwrite.c:100-112 | The accepted values are exactly those a field can read as. |
| PackInt.ReadFits | src/t_pck__readwrite.c:100-119 | Whatever was read is accepted and stored as the bits it was read from. |
| PackInt.ReadBack | src/t_pck__readwrite.c:61-119 | What was written is read back. |
| PackInt.Undisturbed | src/t_pck__readwrite.c:97-119 | A field that shares no bit with the written one keeps its number. |
| PackInt.CopyBytes | src/t_pck__readwrite.c:28-49 | The destination holds the source bytes, backwards on request, and nothing else changes. |
| PackInt.GetRaw | src/t_pck__readwrite.c:61-77 | Both branches give the number that the field's bits spell. |
| PackInt.GetIntValue | src/t_pck__readwrite.c:61-86 | The value of the field, two's complement if signed. |
| PackInt.SetBits | src/t_pck__readwrite.c:113-118 | The bit loop stores the number and leaves every other bit alone. |
| PackInt.SetIntValue | src/t_pck__readwrite.c:97-119 | Accepted exactly when the value fits; then stored with no other bit changed, otherwise nothing changed. |
| PackInt.WriteBack | src/t_pck__readwrite.c:61-119 | Reading a field and writing the value back is accepted and leaves the buffer as it was. |
| PackTree.ReportedExactly | src/t_pck_l.c:147-189 | The reported size is the real one if and only if no part is empty or there are no bits at all. |
| PackTree.ReportedCollapses | src/t_pck_l.c:174-180 | A packer of eight bits that is reported as 0. |
| PackTree.AdmittedOverrun | src/t_pck_l.c:612-613 | Which overruns the length test admits: for a solid packer those of at most eight bits, for one with an empty part all from an offset up to eight bits behind the end; it refuses no read inside. |
| PackTree.SlotsTile | src/t_pck_l.c:512-580 | The leaves occupy consecutive bit ranges that cover exactly the packer's interval. |
| PackTree.SlotsDisjoint | src/t_pck_l.c:512-580 | Different leaves share no bit. |
| PackTree.ReadsTree | src/t_pck_l.c:512-580 | A buffer whose leaf ranges hold the leaves of a tree reads as that tree. |
| PackTree.WriteThenRead | src/t_pck_l.c:620-627 | Leaves written in any order at their ranges are read back as the tree. |
| PackTree.WriteLeaf | src/t_pck__readwrite.c:176-208 | A leaf is written exactly when the value has its kind and range; otherwise the buffer is unchanged. |
| PackTree.AcceptsWhatIsRead | src/t_pck__readwrite.c:176-208 | Whatever a leaf is read as, it accepts. |
| PackTree.GetSize | src/t_pck_l.c:147-189 | The size as reported, with its early exit. |
| PackTree.CallRead | src/t_pck_l.c:512-580 | The value tree read, and the offset behind it. |
| PackTree.CallReadRep | src/t_pck_l.c:527-536 | The array loop with its running offset. |
| PackTree.CallReadAll | src/t_pck_l.c:537-564 | The sequence and struct loops with their running offset. |
| PackFormat.ScanReadsAll | src/t_pck__format.c:42-55 | The guard against large numbers cuts off no size within the limit. |
| PackFormat.ParsePrinted | src/t_pck__format.c:90-150 | A list of tokens parses to its meaning, a byte order holding until the next mark. |
| PackFormat.ParsePrefix | src/t_pck__format.c:90-150 | Behind well-formed tokens the parser goes on as on the rest alone, in the byte order they leave. |
| PackFormat.BadSizeReported | src/t_pck__format.c:67-73 | The first letter with a number of 0 or above 8, 64 or MAXSIZE is reported with that number and limit. |
| PackFormat.UnknownReported | src/t_pck__format.c:142-144 | The first character that is no option is reported. |
| PackFormat.NulEnds | src/t_pck__format.c:140-141 | A NUL ends the string. |
| PackFormat.Diagnosed | src/t_pck__format.c:90-150 | Every string is well-formed tokens followed by its end or by one fault, and the answer is decided by them. |
| PackFormat.FaultAnswered | src/t_pck__format.c:67-144 | Which fault is answered how. |
| PackFormat.AcceptsExactlyTokenLists | src/t_pck__format.c:90-150 | The accepted strings are exactly the printed lists of well-formed tokens. |
| PackFormat.FormatRoundTrip | src/t_pck__format.c:166-196 | Rendering any list of packers, with marks only on change and any spaces, and parsing it gives the list back. |
| PackFormat.AcceptedIsExpressible | src/t_pck__format.c:90-150 | Every packer of an accepted string has a size within its limits. |
| PackFormat.RenderedParse | src/t_pck__format.c:166-196 | Rendering what was parsed parses to the same packers. |
| PackFormat.LettersAbbreviate | docs/Pack.rst:230-249 | Each letter named after a C type, or without its number, means the same as its sized form, in every context. |
| PackFormat.ParseSizeAt | src/t_pck__format.c:42-55 | The number and the advanced position, or the default. |
| PackFormat.ParseFmt | src/t_pck__format.c:90-150 | The next packer, the end or the error, with the position and byte order to go on from. |
| PackFormat.GetPackers | src/t_pck__format.c:180-188 | The loop gives all packers of the string in order, or the first error, and ends. |

## Left out

- The Lua stack, registry references, metatables, garbage collection and argument types: plain objects and values instead. Callbacks of tasks are a function from task to answer, so they act through the answer alone; callbacks of descriptors are recorded and leave the nodes alone.
- gettimeofday, select, epoll_wait, file and socket handles: their results are parameters. Elapsed times are not negative.
- Timers.Loop.AddTask: takes delays that are not negative; a delay of -1 would make `tout` read as for the empty list.
- Select.Loop.constructor: starts zeroed; p_ael_create_ud_impl does not zero `fdMax` and `fd_set`.
- Timers.Loop.Turn: does not include the poll in front of the pass; descriptor callbacks that add or cancel tasks are further events of `Schedule.Run`.
- Timers.Loop.CleanTasks: is the timer half of lt_ael_clean; `Select.Loop.Clean` and `Epoll.Loop.Clean` are the other half.
- The function slots of a descriptor node: lt_ael_removehandle indexes the nil it has just pushed when a direction is left.
- Epoll.Loop.Replay: descriptors stay open while they are watched; closing one takes it off the kernel's list without a call on the loop.
- Base64.DecodeBuffer: requires texts shorter than 2^32 characters, because it does not end on longer ones (`Base64.DecoderEnds`), in complete groups of ASCII; otherwise the C code runs past the end of the text or indexes its table with a negative char.
- Rc4.Generator.CryptBuffer: requires at most 255 bytes, because a longer call does not end; the empty key divides by zero in C.
- Crc.Encoder.Calc16: takes the bytes it is given; lt_enc_crc_calc with a start index shortens the message and still reads from its beginning, although its comment says otherwise. The same holds for the other two.
- CRC-8: it indexes its table with a char that may be signed.
- PackInt.GetRaw: requires offset within the byte plus width of at most 64; beyond that the C code copies more bytes than its word has.
- PackInt.GetIntValue: requires the same of its field.
- PackInt.SetIntValue: requires a width of at most 63; for 64 the range check shifts by the width of the word.
- PackTree.WriteLeaf: requires widths of at most 63 for numbers, for the same reason.
- PackTree.CallRead: requires the packer to lie inside the buffer; `PackTree.AdmittedOverrun` says how far the test of lt_pck_idx__call lets it lie outside. What is read there is not modelled.
- Element offsets by t_pck_idx_getOffset: its source is not part of this model. Written leaves are placed at the ranges of `PackTree.Slots`.
- Float, raw and function packers in trees, and the cache of packers.
- PackFormat.GetPackers: an empty list is an error in t_pck_getPacker when it looks for a packer on the stack.
- CsvRow.Row.PushField: reads the character in front of the field only after testing that the field is not empty; the C code tests in the other order.
- CsvRow.ParseLine: the escape character and the flag for doubled quotes are stored by the source but not used by its machine.
- csv:rows() beyond its records: headers and skipped lines. `CsvFiles.LinesOf` stands for the source function of the caller.
- CsvRows.NextRecord: requires lines without NUL; the parser stops at one, so such a line never ends its record. `CsvFiles.ReadAll` requires the same.
- CsvSplit.Splitter.Next: with the empty delimiter requires a text without NUL; a NUL matches the end of the delimiter and the C code compares on behind it.
- Buffers, segments, Numarray, networking, the HTTP request parser, the test framework: bounds checks and small tables, or a result that depends on how the input is cut.
