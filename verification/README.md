# A Dafny model of msr-safe

msr-safe lets unprivileged users read and write selected bits of x86 model-specific registers. A kernel module
holds an allowlist of (address, write mask) entries. Single reads and writes go through one device per CPU,
batches through one ioctl, and the allowlist is written and read as text through a third device. The tool msrsave
saves the permitted bits of all listed registers and merges them back later; it is meant to be run around jobs, by a
SLURM plugin for example, so that the next user finds the registers as they were.

The project models this mechanism whole and proves what it is for.

| files | subject |
|---|---|
| `Words`, `Text`, `Numerals`, `NumeralText` | machine words and masked merges, byte scanning, numerals and how they may be written |
| `AllowlistText`, `ParseErrors`, `AllowlistPrint` | the text form: parser as a function, its grammar and its errors, the listing the device prints |
| `AllowlistParser`, `AllowlistStore`, `AllowlistSpec`, `DeviceFacts`, `DeviceTexts` | the driver's table: in-place parser, two-pass loader, hash index, device calls; their specification and its consequences |
| `Registers`, `SingleAccess`, `Batch`, `BatchExec`, `BatchFacts` | register file, single accesses, batch admission, the concurrent per-CPU handlers |
| `ModuleRuns`, `StepsAndCalls`, `UndisturbedBatch`, `ListReplacement`, `MixedMasks`, `RunSafety`, `Linearization`, `SplitWrites` | the module as a step system over arbitrary interleavings |
| `MsrsaveParser`, `MsrsaveText`, `SaveRestore`, `SaveRestoreMethods`, `Restoration`, `Idempotence`, `AliasTables`, `ForeignLists` | msrsave |
| `EndToEnd` | save, any use of the module, restore |

Code that works in place is modelled in place: the parser overwrites and restores delimiters in a byte array, the
allowlist is an object with a table, a count and 64 chains of links that may dangle, batches and save buffers are
arrays. Each such method is proved against a function, and the properties are proved about those functions.

## Main results

* **Restoration** (`EndToEnd.SaveUseRestore`). Save, then any interleaving of single writes and batches under the
  same allowlist, then restore: a register has its exact 64-bit contents back if and only if its saved contents can
  be read and written on a saved CPU, or no permitted write could change it. The code does not bring back a register
  with a full mask whose reads fault (a single write under a full mask skips the read, saving does not), a register
  whose saved contents fault when written, and a CPU that msrsave is not told about. Without those the whole register
  file comes back (`EndToEnd.AllRegistersComeBack`). Behind a restore without a failed write a second one has nothing
  to do (`EndToEnd.SecondRestoreAfterUse`).
* **Bit safety** (`RunSafety.BitSafety`). With allowlists being replaced at any time, a bit that no list of the run
  marks writable keeps its value.
* **Linearizability** (`Linearization.InterleavedIsAtomic`). Under a fixed list, the interleaved module reaches
  exactly the register contents that sequences of atomic permitted masked writes reach, although single writes and
  batch handlers read and write in separate steps; return codes, errors and words read are those of atomic accesses
  too (`Linearization.OutcomesAreAtomic`).
* **Replacing the list** (`ListReplacement.ReplacementIsOneLookIff`). A batch whose admission overlaps a replacement of
  the allowlist is always left as the old or the new list alone would leave it if and only if the replacement affects
  one of its ops at most and takes no entry with a mask from any of them. Single writes and batches under way keep
  writing a register atomically if and only if both lists have the same mask for it, or one of them none
  (`SplitWrites.AtomicAcrossReplacementIff`); otherwise a permitted write can be lost.
* **Another list at restore time** (`ForeignLists.RestoresOwnIff`). What was saved under one list can be restored under
  another of the same length. Registers then only get bits that were saved from themselves if and only if each pair of
  entries is safe: the same register, and no bit that is written but was not saved.
* **Confluence** (`BatchExec.Confluence`, `BatchFacts.HandlersFinish`). However the handlers of a batch interleave,
  registers, ops and return code are those of one pass in array order, and that end can always be reached.
* **The text form** (`AllowlistText.ParserIsGrammar`, `AllowlistPrint.PrintParseIff`,
  `MsrsaveParser.TwoParsersAgree`, `DeviceFacts.Reinstall`). The parser accepts exactly a grammar, down to the figures
  of its numbers (`NumeralText.KStrToULLIff`); what the device prints is read back as the same table, by both parsers;
  written back, it is installed again up to a size.
* **The table** (`AllowlistStore.Allowlist`). For any hash function, lookups are a linear scan; pass 2 repeats pass 1;
  no link into a freed table is followed, though such links remain.

## Assumptions

* Registers are plain storage per logical CPU. Whether a read faults depends on CPU and address, whether a write
  faults on CPU, address and value. CPUs stay online.
* A section under the mutex is one step, and so is a mask lookup with the read of the entry it finds (the entry is
  read behind the unlock at `msr_allowlist.c:70-74`). A step of a batch handler is one register read or write.
* The kernel's `kstrtoull`, its white space (with 0xA0), and its refusal of file positions that are negative as
  signed numbers are modelled from their definition. Printing and scanning of numbers follow sections 7.21.6.1 and
  7.21.6.2 of ISO C11; a scanned `0x` without digits is no match.
* The hash is any function into 64 buckets. Whether memory for a table can be had is a parameter of
  `Allowlist.Write`.
* A failed system call of msrsave is any result but 8; error codes of its own parser are one code.

## Where the code and its documentation differ

The model follows the code.

* `README.md:340-343` promises that all ops of a batch run and that the first error is returned. The code refuses the
  whole batch if it refuses one op, and returns the last refusal (`msr_batch.c:54`, `61`, `70`, `125-130`):
  `BatchFacts.FirstErrorReported` says exactly when the two agree, `BatchFacts.LaterRefusalReported` is a case where
  they do not.
* `README.md:440-443` promises that a new allowlist applies to later calls only. Admission takes the mutex for each
  lookup, so a batch can go on with masks of two lists (`MixedMasks.BatchOfTwoLists`), and a read can go on with an
  empty mask that the old list does not give it, on an address that the new list does not have
  (`MixedMasks.ReadOfUnlisted`). `ListReplacement.ReplacementIsOneLookIff` says exactly for which replacements and
  batches that cannot happen. If the list stays the same while the batch looks at it, admission is as one look:
  `StepsAndCalls.AdmissionIsAtomic`.
* `README.md:437-438` says that each write discards the previous allowlist. It does exactly if it has at most two bytes
  or at most 131072 and is a text of the grammar with entries (`DeviceFacts.DiscardsIff`). A text that does not parse
  (`DeviceTexts.UnendedKeeps`), one without entries (`DeviceFacts.InstallsGrammar`) and one that is too long, entries or
  not (`DeviceTexts.TooLongKeeps`), leave it as it was.
* `README.md:270-271` asks readers of the listing for 60 bytes. That is enough exactly if the first address is a 32-bit
  one (`AllowlistPrint.SixtyBytes`); 68 bytes are always enough.
* What the device prints can be too long to be written back: with 32-bit addresses, from 4369 entries on
  (`DeviceFacts.ReinstallLimit`). Such tables can be installed, from shorter texts (`DeviceTexts.ListingTooLong`).
* The plugin is documented to save before a job and to restore after it (`msrsave/spank_msrsafe.c:10-20`). As written it
  does neither: it stores the descriptor that `mkstemp` returns as an error code
  (`msrsave/spank_msrsafe.c:129`, `177`), so that the calls at `142` and `190` are not reached with a positive one. The
  model takes the calls from the command line tool (`msrsave/msrsave_main.c:97-107`).
* A restore without a failed write is not always the last one needed. An entry whose address has more than 32 bits is
  an alias of a listed register, and can name bits that the register's own entry withholds. A second restore writes
  again, in vain, if and only if such bits differed from the saved ones: `Idempotence.SecondRestoreIsIdleIff`. Use
  of the module under the same list cannot bring that about (`EndToEnd.SecondRestoreAfterUse`).

## Model

| member | source | states |
|---|---|---|
| EndToEnd.SaveUseRestore | msrsave/spank_msrsafe.c:10-20 | After save, any run of the module under the same allowlist and restore, a register has its saved 64-bit contents, for all runs, if and only if they can be read and written on a saved CPU or no permitted write changes them |
| EndToEnd.SavedListing | msrsave/msrsave.c:268-279 | Given the text the device prints, msrsave saves exactly the registers of the installed table under its masks |
| EndToEnd.BracketedJob | msrsave/msrsave_main.c:97-107 | msr_save on the device's listing, any run under the same list, and msr_restore on that listing: if saving succeeds so does restoring, and every register whose saved contents can be read and written on a saved CPU, or that the run left alone, is as it was |
| EndToEnd.AllRegistersComeBack | msrsave/msrsave.c:488-542 | If no writable register of an online CPU faults on reading or on writing its saved contents and all online CPUs are saved, the whole register file is restored |
| EndToEnd.HistoryChanges | msr_entry.c:144-169 | Whatever a sequence of permitted writes does to a register, a single permitted write could have done |
| EndToEnd.ChangeHappens | msr_entry.c:144-169 | Every change the driver permits is made by some run under the fixed allowlist |
| RunSafety.BitSafety | msr_batch.c:47-73 | In any interleaving of list replacements, admissions, handlers and split single writes, register bits that no installed list of the run marks writable keep their value |
| RunSafety.StepSafe | msr-smp.c:52-55 | One step of any kind keeps, for every call under way, that granted masks and loaded words respect the withheld bits |
| Linearization.InterleavedIsAtomic | msr_entry.c:156-169 | Under a fixed list a register state is reached by some interleaving if and only if some sequence of atomic permitted masked writes leads to it |
| Linearization.OutcomesAreAtomic | msr-smp.c:39-58 | In every run under a fixed list, a single write that ends returns the code and has the effect of an undisturbed call at its last step, and an executed op has the error, the word read and the effect of the whole op at its last step |
| Linearization.StoreIsAtomic | msr_entry.c:156-169 | The store of a split single write equals an atomic masked update at that moment: the stale bits it merges are still in the register |
| Linearization.HandlerStores | msr-smp.c:52-55 | Every register write of a batch handler is an atomic permitted masked write at that moment |
| Linearization.RunFits | msr_batch.c:47-73 | Over every run under a fixed list, the registers are the replay of a history of permitted writes, and words held for merging differ from the registers only inside their masks |
| Linearization.Realize | msr_entry.c:129-176 | Every history of permitted atomic writes is carried out by a run |
| StepsAndCalls.UndisturbedWrite | msr_entry.c:144-175 | The four steps of a single write, undisturbed, have the return code and the effect of the whole call in all its cases |
| UndisturbedBatch.BatchHappens | msr_batch.c:125-151 | Between calls, every batch can be submitted and runs to its end: the steps return the code and ops and leave the registers of the whole call, refused or executed |
| StepsAndCalls.AdmissionIsAtomic | msr_batch.c:47-74 | If the list is the same whenever the batch looks at it, admission interleaved with anything decides as one look: same refusal and code, same masks, whatever happens to the list afterwards |
| ListReplacement.ReplacementIsOneLookIff | msr_batch.c:47-74 | For every replacement of the list, batch and interleaving: admission leaves the batch as the old or the new list alone would, whenever the replacement comes, if and only if it affects one op at most and takes no entry with a mask from any op |
| ListReplacement.ReplacedIsBlend | msr_batch.c:58-65 | Admission across a replacement uses the old list up to some look and the new one from there, and its code is the last refusal |
| ListReplacement.MomentHappens | msr_allowlist.c:59-72 | A device write can come in front of any check, and between any check and its mask lookup |
| SplitWrites.AtomicAcrossReplacementIff | msr_entry.c:144-169 | For every run across a replacement of the list: each step changes a register without faults by atomic masked writes only, if and only if both lists have the same mask for it or one of them none |
| SplitWrites.PhaseSound | msr_batch.c:65-70 | As long as the lists of a run give a register one mask or none, all grants are of that mask and nothing outside of it changes |
| SplitWrites.LostUpdate | msr_entry.c:156-169 | The store of a stale word takes back bits that another write set and its own mask does not cover |
| MixedMasks.BatchOfTwoLists | README.md:440-443 | A run in which a batch goes on with masks that neither list alone gives it |
| MixedMasks.ReadOfUnlisted | README.md:440-443 | A run in which a read goes on with an empty mask: the old list gives it a mask, the new one refuses it |
| BatchExec.Confluence | msr-smp.c:32-59 | Every schedule of the per-CPU handlers that finishes has the registers, ops and code of one pass in array order |
| BatchExec.StepBehaves | msr-smp.c:32-59 | One handler step keeps that each CPU's registers and ops are those of the sequential pass as far as its handler is |
| BatchExec.FinishedIsSequential | msr-smp.c:79-91 | When all handlers are done, registers and ops are those of the sequential pass |
| BatchFacts.HandlersFinish | msr-smp.c:79 | From wherever the handlers are, some schedule brings them all to the end with the sequential result |
| BatchExec.HandleOp | msr-smp.c:39-58 | The body for an op of this CPU is one step of the handler system, or two with a write, on the array and the machine |
| BatchExec.Handler | msr-smp.c:23-60 | A handler run from any reachable point takes its CPU to the end and leaves the others where they are |
| BatchExec.CpuMask | msr-smp.c:74-77 | The mask holds exactly the CPUs that some op names |
| BatchExec.OnEachCpu | msr-smp.c:79 | Running the handlers in any order ends with all of them done and the invariant kept |
| BatchExec.MergeWords | msr-smp.c:52-53 | The merged word agrees with the op's data under the mask and with the register outside of it |
| BatchExec.ReportError | msr-smp.c:83-91 | The code is that of the first op with an error, 0 without one |
| BatchExec.MsrSafeBatch | msr-smp.c:64-92 | Registers, op array and code after the call are those of the sequential pass, whatever the order of the CPUs |
| BatchExec.MsrBatchIoctl | msr_batch.c:125-151 | The ioctl refuses as a whole or executes as a whole, with op array, registers and code as specified |
| Batch.AdmitOne | msr_batch.c:49-72 | Each way an op can be refused, and the mask it is granted |
| Batch.ApplyAllowlist | msr_batch.c:42-75 | The op array after admission, the list untouched, and the code of the last refusal |
| BatchFacts.AdmitOpIs | msr_batch.c:47-74 | Which ops are accepted, and every field of an op that is accepted or refused |
| BatchFacts.ExecOpIs | msr-smp.c:39-58 | An executed op fails with EIO and otherwise stays as it was, or reads its register into its data, or writes its data under its mask; no other register changes, and when it fails |
| BatchFacts.RefusedAsAWhole | msr_batch.c:125-130 | If one op is inadmissible, no register changes, the code is that of the last inadmissible op, and every op is copied back as admission left it |
| BatchFacts.AdmittedAsAWhole | msr_batch.c:65-137 | If all ops are admissible, each runs with the mask in the entry for its address; the code is 0 or EIO, and 0 exactly when no op failed |
| BatchFacts.FirstErrorIs | msr-smp.c:83-91 | The reported code is that of the failing op with the lowest index |
| BatchFacts.LastErrorIs | msr_batch.c:54-74 | The reported refusal is that of the refused op with the highest index |
| BatchFacts.FirstErrorReported | README.md:340-343 | The documented code, that of the first op with an error, is returned if and only if first and last refusal have the same code |
| BatchFacts.LaterRefusalReported | README.md:340-343 | A batch where the documented code is not the one returned, and an admissible op is not executed |
| BatchFacts.SingleWriteIsBatch | msr_entry.c:144-169 | A one-op batch succeeds exactly if the single write does and the register can be read; then both leave the same registers, full mask or not |
| BatchFacts.SingleReadIsBatch | msr_entry.c:110-126 | A one-op read batch and a single read agree on the outcome and the word |
| SingleAccess.ReadRegIs | msr_entry.c:110-126 | A read yields the contents exactly if some entry has the address and the read does not fault |
| SingleAccess.WriteRegIs | msr_entry.c:144-175 | Which writes of a listed register succeed; those take the bits in the entry's mask from the data and keep the others and all other registers |
| SingleAccess.UnlistedWrite | msr_entry.c:144-149 | A register without an entry is not written |
| SingleAccess.MsrRead | msr_entry.c:97-127 | A read of a listed register returns its contents; otherwise the error, with nothing changed |
| SingleAccess.MergeWords | msr_entry.c:164-166 | The word merged in place agrees with the caller's data under the mask and with the register outside of it, as in the batch path |
| SingleAccess.MsrWrite | msr_entry.c:129-176 | Return code and registers of an undisturbed write in each case, with the file position cut to 32 bits |
| Registers.Machine.Rdmsr | msr-smp.c:41 | A read faults or yields the stored word |
| Registers.Machine.Wrmsr | msr-smp.c:55 | A write faults and changes nothing, or changes this register only |
| AllowlistStore.Allowlist.Find | msr_allowlist.c:271-296 | For any hash function, lookup is a linear scan of the slots indexed so far; without a table it misses; every link followed is into the current table |
| AllowlistSpec.Scan | msr_allowlist.c:271-296 | A slot is returned only if it holds the address, and none only if no slot does |
| AllowlistSpec.MaskIs | msr_allowlist.c:66-75 | The writable bits of an address are those of the mask in its entry |
| AllowlistSpec.MaskIsWord | msr_allowlist.c:25 | An entry whose mask has the value of a word makes exactly the bits of that word writable |
| AllowlistSpec.ScanIs | msr_allowlist.c:173-183 | With different addresses, the slot that holds an address is the one found |
| AllowlistStore.Allowlist.Add | msr_allowlist.c:299-302 | Adding the next slot keeps the index exact: all slots so far, nothing else, no address twice |
| AllowlistStore.Allowlist.HashInit | msr_allowlist.c:103 | All chains are empty |
| AllowlistStore.Allowlist.Delete | msr_allowlist.c:245-255 | The table is gone and its count 0; the chains are not touched |
| AllowlistStore.Allowlist.Create | msr_allowlist.c:257-269 | A fresh table with an empty index; without memory, no table but the count already set |
| AllowlistStore.Allowlist.CountEntries | msr_allowlist.c:128-150 | Pass 1 finds the number of entries of the whole text and leaves every byte as it was, or finds its first error and leaves one delimiter overwritten there, if the failing number had one |
| AllowlistStore.FollowParse | msr_allowlist.c:162-184 | Behind a successful pass 1, each parse of pass 2 yields the next counted entry, ends after the last one, and never fails |
| AllowlistStore.Allowlist.FillTable | msr_allowlist.c:152-184 | Pass 2 fills and indexes exactly the parsed entries in order, never writes behind the table, and on a repeated address leaves no table but stale chains |
| AllowlistStore.Allowlist.Write | msr_allowlist.c:88-191 | The whole outcome of a device write, with and without memory for the table; a table is never left with an index that does not match; count and table disagree exactly behind a failed allocation, until a write gets memory for a table |
| AllowlistStore.Allowlist.Read | msr_allowlist.c:193-235 | What one read prints and where it leaves the position, or that it goes through a null table behind a failed allocation |
| AllowlistStore.Allowlist.MaskExists | msr_allowlist.c:55-64 | Whether some entry has the address |
| AllowlistStore.Allowlist.WriteMask | msr_allowlist.c:66-75 | The whole mask of the entry with the address, 0 if no entry has it |
| DeviceFacts.InstallsGrammar | msr_allowlist.c:128-190 | A text of the grammar with entries is installed as they stand, or empties the table exactly if an address is repeated; without entries nothing changes |
| DeviceFacts.ShortWriteClears | msr_allowlist.c:99-106 | A write of at most two bytes returns their number and leaves the empty list |
| DeviceFacts.RefusesTheRest | msr_allowlist.c:128-137 | A text outside the grammar is a parse error and leaves the table alone |
| DeviceFacts.DiscardsIff | README.md:437-438 | What a write leaves does not depend on the previous list if and only if it clears the list or its text is of admissible size and holds entries |
| DeviceTexts.DocumentedLine | README.md:118-121 | The documented line makes the low 16 bits of register 0x199 writable, and nothing else |
| DeviceTexts.UnendedKeeps | msr_allowlist.c:338-342 | A text that ends inside an entry is refused, and every previous list stays |
| DeviceTexts.TooLongKeeps | msr_allowlist.c:108-112 | One entry behind any number of blanks is installed up to the size limit, and behind more leaves every previous list as it was |
| DeviceFacts.RunKeepsSound | msr_allowlist.c:108-184 | In every state of every run the addresses differ and there are at most 32768 entries |
| DeviceFacts.CommentsInstallTheSame | msr_allowlist.c:306-323 | Comments and white space put in wherever an entry may start do not change what a write does, size limit aside |
| DeviceFacts.BehindHeader | msr_allowlist.c:306-323 | The place right behind the header of a listing is one of them |
| DeviceFacts.ListingLength | msr_allowlist.c:213-220 | The listing has 30 to 38 bytes per entry and 30 for the header, exactly 30 per entry for 32-bit addresses |
| DeviceFacts.Reinstall | msr_allowlist.c:108-112 | Writing the device's own listing reinstalls the printed table if and only if it is within the size limit, and else changes nothing |
| DeviceFacts.ReinstallLimit | msr_allowlist.c:21 | With 32-bit addresses the listing can be written back exactly up to 4368 entries |
| DeviceTexts.ListingTooLong | msr_allowlist.c:108-112 | Tables of up to 14563 entries that a device write installs; their own listing reinstalls them up to 4368 entries and is refused from there |
| AllowlistText.ParserIsGrammar | msr_allowlist.c:304-362 | The parser yields a table exactly for the texts that spell it: filler, address, gap, mask and closing blank per entry, and an ending |
| NumeralText.KStrToULLIff | msr_allowlist.c:346 | A token is read as a number below 2^64 if and only if it spells it: optional plus, then hexadecimal figures of either case behind 0x or 0X, octal ones behind a zero, or decimal ones |
| NumeralText.RangeErrorIff | msr_allowlist.c:346 | ERANGE is reported if and only if some beginning of the token spells a number from 2^64 on |
| NumeralText.OtherwiseInvalid | msr_allowlist.c:346 | Every other token is EINVAL |
| NumeralText.EveryNumberIsSpelled | msr_allowlist.c:346 | Every positive number has a spelling in each base, with any choice of cases, with and without a plus |
| ParseErrors.BadAddress | msr_allowlist.c:338-350 | Behind entries of the grammar, an address that ends the text is EILSEQ, and one that is no number has the code of that number |
| ParseErrors.BadMask | msr_allowlist.c:338-350 | So it is with a mask behind an address |
| AllowlistText.NextOfRow | msr_allowlist.c:325-361 | An entry written by the grammar is read as the entry it denotes, up to its closing blank |
| AllowlistText.RowOfNext | msr_allowlist.c:325-361 | What is read as an entry was written by the grammar |
| AllowlistText.CommentsAreNeutral | msr_allowlist.c:306-323 | Filler put in at the start, behind an entry, or behind any filler there changes neither entries nor outcome |
| AllowlistText.Next | msr_allowlist.c:304-362 | An entry takes at least four bytes and stays in the text; failures are EILSEQ, EINVAL or ERANGE |
| AllowlistText.EntriesAreBounded | msr_allowlist.c:129-143 | An accepted text has at least four bytes per entry |
| AllowlistParser.ParseNext | msr_allowlist.c:304-362 | The in-place parser finds the entry the specification finds, restores every byte on success and at the end, leaves one delimiter overwritten on a bad number, and stores only an entry it found |
| AllowlistParser.ReadField | msr_allowlist.c:332-351 | One number: its value and end with the buffer restored, or the error with its delimiter still overwritten |
| AllowlistParser.SkipBlank | msr_allowlist.c:306-318 | Stops where an entry may start |
| AllowlistParser.CutToken | msr_allowlist.c:344-346 | Overwriting the delimiter makes the token the C string that kstrtoull sees |
| Numerals.KStrToULLOfHex | msr_allowlist.c:346 | kstrtoull reads back every number printed with a 0x prefix, at any padding |
| Numerals.HexValue | msr_allowlist.c:219 | The printed digits have the value that was printed and are at least as many as asked for |
| AllowlistPrint.PrintParseIff | msr_allowlist.c:193-235 | Parsing what successive reads return gives the table back, in order, if and only if the reader has room for every line |
| AllowlistPrint.ParseOfListing | msr_allowlist.c:223-226 | With less room the reader gets the entries in front of the first line that does not fit |
| AllowlistPrint.ReadCalls | msr_allowlist.c:201-234 | A reader that goes on from where each call leaves it makes one call per line that fits, each returning its number of bytes and moving on by one entry, and one that ends the reading |
| AllowlistPrint.HeaderText | msr_allowlist.c:215 | The header, character by character |
| AllowlistPrint.LineText | msr_allowlist.c:219 | The line of an entry, character by character: at least eight and exactly sixteen upper-case figures |
| AllowlistPrint.PrintedLength | msr_allowlist.c:213-220 | A line has 30 to 38 bytes, 30 if and only if the address is a 32-bit one, and the first 30 more |
| AllowlistPrint.SixtyBytes | README.md:270-271 | The documented room of 60 bytes is enough if and only if the table is empty or its first address is a 32-bit one |
| MsrsaveParser.CountLines | msrsave/msrsave.c:169-183 | The count is the number of lines that are no comment |
| MsrsaveParser.SkipKeepsCount | msrsave/msrsave.c:207-221 | While counted lines are left, skipping comments ends at one of them, so that the branch for a comment without a newline is not taken |
| MsrsaveParser.ParseAllowlist | msrsave/msrsave.c:169-237 | The two arrays hold the scanned addresses and masks, one per counted line, or the error |
| MsrsaveParser.TwoParsersAgree | msrsave/msrsave.c:202-237 | On what the device prints for a table with entries, the line count is their number and both parsers find the table; only for the empty table they differ |
| MsrsaveText.MsrsaveReadsLines | msrsave/msrsave.c:169-237 | Every text of complete lines is read as the entries of its lines that are no comments, with figures of either case, signs, optional prefixes and anything behind the mask |
| MsrsaveText.ScanNumber | msrsave/msrsave.c:222 | What one number in such a line means, out of range and negative ones included |
| SaveRestoreMethods.SysPread | msrsave/msrsave.c:305 | A read of the per-CPU device at a 64-bit position |
| SaveRestoreMethods.SysPwrite | msrsave/msrsave.c:516 | A write of the per-CPU device at a 64-bit position |
| SaveRestoreMethods.SaveCell | msrsave/msrsave.c:305-331 | The masked word or the mark of a failed read, or the collision with the mark |
| SaveRestoreMethods.SaveCpu | msrsave/msrsave.c:303-331 | One row of words at its place, other rows untouched |
| SaveRestoreMethods.SaveAll | msrsave/msrsave.c:292-340 | Saving succeeds exactly if all devices open and no register that is saved whole holds the magic word, and then has one row per CPU |
| SaveRestoreMethods.MsrSave | msrsave/msrsave.c:256-391 | The file written for a given list text, and exactly when one is written |
| SaveRestoreMethods.RestoreOne | msrsave/msrsave.c:501-532 | One turn: no access for a marked word, no write for equal bits, otherwise a merge |
| SaveRestoreMethods.RestoreCpu | msrsave/msrsave.c:499-533 | All turns of one CPU, in order |
| SaveRestoreMethods.MsrRestore | msrsave/msrsave.c:393-542 | Nothing is touched for a file of the wrong size; otherwise the CPUs are restored in order up to the first that does not open |
| SaveRestore.SavedWordIs | msrsave/msrsave.c:305-322 | The word saved for an entry: the register under its mask if it can be read, otherwise the complement of the mask or the magic word |
| SaveRestore.SaveableIff | msrsave/msrsave.c:292-340 | Saving succeeds if and only if the devices of all CPUs open and no readable register that is saved whole holds 0xFB6A58813AEA28CF |
| SaveRestore.SavedFileAt | msrsave/msrsave.c:305-306 | The word of each CPU and entry stands at its index in the file, and nothing else does |
| SaveRestore.GoodValueIs | msrsave/msrsave.c:23-36 | Which words pass as good under which masks |
| SaveRestore.OffIsProduct | msrsave/msrsave.c:305-306 | Rows start at multiples of the number of entries |
| Restoration.MarkIsExact | msrsave/msrsave.c:23-36 | For all masks and values, a saved word passes as good if and only if its register could be read, saving not having given up |
| Restoration.RestoringWrite | msrsave/msrsave.c:501-532 | In terms of the contents at save time: when a turn asks for a write, when that fails, and what it leaves under the driver's mask |
| Restoration.CellStays | msrsave/msrsave.c:512-516 | Once the permitted bits of a register are back, no later turn changes it, not even one for an alias |
| Restoration.RestorePostcondition | msrsave/msrsave.c:488-542 | From arbitrary contents: masked bits come back unless writing them faults, other bits stay, and unreadable registers, unsaved CPUs and registers whose permitted bits match are left alone |
| Idempotence.SecondRestoreIsIdleIff | msrsave/msrsave.c:512-516 | Behind a restore without a failed write, on any machine and for any table and contents, a second restore asks for no write if and only if no readable entry of a saved CPU differed in bits that it names and the driver withholds; it then changes nothing |
| ForeignLists.RestoresOwnIff | msrsave/msrsave.c:499-533 | On a machine without faults, for all contents: what was saved under one list, restored under another of the same length, gives every register at every point only bits that it held or that were saved from it, if and only if each pair of entries is safe |
| ForeignLists.SafeListsRestoreOwn | msrsave/msrsave.c:499-533 | Between safe lists that holds on any machine, faults included |
| ForeignLists.UnsafeListsMix | msrsave/msrsave.c:501-516 | Between other lists, contents for which a restore right after the save changes a register |
| ForeignLists.OtherRegisterIsUnsafe | msrsave/msrsave.c:501-516 | Two such lists, of one register each |
| EndToEnd.SecondRestoreAfterUse | msrsave/msrsave.c:512-516 | After save and any run under the same list, a restore without a failed write leaves a second one nothing to do, for every table |
| AliasTables.SecondRestoreIsIdle | msrsave/msrsave.c:512-516 | On any machine, for a table whose entries name no withheld bits, that holds for all contents |
| AliasTables.AlwaysIdleIff | msrsave/msrsave.c:512-516 | Of all tables, these are the only ones for which it holds for all contents on a machine without faults |
| AliasTables.UncoveredRetries | msr_entry.c:132-144 | An entry for withheld bits makes a second restore write in vain after a first without failures |
| AliasTables.AliasIsUncovered | msr_entry.c:132 | A two-entry table with such an entry: an alias with a wider mask |

## Left out

- Device registration, class and node-name code, module init and exit, CPU hotplug, `msr_version.c`: kernel plumbing without logic of its own.
- Failures of `copy_from_user` and `copy_to_user`, and allocation failure anywhere but for the table.
- AllowlistStore.Allowlist.WriteMask: the read of the mask behind the unlock is part of the lookup step, so a table freed in between is not modelled.
- EndToEnd.SaveUseRestore: save and restore run with no other call taking a step in between their accesses, as between two jobs on a node.
- SaveRestoreMethods.MsrSave: the copy to a temporary file, `stat`, opening, closing and logging are not modelled; the save file is a sequence of 64-bit words.
- SaveRestoreMethods.MsrRestore: the comparison of modification times is not modelled, so a restore under another list than the saved one is not excluded; `ForeignLists` says what it does.
- BatchExec.OnEachCpu: the method takes the CPUs one after the other, in any order; the interleaving of their handlers is in the step system that `BatchExec.Confluence` is about.
- MsrsaveParser.TwoParsersAgree: is about printed texts; on texts with blank lines or without a last newline the two parsers differ.
- Single reads are not steps of the runs, since they change nothing.
- `msr_seek`, the checks for a length of 8 and for the number of ops, and the file mode check of the ioctl: one branch each.
- A 64-bit word is one value, not two 32-bit halves.
- Registers that change by themselves or are shared between CPUs.
- The branch of `msr-smp.c` for a CPU mask on the stack, and its allocation failure.
- Sample allowlists, udev and packaging files, the SLURM plugin beyond the order of its two calls, and the command line of msrsave.
