# Verified model of the Morello example runtime

The repository holds a small freestanding C runtime and several compartment switches for Arm Morello.
This project models its four cores over one abstraction of a capability (`Capability.dfy`: tag, bounds,
address, permissions, object type) and proves what they are for.

- **Formatter.** `Format.dfy` says what a format string means: parse into directives, render each against
  the arguments left over, concatenate. `Printf.dfy` is the one-pass scanner with its deferred flush, its
  conversions and its sinks, and it is proved to produce exactly that meaning; `SPrintf` produces its
  longest prefix that fits. `Digits.dfy`, `Fields.dfy` and `CapText.dfy` hold readers that undo number
  conversion, padding and the printed form of a capability. `FormatLaws.dfy` says what all this comes to in
  terms of characters, argument values and texts alone.
- **Compartment switches.** `CallStack.dfy` is the abstract machine: a running context and a list of
  suspended callers. Four protocols refine it. `SwapSwitch.dfy` treats the switches that swap the stack
  pointer with a slot, with the trampoline in `Bsp.dfy` and the private-stack switch in
  `PrivateStack.dfy`; `Restricted.dfy` the executive-stack switch; `PairSwitch.dfy` the two switches
  that keep a sealed return pair on the caller's stack. `Manager.dfy` and `Cman.dfy` create compartments.
- **Blocks and strings.** `Memory.dfy` models tagged memory with `memset` and `memcpy`; `Strings.dfy` the
  string functions with the limit as terminator.
- **Start-up and data.** `Relocation.dfy` models the relocation loop and the auxiliary vector table,
  `Encrypt.dfy` the message loop over private data.

Conventions. A pointer to characters is a value: its capability and the bytes between its address and its
limit (`Strings.Ptr`). Every variadic argument is one slot of that kind, and integers are read from its
address. Permissions are a set of named bits. Registers c0 to c30 are a sequence of 31 capabilities, and
memory that switches use for frames is addressed by 16-byte cells. Arrays end below address 2^64. What running code does between switches
is a step that may change all registers and all memory it can reach; the step predicates (`SwapSwitch.Work`,
`Restricted.RWork`, `Restricted.OwnWork`, `PairSwitch.PWork`) say what it cannot reach.

Where code and documentation differ, the code is followed:

- `%#p` and `%+#p` without an argument print nothing, although the comment on `printf_core` says that
  specifiers without arguments are printed as they are (`Format.Starved`). `Format.PromiseKept` gives the
  exact condition under which the comment holds, for every format and argument list: each `%#p` and `%+#p`
  has fewer conversions in front of it than there are arguments.
- `%d` ignores the width when a sign character is printed, and zero padding goes in front of `0x`.
- `memset` fills with the low byte of its argument only if the argument is uniform (`Memory.Uniform`) or no
  whole granule is filled; `Memory.PlainFill` is the exact condition. All values from 0 to 255 qualify.
- `strcpy` returns the end of the copy.
- `sprintf` into a destination that sits at its limit returns -1 and puts its NUL in front of the
  destination (`Printf.SPrintf`).
- The trampoline keeps one saved compartment ID per compartment. `Bsp.CidRestored` says exactly when a
  return restores the caller's ID, and `Bsp.ReentryLosesCid` shows a run in which it does not.
- The switches with a return pair keep a caller's frame on its own stack and start every entry at the top of
  the callee's stack. `PairSwitch.ReentrantCallExact` says for every run, re-entrant ones included, exactly
  when a call gives back its caller's context: when the frame words that the return reads are intact.
  They are if nothing runs on the caller's stack meanwhile (`PairSwitch.UndisturbedCallRestores`). If a second
  activation calls out from the same place, the first one resumes the second one's context
  (`PairSwitch.ReentryMixesCallers`); `PairSwitch.LbReentry` and `PairSwitch.LpbReentry` are such runs.
- `init` stores every auxiliary entry at the index of its type without looking at the size of the table.
  `Relocation.NoStray` says exactly when all of them find a place there.
- A capability whose limit is 2^64 counts as having limit 0, so nothing is in bounds of it
  (`Capability.TopIsNeverInBounds`).
- Object types are clamped before they are cut to 15 bits, so IDs from 0x8000 on can collide and can reach
  the reserved types (`Manager.OtypeReserved`, `Manager.OtypeCollision`).
- `cap_to_str` takes the plain length and `%+#p` the length that is zero for NULL
  (`CapText.PlainInfo`, `CapText.ZeroInfo`).

## Model

| member | source | states |
|---|---|---|
| `Capability.DerefIffTail` | src/util/morello.c:26-48 | a capability is dereferenceable exactly if it is tagged, unsealed and has a non-empty tail |
| `Capability.TailMeans` | src/util/morello.c:26-43 | within bounds address and tail add up to the limit; elsewhere and for NULL the tail is empty |
| `Capability.TopIsNeverInBounds` | src/util/morello.c:26-43 | no address is in bounds of a capability that reaches up to 2^64, and its tail is empty |
| `Digits.NumeralValue` | src/freestanding/src/printf.c:97-118 | positional parsing undoes digit conversion, and the text has no leading zero except for zero itself |
| `Digits.ValueNumeral` | src/freestanding/src/printf.c:97-118 | digit conversion undoes parsing on every canonical digit string |
| `FormatLaws.NumeralSpelled` | src/freestanding/src/printf.c:94-108 | numerals arise by repeated division by 10 or 16, with the digits `0` to `9` and `a` to `f` |
| `FormatLaws.ValueSpelled` | src/freestanding/src/printf.c:97-108 | parsing weighs digits by position |
| `Digits.NumeralLength64` | src/freestanding/src/printf.c:97-118 | a 64-bit value has at most 20 decimal or 16 hexadecimal digits |
| `Digits.PutDigits` | src/freestanding/src/printf.c:97-108 | the backwards digit loop leaves exactly the numeral at the end of the scratch buffer |
| `Digits.UintToStr` | src/freestanding/src/printf.c:97-118 | the scratch buffer ends with prefix and numeral and at most 22 of its 64 bytes are used |
| `Strings.CStringPrefix` | src/freestanding/src/string.c:10-23 | the effective string is the longest prefix without NUL, the limit being a terminator |
| `Strings.StrLen` | src/freestanding/src/string.c:17-23 | the length of the effective string; zero for NULL and invalid pointers |
| `Strings.StrCpy` | src/freestanding/src/string.c:33-44 | the longest prefix of the source that fits, a NUL if there is room, nothing else changed; source and copy are equal strings exactly if the source fits |
| `Strings.StrCmp` | src/freestanding/src/string.c:52-66 | the sign of the result is the unsigned lexicographic order of the effective strings, zero exactly for equal ones |
| `Strings.LexTotal` | src/freestanding/src/string.c:46-51 | that order is total and asymmetric |
| `Strings.LexTransitive` | src/freestanding/src/string.c:46-51 | that order is transitive |
| `Strings.LexMeans` | src/freestanding/src/string.c:46-51 | a proper prefix, or the string with the smaller character at the first difference, comes first |
| `Fields.UnsignedFieldReads` | src/freestanding/src/printf.c:271-312 | for every flag set, width and argument, the field of `%u`, `%x` or `%p` without its padding parses to the argument |
| `Fields.SignedFieldReads` | src/freestanding/src/printf.c:313-356 | the same for `%d` and `%i`, the least value included |
| `Fields.SignedArgIs` | src/freestanding/src/printf.c:316-320 | an `int` argument is the number from -2^31 on that agrees with the slot modulo 2^32, a long one the number from -2^63 on modulo 2^64 |
| `FormatLaws.SignedConversion` | src/freestanding/src/printf.c:313-356 | for every modifier string and argument value, `%d` and `%i` read back as the value; `-`, `+` or a space goes in front of the digits, and without any of them the number is padded |
| `FormatLaws.UnsignedConversion` | src/freestanding/src/printf.c:271-312 | `%u` and `%x` read back as the 32- or 64-bit value; `0x` only with `#`, then padding |
| `FormatLaws.PointerConversion` | src/freestanding/src/printf.c:267-273 | plain `%p` is the address in hexadecimal without prefix |
| `FormatLaws.StringConversion` | src/freestanding/src/printf.c:185-213 | `%s` is the padded string, `(null)` at address 0 and `(invalid)` for what cannot be read |
| `FormatLaws.CharConversion` | src/freestanding/src/printf.c:214-233 | `%c` is the low byte of its argument, and `%n` prints nothing |
| `FormatLaws.CapConversion` | src/freestanding/src/printf.c:235-254 | the text of `%+#p` shows address, tag, base, permissions, object type and length of the capability, its limit, and an offset that leads from base to address modulo 2^64 |
| `FormatLaws.HalvesConversion` | src/freestanding/src/printf.c:255-266 | the text of `%#p` shows tag, upper half and address, with colons between them |
| `FormatLaws.PadSpelled` | src/freestanding/src/printf.c:194-208 | the body stands on the left with spaces behind it, or on the right with the fill character in front, and the text is as long as the wider of body and field |
| `FormatLaws.WidthSpelled` | src/freestanding/src/printf.c:357-375 | the width is the number among the flags, and its leading zero asks for zero padding |
| `Fields.UnsignedFieldLength` | src/freestanding/src/printf.c:292-307 | the field length is the larger of the width and the length of digits and prefix |
| `Fields.SignedFieldLength` | src/freestanding/src/printf.c:336-351 | signed output is padded to the width only if no sign character is printed |
| `CapText.CapLineReads` | src/util/capprint.c:99-110 | the printed form of a capability determines address, tag, base, limit, all permission bits, object type, offset and length, and has at most 123 characters |
| `CapText.CapToStrInjective` | src/util/capprint.c:99-110 | different capabilities are printed differently |
| `CapText.CapHalvesReads` | src/freestanding/src/printf.c:255-266 | the 35 characters of `%#p` determine tag and both halves |
| `CapText.PermsTextReads` | src/util/capprint.c:47-61 | the eighteen permission letters determine the permission set |
| `CapText.AccessLetters` | src/util/capprint.c:19-41 | the letters of the first six permissions, each at its place |
| `CapText.ControlLetters` | src/util/capprint.c:19-41 | the same for the next six |
| `CapText.OtherLetters` | src/util/capprint.c:19-41 | the same for the last six |
| `CapText.SealTextReads` | src/util/capprint.c:63-87 | the seal field is four characters wide and determines every 15-bit object type |
| `CapText.SealWords` | src/util/capprint.c:69-85 | `none`, `rb`, `lpb` and `lb` for the first four object types, four hexadecimal digits for the others |
| `CapText.InfoMeans` | src/util/capprint.c:99-104 | what is shown is taken from the capability: the offset leads from base to address and the length from base to limit, modulo 2^64 |
| `Format.ParseLossless` | src/freestanding/src/printf.c:158-180 | the sources of the directives spell the format string up to its NUL or limit |
| `Format.ArgumentsConsumed` | src/freestanding/src/printf.c:120-131 | arguments are consumed from the left, one per conversion, and never more than there are |
| `Format.SurplusIgnored` | src/freestanding/src/printf.c:126-129 | surplus arguments change neither output nor stored counts |
| `Format.PromiseKept` | src/freestanding/src/printf.c:126-129 | for every format and argument list, specifiers beyond the supplied arguments stand as they are exactly if no alternate pointer conversion is among them |
| `Format.StarvedFormatIsVerbatim` | src/freestanding/src/printf.c:126-129 | with no arguments at all the output is the format itself exactly if it has no `%…%` and no alternate pointer conversion |
| `Format.EscapeRoundTrip` | src/freestanding/src/printf.c:169-179 | a text with every percent sign doubled is output unchanged and consumes no argument |
| `FormatLaws.SpecificationRenders` | src/freestanding/src/printf.c:168-398 | which characters are modifiers and conversions, what a specification stands for with and without an argument, and that all others are verbatim |
| `FormatLaws.PlainDecimal` | src/freestanding/src/printf.c:313-356 | the format `%d` prints the `int` it is given |
| `FormatLaws.CountStored` | src/freestanding/src/printf.c:223-233 | `%n` stores how much of the output in front of it was taken, if its pointer can be written through, wherever it stands in a format |
| `Scanner.ModifierStep` | src/freestanding/src/printf.c:357-392 | a modifier updates flags and width to what the modifiers read so far mean as a whole |
| `Scanner.PassCharacter` | src/freestanding/src/printf.c:158-181 | an ordinary character keeps output, pending text and the meaning of the rest equal to the whole |
| `Scanner.EndSpecification` | src/freestanding/src/printf.c:183-398 | so does the character that ends a specification, whatever it is |
| `Scanner.Finish` | src/freestanding/src/printf.c:403-406 | at the end of the format only the pending text is missing |
| `Sink.Output.Emit` | src/freestanding/src/printf.c:14-45 | a sink takes the longest prefix of what it was offered in all calls together that fits, and reports how much it took |
| `Printf.EmitPadded` | src/freestanding/src/printf.c:194-208 | text and padding reach the sink as one padded field |
| `Printf.EmitString` | src/freestanding/src/printf.c:185-213 | `%s` outputs the effective string, or a marker for NULL and invalid pointers, padded with spaces |
| `Printf.EmitUnsigned` | src/freestanding/src/printf.c:274-312 | `%u` and `%x` output the padded numeral of the 32- or 64-bit argument |
| `Printf.EmitSigned` | src/freestanding/src/printf.c:313-356 | `%d` and `%i` output sign and numeral of the signed number that the argument holds |
| `Printf.EmitCap` | src/freestanding/src/printf.c:235-266 | the alternate forms of `%p` output the printed capability or its two halves, never truncated by the local buffers |
| `Printf.Convert` | src/freestanding/src/printf.c:183-356 | every conversion outputs its field, and `%n` stores what was taken so far if its pointer is dereferenceable |
| `Printf.PrintfCore` | src/freestanding/src/printf.c:149-407 | for every format and argument list the sink is offered exactly the meaning of the format; the result is what it took |
| `Printf.Printf` | src/freestanding/src/printf.c:20-27 | standard output receives the whole meaning and the result is its length |
| `Printf.SPrintf` | src/freestanding/src/printf.c:47-61 | the destination holds the longest prefix of the meaning that leaves room for a NUL, then the NUL; nothing else changes and the result is the length of that prefix; a destination without room yields -1 and a NUL in front of it |
| `Printf.CapPermsToStr` | src/util/capprint.c:47-61 | eighteen letters or dashes and a NUL |
| `Printf.CapSealToStr` | src/util/capprint.c:63-87 | five bytes suffice for the seal text of every object type |
| `Printf.CapToStr` | src/util/capprint.c:92-110 | the string in the destination is the readable form of the capability, for any destination of 124 bytes; reading it back gives every field of the capability |
| `FixedFormats.CapFormatRenders` | src/util/capprint.c:106-108 | the format string of the capability printer means the readable form |
| `FixedFormats.CapFormatSpelled` | src/util/capprint.c:106 | the format string of the capability printer |
| `FixedFormats.HalvesFormatRenders` | src/freestanding/src/printf.c:262 | the same for the two halves of `%#p` |
| `FixedFormats.SealFormatRenders` | src/util/capprint.c:84 | the same for a numeric object type |
| `Memory.PatternUniform` | src/freestanding/src/string.c:93-94 | the stored word repeats the low byte exactly for uniform arguments |
| `Memory.PatternLow` | src/freestanding/src/string.c:93-94 | for other arguments byte k of the stored word combines bytes 0 to k of the sign-extended argument, for k up to 3 |
| `Memory.PatternHigh` | src/freestanding/src/string.c:93-94 | the same for k from 4 to 7 |
| `Memory.BytesAreUniform` | src/freestanding/src/string.c:93-94 | every argument from 0 to 255 is uniform |
| `Memory.PlainFill` | src/freestanding/src/string.c:71-104 | a fill is a plain byte fill exactly if its word loop is empty or its argument is uniform |
| `Memory.Memset` | src/freestanding/src/string.c:71-104 | exactly the clamped range is written, each byte with the argument itself from 0 to 255 and with its low byte for every uniform argument, and its tags are cleared |
| `Memory.CopyBytes` | src/freestanding/src/string.c:127-147 | each byte loop extends the copied range by whole steps and completes no granule in the capability mode |
| `Memory.CopyCaps` | src/freestanding/src/string.c:142-144 | the granule loop moves bytes and tags, every access aligned and in bounds |
| `Memory.Memcpy` | src/freestanding/src/string.c:112-150 | destination bytes equal source bytes; wholly covered granules take the source tag if both pointers are aligned alike and 16 bytes are copied, other touched granules lose theirs; nothing else changes |
| `Memory.CopiedSpelled` | src/freestanding/src/string.c:106-150 | such a copy byte by byte and granule by granule: a granule that is wholly covered has the tag of the granule it was copied from |
| `Memory.NoForgedTags` | src/freestanding/src/string.c:106-111 | a tag after the copy was there before or sits on an exact copy of a tagged granule |
| `CallStack.SuspendedUntouched` | src/compartments/README.md:243-262 | while a call is active everything below it on the call stack is unchanged |
| `CallStack.MatchingReturn` | src/compartments/README.md:243-262 | the matching return resumes exactly the suspended context |
| `SwapSwitch.StacksConserved` | src/compartments/src/manager.c:80-84 | the stacks named by the stack pointer and all slots are a permutation of the initial ones and stay disjoint, however calls nest |
| `SwapSwitch.IdleKeepsOwnStack` | src/compartments/src/manager.c:99-102 | the slot of an idle compartment holds its own stack pointer |
| `SwapSwitch.FreshEntryOwnStack` | src/compartments/src/manager.c:80-84 | a compartment that is not active when it is entered runs on its own stack |
| `SwapSwitch.SlotHoldsLastCaller` | src/compartments/src/manager.c:80-82 | the slot of an active compartment holds the stack pointer of the caller that entered it last, re-entry included |
| `SwapSwitch.CallSwitchesStacks` | src/compartments/src/manager.c:80-84 | the stack of the caller and the one it switches to do not overlap |
| `SwapSwitch.StartKeepsInv` | src/compartments/README.md:240-241 | the invariant holds before the first call |
| `SwapSwitch.AllClear` | src/compartments/src/manager.c:64-84 | no usable stack pointer reaches into the frame of a suspended caller, re-entry included |
| `SwapSwitch.CallKeepsInv` | src/compartments/src/manager.c:64-88 | a call, re-entrant or not, keeps all frames and slots as the suspended callers require |
| `SwapSwitch.WorkKeepsInv` | src/compartments/README.md:249-251 | so does code that writes below the stack pointer it was given or outside all stacks |
| `SwapSwitch.ReturnRestores` | src/compartments/src/manager.c:97-110 | a return resumes stack pointer, saved registers and slots of the last suspended caller |
| `SwapSwitch.StepRefines` | src/compartments/src/manager.c:62-113 | every step is a step of the abstract call stack |
| `SwapSwitch.WholeCallRestores` | src/compartments/src/manager.c:62-113 | over every run from a call to its matching return, stack pointer, c19 to c30 and all slots come back, re-entrant calls included |
| `Bsp.Trampoline.Enter` | src/compartments/src/manager.c:64-88 | the entry code performs the call step, installs the compartment's ID, saves the caller's and clears the other registers |
| `Bsp.Trampoline.Leave` | src/compartments/src/manager.c:89-110 | the exit code performs the return step, takes the ID from the saved cell and clears c1 to c18 |
| `Bsp.CallerInDataRecord` | src/compartments/src/manager.c:77-82 | while a call is active and its compartment is not entered again, the data record holds the caller's stack pointer, with the caller's registers in memory below it, and the caller's ID |
| `Bsp.CidRestored` | src/compartments/src/manager.c:77-79 | a matching return sets the ID to that of the last entry into the compartment, so it is restored exactly if that was the same ID, and always without re-entry |
| `Bsp.ReentryLosesCid` | src/compartments/src/manager.c:77-79 | after a re-entrant call the first caller continues under the compartment's ID |
| `PrivateStack.Switch.Enter` | src/compartments/src/switch.S:19-37 | the entry code performs the call step of the same protocol and passes the unsealed object |
| `PrivateStack.Switch.Leave` | src/compartments/src/switch.S:38-53 | the exit code performs the return step with the sealed object it finds on the private stack |
| `PrivateStack.ObjectWaits` | src/compartments/src/switch.S:34-43 | in every run, wherever a return takes place, the cell at the stack pointer holds the sealed object of the compartment that is left |
| `PrivateStack.ObjectCallRestores` | src/compartments/src/switch.S:19-53 | in every run, re-entrant calls included, the return that matches a call finds the object that was called and gives back stack pointer, c27 to c30 and all `stack` fields |
| `Manager.OwnPartsPair` | src/compartments/src/manager.c:189-191 | entry, exit and data of one compartment share one object type and pair with each other unless it is reserved |
| `Manager.FlagsReduce` | src/compartments/src/manager.c:162-188 | flags only take permissions from stack and target, exactly those they name, and the target ends up sealed |
| `Manager.TargetMeans` | src/compartments/src/manager.c:162-170 | memory, address, permissions, seal and validity of what the trampoline branches to, for sealed and unsealed targets and all flags |
| `Manager.PartsMean` | src/compartments/src/manager.c:189-191 | where entry, exit and data of a compartment point, what they permit, and that their type is the ID, at least 4, modulo 2^15 |
| `Manager.OtypeCollision` | src/compartments/src/manager.c:232-236 | two IDs share an object type exactly if they agree modulo 2^15 after the clamp |
| `Manager.OtypeReserved` | src/compartments/src/manager.c:232-236 | exactly which IDs reach a reserved object type |
| `Manager.CmptManager.Uninitialised` | src/compartments/src/manager.c:29-30 | before `init_cmpt_manager` no compartment exists and every creation fails with EFAULT |
| `Manager.CmptManager.CreateCmpt` | src/compartments/src/manager.c:122-206 | what a created compartment is, which failures occur, that the counter advances even if a later allocation fails, and that all IDs stay distinct; its target is the given one, valid if that was and PCC covers it where it has to be rebuilt, and sealed |
| `Manager.CmptManager.DistinctTypes` | src/compartments/src/manager.c:225-240 | for IDs from 4 to 0x7fff a branch to a sealed pair works with the parts of one compartment only |
| `Manager.FreshStacksAreInit` | src/compartments/src/manager.c:283-294 | non-empty disjoint stacks with the pointer at their limit make an initial state of the switching protocol |
| `Manager.CmptManager.ReadyToRun` | src/compartments/src/manager.c:172-195 | whatever compartments were created, their stacks with a separate root stack satisfy the invariant of the switching protocol |
| `Restricted.RReturnRestores` | src/restricted/src/start.S:128-136 | a return restores stack pointer, thread pointer and ID whatever the target left in them, and c19 to c30 exactly if the frame is intact |
| `Restricted.RStepRefines` | src/restricted/src/start.S:101-136 | every step is a step of the abstract call stack |
| `Restricted.RWholeCallRestores` | src/restricted/src/start.S:101-136 | over every run from a call to its matching return the banked registers and the executive stack come back, re-entrant calls included |
| `Restricted.UndisturbedCallRestores` | src/restricted/src/start.S:57-77 | c19 to c30 come back too if nothing runs on the caller's stack between call and return, however the other compartments are entered and re-entered |
| `Restricted.FreshWholeCallRestores` | src/restricted/src/start.S:57-77 | so c19 to c30 come back in every run without re-entry |
| `Restricted.Executive.Start` | src/restricted/src/start.S:17-38 | start-up installs the root's registers over an empty executive stack |
| `Restricted.WordsArePassed` | src/restricted/src/start.S:85-92 | when c9 spans m words, c1 and so on hold them in order, eight at most, and the other argument registers are zero |
| `Restricted.NullMeansNoArguments` | src/restricted/src/start.S:85-92 | when c9 is NULL all eight argument registers are zero, because its all-ones length is compared as a signed number |
| `Restricted.Executive.Enter` | src/restricted/src/start.S:57-127 | thunk and switch push one frame on the restricted stack and two on the executive stack, install the descriptor, and load the argument registers from what c9 spans |
| `Restricted.Executive.Leave` | src/restricted/src/start.S:128-136 | the return pops exactly these frames |
| `OwnStacks.SaveKeeps` | src/compartments/src/lb.S:13-23 | saving a frame on the own stack leaves the frames on all other stacks intact |
| `OwnStacks.PlaceKept` | src/restricted/README.md:85-87 | code that keeps to its own stack leaves every frame on another stack intact |
| `OwnStacks.WorkKeeps` | src/restricted/README.md:85-87 | so the frames of all suspended callers stay intact |
| `Cman.Manager.Init` | src/restricted/src/cman.c:63-106 | the root compartment has the first ID and an aligned stack |
| `Cman.Manager.CreateCompartment` | src/restricted/src/cman.c:110-135 | a descriptor with a sealed target, a fresh stack and the next ID |
| `Cman.StackTopFits` | src/restricted/src/cman.c:33-40 | a stack pointer is the aligned upper end of its mapping with data permissions only |
| `Cman.ReportedId` | src/restricted/src/cman.c:137-150 | the reported ID is that of the ID register, and -1 in executive mode |
| `Cman.Manager.IdsAreSequential` | src/restricted/src/cman.c:137-145 | compartment IDs follow the root's in order of creation and tell compartments apart |
| `Cman.Manager.ReadyToRun` | src/restricted/src/cman.c:63-135 | what was created satisfies the invariant, and all stacks are apart |
| `PairSwitch.PReturnRestores` | src/compartments/src/lb.S:29-41 | a return from a target that preserved c28 resumes stack pointer and saved registers of the last suspended caller |
| `PairSwitch.PStepRefines` | src/compartments/src/lpb.S:9-39 | every step of either variant is a step of the abstract call stack |
| `PairSwitch.TokenMeans` | src/compartments/src/lb.S:23-25 | the token points to the 32 bytes of the return pair without store and execute permission and has the object type of its variant |
| `PairSwitch.ReturnExact` | src/compartments/src/lb.S:29-41 | a return resumes the caller's context exactly if the frame words that it reads are intact, and takes the stored code exactly if the code word is, for both variants |
| `PairSwitch.PWholeCallRestores` | src/compartments/src/lb.S:12-41 | over every run without re-entry from a call to its matching return the caller's context comes back and the return takes the code that the call stored, for both variants |
| `PairSwitch.ExitFound` | src/compartments/src/lpb.S:31-35 | in every run without re-entry c28 is sealed at each return and leads to the one exit sentry that the switch stores |
| `PairSwitch.ReentrantCallExact` | src/compartments/src/lb.S:12-41 | over every run, whatever is re-entered, the caller's context comes back exactly if the words that the return reads are intact by then |
| `PairSwitch.UndisturbedCallRestores` | src/compartments/src/lb.S:12-41 | in particular context and stored code come back if nothing runs on the caller's stack between call and return, however the other compartments are entered and re-entered |
| `PairSwitch.ReentryMixesCallers` | src/compartments/src/lpb.S:9-39 | after a second activation called out from the same stack pointer, the return to the first one resumes the second one's context, which is right exactly if both saved the same registers |
| `PairSwitch.LbReentry` | src/compartments/src/lb.S:12-41 | a compartment that calls itself twice in a row returns to its first activation with a c28 that leads back to itself |
| `PairSwitch.LpbReentry` | src/compartments/src/lpb.S:9-39 | the same for the load-pair variant |
| `PairSwitch.Lb.Enter` | src/compartments/src/lb.S:12-28 | frame and return pair on the caller's stack, a sealed pointer to them in c28, and the callee's stack |
| `PairSwitch.Lb.Leave` | src/compartments/src/lb.S:29-41 | aborts exactly if c28 is not sealed, otherwise returns through the pair |
| `PairSwitch.Lpb.Enter` | src/compartments/src/lpb.S:9-30 | the same for the load-pair variant with its two frames |
| `PairSwitch.Lpb.Leave` | src/compartments/src/lpb.S:31-39 | the same for its return |
| `Relocation.DerivedCap` | src/freestanding/src/init.c:112-134 | a derived capability has the fragment's bounds, the addend in its address, the mask of its kind within its parent's permissions, and is sealed exactly if executable |
| `Relocation.RestrictedPointers` | src/freestanding/src/init.c:142-148 | restricted start-up leaves no executive or system permission |
| `Relocation.RelocatedUnique` | src/freestanding/src/init.c:108-136 | the relocated image is determined slot by slot |
| `Relocation.RelocatedSpelled` | src/freestanding/src/init.c:108-136 | the slot at offset 16k of a relative entry holds the derived capability, and a slot without an entry is unchanged |
| `Relocation.OrderIrrelevant` | src/freestanding/src/init.c:108-136 | it does not depend on the order of the entries |
| `Relocation.SearchStop` | src/freestanding/src/init.c:98-104 | the search for the roots ends at the first point where both are known, or at the end of the vector |
| `Relocation.LastOfAt` | src/freestanding/src/init.c:98-103 | among several entries of a type the last one counts |
| `Relocation.SingleRoots` | src/freestanding/src/init.c:96-104 | if each root has one entry, these are found wherever they stand |
| `Relocation.FindRoots` | src/freestanding/src/init.c:96-104 | the roots are the last entries of their types up to where the search ends |
| `Relocation.InitMorelloRelative` | src/freestanding/src/init.c:89-138 | each relative entry's slot holds its derived capability and all others are unchanged; nothing is written on failure |
| `Relocation.NoStray` | src/freestanding/src/init.c:150-154 | every entry is stored within the table exactly if all types are below its size |
| `Relocation.Runtime.Init` | src/freestanding/src/init.c:140-164 | after success every lookup gives the last entry of its type, or what it gave before if there is none, and exactly the entries with types beyond the table were stored elsewhere |
| `Encrypt.EncryptMessage` | src/compartments/privdata.c:209-231 | every byte processed is the source byte exclusive-or the key byte of its position, overlapping source and destination included; how many bytes that are, that the NUL is in bounds whenever the destination is not empty, and that nothing else changes |
| `Encrypt.MixedIsCombined` | src/compartments/privdata.c:219-226 | unless the destination begins within the processed source, the result is the original source combined with the key stream |
| `Encrypt.CombinedTwice` | src/compartments/privdata.c:222 | combining twice with one key gives the original bytes |
| `Encrypt.UnchangedByte` | src/compartments/privdata.c:222 | a byte comes out unchanged exactly if its key byte is zero |
| `Encrypt.EncryptDecrypt` | src/compartments/privdata.c:140-150 | a second pass in place gives back every byte of the first |

## Left out

- Short or failing writes to standard output: the sink for standard output accepts everything.
- Aliasing between a destination, the format string and the arguments of one call; pointers to characters
  are values there. For the same reason `strcpy` does not show the tags that its byte stores clear.
- The stored value of `%n` is recorded rather than written through the pointer.
- Widths and counts are natural numbers: wrap-around of `size_t` widths and of the `int` result, and
  exhaustion of the stack by `alloca`.
- The static 128-byte buffer that the capability printers use for a NULL destination: it is an array like
  any other destination.
- The bit layout of encoded capabilities, so the upper half printed by `%#p` is a field of the argument;
  bounds compression and representability.
- `PERM_MUTABLE_LOAD` and local capabilities when `memcpy` moves capabilities.
- System calls, page protection, cache maintenance, code relocation, instruction encodings, the C64 bit and
  thread pointers beyond being saved and restored. Allocation is a fresh mapping or a failure.
- Threads, and code that forges or leaks capabilities.
- The variant of `create_cmpt` for a C library that provides no compartment ID capability.
- `Restricted.Executive.Enter`: the target is not required to be restricted, as in the source; running it in
  executive mode is not modelled.
- `Relocation.Runtime.Init`: names the entries that are stored outside of the table, but not what such a store
  does.
- `init_cap_relocs` (unused), the name table of the auxiliary vector, the hybrid example, demo programs and
  build scripts.
