# stacklimit in Dafny

stacklimit estimates the worst-case stack a program needs. It reads the
objdump disassembly of a binary and records, for every function:

- what the function pushes;
- what it subtracts from the stack pointer;
- which functions it calls.

It then walks the call graph from every entrance (a function nobody calls).
Each function's total is its own stack plus the largest total of the functions
it calls. The stack limit is the largest total. Dynamic stack operations, calls
through a function pointer and recursion make the result imprecise.

The repository ships this analysis twice. Both are modelled, and a `Variant`
parameter chooses between them:

- `Package`: the `stacklimit/` package.
- `Legacy`: the older single-file script `stacklimit.py`.

Where the two differ, the model follows each one. For example, legacy `==`
compares addresses only, while the package compares the file and then the
address.

The project has these modules:

| file | module | models |
|---|---|---|
| `wrappers.dfy` | `Wrappers` | `Option`, `Result` and the Python exceptions the core raises |
| `text.dfy` | `Text` | `str.split`, `str.join`, `str.count`, slicing, and the `re.sub` used to normalise white space |
| `numbers.dfy` | `Numbers` | `int(s)`, `int(s, 16)` and `str(n)` |
| `arch.dfy` | `Architecture` | `get_arch` |
| `patterns_base.dfy` | `Patterns` | the architecture-independent patterns: file format, section, function label, `_operation`, `get_operation` |
| `patterns_x86.dfy` | `X86Patterns` | the x86 and x86-64 grammars (as hand-written recognisers), register tables and extractors, in both generations |
| `patterns_arm.dfy` | `ArmPatterns` | the ARM and AArch64 extractors |
| `instructions.dfy` | `Instructions` | the branch of the `parse` cascade a line takes, and the extractors `parse` dispatches to |
| `datastructure.dfy` | `DataStructure` | `StackImpact`, `Statistic`, `Function`, `Table` and `Visitor` as classes |
| `stacklimit.dfy` | `Analysis` | `Stacklimit` as a class: `parse`, the handlers, `calculate_stack`, `get_stack_limit` |

Some things the analysis depends on are not fixed by the model; they are
parameters of `Parse`:

- The listing is a sequence of lines, each still ending in its newline, as
  the lines of the objdump output do. `parse` cuts the last character of every
  line before it looks at it.
- What a call adds to the stack (`get_stack_call_size`) is a function `callSize`.
- The branch an ARM or AArch64 line takes is a function `classify`.

### Behaviour of the source worth knowing

- The function-pointer sentinel at address 0 is an entrance of
  `calculate_stack` exactly when no function calls through a pointer: every
  pointer call adds the calling function to the sentinel's callers
  (`stacklimit/stacklimit.py:790-791`, `stacklimit.py:1264-1265`). A function
  label at address 0 finds the sentinel (`stacklimit/stacklimit.py:715-719`),
  which then becomes the current function and takes the stack of the lines
  that follow.
- The x86-64 pattern class inherits the x86 `get_stack_sub_size`. It
  overrides only the push grammar and the push size.
- In the package, `parse` does not `continue` after a function label, so the
  label line also goes through the instruction cascade. The model analyses
  it there like any other line and does not state which branch it takes.
- The package cannot analyse x86-64. `stacklimit/stacklimit.py:16` imports
  `x86_64` from the `patterns` package, whose `__init__` does not bind that
  name, so the import yields the `x86_64` submodule and not the class of the
  same name. The pattern selection at `stacklimit/stacklimit.py:678` then reads
  `x86_64.arch` from the module, which has no such attribute, and `parse`
  fails with AttributeError before it reads a line. `Parse` returns that
  error. The x86-64 patterns themselves are still modelled, and the older
  script selects them normally.

## Model

| member | source | states |
|---|---|---|
| Architecture.FirstSelectedSupported | stacklimit/stacklimit.py:37-45 | the loop over the supported names returns the first that the lowered name equals or, for an `x` name, contains the rest of and ends like |
| Architecture.GetArchName | stacklimit/stacklimit.py:35-39 | every supported name selects itself |
| Architecture.GetArchEmpty | stacklimit/stacklimit.py:32-33 | no architecture for `None` or the empty string |
| Architecture.GetArchX86 | stacklimit/stacklimit.py:42-45 | any name containing `86` and ending in `6` is x86 |
| Architecture.GetArch80386 | stacklimit/stacklimit.py:24 | `80386` is recognised as x86 (also `stacklimit/stacklimit.py:41-45`) |
| Architecture.GetArchUpperDash | stacklimit/stacklimit.py:35 | the name is lowered and `-` becomes `_`, so `X86-64` is x86_64 |
| Architecture.GetArchSound | stacklimit/stacklimit.py:37-45 | an answer is the normalised name itself, or the x86 containment rule |
| Numbers.ParseHexDigits | stacklimit/patterns/base.py:115 | `int(h, 16)` of hexadecimal digits is their positional value |
| Numbers.ParseDigits | stacklimit/stacklimit.py:746-748 | `int` of plain digits is their value in the base |
| Numbers.ParseToHex | stacklimit/stacklimit.py:745-746 | `int("0x…", 16)` reads back any number written in hexadecimal |
| Numbers.ParseToDecimal | stacklimit/datastructure.py:262-263 | `int(str(n)) == n` for every integer |
| Numbers.ParseNegative | stacklimit/stacklimit.py:748 | a leading `-` gives the negated value |
| Text.JoinSplit | stacklimit/patterns/base.py:114-116 | `sep.join(s.split(sep)) == s` |
| Text.SplitJoin | stacklimit/patterns/base.py:114-116 | splitting a join of separator-free words gives the words back |
| Text.SplitCount | stacklimit/patterns/arm.py:118-121 | `split` gives one more piece than there are separators |
| Patterns.Operation | stacklimit/patterns/base.py:67-102 | `_operation` without arguments fails with an IndexError, and with arguments it succeeds |
| Patterns.OperationJoin | stacklimit/patterns/base.py:82-88 | the grammar is the lead, the mnemonic, then the operands joined by the list separator |
| Patterns.AppendOperandsJoin | stacklimit/patterns/base.py:87-88 | the operand loop builds the same text as a join |
| Patterns.OperationExamples | tests/patterns/test_base.py:83-96 | the four `_operation` vectors of the tests |
| Patterns.FileFormatOf | stacklimit/patterns/base.py:51 | any text, a colon, blanks and `file format ` make a file-format line |
| Patterns.FileFormatSingleColon | stacklimit/patterns/base.py:51 | with one colon, the line is a file-format line iff `file format ` follows the blanks after it |
| Patterns.FileFormatNeeds | stacklimit/patterns/base.py:51 | a file-format line holds a colon and `file format ` |
| Patterns.FileFormatNot | stacklimit/patterns/base.py:51 | something other than `file format ` after the only colon is rejected |
| Patterns.FileFormatElf | tests/patterns/test_base.py:10 | the accepted vector of the tests |
| Patterns.FileFormatPath | tests/patterns/test_base.py:11 | a path before the colon is accepted |
| Patterns.FileFormatMisspelt | tests/patterns/test_base.py:15 | the rejected vector of the tests |
| Patterns.GetSectionOf | stacklimit/patterns/base.py:141-153 | `get_section` gives the last word without the colon |
| Patterns.SectionOf | stacklimit/patterns/base.py:54 | a section header is recognised and its name read back |
| Patterns.SectionExamples | tests/patterns/test_base.py:18-29 | the section vectors, accepted and rejected (also `tests/patterns/test_base.py:105-108`) |
| Patterns.FunctionLabelOf | stacklimit/patterns/base.py:57 | hexadecimal digits and ` <name>:` form a label, whatever the name |
| Patterns.FunctionLabelParts | stacklimit/patterns/base.py:57 | every label splits into digits, ` <`, a name and `>:` |
| Patterns.FunctionLabelNeeds | stacklimit/patterns/base.py:57 | a label holds ` <` and ends in `>:` |
| Patterns.NotLabel | stacklimit/patterns/base.py:57 | a line not ending in `:` is no label |
| Patterns.GetFunctionOf | stacklimit/patterns/base.py:105-118 | `get_function` returns the address and the name of a label |
| Patterns.FunctionLabelDecodes | stacklimit/patterns/base.py:105-118 | every label with an address decodes to its parts |
| Patterns.FunctionLabelWithoutAddress | stacklimit/patterns/base.py:57 | the grammar admits a label with no digits, and `int("", 16)` then raises ValueError (also `stacklimit/patterns/base.py:115`) |
| Patterns.LabelExample | stacklimit/patterns/base.py:105-118 | leading zeros of the address do not change it |
| Patterns.FunctionMain | tests/patterns/test_base.py:33 | the `main` vector, matched and decoded (also `tests/patterns/test_base.py:99-102`) |
| Patterns.FunctionPlt | tests/patterns/test_base.py:34 | the `.plt` vector decodes |
| Patterns.FunctionLibcStart | tests/patterns/test_base.py:35 | the `__libc_start_main@plt` vector decodes |
| Patterns.FunctionNotLabels | tests/patterns/test_base.py:39-44 | the rejected label vectors |
| Patterns.GetOperation | stacklimit/patterns/base.py:121-138 | the operation read is one word without white space |
| Patterns.GetOperationOf | stacklimit/patterns/base.py:121-138 | on an instruction line (indent, address, bytes, padding), the operation is the mnemonic |
| Patterns.OperationStartOf | stacklimit/patterns/base.py:131 | the prefix match ends after the byte groups and the padding |
| Patterns.ByteGroupsOver | stacklimit/patterns/base.py:131 | `([0-9a-f]+ )+` takes exactly the byte groups |
| Patterns.BytesEndOf | stacklimit/patterns/base.py:131 | the prefix after the colon ends where the mnemonic starts |
| Patterns.GetOperationAt | stacklimit/patterns/base.py:133-136 | a matched prefix gives its first white-space-separated word |
| Patterns.TokenOf | stacklimit/patterns/base.py:136 | `re.split("\s", …)[0]` is the mnemonic |
| Patterns.GetOperationNone | stacklimit/patterns/base.py:131-138 | a line not starting with white space has no operation |
| Patterns.GetOperationExample | stacklimit/patterns/base.py:121-138 | a `sub $0x10,%rsp` line gives `sub` |
| X86Patterns.KindOfTable | stacklimit/patterns/x86.py:24-61 | every register of a width table is of that width |
| X86Patterns.TablesDisjoint | stacklimit/patterns/x86.py:24-61 | no register is in two width tables |
| X86Patterns.SuffixUnique | stacklimit/patterns/x86.py:127-138 | a line ends in at most one `%register`, so the lookup order does not matter |
| X86Patterns.RegisterWidth | stacklimit/patterns/x86.py:127-138 | a width is 0, 1, 2, 4 or 8 |
| X86Patterns.RegisterWidthOf | stacklimit/patterns/x86.py:127-138 | a push of a table register has that table's width |
| X86Patterns.RegisterWidthConstant | stacklimit/patterns/x86.py:138 | a line without a register has width 0 |
| X86Patterns.PushSize | stacklimit/patterns/x86.py:141-149 | a push is 1, 2, 4 or 8 bytes (also `stacklimit/patterns/x86_64.py:22-31`) |
| X86Patterns.PushSizeOf | stacklimit/patterns/x86.py:141-149 | a register push takes the register's width |
| X86Patterns.PushSizeConstant | stacklimit/patterns/x86.py:146-149 | a constant push is 4 bytes on x86 and 8 on x86-64 (also `stacklimit/patterns/x86_64.py:29-31`) |
| X86Patterns.LegacyPushSizeConstant | stacklimit.py:399-401 | for a pushed constant the older script's size (4 on x86, 8 on x86-64) equals the package's (also `stacklimit.py:420-422`, `stacklimit/patterns/x86.py:146-149`) |
| X86Patterns.LegacyPushSizeRegister | stacklimit.py:399-401 | for a pushed register the older script and the package agree exactly when the register is as wide as the word (also `stacklimit.py:420-422`, `stacklimit/patterns/x86.py:141-149`) |
| X86Patterns.GetFunctionCall | stacklimit/patterns/x86.py:116-124 | failures are IndexError or ValueError |
| X86Patterns.GetFunctionCallOf | stacklimit/patterns/x86.py:116-124 | a call line gives the callee's address and name |
| X86Patterns.GetFunctionCallExample | tests/patterns/test_x86.py:69-75 | the test vector decodes to `0x4005e9`, `function_e` |
| X86Patterns.GetStackSubSizeOf | stacklimit/patterns/x86.py:152-155 | a `sub $imm,reg` line gives `imm` without the `$` |
| X86Patterns.GetStackSubSizeExample | stacklimit/patterns/x86.py:152-155 | `sub $0x10,%rsp` gives `0x10` |
| X86Patterns.IsCallOf | stacklimit/patterns/x86.py:64 | `callq`, white space, hex digits and ` <name>` match FunctionCall |
| X86Patterns.CallNeeds | stacklimit/patterns/x86.py:64 | a FunctionCall line ends in `>` |
| X86Patterns.IsPointerOf | stacklimit/patterns/x86.py:67 | `callq` and an operand with `%` match FunctionPointer |
| X86Patterns.PointerNeeds | stacklimit/patterns/x86.py:67 | a FunctionPointer line holds `%` |
| X86Patterns.IsSubOf | stacklimit/patterns/x86.py:98 | `sub $0x…,%(e\|r\|l\|)sp` matches StackSubOp |
| X86Patterns.SubOperandsOf | stacklimit/patterns/x86.py:98 | the operands of such a sub are accepted |
| X86Patterns.SubNeeds | stacklimit/patterns/x86.py:98 | a StackSubOp line ends in `sp` |
| X86Patterns.IsDynamicOf | stacklimit/patterns/x86.py:78 | `sub %reg,%sp` variants match StackDynamicOp |
| X86Patterns.DynamicNeeds | stacklimit/patterns/x86.py:78 | a StackDynamicOp line ends in `sp` |
| X86Patterns.IsPushOf | stacklimit/patterns/x86.py:88 | `push`, an optional size letter and a blank match StackPushOp (also `stacklimit/patterns/x86_64.py:20`) |
| X86Patterns.PushRejects | stacklimit/patterns/x86.py:88 | a `push` followed by anything else is not a push (also `stacklimit/patterns/x86_64.py:20`) |
| X86Patterns.IsLegacyCallOf | stacklimit.py:371 | the older FunctionCall accepts `callq` followed by two spaces |
| X86Patterns.LegacyCallNeedsTwoBlanks | stacklimit.py:371 | with a single space the older grammar rejects a call that the package accepts (also `stacklimit/patterns/x86.py:64`) |
| X86Patterns.IsLegacyPointerOf | stacklimit.py:374 | the older FunctionPointer accepts `callq  ` and an operand with `%` |
| X86Patterns.IsLegacySubOf | stacklimit.py:385 | the older StackSubOp accepts `sub $0x…,%esp` and `…,%rsp` |
| X86Patterns.LegacySubNeeds | stacklimit.py:385 | such a line ends in `sp` |
| X86Patterns.IsLegacyDynamicOf | stacklimit.py:378 | the older StackDynamicOp accepts `sub %…,%esp` and `…,%rsp` |
| ArmPatterns.GetFunctionCall | stacklimit/patterns/arm.py:95-106 | failures are IndexError or ValueError |
| ArmPatterns.GetFunctionCallIndexError | stacklimit/patterns/arm.py:95-106 | the IndexError happens exactly when the line has no `<` |
| ArmPatterns.GetFunctionCallOf | stacklimit/patterns/arm.py:95-106 | a `bl` line gives the hexadecimal word before ` <` and the name inside |
| ArmPatterns.PushCount | stacklimit/patterns/arm.py:109-121 | at least one register is pushed |
| ArmPatterns.PushCountOf | stacklimit/patterns/arm.py:109-121 | `{r1,…,rn}` counts n registers |
| ArmPatterns.CountJoin | stacklimit/patterns/arm.py:121 | n comma-free registers joined by commas hold n-1 commas |
| ArmPatterns.PushSize | stacklimit/patterns/arm.py:124-126 | an ARM push is a positive multiple of 4 |
| ArmPatterns.PushSizeExample | stacklimit/patterns/arm.py:124-126 | `push {fp, lr}` is 8 bytes |
| ArmPatterns.SubText | stacklimit/patterns/arm.py:129-137 | the only failure is an IndexError |
| ArmPatterns.SubTextOf | stacklimit/patterns/arm.py:129-137 | the immediate after the last `#` is read, without its sign, up to a separator |
| ArmPatterns.SubTextExample | stacklimit/patterns/arm.py:129-137 | `sub sp, sp, #28` gives `28` |
| ArmPatterns.AddTextExample | stacklimit/patterns/arm.py:135-136 | a negative immediate loses its sign |
| ArmPatterns.SubTextEmpty | stacklimit/patterns/arm.py:135 | nothing after the `#` raises IndexError (also `stacklimit/patterns/aarch64.py:33`) |
| ArmPatterns.AArch64SubText | stacklimit/patterns/aarch64.py:27-34 | the only failure is an IndexError |
| ArmPatterns.AArch64SubTextOf | stacklimit/patterns/aarch64.py:27-34 | the immediate is read up to `]`, without its sign |
| ArmPatterns.AArch64SubTextExample | stacklimit/patterns/aarch64.py:27-34 | `stp x29, x30, [sp,#-64]!` gives `64` |
| Instructions.CategoriseProducible | stacklimit/stacklimit.py:736-798 | the cascade takes only the branches the selected patterns have (dynamic and potential only on x86) |
| Instructions.CategoryCall | stacklimit/stacklimit.py:769 | a direct x86 call takes the FunctionCall branch (also `stacklimit/patterns/x86.py:64`) |
| Instructions.CategorySub | stacklimit/stacklimit.py:743 | an x86 `sub $imm` on the stack pointer takes the StackSubOp branch (also `stacklimit/patterns/x86.py:98`) |
| Instructions.SubBranch | stacklimit/stacklimit.py:736-743 | a StackSubOp line that is no push takes that branch |
| Instructions.CategoryDynamic | stacklimit/stacklimit.py:765 | an x86 `sub %reg` on the stack pointer takes the StackDynamicOp branch (also `stacklimit/patterns/x86.py:78`) |
| Instructions.DynamicBranch | stacklimit/stacklimit.py:736-765 | earlier branches win over StackDynamicOp |
| Instructions.CategoryPointer | stacklimit/stacklimit.py:788 | `callq *%reg` takes the FunctionPointer branch (also `stacklimit/patterns/x86.py:67`) |
| Instructions.PushSizeRange | stacklimit/stacklimit.py:737 | the push size fails (RuntimeError) exactly for AArch64 in the package; otherwise x86 in {1,2,4,8}, legacy x86 4, legacy x86-64 8, ARM 4 per register, legacy AArch64 8 per register (also `stacklimit/patterns/aarch64.py:22-25`, `stacklimit.py:329-331`, `stacklimit.py:351-353`) |
| Instructions.PushSizeX86_64 | stacklimit/patterns/x86_64.py:22-31 | x86-64 register pushes take the register width and a constant push is 8 bytes; x86 gives 4 |
| Instructions.SubText | stacklimit/stacklimit.py:744 | IndexError only on ARM or AArch64 |
| Instructions.CallTarget | stacklimit/stacklimit.py:770 | failures are IndexError or ValueError |
| Analysis.DecodeSub | stacklimit/stacklimit.py:745-748 | failures are ValueError |
| Analysis.DecodeSubHex | stacklimit/stacklimit.py:745-746 | `0x` text is read in base 16 |
| Analysis.DecodeSubDecimal | stacklimit/stacklimit.py:747-748 | other text is read in base 10 |
| Analysis.Clamp | stacklimit/stacklimit.py:751-760 | ignored iff above `0xF000000000000000` or in `(0x10000000, 0xF0000000]`; a kept value is at most `0x10000000`; small values stay; 32-bit negatives become their two's-complement value |
| Analysis.ClampNegative | stacklimit/stacklimit.py:754-757 | `2^32 - n` becomes `n` |
| Analysis.ClampWide | stacklimit/stacklimit.py:754-757 | a value above 2^32 that is not ignored becomes negative |
| Analysis.SubAmount | stacklimit/stacklimit.py:744-762 | the amount added is at most `0x10000000`; failures are IndexError or ValueError |
| Analysis.SubAmountHex | stacklimit/stacklimit.py:744-762 | `sub $0x…,reg` on x86 adds the immediate (also `stacklimit/patterns/x86.py:152-155`) |
| Analysis.FileOfPath | stacklimit/stacklimit.py:697-699 | the file of `dir/name: file format …` is `name` |
| Analysis.FileOfName | stacklimit/stacklimit.py:697-699 | without a directory it is the word before the colon |
| Analysis.UniqueIdentity | stacklimit/datastructure.py:376-389 | with unique addresses, functions with the same address are the same object |
| Analysis.Roots | stacklimit/stacklimit.py:640 | the entrances are exactly the functions without callers |
| Analysis.MaxTotal | stacklimit/stacklimit.py:650-652 | the subcall size is at least 0, bounds every callee's total, and is 0 or attained |
| Analysis.SubcallSize | stacklimit/stacklimit.py:650-652 | the loop computes `MaxTotal` |
| Analysis.Precise | stacklimit/stacklimit.py:657-661 | true iff no entrance is imprecise |
| Analysis.Unlabelled | stacklimit/stacklimit.py:800-804 | exactly the unvisited functions other than the sentinel |
| Analysis.Keep | stacklimit/stacklimit.py:813 | the table without the dropped functions, nothing else lost |
| Analysis.KeepRemove | stacklimit/stacklimit.py:813 | `del table[f]` on the kept table drops exactly `f` (also `stacklimit/datastructure.py:337-340`) |
| Analysis.Unlink | stacklimit/stacklimit.py:814-815 | after `del caller.calls[f]` for every caller, no call edge reaches `f` and the edges stay consistent |
| Analysis.Stacklimit.constructor | stacklimit/stacklimit.py:165-175 | the table holds only the sentinel `Function Pointer` at address 0; every warning switch starts at `warn` |
| Analysis.Stacklimit.Track | stacklimit/stacklimit.py:543-556 | the statistic records the line's operation, if it has one, with its impact (package only) |
| Analysis.Stacklimit.PushOp | stacklimit/stacklimit.py:736-739 | adds the push size to the current function and records Clear; the size's error or AttributeError (no current function) otherwise |
| Analysis.Stacklimit.SubOp | stacklimit/stacklimit.py:743-763 | adds the clamped immediate and records Clear; ignored immediates change nothing; errors as the source raises them |
| Analysis.Stacklimit.DynamicOp | stacklimit/stacklimit.py:765-767 | marks the current function dynamic and records Weak |
| Analysis.Stacklimit.CallOp | stacklimit/stacklimit.py:769-786 | finds or appends the callee, adds the edge once per address, charges the call size and records Clear (package) |
| Analysis.Stacklimit.PointerOp | stacklimit/stacklimit.py:788-793 | adds an edge to the sentinel every time, and records Weak |
| Analysis.Stacklimit.Instruction | stacklimit/stacklimit.py:736-798 | the effect `Cascade` states, and no function but the current one changes its size, dynamic mark or calls, nor any its file, section or visited mark |
| Analysis.Stacklimit.Cascade | stacklimit/stacklimit.py:736-798 | by the branch the line takes: a push or `sub` grows the current function by its size, a dynamic operation marks it, a direct call finds or appends the callee and adds the edge once per address (charging the call size in the package), a pointer call adds an edge to the sentinel, the last two branches only record Potential or No; each error as the source raises it |
| Analysis.Stacklimit.Enter | stacklimit/stacklimit.py:713-727 | an existing function takes the file and section; a new one is appended; it becomes visited; no other function changes its file, section or visited mark, and none its size, dynamic mark or calls |
| Analysis.Stacklimit.Label | stacklimit/stacklimit.py:713-728 | the cursor moves to the labelled function, which takes the cursor's file and section; every other function keeps its file, section and visited mark; a decoding error is passed up |
| Analysis.Stacklimit.PackageLine | stacklimit/stacklimit.py:692-798 | file-format, section, label and empty lines, in the package's order; a labelled function takes the cursor's file and section; any other line keeps the current function and has the effect `Instruction` states; no function but the new current one changes its size, dynamic mark or calls, nor any but a labelled one its file, section or visited mark |
| Analysis.Stacklimit.LegacyLine | stacklimit.py:1184-1265 | a file-format line sets the file, then the line goes through `LegacyCascade`; the same frame on the other functions as `PackageLine` |
| Analysis.Stacklimit.LegacyCascade | stacklimit.py:1192-1265 | the older script's section, label and instruction cascade: a labelled function takes the cursor's file and section, a line that is neither a section nor a label keeps the current function and has the effect `Instruction` states, and the other functions keep their state as in `PackageLine` |
| Analysis.Stacklimit.Step | stacklimit/stacklimit.py:692-798 | one line through the cascade of the variant: the labelled address is entered and visited with the cursor's file and section, a plain instruction line has the effect `Instruction` states, and no other function changes (also `stacklimit.py:1184-1265`) |
| Analysis.Stacklimit.Scan | stacklimit/stacklimit.py:692-798 | every labelled address is in the table and visited after the loop |
| Analysis.Stacklimit.Prune | stacklimit/stacklimit.py:800-815 | the table keeps all but the dropped unlabelled functions, calls lose them, IndexError for one without callers, visited functions stay |
| Analysis.Stacklimit.Reset | stacklimit/stacklimit.py:817-818 | no function is visited |
| Analysis.Stacklimit.Parse | stacklimit/stacklimit.py:663-818 | the package on x86-64 fails with AttributeError and changes nothing; after a successful parse no function is visited, every labelled address is in the table, every other function is the sentinel or was there before, and every call leads to a function of the table (also `stacklimit/stacklimit.py:16`, `stacklimit.py:1155-1285`) |
| Analysis.Stacklimit.TableClosed | stacklimit/stacklimit.py:813-815 | in a valid table no function calls one that is not in the table, so the post-pass leaves no call to a deleted function |
| Analysis.Stacklimit.HandleDynamic | stacklimit/stacklimit.py:558-577 | a dynamic function makes all outer frames imprecise; the warning stays on only with multiple warnings (also `stacklimit.py:1050-1069`) |
| Analysis.Stacklimit.HandlePointer | stacklimit/stacklimit.py:579-597 | a function calling the sentinel makes all outer frames imprecise; the same warning rule (also `stacklimit.py:1071-1089`) |
| Analysis.Stacklimit.HandleCycle | stacklimit/stacklimit.py:599-616 | a repeat at `start` marks the outer frames imprecise and `[start..n-1]` as a cycle, and skips (also `stacklimit.py:1091-1108`) |
| Analysis.Stacklimit.HandleNode | stacklimit/stacklimit.py:618-631 | `Handled`: an empty stack skips; a visited function does nothing; a regarded function gets the dynamic and pointer checks; then the cycle check, with the frames each marks and the warning switches (also `stacklimit/stacklimit.py:522-529`) |
| Analysis.Stacklimit.Round | stacklimit/stacklimit.py:646-655 | the rest of one pass of the loop after `down`: the call stack is handled as `Handled` says, the current function becomes visited, unless skipped its total is its size plus the largest callee total, no other function changes its visited mark or total nor any function off the stack its marks, and the walk has one frame fewer to go |
| Analysis.Stacklimit.Visit | stacklimit/stacklimit.py:646-653 | the node handling of `Handled`, the visited mark and the total of one step, and nothing else changes |
| Analysis.Stacklimit.Traverse | stacklimit/stacklimit.py:643-655 | the loop ends with an empty call stack |
| Analysis.Stacklimit.CalculateStack | stacklimit/stacklimit.py:633-661 | the answer is true iff no entrance is imprecise (also `stacklimit.py:1125-1153`) |
| Analysis.Stacklimit.GetStackLimit | stacklimit/stacklimit.py:823-829 | at least 0, no function's total exceeds it, and it is 0 or attained |
| DataStructure.Stronger | stacklimit/datastructure.py:21-24 | the kept impact is one of the two and of the higher priority (also `stacklimit/datastructure.py:199-201`) |
| DataStructure.OccurrencesPartition | stacklimit/datastructure.py:183-206 | the four impact counters add up to the number of records |
| DataStructure.StrongestRecorded | stacklimit/datastructure.py:199-201 | an operation's impact is one it was recorded with and the strongest of them |
| DataStructure.Record | stacklimit/datastructure.py:191-206 | one `add_operation` keeps both tables a summary of the records |
| DataStructure.Statistic.constructor | stacklimit/datastructure.py:183-189 | no operations, every impact counter 0 |
| DataStructure.Statistic.AddOperation | stacklimit/datastructure.py:191-206 | the executions rise, the impact is the stronger one, and the counter of the impact rises |
| DataStructure.FunctionName | stacklimit/datastructure.py:262-266 | at most 64 characters; the given name (or the decimal address) if it fits, else its first 61 characters and `...` (also `stacklimit.py:554-555`) |
| DataStructure.FunctionNameIdempotent | stacklimit/datastructure.py:264-265 | shortening a shortened name changes nothing |
| DataStructure.FunctionNameParses | stacklimit/datastructure.py:262-263 | the default name reads back as the address |
| DataStructure.Function.constructor | stacklimit/datastructure.py:247-271 | address, shortened name, section, file; empty call tables; size 0 (also `stacklimit.py:552-561`) |
| DataStructure.StrLessTrichotomy | stacklimit/datastructure.py:277 | string order is irreflexive and total |
| DataStructure.EqualIff | stacklimit/datastructure.py:285-289 | `==` holds iff the addresses agree (and in the package the files); `!=` is its negation (also `stacklimit/datastructure.py:303-305`, `stacklimit.py:569-572`) |
| DataStructure.EqualNone | stacklimit/datastructure.py:287 | `== None` is an AttributeError in the package and false in the older script (also `stacklimit.py:570-571`) |
| DataStructure.Trichotomy | stacklimit/datastructure.py:273-301 | on comparable keys exactly one of `<`, `==`, `>` holds; `<=` and `>=` agree |
| DataStructure.Incomparable | stacklimit/datastructure.py:277-283 | a missing file against a named one is a TypeError in the package |
| DataStructure.Locate | stacklimit/datastructure.py:385-389 | the first position with the address, or the length |
| DataStructure.FindIn | stacklimit/datastructure.py:376-389 | nothing iff no function has the address; otherwise the first that has it |
| DataStructure.Table.Find | stacklimit/datastructure.py:376-389 | the loop returns `FindIn` (also `stacklimit.py:636-649`) |
| DataStructure.Position | stacklimit/datastructure.py:339 | `list.index`: the first position `==` the key |
| DataStructure.Remove | stacklimit/datastructure.py:337-340 | ValueError iff no function is `==` the key; otherwise one shorter, and that one occurrence is gone |
| DataStructure.Table.constructor | stacklimit/datastructure.py:324-331 | the given functions and an empty statistic |
| DataStructure.Table.Append | stacklimit/datastructure.py:362-372 | the function is added at the end and returned |
| DataStructure.Table.Delete | stacklimit/datastructure.py:337-340 | `del`: `Remove`, or the error and no change |
| DataStructure.Table.Limit | stacklimit/datastructure.py:395-406 | at least 0, bounds every total, and is 0 or attained |
| DataStructure.Table.Sort | stacklimit/datastructure.py:391-393 | the totals are non-increasing and the table is a permutation of the old one |
| DataStructure.InsertDescending | stacklimit/datastructure.py:393 | one insertion step keeps the order |
| DataStructure.Unvisited | stacklimit/datastructure.py:101 | only unvisited children of the function |
| DataStructure.UnvisitedComplete | stacklimit/datastructure.py:121 | every unvisited child is kept |
| DataStructure.Descend | stacklimit/datastructure.py:94-123 | the descent loop computes `Walk` |
| DataStructure.WalkPath | stacklimit/datastructure.py:94-123 | the descent extends the stack, and each new frame is the last unvisited child of the frame before it |
| DataStructure.WalkEnd | stacklimit/datastructure.py:94-123 | the descent stops at a function without unvisited children or at a repeat |
| DataStructure.WalkQueue | stacklimit/datastructure.py:118-119 | the queue gains the other unvisited children of every frame entered |
| DataStructure.TotalAt | stacklimit/datastructure.py:130-156 | replacing or deleting a queue tier changes the pending count by the size difference |
| DataStructure.Visitor.constructor | stacklimit/datastructure.py:71-84 | the last entrance is on the stack and the others are queued; without entrances the package queues one empty tier and the older script none (also `stacklimit.py:447-456`) |
| DataStructure.Visitor.Down | stacklimit/datastructure.py:94-123 | the stack and queue become `Walk` of the old ones; the old stack is a prefix; the last frame is returned (also `stacklimit.py:458-481`) |
| DataStructure.Visitor.Up | stacklimit/datastructure.py:130-156 | the top is popped and replaced by the next queued function of its tier, which shrinks; the new top or nothing is returned; one frame fewer is pending (also `stacklimit.py:483-504`) |

## Left out

- Running objdump and readelf, finding them (`_find_objdump`, `_get_tool_path`, `_has_objdump_support`) and detecting the architecture from the binary: all of this is subprocess I/O. The listing is given as a sequence of lines.
- An unknown architecture: `_init_arch` raises ValueError and the legacy `parse` returns early. Neither can be represented, because `Arch` has only the four supported values.
- Printing: `_print`, the colour helpers, `_print_cycle_warn`, `_print_call_*`, `print_stack_table`, `print_statistic*`, `print_call_tree`, and the text of the warnings. Only their effect on the warning switches is modelled.
- `stacklimit/output.py`, the `main.py` command line and `showfunc.py`: these are user interface.
- The regular-expression engine: the x86 grammars are hand-written recognisers with `re.match` semantics (anchored at the start, backtracking). The ARM and AArch64 grammars are not recognised. The branch an ARM line takes is the `classify` parameter, restricted by `ArmClassifier` to branches the ARM patterns have.
- `get_stack_call_size`: no shipped pattern implements it, and the base version raises NotImplementedError. It is the `callSize` parameter; its error propagates.
- The abstract base extractors (`stacklimit/patterns/base.py:155-210`) and the legacy ones (`stacklimit.py:204-243`). `parse` never selects them.
- The `pop` alternative of the x86 PotentialStackOp grammar (`stacklimit/patterns/x86.py:110`): the model contains no recogniser for it. It puts `^` after white space, so it can never match.
- Class attributes shared between instances: the dicts of `Statistic` and the lists of the legacy `Visitor`. Each object has its own state in the model.
- Analysis.Stacklimit.CalculateStack: states the precision answer and that the walk ends, but no property of the totals after the walk, although the docstring at `stacklimit/stacklimit.py:634` promises the maximal recursive stack size of each function. The walk's own FIXMEs (`stacklimit/datastructure.py:103-151`) say its queue tiers are not kept aligned with the depth of the stack, so which callees' totals are final when a function's total is summed is not something the code guarantees. Each step's total is stated by `Round`.
- Analysis.Stacklimit.Traverse: states only that the loop ends with an empty call stack, for the reasons given under `CalculateStack`; each round's effect is stated by `Round`.
- Analysis.Stacklimit.Round: the `if current:` test is always true, because `down` always returns a frame, so it is not modelled as a branch.
- DataStructure.Table.Sort: does not state stability. Python's sort is stable, and so is the insertion the model uses, but no lemma states it.
- DataStructure.Function.constructor: the legacy constructor with `name=None` raises TypeError (`len(None)`). That path is not modelled, because every caller passes a name.
- Text.ToLower: lowers ASCII letters only, while `str.lower()` (`stacklimit/stacklimit.py:35`) also lowers other Unicode letters. The architecture names it is used on are ASCII.
- Analysis.Stacklimit.Parse: states the x86-64 AttributeError of the package, that the visited marks are cleared, that every labelled address is in the table, that every function kept is the sentinel, labelled or was visited before, and that every call stays inside the table, but not the stack size of each function that its docstring (`stacklimit/stacklimit.py:664-667`) promises. The per-line effects are stated by `Step`, `PackageLine`, `LegacyLine` and `Instruction`; their fold over the whole listing and through the post-pass is not.
- Numbers.ParseInt: accepts ASCII digits and ASCII white space only, while Python's `int()` also accepts other Unicode decimal digits and white space. objdump prints ASCII.
- Analysis.Stacklimit.Scan: states that every labelled address is entered and visited, but not the sizes, marks and edges the whole listing leaves. The effect of each plain instruction line is stated by `Step`, `PackageLine` and `LegacyLine`. The instruction pass of a package label line is stated only to keep the table valid.
- `_stack_impact`'s ValueError, and the size text of `_track_operation`: output only.
- The ARM `FIXME` about several system functions at address 0: the model keeps addresses unique in the table. The source assumes this, and `Valid` states it.

Proof-only ghost fields are not behaviour of the source. They are
`Statistic.history` (the list of records), `Stacklimit.former` (functions the
post-pass removed that may still be callers), and a `Graph` snapshot of the
call graph used to specify the visitor.
