# oh_my_cpu build-plan generator: a Dafny model

oh_my_cpu measures the peak throughput of an x86 processor with hand-written
assembly kernels, one kernel family per instruction-set extension (SSE, AVX,
FMA, AVX512F, AVX512_VNNI). Its generator program, `lib/cpuid_x86.cpp`, does
two things:

1. It probes the processor. Two CPUID queries (leaf 01H, and leaf 07H sub-leaf 0)
   give four register values. `cpuid_x86_init` clears the process-wide mask
   `feat` and ORs in one flag for each extension the registers report. The bit
   positions follow the CPUID entry in chapter 3 of the Intel 64 and IA-32
   Architectures Software Developer's Manual, Volume 2A.
2. It prints the build commands. An extension is *selected* when
   `cpuid_x86_support` reports it or `--compile-all` was the only argument.
   The extensions are walked in the fixed order AVX512F, AVX512_VNNI, FMA, AVX,
   SSE. Each selected one adds a `-D` macro to the compile line, an `as` line
   for its kernel object, and that object to the link line. The program prints
   `smtl_cmd`, `asm_cmd`, `c_cmd` and `lnk_cmd` one after the other.

The model has two modules:

- `CpuId` (`cpuid.dfy`) models the probe. `Regs` holds the four register values
  as `bv32`. `DecodeFeatures` is the pure decoding. The class `FeatureState`
  holds the static `feat`. Its method `Init` is the step-by-step reset-then-OR
  of `cpuid_x86_init`, proved equal to `DecodeFeatures`. Its function `Support`
  is `cpuid_x86_support`.
- `BuildPlan` (`build_plan.dfy`) models the text generation:
  - `StrNCmpEqual` is the C `strncmp(...) == 0` test and `CompileAll` is the
    flag check built on it.
  - `Order` is the ISA table, its rows given by `Macro`, `Object` and `Source`.
  - `Chosen` is the list of selected extensions, in table order.
  - `Output` is the printed text, built from `Chosen`.
  - `Generate` is `main`. It runs `Init`, then `AppendExtensions`, whose loop
    replaces the five `if` blocks of the source, and is proved to return
    `Output`.

The text is modelled literally, down to the missing space in
`"as " + asFlags + "-o "`. The source's five unrolled `if` blocks become one
loop over the table. `JoinedTable` and `CompileAllOutput` spell out that the
loop gives the same five pieces in the same order.

## Model

| member | source | states |
|---|---|---|
| `CpuId.Mask` | lib/cpuid_x86.cpp:14-20 | each enumerator of `cpuid_x86_feature_t` is a single bit, `1 << Index(f)`, below 0x20 |
| `CpuId.BitTest` | lib/cpuid_x86.cpp:10 | `BIT_TEST` yields 0 or 1 |
| `CpuId.DecodeFeatures` | lib/cpuid_x86.cpp:44-73 | the decoded mask records exactly the detected extensions: SSE iff bit 25 of leaf-01H EDX, AVX iff bit 28 of leaf-01H ECX, FMA iff bit 12 of leaf-01H ECX, AVX512F iff bit 16 of leaf-07H EBX, AVX512_VNNI iff bit 11 of leaf-07H ECX; it has no bit outside the five flags (value < 0x20) |
| `CpuId.SupportOf` | lib/cpuid_x86.cpp:75-77 | `feat & feature` is either 0 or the flag itself, and is nonzero exactly when `feat` has that flag's bit |
| `CpuId.FeatureState.constructor` | lib/cpuid_x86.cpp:31 | the static `feat` starts out zero |
| `CpuId.FeatureState.SetFeat` | lib/cpuid_x86.cpp:11-12 | `SET_FEAT` ORs the mask into `feat` |
| `CpuId.FeatureState.Init` | lib/cpuid_x86.cpp:44-73 | after the reset and the five conditional ORs, `feat` equals `DecodeFeatures(regs)`, whatever it held before |
| `CpuId.FeatureState.Support` | lib/cpuid_x86.cpp:75-77 | reads `feat` without changing it; the result is 0 or the flag, nonzero exactly when the flag is recorded |
| `CpuId.SupportAfterInit` | lib/cpuid_x86.cpp:53-77 | after decoding, a single-flag query is nonzero exactly when the registers report that extension |
| `BuildPlan.OrEmpty` | lib/cpuid_x86.cpp:88-89 | an unset variable reads as the empty string; a set one is read as a C string, cut at its first NUL, and a NUL-free value is kept whole |
| `BuildPlan.CString` | lib/cpuid_x86.cpp:84 | the C string held in a buffer is the prefix before the first NUL: it has no NUL and is followed by one; a NUL-free buffer is its own C string |
| `BuildPlan.StrNCmpEqual` | lib/cpuid_x86.cpp:84 | `strncmp(a, b, n) == 0` exactly when, at each of the first n positions up to and including the first NUL of `a`, the two strings hold the same character |
| `BuildPlan.StrNCmpEqualIff` | lib/cpuid_x86.cpp:84 | when the bound covers the terminator of a NUL-free pattern, `strncmp` reports equality exactly when the C string equals the pattern |
| `BuildPlan.CompileAll` | lib/cpuid_x86.cpp:82-86 | `compile_all` holds exactly when `argc == 2` and `argv[1]` is `"--compile-all"` |
| `BuildPlan.CompileAllExamples` | lib/cpuid_x86.cpp:84 | `"--compile-all"` matches; `"--compile-allx"`, `"--compile-al"` and a second argument do not |
| `BuildPlan.Macro` | lib/cpuid_x86.cpp:107-135 | the `-D` macro of each extension, as in its `if` block; none holds a newline |
| `BuildPlan.Object` | lib/cpuid_x86.cpp:106-134 | the object file of each extension, as in its `if` block; none holds a newline |
| `BuildPlan.Source` | lib/cpuid_x86.cpp:92-96 | the assembly source of each extension; none holds a newline |
| `BuildPlan.AsmLine` | lib/cpuid_x86.cpp:109-137 | an assembler line ends with a newline and, when `ASFLAGS` holds none, is exactly one line |
| `BuildPlan.LinkObject` | lib/cpuid_x86.cpp:110-138 | an extension adds a space and then its object file to the link line, and no newline |
| `BuildPlan.Selected` | lib/cpuid_x86.cpp:105-133 | an extension is selected exactly when the mask has its bit or `compile_all` holds |
| `BuildPlan.Chosen` | lib/cpuid_x86.cpp:105-139 | the chosen list is no longer than the table |
| `BuildPlan.ChosenMembers` | lib/cpuid_x86.cpp:105-139 | an extension is chosen exactly when it is in the table and is supported or `compile_all` holds |
| `BuildPlan.ChosenSnoc` | lib/cpuid_x86.cpp:105-139 | considering one more table row appends it exactly when it is selected, and otherwise changes nothing |
| `BuildPlan.ChosenKeepsOrder` | lib/cpuid_x86.cpp:105-139 | the chosen extensions keep the table order |
| `BuildPlan.JoinedSnoc` | lib/cpuid_x86.cpp:107-110 | a selected extension adds exactly its own piece at the end of each text |
| `BuildPlan.JoinedTable` | lib/cpuid_x86.cpp:105-139 | over the whole table the pieces come in the order AVX512F, AVX512_VNNI, FMA, AVX, SSE |
| `BuildPlan.ChosenAll` | lib/cpuid_x86.cpp:105-139 | with `compile_all` every extension is chosen, whatever the feature mask |
| `BuildPlan.ChosenNone` | lib/cpuid_x86.cpp:105-139 | with a zero mask and no `compile_all` nothing is chosen |
| `BuildPlan.BuiltExtensions` | lib/cpuid_x86.cpp:44-139 | from the registers and the arguments: an extension is built exactly when the processor reports it or the sole argument is `"--compile-all"`, and the built ones come in table order |
| `BuildPlan.CompileAllOutput` | lib/cpuid_x86.cpp:98-144 | under `--compile-all` the output holds all five assembler lines, all five macros and all five link objects, in table order |
| `BuildPlan.NoExtensionOutput` | lib/cpuid_x86.cpp:98-144 | with nothing detected and no flag, `asm_cmd` is empty, the compile line has no macro, and the link line is exactly `gcc <CFLAGS> -pthread -lrt smtl.o cpu_x86.o` |
| `BuildPlan.AsmLinesCount` | lib/cpuid_x86.cpp:109-137 | `asm_cmd` holds exactly one line per chosen extension |
| `BuildPlan.SmtlCmd` | lib/cpuid_x86.cpp:98 | `smtl_cmd` ends with a newline and, when `CFLAGS` holds none, is exactly one line |
| `BuildPlan.CCmd` | lib/cpuid_x86.cpp:100-141 | `c_cmd` ends with a newline and, when `CFLAGS` holds none, is exactly one line |
| `BuildPlan.LinkCmd` | lib/cpuid_x86.cpp:101-142 | `lnk_cmd` ends with a newline and, when `CFLAGS` holds none, is exactly one line |
| `BuildPlan.Output` | lib/cpuid_x86.cpp:98-144 | the output ends with a newline and has 3 + k lines, k being the number of extensions built, when `CFLAGS` and `ASFLAGS` hold no newline |
| `BuildPlan.ExtendChoice` | lib/cpuid_x86.cpp:105-139 | considering one more table row grows `isa_macro`, `asm_cmd` and `lnk_cmd` by that row's pieces when it is selected, and leaves the choice unchanged otherwise |
| `BuildPlan.AppendExtensions` | lib/cpuid_x86.cpp:103-139 | the loop over the table leaves `isa_macro`, `asm_cmd` and `lnk_cmd` equal to the macros, assembler lines and link objects of exactly the chosen extensions, in table order |
| `BuildPlan.Generate` | lib/cpuid_x86.cpp:79-147 | the text `main` prints is `Output` of the decoded registers, the flag, and the two environment variables with a missing one read as empty and a set one cut at its first NUL |

## Left out

- `cpuid_x86_exec` (inline `cpuid` assembly) is not modelled. The four register values it returns for leaves 01H and 07H are the input `Regs`. The EAX outputs are never read by the source and are not part of `Regs`.
- `getenv` and `cout` are not modelled as I/O. `CFLAGS` and `ASFLAGS` are `Option<string>` parameters, and the printed text is the returned string. A value is read as the C string it would be in the environment block, so it ends at its first NUL.
- `strncmp` is a C library call. `StrNCmpEqual` is this model's own definition of its equality result over NUL-terminated strings. A NUL inside a Dafny string ends the C string, as it would in the buffer.
- `argv` is a `seq<string>` that includes the program name, so `argc` is its length.
- `cpuid_x86_support` takes a `Feature` rather than any integer cast to the enum type. All of the source's calls pass an enumerator.
- BitTest: its contract says only that the result is 0 or 1. What the test means is proved at the five bit positions the probe uses, through `DecodeFeatures`, because the general statement for a variable shift amount is beyond the solver's budget here. Shifting `0x1` by 31 is undefined in C and in C++11; the source never does it.
- The loop in `AppendExtensions` stands for five unrolled `if` blocks. The order and the text of each block are the same.
- lib/cpu_x86.c (the timing and printing harness), include/cpu_kernel_x86.h (declarations of the assembly kernels) and lib/main.c (the thread-count default) are not part of this model. They involve clocks, floating point, console output and foreign code.
- The worker pool that lib/cpu_x86.c calls (`smtl_init`, `smtl_add_task`, `smtl_begin_tasks`, `smtl_wait_tasks_finished`, `smtl_fini`) is not part of this model. Its source is not among the files modelled, and its purpose is thread coordination.
