/**
 * The build-plan generator: from the detected (or forced) instruction-set
 * extensions, the text of the shell commands that assemble one kernel object
 * per selected extension, compile the harness with one `-D` macro per selected
 * extension and link everything together.
 *
 * The environment variables CFLAGS and ASFLAGS are optional inputs and the
 * text written to standard output is the result.
 */
module BuildPlan {
  import opened CpuId

  datatype Option<T> = None | Some(value: T)

  /**
   * `getenv(name) == NULL ? "" : getenv(name)` as a std::string: the value is
   * read as a C string, so it ends at its first NUL.
   */
  function OrEmpty(v: Option<string>): (s: string)
    ensures v.Some? ==> s == CString(v.value)
    ensures v.Some? && '\0' !in v.value ==> s == v.value
    ensures v.None? ==> s == ""
  {
    match v
    case None => ""
    case Some(x) => CString(x)
  }

  // ---------------------------------------------------------------------------
  // Command-line flag: strncmp(argv[1], "--compile-all", 14) == 0

  /** The character at position i of a C string holding s: past the end, NUL. */
  function CharAt(s: string, i: nat): char
  {
    if i < |s| then s[i] else '\0'
  }

  /** The C string a char buffer holds: everything before its first NUL. */
  function CString(s: string): (c: string)
    ensures |c| <= |s| && c == s[..|c|]
    ensures '\0' !in c
    ensures CharAt(s, |c|) == '\0'
    ensures '\0' !in s ==> c == s
  {
    if s == [] || s[0] == '\0' then [] else [s[0]] + CString(s[1..])
  }

  /**
   * strncmp(a, b, n) == 0: the first n characters agree, where comparison
   * stops early after a NUL that both strings have at the same place.
   */
  function StrNCmpEqual(a: string, b: string, n: nat): (r: bool)
    ensures r <==> AgreeUpTo(a, b, n)
    decreases n
  {
    if n == 0 then true
    else if CharAt(a, 0) != CharAt(b, 0) then
      assert NoNulBefore(a, 0);
      false
    else if CharAt(a, 0) == '\0' then
      assert forall i :: 0 < i ==> !NoNulBefore(a, i);
      true
    else
      AgreeTail(a, b, n);
      StrNCmpEqual(a[1..], b[1..], n - 1)
  }

  /** No NUL among the first i characters of the C string holding s. */
  predicate NoNulBefore(s: string, i: nat)
  {
    forall j :: 0 <= j < i ==> CharAt(s, j) != '\0'
  }

  /**
   * The C strings held by a and b agree on their first n characters, up to and
   * including a's terminator if it comes earlier.
   */
  predicate AgreeUpTo(a: string, b: string, n: nat)
  {
    forall i :: 0 <= i < n && NoNulBefore(a, i) ==> CharAt(a, i) == CharAt(b, i)
  }

  /** When the first characters agree and are not NUL, agreement moves on to the tails. */
  lemma AgreeTail(a: string, b: string, n: nat)
    requires n > 0 && |a| > 0 && |b| > 0 && a[0] == b[0] != '\0'
    ensures AgreeUpTo(a[1..], b[1..], n - 1) <==> AgreeUpTo(a, b, n)
  {
    forall i: nat
      ensures CharAt(a[1..], i) == CharAt(a, i + 1) && CharAt(b[1..], i) == CharAt(b, i + 1)
      ensures NoNulBefore(a, i + 1) <==> NoNulBefore(a[1..], i)
    {
      if NoNulBefore(a[1..], i) {
        forall j | 0 <= j < i + 1
          ensures CharAt(a, j) != '\0'
        {
          if j > 0 {
            assert CharAt(a[1..], j - 1) != '\0';
          }
        }
      }
      if NoNulBefore(a, i + 1) {
        forall j | 0 <= j < i
          ensures CharAt(a[1..], j) != '\0'
        {
          assert CharAt(a, j + 1) != '\0';
        }
      }
    }
    if AgreeUpTo(a[1..], b[1..], n - 1) {
      forall i | 0 <= i < n && NoNulBefore(a, i)
        ensures CharAt(a, i) == CharAt(b, i)
      {
        if i > 0 {
          assert NoNulBefore(a[1..], i - 1);
        }
      }
    }
    if AgreeUpTo(a, b, n) {
      forall i | 0 <= i < n - 1 && NoNulBefore(a[1..], i)
        ensures CharAt(a[1..], i) == CharAt(b[1..], i)
      {
        assert NoNulBefore(a, i + 1);
      }
    }
  }

  /**
   * When the bound n exceeds the length of a NUL-free b, so that b's
   * terminator is compared too, strncmp reports equality exactly when the C
   * string in a is b: no proper prefix and no extension of b matches.
   */
  lemma {:induction false} StrNCmpEqualIff(a: string, b: string, n: nat)
    requires '\0' !in b && |b| < n
    ensures StrNCmpEqual(a, b, n) <==> CString(a) == b
    decreases n
  {
    if b == [] {
    } else if CharAt(a, 0) != b[0] {
      assert CharAt(b, 0) == b[0];
    } else {
      assert CharAt(b, 0) == b[0];
      assert |a| > 0 && a[0] == b[0] != '\0';
      assert CString(a) == [a[0]] + CString(a[1..]);
      StrNCmpEqualIff(a[1..], b[1..], n - 1);
      assert '\0' !in b[1..];
      assert b == [b[0]] + b[1..];
    }
  }

  const CompileAllFlag: string := "--compile-all"

  /**
   * `argc == 2 && strncmp(argv[1], "--compile-all", 14) == 0`, with argv[0] the
   * program name: it holds exactly when the one argument given is "--compile-all".
   */
  function CompileAll(argv: seq<string>): (r: bool)
    ensures r <==> |argv| == 2 && CString(argv[1]) == CompileAllFlag
  {
    |argv| == 2
    && (StrNCmpEqualIff(argv[1], CompileAllFlag, 14); StrNCmpEqual(argv[1], CompileAllFlag, 14))
  }

  /** The exact flag matches; one character more or fewer does not. */
  lemma CompileAllExamples()
    ensures CompileAll(["oh_my_cpu", "--compile-all"])
    ensures !CompileAll(["oh_my_cpu", "--compile-allx"])
    ensures !CompileAll(["oh_my_cpu", "--compile-al"])
    ensures !CompileAll(["oh_my_cpu", "--compile-all", "x"])
  {
    assert '\0' !in "--compile-allx" && '\0' !in "--compile-al";
    assert |"--compile-allx"| == 14 && |CompileAllFlag| == 13 && |"--compile-al"| == 12;
  }

  // ---------------------------------------------------------------------------
  // The ISA table

  /** The order in which the extensions are considered, and so appear in every command. */
  const Order: seq<Feature> := [Avx512f, Avx512Vnni, Fma, Avx, Sse]

  /** The preprocessor macro that enables the harness code for an extension. */
  function Macro(f: Feature): (s: string)
    ensures '\n' !in s
  {
    match f
    case Avx512f => "-D_AVX512F_ "
    case Avx512Vnni => "-D_AVX512_VNNI_ "
    case Fma => "-D_FMA_ "
    case Avx => "-D_AVX_ "
    case Sse => "-D_SSE_ "
  }

  /** The object file the extension's kernels are assembled into. */
  function Object(f: Feature): (s: string)
    ensures '\n' !in s
  {
    match f
    case Avx512f => "cpu_kernel_x86_avx512f.o"
    case Avx512Vnni => "cpu_kernel_x86_avx512_vnni.o"
    case Fma => "cpu_kernel_x86_fma.o"
    case Avx => "cpu_kernel_x86_avx.o"
    case Sse => "cpu_kernel_x86_sse.o"
  }

  /** The assembly source of the extension's kernels. */
  function Source(f: Feature): (s: string)
    ensures '\n' !in s
  {
    match f
    case Avx512f => "binary/cpu_kernel_x86_avx512f.asm"
    case Avx512Vnni => "binary/cpu_kernel_x86_avx512_vnni.asm"
    case Fma => "binary/cpu_kernel_x86_fma.asm"
    case Avx => "binary/cpu_kernel_x86_avx.asm"
    case Sse => "binary/cpu_kernel_x86_sse.asm"
  }

  /** The assembler line for an extension; note there is no space between ASFLAGS and "-o". */
  function AsmLine(f: Feature, asFlags: string): (s: string)
    ensures |s| > 0 && s[|s| - 1] == '\n'
    ensures '\n' !in asFlags ==> Newlines(s) == 1
  {
    var body := "as " + asFlags + "-o " + Object(f) + " " + Source(f);
    OneLine(body);
    body + "\n"
  }

  /** What an extension adds to the link command: a space, then its object file. */
  function LinkObject(f: Feature): (s: string)
    ensures |s| == |Object(f)| + 1 && s[0] == ' ' && s[1..] == Object(f)
    ensures '\n' !in s
  {
    " " + Object(f)
  }

  /** An extension is built when the processor supports it or --compile-all was given. */
  predicate Selected(feat: bv32, compileAll: bool, f: Feature)
    ensures Selected(feat, compileAll, f) <==> Has(feat, f) || compileAll
  {
    SupportOf(feat, f) != 0 || compileAll
  }

  /** The extensions of fs that are built, in the order of fs. */
  function Chosen(fs: seq<Feature>, feat: bv32, compileAll: bool): (r: seq<Feature>)
    ensures |r| <= |fs|
    decreases |fs|
  {
    if fs == [] then []
    else
      var init := Chosen(fs[..|fs| - 1], feat, compileAll);
      var last := fs[|fs| - 1];
      if Selected(feat, compileAll, last) then init + [last] else init
  }

  /** An extension is chosen exactly when it is in the table and selected. */
  lemma {:induction false} ChosenMembers(fs: seq<Feature>, feat: bv32, compileAll: bool, f: Feature)
    ensures f in Chosen(fs, feat, compileAll) <==> f in fs && Selected(feat, compileAll, f)
    decreases |fs|
  {
    if fs != [] {
      var init, last := fs[..|fs| - 1], fs[|fs| - 1];
      ChosenMembers(init, feat, compileAll, f);
      assert fs == init + [last];
      if Selected(feat, compileAll, last) {
        assert Chosen(fs, feat, compileAll) == Chosen(init, feat, compileAll) + [last];
      } else {
        assert Chosen(fs, feat, compileAll) == Chosen(init, feat, compileAll);
      }
    }
  }

  /** Considering one more extension appends it to the choice exactly when it is selected. */
  lemma ChosenSnoc(fs: seq<Feature>, f: Feature, feat: bv32, compileAll: bool)
    ensures Chosen(fs + [f], feat, compileAll)
         == Chosen(fs, feat, compileAll) + (if Selected(feat, compileAll, f) then [f] else [])
  {
  }

  /** One piece of text per chosen extension, in the order chosen. */
  function Joined(sel: seq<Feature>, piece: Feature -> string): string
    decreases |sel|
  {
    if sel == [] then "" else Joined(sel[..|sel| - 1], piece) + piece(sel[|sel| - 1])
  }

  /** The -D macros of the chosen extensions, each followed by a space. */
  function Macros(sel: seq<Feature>): string
  {
    Joined(sel, Macro)
  }

  /** One assembler line per chosen extension. */
  function AsmLines(sel: seq<Feature>, asFlags: string): string
  {
    Joined(sel, f => AsmLine(f, asFlags))
  }

  /** The object files of the chosen extensions, each preceded by a space. */
  function LinkObjects(sel: seq<Feature>): string
  {
    Joined(sel, LinkObject)
  }

  /** One more chosen extension adds exactly its own piece at the end. */
  lemma JoinedSnoc(sel: seq<Feature>, f: Feature, piece: Feature -> string)
    ensures Joined(sel + [f], piece) == Joined(sel, piece) + piece(f)
  {
  }

  /** Concatenation regroups freely. */
  lemma AppendAssoc(a: string, b: string, c: string)
    ensures (a + b) + c == a + (b + c)
  {
  }

  /** smtl_cmd: compile the worker pool; a single line when CFLAGS holds no newline. */
  function SmtlCmd(cFlags: string): (s: string)
    ensures |s| > 0 && s[|s| - 1] == '\n'
    ensures '\n' !in cFlags ==> Newlines(s) == 1
  {
    var head := "gcc " + cFlags;
    assert " -pthread -O3 -c lib/smtl.c\n" == " -pthread -O3 -c lib/smtl.c" + "\n";
    AppendAssoc(head, " -pthread -O3 -c lib/smtl.c", "\n");
    OneLine(head + " -pthread -O3 -c lib/smtl.c");
    "gcc " + cFlags + " -pthread -O3 -c lib/smtl.c\n"
  }

  /** c_cmd: compile the harness with the chosen macros; a single line when CFLAGS holds no newline. */
  function CCmd(cFlags: string, sel: seq<Feature>): (s: string)
    ensures |s| > 0 && s[|s| - 1] == '\n'
    ensures '\n' !in cFlags ==> Newlines(s) == 1
  {
    NoNewlineInLists(sel);
    var head := "gcc " + cFlags + " -pthread " + Macros(sel);
    assert "-c lib/cpu_x86.c\n" == "-c lib/cpu_x86.c" + "\n";
    AppendAssoc(head, "-c lib/cpu_x86.c", "\n");
    OneLine(head + "-c lib/cpu_x86.c");
    "gcc " + cFlags + " -pthread " + Macros(sel) + "-c lib/cpu_x86.c\n"
  }

  /** lnk_cmd: link everything; a single line when CFLAGS holds no newline. */
  function LinkCmd(cFlags: string, sel: seq<Feature>): (s: string)
    ensures |s| > 0 && s[|s| - 1] == '\n'
    ensures '\n' !in cFlags ==> Newlines(s) == 1
  {
    NoNewlineInLists(sel);
    assert '\n' !in " -pthread -lrt smtl.o cpu_x86.o";
    var body := "gcc " + cFlags + " -pthread -lrt smtl.o cpu_x86.o" + LinkObjects(sel);
    OneLine(body);
    body + "\n"
  }

  /**
   * The whole text written to standard output. It ends with a newline, and it
   * has 3 + k lines, k being the number of extensions built, provided the flags
   * themselves hold no newline.
   */
  function Output(feat: bv32, compileAll: bool, cFlags: string, asFlags: string): (r: string)
    ensures |r| > 0 && r[|r| - 1] == '\n'
    ensures '\n' !in cFlags && '\n' !in asFlags
        ==> Newlines(r) == 3 + |Chosen(Order, feat, compileAll)|
  {
    var sel := Chosen(Order, feat, compileAll);
    var smtl, asm, c, lnk := SmtlCmd(cFlags), AsmLines(sel, asFlags), CCmd(cFlags, sel), LinkCmd(cFlags, sel);
    NewlinesAppend(smtl, asm);
    NewlinesAppend(smtl + asm, c);
    NewlinesAppend(smtl + asm + c, lnk);
    if '\n' in asFlags then smtl + asm + c + lnk
    else (AsmLinesCount(sel, asFlags); smtl + asm + c + lnk)
  }

  // ---------------------------------------------------------------------------
  // Properties of the generated text

  /** Position of an extension in Order. */
  function Rank(f: Feature): nat
  {
    match f
    case Avx512f => 0
    case Avx512Vnni => 1
    case Fma => 2
    case Avx => 3
    case Sse => 4
  }

  /** The extensions of s appear in strictly increasing table position. */
  predicate InTableOrder(s: seq<Feature>)
  {
    forall i, j :: 0 <= i < j < |s| ==> Rank(s[i]) < Rank(s[j])
  }

  /** Choosing keeps the relative order of the table. */
  lemma {:induction false} ChosenKeepsOrder(fs: seq<Feature>, feat: bv32, compileAll: bool)
    requires InTableOrder(fs)
    ensures InTableOrder(Chosen(fs, feat, compileAll))
    decreases |fs|
  {
    if fs != [] {
      var init := fs[..|fs| - 1];
      var last := fs[|fs| - 1];
      ChosenKeepsOrder(init, feat, compileAll);
      var c := Chosen(init, feat, compileAll);
      if Selected(feat, compileAll, last) {
        forall i | 0 <= i < |c|
          ensures Rank(c[i]) < Rank(last)
        {
          ChosenMembers(init, feat, compileAll, c[i]);
          var k :| 0 <= k < |init| && init[k] == c[i];
          assert fs[k] == c[i];
        }
        assert Chosen(fs, feat, compileAll) == c + [last];
      }
    }
  }

  /**
   * The extensions built are exactly those the processor reports, or all of
   * them under --compile-all, and they come in the order AVX512F, AVX512_VNNI,
   * FMA, AVX, SSE.
   */
  lemma BuiltExtensions(regs: Regs, argv: seq<string>)
    ensures forall f :: f in Chosen(Order, DecodeFeatures(regs), CompileAll(argv))
                    <==> Detected(regs, f) || (|argv| == 2 && CString(argv[1]) == CompileAllFlag)
    ensures InTableOrder(Chosen(Order, DecodeFeatures(regs), CompileAll(argv)))
  {
    var feat, compileAll := DecodeFeatures(regs), CompileAll(argv);
    forall f
      ensures f in Chosen(Order, feat, compileAll) <==> Detected(regs, f) || compileAll
    {
      ChosenMembers(Order, feat, compileAll, f);
      assert f in Order by {
        match f
        case Avx512f => assert Order[0] == f;
        case Avx512Vnni => assert Order[1] == f;
        case Fma => assert Order[2] == f;
        case Avx => assert Order[3] == f;
        case Sse => assert Order[4] == f;
      }
    }
    ChosenKeepsOrder(Order, feat, compileAll);
  }

  /** Under --compile-all every extension of the table is chosen, whatever the mask. */
  lemma {:induction false} ChosenAll(fs: seq<Feature>, feat: bv32)
    ensures Chosen(fs, feat, true) == fs
    decreases |fs|
  {
    if fs != [] {
      ChosenAll(fs[..|fs| - 1], feat);
      assert fs == fs[..|fs| - 1] + [fs[|fs| - 1]];
    }
  }

  /** With an empty mask and no --compile-all nothing is chosen. */
  lemma {:induction false} ChosenNone(fs: seq<Feature>)
    ensures Chosen(fs, 0, false) == []
    decreases |fs|
  {
    if fs != [] {
      ChosenNone(fs[..|fs| - 1]);
    }
  }

  /** Over the whole table, the pieces come in the order AVX512F, AVX512_VNNI, FMA, AVX, SSE. */
  lemma JoinedTable(piece: Feature -> string)
    ensures Joined(Order, piece)
         == piece(Avx512f) + piece(Avx512Vnni) + piece(Fma) + piece(Avx) + piece(Sse)
  {
    var s1, s2, s3, s4 := [Avx512f], [Avx512f, Avx512Vnni], [Avx512f, Avx512Vnni, Fma], [Avx512f, Avx512Vnni, Fma, Avx];
    assert s1[..0] == [];
    assert s2[..1] == s1;
    assert s3[..2] == s2;
    assert s4[..3] == s3;
    assert Order[..4] == s4;
  }

  /** The full text under --compile-all: all five extensions, in table order. */
  lemma CompileAllOutput(feat: bv32, cFlags: string, asFlags: string)
    ensures Output(feat, true, cFlags, asFlags)
         == SmtlCmd(cFlags)
          + (AsmLine(Avx512f, asFlags) + AsmLine(Avx512Vnni, asFlags) + AsmLine(Fma, asFlags)
             + AsmLine(Avx, asFlags) + AsmLine(Sse, asFlags))
          + ("gcc " + cFlags + " -pthread "
             + (Macro(Avx512f) + Macro(Avx512Vnni) + Macro(Fma) + Macro(Avx) + Macro(Sse))
             + "-c lib/cpu_x86.c\n")
          + ("gcc " + cFlags + " -pthread -lrt smtl.o cpu_x86.o"
             + (LinkObject(Avx512f) + LinkObject(Avx512Vnni) + LinkObject(Fma)
                + LinkObject(Avx) + LinkObject(Sse))
             + "\n")
  {
    ChosenAll(Order, feat);
    JoinedTable(Macro);
    JoinedTable(f => AsmLine(f, asFlags));
    JoinedTable(LinkObject);
  }

  /** With nothing detected and no flag: no assembler line, no macro, only the two base objects linked. */
  lemma NoExtensionOutput(cFlags: string, asFlags: string)
    ensures Output(0, false, cFlags, asFlags)
         == "gcc " + cFlags + " -pthread -O3 -c lib/smtl.c\n"
          + "gcc " + cFlags + " -pthread -c lib/cpu_x86.c\n"
          + "gcc " + cFlags + " -pthread -lrt smtl.o cpu_x86.o\n"
  {
    ChosenNone(Order);
  }

  /** Number of newline characters in s. */
  function Newlines(s: string): nat
    decreases |s|
  {
    if s == [] then 0 else (if s[0] == '\n' then 1 else 0) + Newlines(s[1..])
  }

  lemma {:induction false} NewlinesAppend(a: string, b: string)
    ensures Newlines(a + b) == Newlines(a) + Newlines(b)
    decreases |a|
  {
    if a == [] {
      assert a + b == b;
    } else {
      NewlinesAppend(a[1..], b);
      assert (a + b)[0] == a[0];
      assert (a + b)[1..] == a[1..] + b;
    }
  }

  lemma {:induction false} NewlinesNone(s: string)
    requires '\n' !in s
    ensures Newlines(s) == 0
    decreases |s|
  {
    if s != [] {
      NewlinesNone(s[1..]);
    }
  }

  /** A text with no newline but a final one is a single line. */
  lemma OneLine(body: string)
    ensures '\n' !in body ==> Newlines(body + "\n") == 1
  {
    NewlinesAppend(body, "\n");
    if '\n' !in body {
      NewlinesNone(body);
    }
  }

  /** asm_cmd holds one line per chosen extension. */
  lemma {:induction false} AsmLinesCount(sel: seq<Feature>, asFlags: string)
    requires '\n' !in asFlags
    ensures Newlines(AsmLines(sel, asFlags)) == |sel|
    decreases |sel|
  {
    if sel != [] {
      var f := sel[|sel| - 1];
      AsmLinesCount(sel[..|sel| - 1], asFlags);
      NewlinesAppend(AsmLines(sel[..|sel| - 1], asFlags), AsmLine(f, asFlags));
      assert AsmLines(sel, asFlags) == AsmLines(sel[..|sel| - 1], asFlags) + AsmLine(f, asFlags);
    }
  }

  /** Macros and link objects never contain a newline. */
  lemma {:induction false} NoNewlineInLists(sel: seq<Feature>)
    ensures '\n' !in Macros(sel) && '\n' !in LinkObjects(sel)
    decreases |sel|
  {
    if sel != [] {
      NoNewlineInLists(sel[..|sel| - 1]);
    }
  }

  /** One more table row considered: the three texts grow by its pieces exactly when it is selected. */
  lemma ExtendChoice(prefix: seq<Feature>, f: Feature, feat: bv32, compileAll: bool, asFlags: string, lnkStart: string)
    ensures !Selected(feat, compileAll, f) ==> Chosen(prefix + [f], feat, compileAll) == Chosen(prefix, feat, compileAll)
    ensures Selected(feat, compileAll, f) ==>
      var before, after := Chosen(prefix, feat, compileAll), Chosen(prefix + [f], feat, compileAll);
      Macros(after) == Macros(before) + Macro(f)
      && AsmLines(after, asFlags) == AsmLines(before, asFlags) + AsmLine(f, asFlags)
      && lnkStart + LinkObjects(after) == (lnkStart + LinkObjects(before)) + LinkObject(f)
  {
    ChosenSnoc(prefix, f, feat, compileAll);
    var before := Chosen(prefix, feat, compileAll);
    if Selected(feat, compileAll, f) {
      JoinedSnoc(before, f, Macro);
      JoinedSnoc(before, f, g => AsmLine(g, asFlags));
      JoinedSnoc(before, f, LinkObject);
      AppendAssoc(lnkStart, LinkObjects(before), LinkObject(f));
    }
  }

  /**
   * The five `if (cpuid_x86_support(X) || compile_all)` blocks of the program,
   * taken in table order: each selected extension appends its macro to
   * isa_macro, its assembler line to asm_cmd and its object file to lnk_cmd.
   */
  method AppendExtensions(cpu: FeatureState, compileAll: bool, asFlags: string, lnkStart: string)
    returns (isaMacro: string, asmCmd: string, lnkCmd: string)
    ensures isaMacro == Macros(Chosen(Order, cpu.feat, compileAll))
    ensures asmCmd == AsmLines(Chosen(Order, cpu.feat, compileAll), asFlags)
    ensures lnkCmd == lnkStart + LinkObjects(Chosen(Order, cpu.feat, compileAll))
  {
    isaMacro, asmCmd, lnkCmd := "", "", lnkStart;
    var i := 0;
    while i < |Order|
      invariant 0 <= i <= |Order|
      invariant isaMacro == Macros(Chosen(Order[..i], cpu.feat, compileAll))
      invariant asmCmd == AsmLines(Chosen(Order[..i], cpu.feat, compileAll), asFlags)
      invariant lnkCmd == lnkStart + LinkObjects(Chosen(Order[..i], cpu.feat, compileAll))
    {
      var f := Order[i];
      assert Order[..i + 1] == Order[..i] + [f];
      ExtendChoice(Order[..i], f, cpu.feat, compileAll, asFlags, lnkStart);
      if cpu.Support(f) != 0 || compileAll {
        isaMacro := isaMacro + Macro(f);
        asmCmd := asmCmd + AsmLine(f, asFlags);
        lnkCmd := lnkCmd + LinkObject(f);
      }
      i := i + 1;
    }
    assert Order[..i] == Order;
  }

  /**
   * The program: probe the processor, read the flag and the environment,
   * build smtl_cmd, asm_cmd, c_cmd and lnk_cmd, and return their concatenation.
   */
  method Generate(regs: Regs, argv: seq<string>, cFlagsEnv: Option<string>, asFlagsEnv: Option<string>)
    returns (out: string)
    ensures out == Output(DecodeFeatures(regs), CompileAll(argv), OrEmpty(cFlagsEnv), OrEmpty(asFlagsEnv))
  {
    var cpu := new FeatureState();
    cpu.Init(regs);

    var compileAll := CompileAll(argv);
    var cFlags := OrEmpty(cFlagsEnv);
    var asFlags := OrEmpty(asFlagsEnv);

    var smtlCmd := "gcc " + cFlags + " -pthread -O3 -c lib/smtl.c\n";
    var cCmd := "gcc " + cFlags + " -pthread ";
    var isaMacro, asmCmd, lnkCmd := AppendExtensions(cpu, compileAll, asFlags, "gcc " + cFlags + " -pthread -lrt smtl.o cpu_x86.o");

    cCmd := cCmd + (isaMacro + "-c lib/cpu_x86.c\n");
    AppendAssoc("gcc " + cFlags + " -pthread ", isaMacro, "-c lib/cpu_x86.c\n");
    lnkCmd := lnkCmd + "\n";
    out := smtlCmd + asmCmd + cCmd + lnkCmd;
  }
}
