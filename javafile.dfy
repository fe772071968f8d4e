/**
 * A built `JavaFile`: the frozen builder settings, the header `emit` writes in
 * front of the type's body, and the names under which `writeTo(Path)`,
 * `writeTo(Filer)` and `toJavaFileObject` store the file.
 */
module JavaFiles {
  import opened Wrappers
  import opened Strings
  import opened Sequences
  import opened ImportPlanner

  /** What the file reads of its `TypeSpec`: the simple name of the top-level type. */
  datatype TypeSpec = TypeSpec(name: string)

  /**
   * The fields of a `JavaFile`. `fileComment` is the text of the comment's code
   * block, which each `addFileComment` extends with no line break in between;
   * `staticImports` is the builder's `TreeSet`, in its order.
   */
  datatype JavaFile = JavaFile(
    fileComment: string,
    packageName: string,
    typeSpec: TypeSpec,
    skipJavaLangImports: bool,
    staticImports: seq<string>,
    imports: map<string, ImportDefinition>,
    indent: string,
    wildcardReplace: int)

  /** What every file the builder makes satisfies. */
  predicate WellFormedFile(f: JavaFile)
  {
    StrictlySorted(f.staticImports) && ValidRegistrations(f.imports)
  }

  function ImportLine(name: string): string
  {
    "import " + name + ";"
  }

  function StaticImportLine(signature: string): string
  {
    "import static " + signature + ";"
  }

  function ImportLines(names: seq<string>): (lines: seq<string>)
    ensures |lines| == |names|
    ensures forall i :: 0 <= i < |names| ==> lines[i] == ImportLine(names[i])
  {
    seq(|names|, i requires 0 <= i < |names| => ImportLine(names[i]))
  }

  function StaticImportLines(signatures: seq<string>): (lines: seq<string>)
    ensures |lines| == |signatures|
    ensures forall i :: 0 <= i < |signatures| ==> lines[i] == StaticImportLine(signatures[i])
  {
    seq(|signatures|, i requires 0 <= i < |signatures| => StaticImportLine(signatures[i]))
  }

  lemma StaticImportLinesStep(signatures: seq<string>, i: nat)
    requires i < |signatures|
    ensures StaticImportLines(signatures[..i + 1]) == StaticImportLines(signatures[..i]) + [StaticImportLine(signatures[i])]
  {
    var longer, shorter := StaticImportLines(signatures[..i + 1]), StaticImportLines(signatures[..i]);
    assert forall k :: 0 <= k < i ==> longer[k] == shorter[k];
  }

  /**
   * `emitComment` on the comment text: each line of the text, `//` before it
   * (`// ` when the line is not empty).
   */
  function CommentLines(text: string): (lines: seq<string>)
    ensures var parts := Split(text, '\n');
      && |lines| == |parts|
      && forall i :: 0 <= i < |lines| ==> lines[i] == if parts[i] == "" then "//" else "// " + parts[i]
  {
    var parts := Split(text, '\n');
    seq(|parts|, i requires 0 <= i < |parts| => if parts[i] == "" then "//" else "// " + parts[i])
  }

  /** A comment line without its `//` marker and the space after it. */
  function Uncomment(line: string): string
  {
    if |line| <= 3 then "" else line[3..]
  }

  /** `Uncomment` on every line. */
  function Uncommented(lines: seq<string>): (texts: seq<string>)
    ensures |texts| == |lines| && forall i :: 0 <= i < |lines| ==> texts[i] == Uncomment(lines[i])
  {
    if lines == [] then [] else [Uncomment(lines[0])] + Uncommented(lines[1..])
  }

  /** Stripping the markers and joining with line breaks gives the comment text back. */
  lemma CommentLinesRoundTrip(text: string)
    ensures Join(Uncommented(CommentLines(text)), "\n") == text
  {
    var parts := Split(text, '\n');
    var lines := CommentLines(text);
    var stripped := Uncommented(lines);
    forall i | 0 <= i < |parts| ensures stripped[i] == parts[i] {
      if parts[i] != "" {
        assert lines[i] == "// " + parts[i];
        assert lines[i][3..] == parts[i];
      }
    }
    assert stripped == parts;
    JoinSplit(text, '\n');
  }

  /**
   * Two comment texts given one after the other share a line: the last line of
   * the first and the first line of the second are written as one line.
   */
  lemma CommentTextsShareLine(a: string, b: string)
    ensures |CommentLines(a + b)| + 1 == |CommentLines(a)| + |CommentLines(b)|
    ensures '\n' !in a && '\n' !in b && a + b != "" ==> CommentLines(a + b) == ["// " + a + b]
  {
    SplitConcat(a, b, '\n');
    if '\n' !in a && '\n' !in b {
      SplitWithoutSeparator(a, '\n');
      SplitWithoutSeparator(b, '\n');
      SplitWithoutSeparator(a + b, '\n');
      if a + b != "" {
        assert "// " + (a + b) == "// " + a + b;
      }
    }
  }

  /** The comment block: nothing when the comment is empty. */
  function CommentBlock(text: string): seq<string>
  {
    if text == "" then [] else CommentLines(text)
  }

  /** The comment, the package clause and the static imports, each block followed by a blank line. */
  function HeaderPrefix(f: JavaFile): seq<string>
  {
    CommentBlock(f.fileComment)
    + (if f.packageName == "" then [] else ["package " + f.packageName + ";", ""])
    + (if f.staticImports == [] then [] else StaticImportLines(f.staticImports) + [""])
  }

  /**
   * The text `emit` writes before the type's body, one string per line ("" is
   * a blank line): the prefix, the planned import lines, and one blank line
   * when at least one import was written.
   */
  function Header(f: JavaFile, types: seq<ClassName>, order: seq<string>): seq<string>
    requires EnumeratesKeys(order, f.imports)
  {
    var plan := Plan(types, f.imports, order, f.wildcardReplace, f.skipJavaLangImports);
    HeaderPrefix(f) + ImportLines(plan) + (if |plan| > 0 then [""] else [])
  }

  /** The first part of `emit`: the comment, the package clause and the static imports. */
  method EmitPrefix(f: JavaFile) returns (out: seq<string>)
    ensures out == HeaderPrefix(f)
  {
    out := [];
    if f.fileComment != "" {
      out := out + CommentLines(f.fileComment);
    }
    if f.packageName != "" {
      out := out + ["package " + f.packageName + ";"];
      out := out + [""];
    }
    if f.staticImports != [] {
      var statics := [];
      for i := 0 to |f.staticImports|
        invariant statics == StaticImportLines(f.staticImports[..i])
      {
        StaticImportLinesStep(f.staticImports, i);
        statics := statics + ["import static " + f.staticImports[i] + ";"];
      }
      assert f.staticImports[..|f.staticImports|] == f.staticImports;
      out := out + statics + [""];
    }
  }

  /**
   * The header part of `emit`. `types` stands for the code writer's imported
   * types in `TreeSet` order; `order` is the registration map's iteration order.
   */
  method EmitHeader(f: JavaFile, types: seq<ClassName>, order: seq<string>) returns (out: seq<string>)
    requires EnumeratesKeys(order, f.imports)
    ensures out == Header(f, types, order)
  {
    out := EmitPrefix(f);
    var counts := CountPackages(types, f.skipJavaLangImports);
    var lines, processedPackages, importedTypesCount :=
      ChooseTypeImports(types, counts, f.imports, f.wildcardReplace, f.skipJavaLangImports);
    var leftovers;
    leftovers, importedTypesCount := AddLeftoverImports(order, f.imports, processedPackages, lines, importedTypesCount);
    out := out + ImportLines(lines + leftovers);
    if importedTypesCount > 0 {
      out := out + [""];
    }
  }

  lemma ImportLineInjective(a: string, b: string)
    requires ImportLine(a) == ImportLine(b)
    ensures a == b
  {
    assert a == ImportLine(a)[7..|ImportLine(a)| - 1];
    assert b == ImportLine(b)[7..|ImportLine(b)| - 1];
  }

  /**
   * In the header, the import lines follow the prefix, none of them is
   * written twice, and the blank line after them is there exactly when some
   * referenced type is not skipped or some registration is not a wildcard hint.
   */
  lemma HeaderImportBlock(f: JavaFile, types: seq<ClassName>, order: seq<string>)
    requires WellFormedFile(f) && EnumeratesKeys(order, f.imports)
    ensures var h := Header(f, types, order);
      var plan := Plan(types, f.imports, order, f.wildcardReplace, f.skipJavaLangImports);
      var k := |HeaderPrefix(f)|;
      && h[..k] == HeaderPrefix(f)
      && h[k..k + |plan|] == ImportLines(plan)
      && NoDuplicates(h[k..k + |plan|])
      && (|h| == k + |plan| + 1 <==>
            (exists c :: c in types && !Skipped(c, f.skipJavaLangImports)) ||
            (exists r :: r in f.imports && !f.imports[r].IsImportWildcardHint()))
  {
    var plan := Plan(types, f.imports, order, f.wildcardReplace, f.skipJavaLangImports);
    var h := Header(f, types, order);
    var k := |HeaderPrefix(f)|;
    assert h[..k] == HeaderPrefix(f);
    assert h[k..k + |plan|] == ImportLines(plan);
    PlanNoDuplicates(types, f.imports, order, f.wildcardReplace, f.skipJavaLangImports);
    PlanEmptyIff(types, f.imports, order, f.wildcardReplace, f.skipJavaLangImports);
    var lines := ImportLines(plan);
    forall i, j | 0 <= i < j < |lines| ensures lines[i] != lines[j] {
      if lines[i] == lines[j] {
        ImportLineInjective(plan[i], plan[j]);
      }
    }
  }

  /**
   * Static imports are written one line each, in ascending order of their
   * signatures, never merged and never repeated.
   */
  lemma StaticImportsListedSingly(f: JavaFile)
    requires WellFormedFile(f) && f.staticImports != []
    ensures var pre := CommentBlock(f.fileComment) + (if f.packageName == "" then [] else ["package " + f.packageName + ";", ""]);
      var block := HeaderPrefix(f)[|pre|..|pre| + |f.staticImports|];
      && |block| == |f.staticImports|
      && (forall i :: 0 <= i < |block| ==> block[i] == StaticImportLine(f.staticImports[i]))
      && (forall i, j :: 0 <= i < j < |block| ==> Less(f.staticImports[i], f.staticImports[j]) && block[i] != block[j])
  {
    var pre := CommentBlock(f.fileComment) + (if f.packageName == "" then [] else ["package " + f.packageName + ";", ""]);
    var block := HeaderPrefix(f)[|pre|..|pre| + |f.staticImports|];
    assert block == StaticImportLines(f.staticImports);
    forall i, j | 0 <= i < j < |block| ensures block[i] != block[j] {
      var si, sj := f.staticImports[i], f.staticImports[j];
      LessIrreflexive(si);
      assert si == block[i][14..|block[i]| - 1];
      assert sj == block[j][14..|block[j]| - 1];
    }
  }

  // ---------------------------------------------------------------------------
  // Where the file goes
  // ---------------------------------------------------------------------------

  /** What the file system says about the target directory path. */
  datatype PathState = Missing | Directory | OtherFile

  /** The package's components, one directory each; none for the default package. */
  function PackageDirectories(packageName: string): seq<string>
  {
    if packageName == "" then [] else Split(packageName, '.')
  }

  /**
   * `writeTo(Path)`: check the target, resolve one directory per package
   * component, then the file `Name.java`. Paths are sequences of components;
   * creating the directories and writing the file are left to the caller.
   */
  method OutputPath(f: JavaFile, directory: seq<string>, state: PathState) returns (r: Result<seq<string>, JavaException>)
    ensures r.Failure? <==> state == OtherFile
    ensures r.Failure? ==> r.error == IllegalArgument("path " + Join(directory, "/") + " exists but is not a directory.")
    ensures r.Success? ==> r.value == directory + PackageDirectories(f.packageName) + [f.typeSpec.name + ".java"]
    ensures r.Success? ==> r.value[..|directory|] == directory && Join(r.value[|directory|..], "/") == SourceUri(f)
  {
    if !(state == Missing || state == Directory) {
      return Failure(IllegalArgument("path " + Join(directory, "/") + " exists but is not a directory."));
    }
    var outputDirectory := directory;
    if f.packageName != "" {
      var components := Split(f.packageName, '.');
      for i := 0 to |components|
        invariant outputDirectory == directory + components[..i]
      {
        outputDirectory := outputDirectory + [components[i]];
      }
      assert components[..|components|] == components;
    }
    var outputPath := outputDirectory + [f.typeSpec.name + ".java"];
    assert outputPath[|directory|..] == PackageDirectories(f.packageName) + [f.typeSpec.name + ".java"];
    return Success(outputPath);
  }

  /**
   * `writeTo(Filer)`: the qualified name handed to `createSourceFile`, which is
   * the package components and the type name joined with `.`.
   */
  function FilerFileName(f: JavaFile): (name: string)
    ensures name == Join(PackageDirectories(f.packageName) + [f.typeSpec.name], ".")
  {
    if f.packageName == "" then f.typeSpec.name
    else
      JoinAppend(Split(f.packageName, '.'), f.typeSpec.name, ".");
      JoinSplit(f.packageName, '.');
      f.packageName + "." + f.typeSpec.name
  }

  /**
   * `toJavaFileObject`: the path of the source URI, which is the directory
   * components `writeTo(Path)` resolves and `Name.java` joined with `/`.
   */
  function SourceUri(f: JavaFile): (uri: string)
    ensures uri == Join(PackageDirectories(f.packageName) + [f.typeSpec.name + ".java"], "/")
  {
    if f.packageName == "" then f.typeSpec.name + ".java"
    else
      JoinAppend(Split(f.packageName, '.'), f.typeSpec.name + ".java", "/");
      JoinSplitIsReplace(f.packageName, '.', '/');
      Replace(f.packageName, '.', '/') + "/" + f.typeSpec.name + ".java"
  }

  /** For a type name without dots, the URI path is the Filer name with `.` turned into `/`, plus `.java`. */
  lemma SourceUriFromFilerName(f: JavaFile)
    requires '.' !in f.typeSpec.name
    ensures SourceUri(f) == Replace(FilerFileName(f), '.', '/') + ".java"
  {
    var name := f.typeSpec.name;
    ReplaceAbsent(name, '.', '/');
    if f.packageName != "" {
      var dotted := f.packageName + ".";
      ReplaceConcat(f.packageName, ".", '.', '/');
      ReplaceConcat(dotted, name, '.', '/');
      assert Replace(".", '.', '/') == "/";
    }
  }
}
