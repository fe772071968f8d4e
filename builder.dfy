/**
 * `JavaFile.Builder`: the mutable configuration the file is built from. It
 * keeps the registration map (one entry per key, whichever method made it)
 * and the static imports as a sorted set, and checks every argument.
 */
module Builders {
  import opened Wrappers
  import opened Strings
  import opened ImportPlanner
  import opened JavaFiles

  /** `className.canonicalName + "." + name`: one static import entry. */
  function StaticSignature(className: ClassName, name: string): string
  {
    className.canonicalName + "." + name
  }

  /** The index of the first null entry of `names`, or `|names|` when there is none. */
  function FirstNull(names: seq<Option<string>>): (k: nat)
    ensures k <= |names|
    ensures forall j :: 0 <= j < k ==> names[j].Some?
    ensures k < |names| ==> names[k].None?
  {
    if names == [] then 0
    else if names[0].None? then 0
    else 1 + FirstNull(names[1..])
  }

  /** `Arrays.toString(names)`. */
  function ArrayToString(names: seq<Option<string>>): string
  {
    "[" + Join(seq(|names|, i requires 0 <= i < |names| => if names[i].Some? then names[i].value else "null"), ", ") + "]"
  }

  /** Whether `s` is the static entry of one of the first `k` names. */
  predicate SignatureAmong(className: ClassName, names: seq<Option<string>>, k: nat, s: string)
    requires k <= |names|
  {
    exists j :: 0 <= j < k && names[j].Some? && s == StaticSignature(className, names[j].value)
  }

  /**
   * `toBuilder()`: what a builder made from `f` builds straight away. It keeps
   * the comment, the skip flag and the indent, and starts over with no static
   * imports, no registrations and the default global setting.
   */
  function ToBuilderView(f: JavaFile): JavaFile
  {
    JavaFile(f.fileComment, f.packageName, f.typeSpec, f.skipJavaLangImports, [], map[], f.indent, WILDCARD_REPLACE_NONE)
  }

  /**
   * Rebuilding a file through `toBuilder()` gives it back exactly when it has
   * no static imports, no registrations and the default global setting.
   */
  lemma ToBuilderRoundTrip(f: JavaFile)
    ensures ToBuilderView(f) == f <==>
            f.staticImports == [] && f.imports == map[] && f.wildcardReplace == WILDCARD_REPLACE_NONE
  {
  }

  class Builder {
    const packageName: string
    const typeSpec: TypeSpec
    var fileComment: string
    var staticImports: seq<string>
    var imports: map<string, ImportDefinition>
    var skipJavaLangImports: bool
    var wildcardReplace: int
    var indent: string

    ghost predicate Valid()
      reads this
    {
      StrictlySorted(staticImports) && ValidRegistrations(imports)
    }

    constructor (packageName: string, typeSpec: TypeSpec)
      ensures Valid()
      ensures this.packageName == packageName && this.typeSpec == typeSpec
      ensures fileComment == "" && staticImports == [] && imports == map[]
      ensures !skipJavaLangImports && wildcardReplace == WILDCARD_REPLACE_NONE && indent == "  "
    {
      this.packageName := packageName;
      this.typeSpec := typeSpec;
      fileComment := "";
      staticImports := [];
      imports := map[];
      skipJavaLangImports := false;
      wildcardReplace := WILDCARD_REPLACE_NONE;
      indent := "  ";
    }

    /** `toBuilder()`. */
    constructor FromFile(f: JavaFile)
      ensures Valid()
      ensures Build() == ToBuilderView(f)
    {
      packageName := f.packageName;
      typeSpec := f.typeSpec;
      fileComment := "";
      staticImports := [];
      imports := map[];
      skipJavaLangImports := false;
      wildcardReplace := WILDCARD_REPLACE_NONE;
      indent := "  ";
      new;
      fileComment := fileComment + f.fileComment;
      skipJavaLangImports := f.skipJavaLangImports;
      indent := f.indent;
    }

    /**
     * `addFileComment`, with the formatted text given (the formatting is the
     * code block's). The text is appended with no line break before it.
     */
    method AddFileComment(text: string)
      requires Valid()
      modifies this`fileComment
      ensures Valid()
      ensures fileComment == old(fileComment) + text
    {
      fileComment := fileComment + text;
    }

    /**
     * `addStaticImport(className, names...)`: adds `canonicalName.name` for
     * each name, in turn; a null entry stops the loop with the entries before
     * it already added.
     */
    method AddStaticImport(className: Option<ClassName>, names: Option<seq<Option<string>>>)
      returns (r: Outcome<JavaException>)
      requires Valid()
      modifies this`staticImports
      ensures Valid()
      ensures className.None? ==>
                r == Fail(IllegalArgument("className == null")) && staticImports == old(staticImports)
      ensures className.Some? && names.None? ==>
                r == Fail(IllegalArgument("names == null")) && staticImports == old(staticImports)
      ensures className.Some? && names == Some([]) ==>
                r == Fail(IllegalArgument("names array is empty")) && staticImports == old(staticImports)
      ensures className.Some? && names.Some? && names.value != [] ==>
                var k := FirstNull(names.value);
                && (r == if k == |names.value| then Pass
                         else Fail(IllegalArgument("null entry in names array: " + ArrayToString(names.value))))
                && forall s :: s in staticImports <==>
                                 s in old(staticImports) || SignatureAmong(className.value, names.value, k, s)
    {
      if className.None? {
        return Fail(IllegalArgument("className == null"));
      }
      if names.None? {
        return Fail(IllegalArgument("names == null"));
      }
      if |names.value| == 0 {
        return Fail(IllegalArgument("names array is empty"));
      }
      var c, ns := className.value, names.value;
      var i := 0;
      while i < |ns|
        invariant 0 <= i <= |ns|
        invariant forall j :: 0 <= j < i ==> ns[j].Some?
        invariant Valid()
        invariant forall s :: s in staticImports <==> s in old(staticImports) || SignatureAmong(c, ns, i, s)
      {
        if ns[i].None? {
          assert FirstNull(ns) == i by { FirstNullAt(ns, i); }
          return Fail(IllegalArgument("null entry in names array: " + ArrayToString(ns)));
        }
        staticImports := Insert(staticImports, StaticSignature(c, ns[i].value));
        i := i + 1;
      }
      FirstNullAt(ns, i);
      return Pass;
    }

    /**
     * `addImport(importName)`: registers `importName` with threshold 0, so
     * never as a wildcard hint; a null or empty name or a key already
     * registered (by either method) is rejected and the map left as it was.
     */
    method AddImport(importName: Option<string>) returns (r: Outcome<JavaException>)
      requires Valid()
      modifies this`imports
      ensures Valid()
      ensures importName.None? ==> r == Fail(IllegalArgument("importName == null")) && imports == old(imports)
      ensures importName == Some("") ==> r == Fail(IllegalArgument("importName is empty")) && imports == old(imports)
      ensures importName.Some? && importName.value != "" && importName.value in old(imports) ==>
                r == Fail(IllegalArgument("Duplicate import " + importName.value)) && imports == old(imports)
      ensures importName.Some? && importName.value != "" && importName.value !in old(imports) ==>
                && r == Pass
                && imports == old(imports)[importName.value := ImportDefinition(importName.value, WILDCARD_REPLACE_ALWAYS)]
                && !imports[importName.value].IsImportWildcardHint()
    {
      if importName.None? {
        return Fail(IllegalArgument("importName == null"));
      }
      if importName.value == "" {
        return Fail(IllegalArgument("importName is empty"));
      }
      if importName.value in imports {
        return Fail(IllegalArgument("Duplicate import " + importName.value));
      }
      var definition := NewImportDefinition(importName, WILDCARD_REPLACE_ALWAYS);
      imports := imports[importName.value := definition.value];
      return Pass;
    }

    /**
     * `addImportWildcardHint(importName, wildcardReplace)`: registers a hint
     * with a threshold of at least 1; a null or empty name, a threshold below
     * 1 or a key already registered is rejected and the map left as it was.
     */
    method AddImportWildcardHint(importName: Option<string>, wildcardReplace: int) returns (r: Outcome<JavaException>)
      requires Valid()
      modifies this`imports
      ensures Valid()
      ensures importName.None? ==> r == Fail(IllegalArgument("importName == null")) && imports == old(imports)
      ensures importName == Some("") ==> r == Fail(IllegalArgument("importName is empty")) && imports == old(imports)
      ensures importName.Some? && importName.value != "" && wildcardReplace < 1 ==>
                r == Fail(IllegalArgument("wildcardReplace < 1")) && imports == old(imports)
      ensures importName.Some? && importName.value != "" && wildcardReplace >= 1 && importName.value in old(imports) ==>
                r == Fail(IllegalArgument("Duplicate import " + importName.value)) && imports == old(imports)
      ensures importName.Some? && importName.value != "" && wildcardReplace >= 1 && importName.value !in old(imports) ==>
                && r == Pass
                && imports == old(imports)[importName.value := ImportDefinition(importName.value, wildcardReplace)]
                && imports[importName.value].IsImportWildcardHint()
    {
      if importName.None? {
        return Fail(IllegalArgument("importName == null"));
      }
      if importName.value == "" {
        return Fail(IllegalArgument("importName is empty"));
      }
      if wildcardReplace < 1 {
        return Fail(IllegalArgument("wildcardReplace < 1"));
      }
      if importName.value in imports {
        return Fail(IllegalArgument("Duplicate import " + importName.value));
      }
      var definition := NewImportDefinition(importName, wildcardReplace);
      imports := imports[importName.value := definition.value];
      return Pass;
    }

    method SkipJavaLangImports(skipJavaLangImports: bool)
      requires Valid()
      modifies this`skipJavaLangImports
      ensures Valid()
      ensures this.skipJavaLangImports == skipJavaLangImports
    {
      this.skipJavaLangImports := skipJavaLangImports;
    }

    /** `packageWildcardReplace`: any value is taken; -1 means none, and 0 or below means always. */
    method PackageWildcardReplace(wildcardReplace: int)
      requires Valid()
      modifies this`wildcardReplace
      ensures Valid()
      ensures this.wildcardReplace == wildcardReplace
    {
      this.wildcardReplace := wildcardReplace;
    }

    method Indent(indent: string)
      requires Valid()
      modifies this`indent
      ensures Valid()
      ensures this.indent == indent
    {
      this.indent := indent;
    }

    /** `build()`: the file, whose registrations and static imports meet what the planner relies on. */
    function Build(): (f: JavaFile)
      reads this
      requires Valid()
      ensures WellFormedFile(f)
      ensures f.packageName == packageName && f.typeSpec == typeSpec && f.fileComment == fileComment
      ensures f.staticImports == staticImports && f.imports == imports
      ensures f.skipJavaLangImports == skipJavaLangImports && f.wildcardReplace == wildcardReplace && f.indent == indent
    {
      JavaFile(fileComment, packageName, typeSpec, skipJavaLangImports, staticImports, imports, indent, wildcardReplace)
    }
  }

  lemma {:induction false} FirstNullAt(names: seq<Option<string>>, i: nat)
    requires i <= |names|
    requires forall j :: 0 <= j < i ==> names[j].Some?
    requires i == |names| || names[i].None?
    ensures FirstNull(names) == i
  {
    if i > 0 {
      FirstNullAt(names[1..], i - 1);
    }
  }

  /** `JavaFile.builder(packageName, typeSpec)`: both arguments must be non-null. */
  method NewBuilder(packageName: Option<string>, typeSpec: Option<TypeSpec>) returns (r: Result<Builder, JavaException>)
    ensures packageName.None? ==> r == Failure(NullPointer("packageName == null"))
    ensures packageName.Some? && typeSpec.None? ==> r == Failure(NullPointer("typeSpec == null"))
    ensures packageName.Some? && typeSpec.Some? ==>
              && r.Success? && fresh(r.value) && r.value.Valid()
              && r.value.Build() == JavaFile([], packageName.value, typeSpec.value, false, [], map[], "  ", WILDCARD_REPLACE_NONE)
  {
    if packageName.None? {
      return Failure(NullPointer("packageName == null"));
    }
    if typeSpec.None? {
      return Failure(NullPointer("typeSpec == null"));
    }
    var b := new Builder(packageName.value, typeSpec.value);
    return Success(b);
  }

  /**
   * A key registered once cannot be registered again, by either method:
   * `addImport("demo.b")` then `addImportWildcardHint("demo.b", 2)` fails.
   */
  method DuplicateRegistrationRejected() returns (first: Outcome<JavaException>, second: Outcome<JavaException>)
    ensures first == Pass
    ensures second == Fail(IllegalArgument("Duplicate import demo.b"))
  {
    var b := new Builder("demo", TypeSpec("Main"));
    first := b.AddImport(Some("demo.b"));
    assert "demo.b" in b.imports;
    assert "Duplicate import " + "demo.b" == "Duplicate import demo.b";
    second := b.AddImportWildcardHint(Some("demo.b"), 2);
  }
}
