# JavaPoet `JavaFile`: the import planner and the file builder

This project models the core of JavaPoet's `JavaFile` in Dafny:

- the header that `emit` writes before the type's body. That is the file
  comment, the `package` clause, the static imports, and the import block
  chosen by the three-step import planner, followed by the blank line;
- the `JavaFile.Builder` that collects the file's settings. `addImport` and
  `addImportWildcardHint` reject null, empty and duplicate names.
  `addStaticImport` rejects a null class, a null or empty names array and a
  null entry. A repeated static import is absorbed by the sorted set;
- `ImportDefinition`, one registration and its wildcard threshold;
- the three names a file is stored under: the directory path of
  `writeTo(Path)`, the qualified name given to the `Filer`, and the URI of
  `toJavaFileObject`.

Modules:

| module | file | contents |
|---|---|---|
| `Wrappers` | wrappers.dfy | `Option`, which stands for Java `null`; `Result` and `Outcome`; the exception kinds. |
| `Strings` | strings.dfy | The order of `String.compareTo`; `TreeSet<String>` as a strictly sorted sequence; split, join and character replace. |
| `Sequences` | sequences.dfy | Sequences without repeats; `Dedup`, the "write unless already written" filter. |
| `ImportPlanner` | planner.dfy | Steps 1–3 of the import block. Each step is a method with a loop, proved against a specification function. Lemmas state what the plan promises. |
| `JavaFiles` | javafile.dfy | The built `JavaFile` value; header emission; the storage names. |
| `Builders` | builder.dfy | The `Builder` class, whose methods update its fields in place; `JavaFile.builder`; `toBuilder`. |

How the planner decides:

- **Step 1** counts the distinct referenced types per package. When
  `skipJavaLangImports` is set, `java.lang` types are skipped.
- **Step 2** chooses a line for each referenced type, in `TreeSet` order.
  The line is `pkg.*` or the canonical name. A line is written only if it
  was not written before.
- **Step 3** adds every registration that is not a wildcard hint and whose
  string step 2 has not written.
- A blank line follows the block when at least one import line was written.

The decision rule follows the code:

- **Registered package.** The line is `pkg.*` when the count reaches the
  registration's threshold, or when it reaches the global `wildcardReplace`.
  The global value is compared even when it is the default -1, which means
  "none". So under the default setting, every referenced package that has a
  registration gets its wildcard line, whatever the registration's own
  threshold. `ImportPlanner.DefaultSettingRegisteredPackageIsWildcard` states
  this.
- **Unregistered package.** The global setting applies only when it is not -1.

One place in the code reads differently from the name of the default. The
name `WILDCARD_REPLACE_NONE` (-1) suggests "no global threshold", and the
unregistered branch tests `wildcardReplace != WILDCARD_REPLACE_NONE` before it
compares (JavaFile.java:201). The registered branch compares with the global
value even when it is -1 (JavaFile.java:194-195). The comment on the constant
(JavaFile.java:49) says the contrary: when it is set, any package is replaced
by its wildcard form, which is what the registered branch does. The model
follows the code.

The code also has a consequence worth stating. `addImport(p)` stores
threshold 0, and step 3 compares registration strings with written lines, not
with package names. So a referenced package `p` that was registered with
`addImport` gets both `import p.*;` and `import p;`.
`ImportPlanner.RegisteredPackageKeepsStandaloneLine` states this.

Inputs that stand for code outside this core:

- **The referenced types.** The code writer's first pass collects them; here
  they are a parameter of type `seq<ClassName>`. The header is defined for
  any sequence of types. The lemmas that rely on distinct types require
  `TreeSet` order: strictly ascending canonical names. Each `ClassName` is
  reduced to its package name and its canonical name.
- **The registration map's iteration order.** Java `HashMap` order is a
  parameter `order` that lists each key once. The lemmas hold for every
  such order.
- **Emitted text.** It is a sequence of lines without the trailing newline;
  `""` is a blank line.
- **Paths.** A path is a sequence of components. The state of the target
  directory is a parameter: missing, a directory, or some other file.

## Model

| member | source | states |
|---|---|---|
| `ImportPlanner.NewImportDefinition` | src/main/java/com/squareup/javapoet/JavaFile.java:426-444 | A definition is made exactly when the name is non-null and non-empty and the threshold is at least 0. It stores the given name and threshold. It is a wildcard hint exactly when the threshold is at least 1. A null name, an empty name and a negative threshold each fail with their own message, checked in that order. |
| `ImportPlanner.PackageCounts` | src/main/java/com/squareup/javapoet/JavaFile.java:172-183 | Every package of a referenced type that is not skipped has a count, so the lookup at line 190 always finds one. |
| `ImportPlanner.CountPackages` | src/main/java/com/squareup/javapoet/JavaFile.java:169-183 | The step-1 loop builds exactly the per-package count map. |
| `ImportPlanner.ChooseImportName` | src/main/java/com/squareup/javapoet/JavaFile.java:190-211 | The nested choice picks the line that `ImportPlanner.WildcardRule` characterizes. |
| `ImportPlanner.ChooseTypeImports` | src/main/java/com/squareup/javapoet/JavaFile.java:184-217 | The step-2 loop writes exactly the chosen lines, with repeats dropped. The processed set holds exactly the written lines. The counter equals the number of lines. |
| `ImportPlanner.AddLeftoverImports` | src/main/java/com/squareup/javapoet/JavaFile.java:218-225 | The step-3 loop writes exactly the non-hint registrations that step 2 did not write, in map order. The counter grows by their number. |
| `ImportPlanner.CountIsDistinctTypes` | src/main/java/com/squareup/javapoet/JavaFile.java:172-183 | A package is counted iff some non-skipped referenced type lies in it. When skipping is on, `java.lang` is never counted. The count is the number of distinct referenced types of the package. |
| `ImportPlanner.OccurrencesCountsDistinct` | src/main/java/com/squareup/javapoet/JavaFile.java:173-182 | For types in `TreeSet` order, counting a package's entries gives the number of distinct types in that package. |
| `ImportPlanner.WildcardRule` | src/main/java/com/squareup/javapoet/JavaFile.java:190-211 | A type's line is `pkg.*` iff either its package is registered and the count reaches the registration's threshold or the global setting, or the package is unregistered, the setting is not -1 and the count reaches it. Otherwise the line is the canonical name. |
| `ImportPlanner.CandidatesMembership` | src/main/java/com/squareup/javapoet/JavaFile.java:186-211 | A candidate line is exactly the line chosen for some non-skipped referenced type. |
| `ImportPlanner.TypeImportsMembership` | src/main/java/com/squareup/javapoet/JavaFile.java:186-217 | Step 2 writes a line iff it is the line chosen for some non-skipped referenced type. |
| `ImportPlanner.TypeImportsOrder` | src/main/java/com/squareup/javapoet/JavaFile.java:186-217 | Step 2 writes no line twice. Its lines appear in the order in which the types, in `TreeSet` order, first produced them. |
| `ImportPlanner.PackageImportForm` | src/main/java/com/squareup/javapoet/JavaFile.java:186-217 | Every type of a package gets the same decision. A wildcard package gets its `pkg.*` line and no explicit line. An explicit package gets each type's canonical line and no `pkg.*`. |
| `ImportPlanner.DefaultSettingRegisteredPackageIsWildcard` | src/main/java/com/squareup/javapoet/JavaFile.java:193-199 | With the global setting at -1, a referenced package that has a registration always gets `pkg.*`, whatever its threshold. |
| `ImportPlanner.AlwaysSettingAllWildcard` | src/main/java/com/squareup/javapoet/JavaFile.java:190-211 | With a global setting of at most 0 (and not -1), step 2 writes exactly the `pkg.*` line of every non-skipped referenced package. |
| `ImportPlanner.LeftoversMembership` | src/main/java/com/squareup/javapoet/JavaFile.java:219-225 | A registration string is a step-3 line iff its registration is not a hint and the string was not written by step 2. |
| `ImportPlanner.LeftoverRule` | src/main/java/com/squareup/javapoet/JavaFile.java:219-225 | The same rule holds for any iteration order of the map, and step 3's lines are pairwise distinct. |
| `ImportPlanner.LeftoversDistinct` | src/main/java/com/squareup/javapoet/JavaFile.java:219-225 | Step 3 never writes a registration string twice. |
| `ImportPlanner.PlanNoDuplicates` | src/main/java/com/squareup/javapoet/JavaFile.java:169-225 | The whole import block has no line twice. |
| `ImportPlanner.RegisteredPackageKeepsStandaloneLine` | src/main/java/com/squareup/javapoet/JavaFile.java:193-225 | For a referenced package registered with `addImport`, the plan holds both `pkg.*` and the bare package string. |
| `ImportPlanner.PlanEmptyIff` | src/main/java/com/squareup/javapoet/JavaFile.java:219-229 | The plan is non-empty, so the blank line is written, iff some referenced type is not skipped or some registration is not a hint. |
| `ImportPlanner.SkippedJavaLangHasNoLines` | src/main/java/com/squareup/javapoet/JavaFile.java:186-189 | With skipping on, step 2 writes neither `java.lang.*` nor the canonical name of any referenced `java.lang` type. |
| `ImportPlanner.ExampleThresholdMet` | src/main/java/com/squareup/javapoet/JavaFile.java:186-217 | Three types of `demo.a` with a global setting of 3 give exactly `["demo.a.*"]`. |
| `ImportPlanner.ExampleThresholdMissed` | src/main/java/com/squareup/javapoet/JavaFile.java:186-217 | The same types with a setting of 4 give their three canonical names, in name order. |
| `ImportPlanner.ExampleCounts` | src/main/java/com/squareup/javapoet/JavaFile.java:172-183 | Those three types count 3 for `demo.a`. |
| `ImportPlanner.ExampleHintThreshold` | src/main/java/com/squareup/javapoet/JavaFile.java:193-225 | A hint with threshold 1 and one reference, with no global setting, gives only `demo.b.*`. The hint gets no line of its own. |
| `Sequences.Dedup` | src/main/java/com/squareup/javapoet/JavaFile.java:212-216 | The filtered lines hold exactly the candidate lines. |
| `Sequences.DedupNoDuplicates` | src/main/java/com/squareup/javapoet/JavaFile.java:212-216 | The filtered lines have no repeats. |
| `Sequences.DedupFirstOccurrenceOrder` | src/main/java/com/squareup/javapoet/JavaFile.java:212-216 | The filtered lines keep the order of their first occurrence among the candidates. |
| `Strings.Insert` | src/main/java/com/squareup/javapoet/JavaFile.java:341 | Adding to the sorted static-import set keeps it sorted. Its elements are the old ones plus the new one. |
| `JavaFiles.CommentLinesRoundTrip` | src/main/java/com/squareup/javapoet/JavaFile.java:153-155 | The written comment lines, with their `//` markers removed and joined by line breaks, give back the comment text. |
| `JavaFiles.CommentTextsShareLine` | src/main/java/com/squareup/javapoet/JavaFile.java:321-324 | Two texts given one after the other are written with one line fewer than apart: the end of the first and the start of the second share a line. Two texts without line breaks become the single line `// ab`. |
| `JavaFiles.EmitPrefix` | src/main/java/com/squareup/javapoet/JavaFile.java:150-167 | It writes the comment (nothing when its text is empty), then the package clause with a blank line if the package is named, then one static line per signature and a blank line if there are any. |
| `JavaFiles.EmitHeader` | src/main/java/com/squareup/javapoet/JavaFile.java:150-229 | The header written is the prefix, one `import` line per planned name, and a blank line iff something was imported. |
| `JavaFiles.HeaderImportBlock` | src/main/java/com/squareup/javapoet/JavaFile.java:169-229 | The import lines follow the prefix and are pairwise distinct. The trailing blank line is there iff some type is not skipped or some registration is not a hint. |
| `JavaFiles.StaticImportsListedSingly` | src/main/java/com/squareup/javapoet/JavaFile.java:162-167 | Static imports are written one line per signature, in ascending signature order, never repeated. |
| `JavaFiles.OutputPath` | src/main/java/com/squareup/javapoet/JavaFile.java:105-116 | It fails iff the target exists and is not a directory, with "path … exists but is not a directory.". Otherwise the path is the directory, one component per package part, then `Name.java`, and the part after the directory joined with `/` is the URI path. |
| `JavaFiles.FilerFileName` | src/main/java/com/squareup/javapoet/JavaFile.java:133-135 | The Filer name is the package components and the type name joined with `.`; the type name alone in the default package. |
| `JavaFiles.SourceUri` | src/main/java/com/squareup/javapoet/JavaFile.java:267-270 | The URI path is the package components and `Name.java` joined with `/`, the same components `writeTo(Path)` resolves. |
| `JavaFiles.SourceUriFromFilerName` | src/main/java/com/squareup/javapoet/JavaFile.java:267-270 | For a type name without dots, the URI path is the Filer name with `.` replaced by `/`, plus `.java`. |
| `Builders.NewBuilder` | src/main/java/com/squareup/javapoet/JavaFile.java:291-295 | A null package name or a null type gives a `NullPointer` failure with its message. Otherwise a fresh builder holds the defaults: no comment, statics or registrations, skipping off, global setting -1, indent of two spaces. |
| `Builders.ToBuilderRoundTrip` | src/main/java/com/squareup/javapoet/JavaFile.java:297-303 | Rebuilding through `toBuilder` gives the file back iff it has no static imports, no registrations and the default global setting. |
| `Builders.Builder.constructor` | src/main/java/com/squareup/javapoet/JavaFile.java:305-319 | A new builder holds the given package and type and the default settings. |
| `Builders.Builder.FromFile` | src/main/java/com/squareup/javapoet/JavaFile.java:297-303 | `toBuilder` keeps the comment, the skip flag and the indent. It drops the static imports and registrations and resets the global setting to -1. |
| `Builders.Builder.AddFileComment` | src/main/java/com/squareup/javapoet/JavaFile.java:321-324 | The text is appended to the one comment text, with no line break before it. |
| `Builders.Builder.AddStaticImport` | src/main/java/com/squareup/javapoet/JavaFile.java:334-344 | A null class, null names or empty names each fail with their message and change nothing. Otherwise each name before the first null entry is added as `canonical.name`; the set stays sorted. A null entry fails with the names rendered. |
| `Builders.Builder.AddImport` | src/main/java/com/squareup/javapoet/JavaFile.java:353-361 | A null name, an empty name or an already registered key (by either method) fails with its message and leaves the map unchanged. Otherwise the map gains the name with threshold 0, which is not a hint. |
| `Builders.Builder.AddImportWildcardHint` | src/main/java/com/squareup/javapoet/JavaFile.java:371-380 | It checks null, then empty, then a threshold below 1, then duplicate, each failing without change. Otherwise the map gains a hint with the given threshold. |
| `Builders.Builder.SkipJavaLangImports` | src/main/java/com/squareup/javapoet/JavaFile.java:393-396 | The flag is set; nothing else changes. |
| `Builders.Builder.PackageWildcardReplace` | src/main/java/com/squareup/javapoet/JavaFile.java:406-409 | Any value is accepted as the global setting; nothing else changes. |
| `Builders.Builder.Indent` | src/main/java/com/squareup/javapoet/JavaFile.java:411-414 | The indent is set; nothing else changes. |
| `Builders.Builder.Build` | src/main/java/com/squareup/javapoet/JavaFile.java:80-89 | The built file carries the builder's settings. Its static imports are sorted and its registrations are keyed by their own non-empty names with thresholds of at least 0, which is what the planner relies on. |
| `Builders.DuplicateRegistrationRejected` | src/main/java/com/squareup/javapoet/JavaFile.java:353-380 | `addImport("demo.b")` succeeds, and a later `addImportWildcardHint("demo.b", 2)` fails with "Duplicate import demo.b". |

## Left out

- The first pass of `writeTo(Appendable)` is not modelled; the referenced types are an input. That pass runs `emit` with a discarding writer so that the code writer collects the referenced types.
- The code writer is not modelled: the type's body, name resolution and collision handling, and how the comment's format arguments are expanded. The file comment is given as the text of its code block.
- Building the `TreeSet` of referenced types and comparing `ClassName`s are not modelled. The header is defined for any sequence of types; the lemmas that rely on distinct types require `TreeSet` order.
- `HashMap` iteration order is not modelled. It is a parameter, and every lemma holds for every order.
- `String.split` drops trailing empty strings; `Strings.Split` keeps every component. The two differ only for package names that end with a dot or have empty components.
- Characters are compared by their Dafny code point; Java compares UTF-16 code units. The two orders differ only outside the Basic Multilingual Plane.
- The I/O is not modelled: creating directories and writing the file in `writeTo(Path)`, `writeTo(File)`, `Filer.createSourceFile`, and the deletion after a failed write. `OutputPath` computes the path and reports the argument error. Rendering a `Path` as text is assumed to use `/`.
- Only the URI of `toJavaFileObject` is modelled, not its timestamp, content or streams.
- The originating elements handed to the `Filer` are not modelled.
- `equals`, `hashCode` and `toString` are not modelled. They only render the file.
- `addStaticImport(Enum)` and `addStaticImport(Class, String...)` are not modelled. They call `ClassName.get`, which is not part of this model, and then defer to the modelled overload.
- `Builders.Builder.AddFileComment` takes the formatted text. The format string and its arguments belong to the code-block formatter, which is not part of this model.
- `CodeWriter.emitComment` is not part of this model. `JavaFiles.CommentLines` states the rendering the header relies on: each line of the comment text gets `// `, and an empty line gets `//`. Indentation is empty at the top of a file.
