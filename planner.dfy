/**
 * The import planner inside `JavaFile.emit`: from the referenced types (in
 * `TreeSet` order), the registrations made with `addImport` and
 * `addImportWildcardHint`, the global `wildcardReplace` setting and the
 * `skipJavaLangImports` flag, it decides which `import` lines the file gets.
 *
 *   step 1  count the distinct referenced types per package;
 *   step 2  per type, in order, choose `pkg.*` or the canonical name, and
 *           drop a line that was already written;
 *   step 3  write every non-hint registration whose text step 2 did not write.
 *
 * Each step is a method proved against a specification function; the lemmas
 * below state what the planner promises about those functions.
 */
module ImportPlanner {
  import opened Wrappers
  import opened Strings
  import opened Sequences

  const JAVA_LANG: string := "java.lang"
  /** Global `wildcardReplace` value meaning "no global wildcard rule" (the default). */
  const WILDCARD_REPLACE_NONE: int := -1
  /** Global `wildcardReplace` value meaning "always the wildcard form"; also the threshold `addImport` stores. */
  const WILDCARD_REPLACE_ALWAYS: int := 0

  /** A referenced type, reduced to what the planner reads of a `ClassName`. */
  datatype ClassName = ClassName(packageName: string, canonicalName: string)

  /** One registration: the registered string and its wildcard threshold (0 for `addImport`). */
  datatype ImportDefinition = ImportDefinition(importName: string, wildcardReplace: int)
  {
    predicate IsImportWildcardHint()
    {
      wildcardReplace > 0
    }
  }

  /** The `ImportDefinition` constructor with its argument checks. */
  function NewImportDefinition(importName: Option<string>, wildcardReplace: int)
    : (r: Result<ImportDefinition, JavaException>)
    ensures r.Success? <==> importName.Some? && importName.value != "" && wildcardReplace >= 0
    ensures r.Success? ==> r.value.importName == importName.value
    ensures r.Success? ==> (r.value.IsImportWildcardHint() <==> wildcardReplace >= 1)
    ensures r.Success? ==> r.value == ImportDefinition(importName.value, wildcardReplace)
    ensures importName.None? ==> r == Failure(IllegalArgument("importName == null"))
    ensures importName == Some("") ==> r == Failure(IllegalArgument("importName is empty"))
    ensures importName.Some? && importName.value != "" && wildcardReplace < 0 ==>
              r == Failure(IllegalArgument("wildcardReplace < 0"))
  {
    if importName.None? then Failure(IllegalArgument("importName == null"))
    else if importName.value == "" then Failure(IllegalArgument("importName is empty"))
    else if wildcardReplace < 0 then Failure(IllegalArgument("wildcardReplace < 0"))
    else Success(ImportDefinition(importName.value, wildcardReplace))
  }

  /** What the builder keeps true of its registration map: each key is its definition's name. */
  predicate ValidRegistrations(imports: map<string, ImportDefinition>)
  {
    forall k :: k in imports ==> imports[k].importName == k && k != "" && imports[k].wildcardReplace >= 0
  }

  /** Whether `skipJavaLangImports` removes this type from the planner altogether. */
  predicate Skipped(c: ClassName, skipJavaLangImports: bool)
  {
    skipJavaLangImports && c.packageName == JAVA_LANG
  }

  /** The iteration order of `new TreeSet<>(types)`: strictly ascending canonical names. */
  predicate InTreeSetOrder(types: seq<ClassName>)
  {
    forall i, j :: 0 <= i < j < |types| ==> Less(types[i].canonicalName, types[j].canonicalName)
  }

  /** Java identifiers never contain `*`, so no canonical name looks like a wildcard line. */
  predicate WellFormedNames(types: seq<ClassName>)
  {
    forall c :: c in types ==> '*' !in c.canonicalName
  }

  /** How many entries of `types` lie in package `p`. */
  function Occurrences(types: seq<ClassName>, p: string): nat
  {
    if types == [] then 0
    else Occurrences(types[..|types| - 1], p) + (if types[|types| - 1].packageName == p then 1 else 0)
  }

  /** The packages step 1 counts: those of the types that are not skipped. */
  function CountedPackages(types: seq<ClassName>, skipJavaLangImports: bool): set<string>
  {
    set c | c in types && !Skipped(c, skipJavaLangImports) :: c.packageName
  }

  /** The `importsCounterMap` step 1 builds. */
  function PackageCounts(types: seq<ClassName>, skipJavaLangImports: bool): (counts: map<string, nat>)
    ensures CountsCover(types, counts, skipJavaLangImports)
  {
    map p | p in CountedPackages(types, skipJavaLangImports) :: Occurrences(types, p)
  }

  function Wildcard(packageName: string): string
  {
    packageName + ".*"
  }

  /** The line step 2 chooses for one type whose package holds `count` referenced types. */
  function ImportName(c: ClassName, count: nat, imports: map<string, ImportDefinition>, wildcardReplace: int): string
  {
    if c.packageName in imports then
      if count >= imports[c.packageName].wildcardReplace || count >= wildcardReplace
      then Wildcard(c.packageName)
      else c.canonicalName
    else if wildcardReplace != WILDCARD_REPLACE_NONE then
      if count >= wildcardReplace then Wildcard(c.packageName) else c.canonicalName
    else
      c.canonicalName
  }

  predicate CountsCover(types: seq<ClassName>, counts: map<string, nat>, skipJavaLangImports: bool)
  {
    forall c :: c in types && !Skipped(c, skipJavaLangImports) ==> c.packageName in counts
  }

  /** The line step 2 chooses for each non-skipped type, in order, repeats included. */
  function Candidates(types: seq<ClassName>, counts: map<string, nat>, imports: map<string, ImportDefinition>,
                      wildcardReplace: int, skipJavaLangImports: bool): seq<string>
  {
    if types == [] then []
    else
      var c := types[|types| - 1];
      var init := Candidates(types[..|types| - 1], counts, imports, wildcardReplace, skipJavaLangImports);
      if Skipped(c, skipJavaLangImports) then init
      else init + [ImportName(c, if c.packageName in counts then counts[c.packageName] else 0, imports, wildcardReplace)]
  }

  /** The candidates of step 2 with the counts of step 1. */
  function TypeCandidates(types: seq<ClassName>, imports: map<string, ImportDefinition>,
                          wildcardReplace: int, skipJavaLangImports: bool): seq<string>
  {
    Candidates(types, PackageCounts(types, skipJavaLangImports), imports, wildcardReplace, skipJavaLangImports)
  }

  /** The lines step 2 writes: the candidates, each at its first occurrence only. */
  function TypeImports(types: seq<ClassName>, imports: map<string, ImportDefinition>,
                       wildcardReplace: int, skipJavaLangImports: bool): seq<string>
  {
    Dedup(TypeCandidates(types, imports, wildcardReplace, skipJavaLangImports))
  }

  /** `order` lists every registration key exactly once: a `HashMap`'s iteration, in an unspecified order. */
  predicate EnumeratesKeys(order: seq<string>, imports: map<string, ImportDefinition>)
  {
    && NoDuplicates(order)
    && (forall k :: k in order ==> k in imports)
    && (forall k :: k in imports ==> k in order)
  }

  /** The lines step 3 writes, visiting the registrations in `order`. */
  function Leftovers(order: seq<string>, imports: map<string, ImportDefinition>, emitted: seq<string>): seq<string>
    requires forall k :: k in order ==> k in imports
  {
    if order == [] then []
    else
      var init := Leftovers(order[..|order| - 1], imports, emitted);
      var impDef := imports[order[|order| - 1]];
      if !impDef.IsImportWildcardHint() && impDef.importName !in emitted then init + [impDef.importName]
      else init
  }

  /** Every import line of the file, steps 2 and 3 together. */
  function Plan(types: seq<ClassName>, imports: map<string, ImportDefinition>, order: seq<string>,
                wildcardReplace: int, skipJavaLangImports: bool): seq<string>
    requires EnumeratesKeys(order, imports)
  {
    var typeImports := TypeImports(types, imports, wildcardReplace, skipJavaLangImports);
    typeImports + Leftovers(order, imports, typeImports)
  }

  // ---------------------------------------------------------------------------
  // The three loops of the import block
  // ---------------------------------------------------------------------------

  /** Step 1: count the distinct referenced types per package. */
  method CountPackages(types: seq<ClassName>, skipJavaLangImports: bool) returns (counts: map<string, nat>)
    ensures counts == PackageCounts(types, skipJavaLangImports)
  {
    counts := map[];
    var i := 0;
    while i < |types|
      invariant 0 <= i <= |types|
      invariant counts == PackageCounts(types[..i], skipJavaLangImports)
    {
      var c := types[i];
      PackageCountsStep(types, i, skipJavaLangImports);
      if !(skipJavaLangImports && c.packageName == JAVA_LANG) {
        if c.packageName !in counts {
          counts := counts[c.packageName := 1];
        } else {
          counts := counts[c.packageName := counts[c.packageName] + 1];
        }
      }
      i := i + 1;
    }
    assert types[..i] == types;
  }

  /**
   * The choice inside step 2, written as the source's nested `if`: the wildcard
   * line or the canonical name for one type. It is the statement form of
   * `ImportName`, and `WildcardRule` is what characterizes that choice.
   */
  method ChooseImportName(c: ClassName, count: nat, imports: map<string, ImportDefinition>, wildcardReplace: int)
    returns (importName: string)
    ensures importName == ImportName(c, count, imports, wildcardReplace)
  {
    if c.packageName in imports {
      var impDef := imports[c.packageName];
      if count >= impDef.wildcardReplace || count >= wildcardReplace {
        importName := c.packageName + ".*";
      } else {
        importName := c.canonicalName;
      }
    } else {
      if wildcardReplace != WILDCARD_REPLACE_NONE {
        if count >= wildcardReplace {
          importName := c.packageName + ".*";
        } else {
          importName := c.canonicalName;
        }
      } else {
        importName := c.canonicalName;
      }
    }
  }

  /**
   * Step 2: choose each type's line and write it unless `processedPackages`
   * already holds it. Returns the lines written, the set of them and how many.
   */
  method ChooseTypeImports(types: seq<ClassName>, counts: map<string, nat>, imports: map<string, ImportDefinition>,
                           wildcardReplace: int, skipJavaLangImports: bool)
    returns (lines: seq<string>, processedPackages: set<string>, importedTypesCount: nat)
    requires counts == PackageCounts(types, skipJavaLangImports)
    ensures lines == TypeImports(types, imports, wildcardReplace, skipJavaLangImports)
    ensures forall x :: x in processedPackages <==> x in lines
    ensures importedTypesCount == |lines|
  {
    lines, processedPackages, importedTypesCount := [], {}, 0;
    var i := 0;
    while i < |types|
      invariant 0 <= i <= |types|
      invariant lines == Dedup(Candidates(types[..i], counts, imports, wildcardReplace, skipJavaLangImports))
      invariant forall x :: x in processedPackages <==> x in lines
      invariant importedTypesCount == |lines|
    {
      var c := types[i];
      assert c in types;
      ghost var linesBefore, processedBefore := lines, processedPackages;
      if !(skipJavaLangImports && c.packageName == JAVA_LANG) {
        var importCounter := counts[c.packageName];
        var importName := ChooseImportName(c, importCounter, imports, wildcardReplace);
        if importName !in processedPackages {
          lines := lines + [importName];
          processedPackages := processedPackages + {importName};
          importedTypesCount := importedTypesCount + 1;
        }
      }
      TypeImportStep(types, counts, imports, wildcardReplace, skipJavaLangImports, i,
                     linesBefore, processedBefore, lines, processedPackages);
      i := i + 1;
    }
    assert types[..i] == types;
  }

  /**
   * Step 3: write each registration that is not a wildcard hint and whose
   * string step 2 did not write. `order` is the map's iteration order.
   */
  method AddLeftoverImports(order: seq<string>, imports: map<string, ImportDefinition>,
                            processedPackages: set<string>, ghost emitted: seq<string>, importedTypesCount: nat)
    returns (leftovers: seq<string>, count: nat)
    requires EnumeratesKeys(order, imports)
    requires forall x :: x in processedPackages <==> x in emitted
    ensures leftovers == Leftovers(order, imports, emitted)
    ensures count == importedTypesCount + |leftovers|
  {
    leftovers, count := [], importedTypesCount;
    var i := 0;
    while i < |order|
      invariant 0 <= i <= |order|
      invariant leftovers == Leftovers(order[..i], imports, emitted)
      invariant count == importedTypesCount + |leftovers|
    {
      assert order[..i + 1][..i] == order[..i] && order[..i + 1][i] == order[i];
      var impDef := imports[order[i]];
      if !impDef.IsImportWildcardHint() && impDef.importName !in processedPackages {
        leftovers := leftovers + [impDef.importName];
        count := count + 1;
      }
      i := i + 1;
    }
    assert order[..i] == order;
  }

  // ---------------------------------------------------------------------------
  // Step 1: the per-package count
  // ---------------------------------------------------------------------------

  lemma {:induction false} OccurrencesAbsent(types: seq<ClassName>, p: string)
    requires forall c :: c in types ==> c.packageName != p
    ensures Occurrences(types, p) == 0
  {
    if types != [] {
      assert forall c :: c in types[..|types| - 1] ==> c in types;
      OccurrencesAbsent(types[..|types| - 1], p);
    }
  }

  /** How one more type changes `importsCounterMap`: the loop body of step 1. */
  lemma PackageCountsSnoc(types: seq<ClassName>, c: ClassName, skipJavaLangImports: bool)
    ensures var m := PackageCounts(types, skipJavaLangImports);
      PackageCounts(types + [c], skipJavaLangImports)
      == if Skipped(c, skipJavaLangImports) then m
         else m[c.packageName := (if c.packageName in m then m[c.packageName] else 0) + 1]
  {
    var m := PackageCounts(types, skipJavaLangImports);
    var m' := PackageCounts(types + [c], skipJavaLangImports);
    var expected := if Skipped(c, skipJavaLangImports) then m
                    else m[c.packageName := (if c.packageName in m then m[c.packageName] else 0) + 1];
    CountedPackagesSnoc(types, c, skipJavaLangImports);
    assert m'.Keys == expected.Keys;
    if !Skipped(c, skipJavaLangImports) && c.packageName !in m {
      assert forall d :: d in types ==> d.packageName != c.packageName;
      OccurrencesAbsent(types, c.packageName);
    }
    forall p | p in m' ensures m'[p] == expected[p] {
      OccurrencesSnoc(types, c, p);
    }
  }

  lemma CountedPackagesSnoc(types: seq<ClassName>, c: ClassName, skipJavaLangImports: bool)
    ensures CountedPackages(types + [c], skipJavaLangImports)
         == CountedPackages(types, skipJavaLangImports) + (if Skipped(c, skipJavaLangImports) then {} else {c.packageName})
  {
    assert forall d :: d in types + [c] <==> d in types || d == c;
  }

  lemma OccurrencesSnoc(types: seq<ClassName>, c: ClassName, p: string)
    ensures Occurrences(types + [c], p) == Occurrences(types, p) + (if c.packageName == p then 1 else 0)
  {
    assert (types + [c])[..|types|] == types;
  }

  /** `PackageCountsSnoc` for the prefix the step-1 loop has visited. */
  lemma PackageCountsStep(types: seq<ClassName>, i: nat, skipJavaLangImports: bool)
    requires i < |types|
    ensures var m := PackageCounts(types[..i], skipJavaLangImports);
      var c := types[i];
      PackageCounts(types[..i + 1], skipJavaLangImports)
      == if Skipped(c, skipJavaLangImports) then m
         else m[c.packageName := (if c.packageName in m then m[c.packageName] else 0) + 1]
  {
    assert types[..i + 1] == types[..i] + [types[i]];
    PackageCountsSnoc(types[..i], types[i], skipJavaLangImports);
  }

  /**
   * One iteration of the step-2 loop: with `lines` the filtered candidates of
   * the types visited so far and `seen` holding exactly those lines, writing
   * the next type's line exactly when `seen` does not hold it gives the
   * filtered candidates of one more type.
   */
  lemma TypeImportStep(types: seq<ClassName>, counts: map<string, nat>, imports: map<string, ImportDefinition>,
                       wildcardReplace: int, skipJavaLangImports: bool, i: nat,
                       lines: seq<string>, seen: set<string>, lines': seq<string>, seen': set<string>)
    requires i < |types| && CountsCover(types, counts, skipJavaLangImports)
    requires lines == Dedup(Candidates(types[..i], counts, imports, wildcardReplace, skipJavaLangImports))
    requires forall y :: y in seen <==> y in lines
    requires Skipped(types[i], skipJavaLangImports) ==> lines' == lines && seen' == seen
    requires !Skipped(types[i], skipJavaLangImports) ==>
               var name := ImportName(types[i], counts[types[i].packageName], imports, wildcardReplace);
               && (name in seen ==> lines' == lines && seen' == seen)
               && (name !in seen ==> lines' == lines + [name] && seen' == seen + {name})
    ensures lines' == Dedup(Candidates(types[..i + 1], counts, imports, wildcardReplace, skipJavaLangImports))
    ensures forall y :: y in seen' <==> y in lines'
  {
    assert types[..i + 1][..i] == types[..i];
    var visited := Candidates(types[..i], counts, imports, wildcardReplace, skipJavaLangImports);
    var c := types[i];
    if !Skipped(c, skipJavaLangImports) {
      DedupStep(visited, lines, seen, ImportName(c, counts[c.packageName], imports, wildcardReplace));
    }
  }

  /**
   * A package is counted exactly when a non-skipped referenced type lies in
   * it, `java.lang` is not counted when it is skipped, and the count is the
   * number of distinct referenced types of the package.
   */
  lemma CountIsDistinctTypes(types: seq<ClassName>, skipJavaLangImports: bool, p: string)
    requires InTreeSetOrder(types)
    ensures p in PackageCounts(types, skipJavaLangImports)
            <==> exists c :: c in types && c.packageName == p && !Skipped(c, skipJavaLangImports)
    ensures skipJavaLangImports ==> JAVA_LANG !in PackageCounts(types, skipJavaLangImports)
    ensures p in PackageCounts(types, skipJavaLangImports) ==>
              PackageCounts(types, skipJavaLangImports)[p] == |set c | c in types && c.packageName == p|
  {
    OccurrencesCountsDistinct(types, p);
  }

  lemma {:induction false} OccurrencesCountsDistinct(types: seq<ClassName>, p: string)
    requires InTreeSetOrder(types)
    ensures Occurrences(types, p) == |set c | c in types && c.packageName == p|
  {
    if types != [] {
      var init := types[..|types| - 1];
      var last := types[|types| - 1];
      assert types == init + [last];
      assert InTreeSetOrder(init);
      OccurrencesCountsDistinct(init, p);
      LastIsNew(types);
      PackageMembersSnoc(init, last, p);
    }
  }

  /** The types of package `p` after one more type. */
  lemma PackageMembersSnoc(init: seq<ClassName>, last: ClassName, p: string)
    ensures (set c | c in init + [last] && c.packageName == p)
         == (set c | c in init && c.packageName == p) + (if last.packageName == p then {last} else {})
  {
    assert forall c :: c in init + [last] <==> c in init || c == last;
  }

  /** In `TreeSet` order the last type does not occur earlier. */
  lemma LastIsNew(types: seq<ClassName>)
    requires InTreeSetOrder(types) && types != []
    ensures types[|types| - 1] !in types[..|types| - 1]
  {
    var last := types[|types| - 1];
    forall k | 0 <= k < |types| - 1 ensures types[k] != last {
      assert Less(types[k].canonicalName, last.canonicalName);
      LessIrreflexive(last.canonicalName);
    }
  }

  // ---------------------------------------------------------------------------
  // Step 2: the wildcard decision and the lines it yields
  // ---------------------------------------------------------------------------

  /**
   * A type's line is `pkg.*` exactly when its package is registered and the
   * count reaches the registration's threshold or the global setting, or the
   * package is unregistered, the global setting is not -1 and the count
   * reaches it; otherwise the line is the type's canonical name.
   */
  lemma WildcardRule(c: ClassName, count: nat, imports: map<string, ImportDefinition>, wildcardReplace: int)
    requires '*' !in c.canonicalName
    ensures var line := ImportName(c, count, imports, wildcardReplace);
      && (line == Wildcard(c.packageName) <==>
            || (c.packageName in imports
                && (count >= imports[c.packageName].wildcardReplace || count >= wildcardReplace))
            || (c.packageName !in imports && wildcardReplace != WILDCARD_REPLACE_NONE && count >= wildcardReplace))
      && (line != Wildcard(c.packageName) ==> line == c.canonicalName)
  {
    assert Wildcard(c.packageName)[|c.packageName| + 1] == '*';
  }

  lemma {:induction false} CandidatesMembership(types: seq<ClassName>, counts: map<string, nat>,
                                                imports: map<string, ImportDefinition>, wildcardReplace: int,
                                                skipJavaLangImports: bool, x: string)
    requires CountsCover(types, counts, skipJavaLangImports)
    ensures x in Candidates(types, counts, imports, wildcardReplace, skipJavaLangImports) <==>
            exists c :: c in types && !Skipped(c, skipJavaLangImports) &&
                        x == ImportName(c, counts[c.packageName], imports, wildcardReplace)
  {
    if types != [] {
      var init := types[..|types| - 1];
      assert types == init + [types[|types| - 1]];
      assert forall d :: d in types <==> d in init || d == types[|types| - 1];
      CandidatesMembership(init, counts, imports, wildcardReplace, skipJavaLangImports, x);
    }
  }

  /** A step-2 line is the line chosen for some non-skipped referenced type, and every such line is written. */
  lemma TypeImportsMembership(types: seq<ClassName>, imports: map<string, ImportDefinition>,
                              wildcardReplace: int, skipJavaLangImports: bool, x: string)
    ensures x in TypeImports(types, imports, wildcardReplace, skipJavaLangImports) <==>
            exists c :: c in types && !Skipped(c, skipJavaLangImports) &&
                        x == ImportName(c, PackageCounts(types, skipJavaLangImports)[c.packageName], imports, wildcardReplace)
  {
    CandidatesMembership(types, PackageCounts(types, skipJavaLangImports), imports, wildcardReplace,
                         skipJavaLangImports, x);
  }

  /**
   * Step 2 writes no line twice, and its lines keep the order in which the
   * types (in `TreeSet` order) first produced them: a package's wildcard line
   * stands where its first type is.
   */
  lemma TypeImportsOrder(types: seq<ClassName>, imports: map<string, ImportDefinition>,
                         wildcardReplace: int, skipJavaLangImports: bool, i: nat, j: nat)
    requires i < j < |TypeImports(types, imports, wildcardReplace, skipJavaLangImports)|
    ensures NoDuplicates(TypeImports(types, imports, wildcardReplace, skipJavaLangImports))
    ensures var cands := TypeCandidates(types, imports, wildcardReplace, skipJavaLangImports);
      var lines := TypeImports(types, imports, wildcardReplace, skipJavaLangImports);
      lines[i] in cands && lines[j] in cands && FirstIndex(cands, lines[i]) < FirstIndex(cands, lines[j])
  {
    DedupNoDuplicates(TypeCandidates(types, imports, wildcardReplace, skipJavaLangImports));
    DedupFirstOccurrenceOrder(TypeCandidates(types, imports, wildcardReplace, skipJavaLangImports), i, j);
  }

  /**
   * All types of one package get the same decision; a package decided
   * wildcard gets its `pkg.*` line and none of its types gets an explicit
   * line, while a package decided explicit gets one line per type and no
   * wildcard line.
   */
  lemma PackageImportForm(types: seq<ClassName>, imports: map<string, ImportDefinition>,
                          wildcardReplace: int, skipJavaLangImports: bool, c: ClassName)
    requires InTreeSetOrder(types) && WellFormedNames(types)
    requires c in types && !Skipped(c, skipJavaLangImports)
    ensures var lines := TypeImports(types, imports, wildcardReplace, skipJavaLangImports);
      var count := PackageCounts(types, skipJavaLangImports)[c.packageName];
      var wild := ImportName(c, count, imports, wildcardReplace) == Wildcard(c.packageName);
      && (Wildcard(c.packageName) in lines <==> wild)
      && (c.canonicalName in lines <==> !wild)
  {
    var counts := PackageCounts(types, skipJavaLangImports);
    var lines := TypeImports(types, imports, wildcardReplace, skipJavaLangImports);
    var count := counts[c.packageName];
    var wild := ImportName(c, count, imports, wildcardReplace) == Wildcard(c.packageName);
    WildcardRule(c, count, imports, wildcardReplace);
    TypeImportsMembership(types, imports, wildcardReplace, skipJavaLangImports, Wildcard(c.packageName));
    TypeImportsMembership(types, imports, wildcardReplace, skipJavaLangImports, c.canonicalName);
    forall d | d in types && !Skipped(d, skipJavaLangImports)
      ensures ImportName(d, counts[d.packageName], imports, wildcardReplace) == Wildcard(c.packageName)
              ==> d.packageName == c.packageName
      ensures ImportName(d, counts[d.packageName], imports, wildcardReplace) == c.canonicalName
              ==> d == c && !wild
    {
      var line := ImportName(d, counts[d.packageName], imports, wildcardReplace);
      WildcardRule(d, counts[d.packageName], imports, wildcardReplace);
      assert Wildcard(c.packageName)[|c.packageName| + 1] == '*';
      if line == Wildcard(c.packageName) {
        assert line[..|c.packageName|] == c.packageName;
        assert line == Wildcard(d.packageName);
        assert line[..|d.packageName|] == d.packageName;
      }
      if line == c.canonicalName {
        assert line != Wildcard(d.packageName) by {
          assert Wildcard(d.packageName)[|d.packageName| + 1] == '*';
        }
        assert d.canonicalName == c.canonicalName;
        var a :| 0 <= a < |types| && types[a] == c;
        var b :| 0 <= b < |types| && types[b] == d;
        LessIrreflexive(c.canonicalName);
        assert !(a < b) && !(b < a);
      }
    }
  }

  /**
   * With the default global setting -1, a referenced package that has a
   * registration always gets the wildcard line (its count is at least 1 and
   * so at least -1), whatever the registration's own threshold.
   */
  lemma DefaultSettingRegisteredPackageIsWildcard(types: seq<ClassName>, imports: map<string, ImportDefinition>,
                                                  skipJavaLangImports: bool, c: ClassName)
    requires InTreeSetOrder(types) && WellFormedNames(types)
    requires c in types && !Skipped(c, skipJavaLangImports) && c.packageName in imports
    ensures var lines := TypeImports(types, imports, WILDCARD_REPLACE_NONE, skipJavaLangImports);
      Wildcard(c.packageName) in lines && c.canonicalName !in lines
  {
    PackageImportForm(types, imports, WILDCARD_REPLACE_NONE, skipJavaLangImports, c);
  }

  /**
   * With a global setting of 0 (or any other value at most 0 except -1) every
   * non-skipped referenced package gets its wildcard line, and only those.
   */
  lemma AlwaysSettingAllWildcard(types: seq<ClassName>, imports: map<string, ImportDefinition>,
                                 wildcardReplace: int, skipJavaLangImports: bool, x: string)
    requires wildcardReplace <= WILDCARD_REPLACE_ALWAYS && wildcardReplace != WILDCARD_REPLACE_NONE
    ensures x in TypeImports(types, imports, wildcardReplace, skipJavaLangImports) <==>
            exists p :: p in CountedPackages(types, skipJavaLangImports) && x == Wildcard(p)
  {
    var counts := PackageCounts(types, skipJavaLangImports);
    TypeImportsMembership(types, imports, wildcardReplace, skipJavaLangImports, x);
    if x in TypeImports(types, imports, wildcardReplace, skipJavaLangImports) {
      var c :| c in types && !Skipped(c, skipJavaLangImports) &&
               x == ImportName(c, counts[c.packageName], imports, wildcardReplace);
      assert c.packageName in CountedPackages(types, skipJavaLangImports);
      AlwaysSettingIsWildcard(c, counts[c.packageName], imports, wildcardReplace);
    }
    if exists p :: p in CountedPackages(types, skipJavaLangImports) && x == Wildcard(p) {
      var p :| p in CountedPackages(types, skipJavaLangImports) && x == Wildcard(p);
      var c :| c in types && !Skipped(c, skipJavaLangImports) && c.packageName == p;
      AlwaysSettingIsWildcard(c, counts[c.packageName], imports, wildcardReplace);
    }
  }

  /** With a global setting of at most 0 (and not -1) every type's line is its package's wildcard. */
  lemma AlwaysSettingIsWildcard(c: ClassName, count: nat, imports: map<string, ImportDefinition>, wildcardReplace: int)
    requires wildcardReplace <= WILDCARD_REPLACE_ALWAYS && wildcardReplace != WILDCARD_REPLACE_NONE
    ensures ImportName(c, count, imports, wildcardReplace) == Wildcard(c.packageName)
  {
  }

  // ---------------------------------------------------------------------------
  // Step 3 and the whole plan
  // ---------------------------------------------------------------------------

  lemma {:induction false} LeftoversMembership(order: seq<string>, imports: map<string, ImportDefinition>,
                                               emitted: seq<string>, x: string)
    requires forall k :: k in order ==> k in imports
    ensures x in Leftovers(order, imports, emitted) <==>
            exists k :: k in order && imports[k].importName == x && !imports[k].IsImportWildcardHint() && x !in emitted
  {
    if order != [] {
      var init := order[..|order| - 1];
      assert order == init + [order[|order| - 1]];
      assert forall k :: k in order <==> k in init || k == order[|order| - 1];
      LeftoversMembership(init, imports, emitted, x);
    }
  }

  /**
   * A registration gets a standalone line exactly when it is not a wildcard
   * hint and its string is not already one of step 2's lines; the lines are
   * pairwise distinct, whatever the map's iteration order.
   */
  lemma LeftoverRule(order: seq<string>, imports: map<string, ImportDefinition>, emitted: seq<string>, x: string)
    requires ValidRegistrations(imports) && EnumeratesKeys(order, imports)
    ensures x in Leftovers(order, imports, emitted) <==>
            x in imports && !imports[x].IsImportWildcardHint() && x !in emitted
    ensures NoDuplicates(Leftovers(order, imports, emitted))
  {
    LeftoversMembership(order, imports, emitted, x);
    LeftoversDistinct(order, imports, emitted);
  }

  lemma {:induction false} LeftoversDistinct(order: seq<string>, imports: map<string, ImportDefinition>, emitted: seq<string>)
    requires ValidRegistrations(imports) && NoDuplicates(order)
    requires forall k :: k in order ==> k in imports
    ensures NoDuplicates(Leftovers(order, imports, emitted))
  {
    if order != [] {
      var init := order[..|order| - 1];
      var k := order[|order| - 1];
      assert order == init + [k];
      assert forall j :: j in init ==> j in imports;
      LeftoversDistinct(init, imports, emitted);
      LeftoversMembership(init, imports, emitted, k);
      assert k !in init;
    }
  }

  /**
   * The plan writes no line twice: step 2 drops repeats, and step 3 skips
   * what step 2 wrote and writes distinct registration strings.
   */
  lemma PlanNoDuplicates(types: seq<ClassName>, imports: map<string, ImportDefinition>, order: seq<string>,
                         wildcardReplace: int, skipJavaLangImports: bool)
    requires ValidRegistrations(imports) && EnumeratesKeys(order, imports)
    ensures NoDuplicates(Plan(types, imports, order, wildcardReplace, skipJavaLangImports))
  {
    var typeImports := TypeImports(types, imports, wildcardReplace, skipJavaLangImports);
    var leftovers := Leftovers(order, imports, typeImports);
    DedupNoDuplicates(TypeCandidates(types, imports, wildcardReplace, skipJavaLangImports));
    LeftoversDistinct(order, imports, typeImports);
    forall x | x in leftovers ensures x !in typeImports {
      LeftoversMembership(order, imports, typeImports, x);
    }
    var plan := typeImports + leftovers;
    forall i, j | 0 <= i < j < |plan| ensures plan[i] != plan[j] {
      if i < |typeImports| && |typeImports| <= j {
        assert plan[j] in leftovers;
      }
    }
  }

  /**
   * `addImport(p)` for a referenced package `p` yields both `import p.*;`
   * (threshold 0 is always reached) and a standalone `import p;`, because
   * step 3 compares with the written lines, not with package names.
   */
  lemma RegisteredPackageKeepsStandaloneLine(types: seq<ClassName>, imports: map<string, ImportDefinition>,
                                             order: seq<string>, wildcardReplace: int, skipJavaLangImports: bool,
                                             c: ClassName)
    requires ValidRegistrations(imports) && EnumeratesKeys(order, imports)
    requires c in types && !Skipped(c, skipJavaLangImports)
    requires c.packageName in imports && !imports[c.packageName].IsImportWildcardHint()
    ensures var plan := Plan(types, imports, order, wildcardReplace, skipJavaLangImports);
      Wildcard(c.packageName) in plan && c.packageName in plan
  {
    var typeImports := TypeImports(types, imports, wildcardReplace, skipJavaLangImports);
    TypeImportsMembership(types, imports, wildcardReplace, skipJavaLangImports, Wildcard(c.packageName));
    LeftoversMembership(order, imports, typeImports, c.packageName);
  }

  /**
   * The blank line after the imports is written exactly when some referenced
   * type is not skipped or some registration is not a wildcard hint.
   */
  lemma PlanEmptyIff(types: seq<ClassName>, imports: map<string, ImportDefinition>, order: seq<string>,
                     wildcardReplace: int, skipJavaLangImports: bool)
    requires ValidRegistrations(imports) && EnumeratesKeys(order, imports)
    ensures |Plan(types, imports, order, wildcardReplace, skipJavaLangImports)| > 0 <==>
            (exists c :: c in types && !Skipped(c, skipJavaLangImports)) ||
            (exists k :: k in imports && !imports[k].IsImportWildcardHint())
  {
    var typeImports := TypeImports(types, imports, wildcardReplace, skipJavaLangImports);
    if exists c :: c in types && !Skipped(c, skipJavaLangImports) {
      var c :| c in types && !Skipped(c, skipJavaLangImports);
      TypeImportsMembership(types, imports, wildcardReplace, skipJavaLangImports,
        ImportName(c, PackageCounts(types, skipJavaLangImports)[c.packageName], imports, wildcardReplace));
    } else {
      if typeImports != [] {
        TypeImportsMembership(types, imports, wildcardReplace, skipJavaLangImports, typeImports[0]);
      }
      assert typeImports == [];
      if exists k :: k in imports && !imports[k].IsImportWildcardHint() {
        var k :| k in imports && !imports[k].IsImportWildcardHint();
        LeftoversMembership(order, imports, typeImports, k);
      }
      if Leftovers(order, imports, typeImports) != [] {
        LeftoversMembership(order, imports, typeImports, Leftovers(order, imports, typeImports)[0]);
      }
    }
  }

  /**
   * With `skipJavaLangImports` set, step 2 writes neither `java.lang.*` nor
   * the canonical name of any referenced `java.lang` type, whatever the count.
   */
  lemma SkippedJavaLangHasNoLines(types: seq<ClassName>, imports: map<string, ImportDefinition>,
                                  wildcardReplace: int, c: ClassName)
    requires InTreeSetOrder(types) && WellFormedNames(types)
    requires c in types && c.packageName == JAVA_LANG
    ensures var lines := TypeImports(types, imports, wildcardReplace, true);
      Wildcard(JAVA_LANG) !in lines && c.canonicalName !in lines
  {
    var counts := PackageCounts(types, true);
    TypeImportsMembership(types, imports, wildcardReplace, true, Wildcard(JAVA_LANG));
    TypeImportsMembership(types, imports, wildcardReplace, true, c.canonicalName);
    assert Wildcard(JAVA_LANG)[|JAVA_LANG| + 1] == '*';
    forall d | d in types && !Skipped(d, true)
      ensures ImportName(d, counts[d.packageName], imports, wildcardReplace) != Wildcard(JAVA_LANG)
      ensures ImportName(d, counts[d.packageName], imports, wildcardReplace) != c.canonicalName
    {
      var line := ImportName(d, counts[d.packageName], imports, wildcardReplace);
      WildcardRule(d, counts[d.packageName], imports, wildcardReplace);
      assert Wildcard(d.packageName)[|d.packageName| + 1] == '*';
      if line == Wildcard(d.packageName) {
        assert line[..|d.packageName|] == d.packageName;
        assert Wildcard(JAVA_LANG)[..|JAVA_LANG|] == JAVA_LANG;
      } else {
        var a :| 0 <= a < |types| && types[a] == c;
        var b :| 0 <= b < |types| && types[b] == d;
        assert a != b;
        LessIrreflexive(c.canonicalName);
        assert !(a < b) ==> Less(d.canonicalName, c.canonicalName);
      }
    }
  }

  // ---------------------------------------------------------------------------
  // Worked examples
  // ---------------------------------------------------------------------------

  /** Three distinct types of `demo.a` and a global setting of 3: one wildcard line. */
  lemma ExampleThresholdMet()
    ensures TypeImports([ClassName("demo.a", "demo.a.Alpha"), ClassName("demo.a", "demo.a.Beta"),
                         ClassName("demo.a", "demo.a.Gamma")], map[], 3, false) == ["demo.a.*"]
  {
    var types := [ClassName("demo.a", "demo.a.Alpha"), ClassName("demo.a", "demo.a.Beta"),
                  ClassName("demo.a", "demo.a.Gamma")];
    ExampleCounts(types);
    assert Wildcard("demo.a") == "demo.a.*";
    var cands := TypeCandidates(types, map[], 3, false);
    assert Candidates(types[..1], map["demo.a" := 3], map[], 3, false) == ["demo.a.*"];
    assert Candidates(types[..2], map["demo.a" := 3], map[], 3, false) == ["demo.a.*", "demo.a.*"];
    assert cands == ["demo.a.*", "demo.a.*", "demo.a.*"];
    assert cands[..2][..1] == cands[..1];
    assert Dedup(cands[..1]) == ["demo.a.*"];
    assert Dedup(cands[..2]) == ["demo.a.*"];
  }

  /** The same types with a global setting of 4: three explicit lines in name order. */
  lemma ExampleThresholdMissed()
    ensures TypeImports([ClassName("demo.a", "demo.a.Alpha"), ClassName("demo.a", "demo.a.Beta"),
                         ClassName("demo.a", "demo.a.Gamma")], map[], 4, false)
            == ["demo.a.Alpha", "demo.a.Beta", "demo.a.Gamma"]
  {
    var types := [ClassName("demo.a", "demo.a.Alpha"), ClassName("demo.a", "demo.a.Beta"),
                  ClassName("demo.a", "demo.a.Gamma")];
    ExampleCounts(types);
    var cands := TypeCandidates(types, map[], 4, false);
    assert Candidates(types[..1], map["demo.a" := 3], map[], 4, false) == ["demo.a.Alpha"];
    assert Candidates(types[..2], map["demo.a" := 3], map[], 4, false) == ["demo.a.Alpha", "demo.a.Beta"];
    assert cands == ["demo.a.Alpha", "demo.a.Beta", "demo.a.Gamma"];
    assert cands[..2][..1] == cands[..1];
    assert Dedup(cands[..1]) == ["demo.a.Alpha"];
    assert Dedup(cands[..2]) == ["demo.a.Alpha", "demo.a.Beta"];
  }

  lemma ExampleCounts(types: seq<ClassName>)
    requires types == [ClassName("demo.a", "demo.a.Alpha"), ClassName("demo.a", "demo.a.Beta"),
                       ClassName("demo.a", "demo.a.Gamma")]
    ensures PackageCounts(types, false) == map["demo.a" := 3]
  {
    assert types[..2][..1] == types[..1];
    assert types[..1][..0] == [];
    assert Occurrences(types[..1], "demo.a") == 1;
    assert Occurrences(types[..2], "demo.a") == 2;
    assert Occurrences(types, "demo.a") == 3;
    assert CountedPackages(types, false) == {"demo.a"} by {
      assert types[0] in types;
    }
  }

  /**
   * A wildcard hint for `demo.b` with threshold 1, one reference to
   * `demo.b.Widget` and no global setting: the wildcard line, and no
   * standalone line for the hint.
   */
  lemma ExampleHintThreshold()
    ensures Plan([ClassName("demo.b", "demo.b.Widget")], map["demo.b" := ImportDefinition("demo.b", 1)], ["demo.b"],
                 WILDCARD_REPLACE_NONE, false) == ["demo.b.*"]
  {
    var types := [ClassName("demo.b", "demo.b.Widget")];
    var imports := map["demo.b" := ImportDefinition("demo.b", 1)];
    assert types[..0] == [];
    assert CountedPackages(types, false) == {"demo.b"} by {
      assert types[0] in types;
    }
    assert PackageCounts(types, false) == map["demo.b" := 1];
    assert Wildcard("demo.b") == "demo.b.*";
    assert TypeCandidates(types, imports, WILDCARD_REPLACE_NONE, false) == ["demo.b.*"];
    assert TypeImports(types, imports, WILDCARD_REPLACE_NONE, false) == ["demo.b.*"];
    assert ["demo.b"][..0] == [];
    assert Leftovers(["demo.b"], imports, ["demo.b.*"]) == [];
  }
}
