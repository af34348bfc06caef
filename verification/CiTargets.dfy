/** The tool that finds the build targets a change affects: the query scope, and the merging of skip rules. */
module CiTargets {
  import opened Ordering
  import opened Text

  // ---------------------------------------------------------------- unique and intersection

  ghost predicate SameElements(a: seq<string>, b: seq<string>) {
    forall x :: x in a <==> x in b
  }

  /** The items without repetition, in the order of their first occurrence. */
  method Unique(items: seq<string>) returns (result: seq<string>)
    ensures NoRepeats(result) && SameElements(result, items)
    ensures forall i, j :: 0 <= i < j < |result| ==> FirstAt(items, result[i]) < FirstAt(items, result[j])
  {
    var seen: set<string> := {};
    result := [];
    for i := 0 to |items|
      invariant forall x :: x in seen <==> x in items[..i]
      invariant SameElements(result, items[..i]) && NoRepeats(result)
      invariant forall k :: 0 <= k < |result| ==> FirstAt(items, result[k]) < i
      invariant forall k, j :: 0 <= k < j < |result| ==> FirstAt(items, result[k]) < FirstAt(items, result[j])
    {
      assert items[..i + 1] == items[..i] + [items[i]];
      if items[i] !in seen {
        FirstAtIs(items, i);
        seen := seen + {items[i]};
        result := result + [items[i]];
      }
    }
    assert items[..|items|] == items;
  }

  /** Where x first occurs; |items| if nowhere. */
  ghost function FirstAt(items: seq<string>, x: string): (i: nat)
    ensures i <= |items| && (i < |items| ==> items[i] == x) && forall j :: 0 <= j < i ==> items[j] != x
  {
    if items == [] then 0 else if items[0] == x then 0 else 1 + FirstAt(items[1..], x)
  }

  lemma FirstAtIs(items: seq<string>, i: nat)
    requires i < |items| && items[i] !in items[..i]
    ensures FirstAt(items, items[i]) == i
  {
    forall j | 0 <= j < i ensures items[j] != items[i] {
      assert items[..i][j] == items[j];
    }
  }

  ghost predicate InAll(slices: seq<seq<string>>, x: string) {
    forall i :: 0 <= i < |slices| ==> x in slices[i]
  }

  /** How many of the slices contain x. */
  ghost function Containing(slices: seq<seq<string>>, x: string): nat {
    if slices == [] then 0
    else Containing(slices[..|slices| - 1], x) + if x in slices[|slices| - 1] then 1 else 0
  }

  lemma {:induction false} ContainingAll(slices: seq<seq<string>>, x: string)
    ensures Containing(slices, x) <= |slices|
    ensures Containing(slices, x) == |slices| <==> InAll(slices, x)
  {
    if slices != [] { ContainingAll(slices[..|slices| - 1], x); }
  }

  /** intersectStrings: the elements present in all slices, sorted and without repetition. */
  method IntersectStrings(slices: seq<seq<string>>) returns (intersection: seq<string>)
    ensures StrictlySorted(intersection)
    ensures forall x :: x in intersection <==> slices != [] && InAll(slices, x)
  {
    if |slices| == 0 {
      return [];
    }
    var counts: map<string, nat> := map x | x in slices[0] :: 1;
    assert slices[..1] == [slices[0]] && slices[..1][..0] == [];
    for i := 1 to |slices|
      invariant counts.Keys == set x | x in slices[0]
      invariant forall x :: x in counts ==> counts[x] == Containing(slices[..i], x)
    {
      assert slices[..i + 1][..i] == slices[..i];
      counts := CountSlice(counts, slices[i]);
    }
    assert slices[..|slices|] == slices;
    forall x | x in counts ensures counts[x] == |slices| <==> InAll(slices, x) {
      ContainingAll(slices, x);
    }
    var found := KeysWith(counts, |slices|);
    intersection := SortStrings(found);
    SortedWithoutRepeats(found, intersection);
  }

  /** Adds one to the count of each known string that the slice contains. */
  method CountSlice(counts: map<string, nat>, slice: seq<string>) returns (updated: map<string, nat>)
    ensures updated.Keys == counts.Keys
    ensures forall x :: x in counts ==> updated[x] == counts[x] + if x in slice then 1 else 0
  {
    updated := counts;
    var seen: set<string> := {};
    for i := 0 to |slice|
      invariant updated.Keys == counts.Keys
      invariant forall x :: x in seen <==> x in counts && x in slice[..i]
      invariant forall x :: x in counts ==> updated[x] == counts[x] + if x in seen then 1 else 0
    {
      assert slice[..i + 1] == slice[..i] + [slice[i]];
      if slice[i] in updated && slice[i] !in seen {
        updated := updated[slice[i] := updated[slice[i]] + 1];
        seen := seen + {slice[i]};
      }
    }
    assert slice[..|slice|] == slice;
  }

  /** The keys with the given count, in some order. */
  method KeysWith(counts: map<string, nat>, n: nat) returns (keys: seq<string>)
    ensures NoRepeats(keys) && forall x :: x in keys <==> x in counts && counts[x] == n
  {
    keys := [];
    var todo := counts.Keys;
    while todo != {}
      invariant todo <= counts.Keys && NoRepeats(keys)
      invariant forall x :: x in keys <==> x in counts && x !in todo && counts[x] == n
      decreases |todo|
    {
      var x :| x in todo;
      todo := todo - {x};
      if counts[x] == n {
        keys := keys + [x];
      }
    }
  }

  lemma SortedWithoutRepeats(items: seq<string>, sorted: seq<string>)
    requires NoRepeats(items) && Sorted(sorted) && multiset(sorted) == multiset(items)
    ensures StrictlySorted(sorted) && SameElements(sorted, items)
  {
    forall x ensures x in sorted <==> x in items {
      assert x in sorted <==> x in multiset(sorted);
      assert x in items <==> x in multiset(items);
    }
    forall i, j | 0 <= i < j < |sorted| ensures sorted[i] != sorted[j] {
      if sorted[i] == sorted[j] {
        TwiceCounts(sorted, i, j);
        OnceCounts(items, sorted[i]);
      }
    }
  }

  lemma TwiceCounts(s: seq<string>, i: nat, j: nat)
    requires i < j < |s| && s[i] == s[j]
    ensures multiset(s)[s[i]] >= 2
  {
    assert s == s[..j] + s[j..];
    assert s[i] in s[..j] && s[j] in s[j..];
  }

  lemma {:induction false} OnceCounts(s: seq<string>, x: string)
    requires NoRepeats(s)
    ensures multiset(s)[x] <= 1
  {
    if s != [] {
      OnceCounts(s[1..], x);
      assert s == [s[0]] + s[1..];
      if x == s[0] { assert x !in s[1..]; }
    }
  }

  // ---------------------------------------------------------------- skip rules

  datatype Rules = Rules(filePatterns: seq<string>, extensions: seq<string>, targetPatterns: seq<string>)

  datatype FilterConfig = FilterConfig(global: Rules, test: Rules, build: Rules, run: Rules)

  /** The rules of the kinds a requested type stands for: one kind, all three for "all", none if it is unknown. */
  function KindsOf(config: FilterConfig, targetType: string): seq<Rules> {
    if targetType == "test" then [config.test]
    else if targetType == "build" || targetType == "binary" then [config.build]
    else if targetType == "run" then [config.run]
    else if targetType == "all" then [config.test, config.build, config.run]
    else []
  }

  /** The combined rules are those of the global and of the specific ones together. */
  ghost predicate Combines(global: Rules, specific: Rules, combined: Rules) {
    && SameElements(combined.filePatterns, global.filePatterns + specific.filePatterns)
    && SameElements(combined.extensions, global.extensions + specific.extensions)
    && SameElements(combined.targetPatterns, global.targetPatterns + specific.targetPatterns)
  }

  method CombineWithGlobal(global: Rules, specific: Rules) returns (combined: Rules)
    ensures Combines(global, specific, combined)
  {
    var filePatterns := Unique(global.filePatterns + specific.filePatterns);
    var extensions := Unique(global.extensions + specific.extensions);
    var targetPatterns := Unique(global.targetPatterns + specific.targetPatterns);
    combined := Rules(filePatterns, extensions, targetPatterns);
  }

  /** The kinds of all requested types, in order. */
  function AllKinds(config: FilterConfig, targetTypes: seq<string>, normalize: string -> string): seq<Rules> {
    if targetTypes == [] then []
    else AllKinds(config, targetTypes[..|targetTypes| - 1], normalize)
         + KindsOf(config, normalize(targetTypes[|targetTypes| - 1]))
  }

  /** A rule of each field is merged if it is global or a rule of every requested kind. */
  ghost predicate MergedField(merged: seq<string>, global: seq<string>, kinds: seq<seq<string>>) {
    forall x :: x in merged <==> x in global || (kinds != [] && InAll(kinds, x))
  }

  function FilePatterns(kinds: seq<Rules>): (out: seq<seq<string>>)
    ensures |out| == |kinds| && forall i :: 0 <= i < |kinds| ==> out[i] == kinds[i].filePatterns
  {
    seq(|kinds|, i requires 0 <= i < |kinds| => kinds[i].filePatterns)
  }

  function Extensions(kinds: seq<Rules>): (out: seq<seq<string>>)
    ensures |out| == |kinds| && forall i :: 0 <= i < |kinds| ==> out[i] == kinds[i].extensions
  {
    seq(|kinds|, i requires 0 <= i < |kinds| => kinds[i].extensions)
  }

  function TargetPatterns(kinds: seq<Rules>): (out: seq<seq<string>>)
    ensures |out| == |kinds| && forall i :: 0 <= i < |kinds| ==> out[i] == kinds[i].targetPatterns
  {
    seq(|kinds|, i requires 0 <= i < |kinds| => kinds[i].targetPatterns)
  }

  /** The merged rules of the requested kinds. */
  ghost predicate Merges(config: FilterConfig, kinds: seq<Rules>, merged: Rules) {
    && MergedField(merged.filePatterns, config.global.filePatterns, FilePatterns(kinds))
    && MergedField(merged.extensions, config.global.extensions, Extensions(kinds))
    && MergedField(merged.targetPatterns, config.global.targetPatterns, TargetPatterns(kinds))
  }

  /** mergeTargetTypeConfigs; `normalize` stands for trimming and lower-casing a type. */
  method MergeTargetTypeConfigs(config: FilterConfig, targetTypes: seq<string>, normalize: string -> string)
    returns (merged: Rules)
    ensures Merges(config, AllKinds(config, targetTypes, normalize), merged)
  {
    if |targetTypes| == 0 {
      return config.global;
    }
    var configs: seq<Rules> := [];
    ghost var kinds: seq<Rules> := [];
    for i := 0 to |targetTypes|
      invariant kinds == AllKinds(config, targetTypes[..i], normalize) && |configs| == |kinds|
      invariant forall k :: 0 <= k < |kinds| ==> Combines(config.global, kinds[k], configs[k])
    {
      assert targetTypes[..i + 1][..i] == targetTypes[..i];
      var t := normalize(targetTypes[i]);
      kinds := kinds + KindsOf(config, t);
      var more := ConfigsOf(config, t);
      configs := configs + more;
    }
    assert targetTypes[..|targetTypes|] == targetTypes;
    merged := MergeConfigs(config, kinds, configs);
  }

  /** No known kind: the global rules; one: its combined rules; several: what all of them share. */
  method MergeConfigs(config: FilterConfig, ghost kinds: seq<Rules>, configs: seq<Rules>) returns (merged: Rules)
    requires |configs| == |kinds| && forall k :: 0 <= k < |kinds| ==> Combines(config.global, kinds[k], configs[k])
    ensures Merges(config, kinds, merged)
  {
    if |configs| == 0 {
      return config.global;
    }
    if |configs| == 1 {
      return configs[0];
    }
    var filePatterns := IntersectStrings(FilePatterns(configs));
    var extensions := IntersectStrings(Extensions(configs));
    var targetPatterns := IntersectStrings(TargetPatterns(configs));
    merged := Rules(filePatterns, extensions, targetPatterns);
  }

  /** The combined configurations a requested type adds. */
  method ConfigsOf(config: FilterConfig, targetType: string) returns (configs: seq<Rules>)
    ensures |configs| == |KindsOf(config, targetType)|
    ensures forall k :: 0 <= k < |configs| ==> Combines(config.global, KindsOf(config, targetType)[k], configs[k])
  {
    match targetType
    case "test" =>
      var c := CombineWithGlobal(config.global, config.test);
      configs := [c];
    case "build" =>
      var c := CombineWithGlobal(config.global, config.build);
      configs := [c];
    case "binary" =>
      var c := CombineWithGlobal(config.global, config.build);
      configs := [c];
    case "run" =>
      var c := CombineWithGlobal(config.global, config.run);
      configs := [c];
    case "all" =>
      var t := CombineWithGlobal(config.global, config.test);
      var b := CombineWithGlobal(config.global, config.build);
      var r := CombineWithGlobal(config.global, config.run);
      configs := [t, b, r];
    case _ =>
      configs := [];
  }

  // ---------------------------------------------------------------- skipping files

  /** filepath.Ext: from the last dot of the last path element. */
  function Extension(path: string): string {
    if path == [] || path[|path| - 1] == '/' then ""
    else if path[|path| - 1] == '.' then "."
    else
      var front := Extension(path[..|path| - 1]);
      if front == "" then "" else front + [path[|path| - 1]]
  }

  /** Some rule skips the file; `matches` is the matching of a compiled pattern. */
  ghost predicate Skips(rules: Rules, file: string, matches: (string, string) -> bool) {
    || (exists p :: p in rules.filePatterns && matches(p, file))
    || Extension(file) in rules.extensions
  }

  method ShouldSkipFile(rules: Rules, file: string, matches: (string, string) -> bool) returns (skip: bool)
    ensures skip == Skips(rules, file, matches)
  {
    for i := 0 to |rules.filePatterns|
      invariant forall j :: 0 <= j < i ==> !matches(rules.filePatterns[j], file)
    {
      if matches(rules.filePatterns[i], file) {
        return true;
      }
    }
    var ext := Extension(file);
    for i := 0 to |rules.extensions|
      invariant forall j :: 0 <= j < i ==> rules.extensions[j] != ext
    {
      if ext == rules.extensions[i] {
        return true;
      }
    }
    skip := false;
  }

  lemma {:induction false} RequestedKind(config: FilterConfig, targetTypes: seq<string>, normalize: string -> string, i: nat)
    requires i < |targetTypes|
    ensures forall k :: k in KindsOf(config, normalize(targetTypes[i])) ==> k in AllKinds(config, targetTypes, normalize)
  {
    if i < |targetTypes| - 1 {
      RequestedKind(config, targetTypes[..|targetTypes| - 1], normalize, i);
    }
  }

  /** Merging is safe: the merged rules contain every global rule, and a file that they skip is skipped by the own rules
      of every kind that was requested. */
  lemma MergedRulesAreSafe(config: FilterConfig, targetTypes: seq<string>, normalize: string -> string, merged: Rules,
                           file: string, matches: (string, string) -> bool, i: nat, kind: Rules, own: Rules)
    requires Merges(config, AllKinds(config, targetTypes, normalize), merged)
    requires i < |targetTypes| && kind in KindsOf(config, normalize(targetTypes[i])) && Combines(config.global, kind, own)
    ensures forall x :: x in config.global.filePatterns ==> x in merged.filePatterns
    ensures forall x :: x in config.global.extensions ==> x in merged.extensions
    ensures forall x :: x in config.global.targetPatterns ==> x in merged.targetPatterns
    ensures Skips(merged, file, matches) ==> Skips(own, file, matches)
  {
    RequestedKind(config, targetTypes, normalize, i);
    var kinds := AllKinds(config, targetTypes, normalize);
    var k :| 0 <= k < |kinds| && kinds[k] == kind;
    assert FilePatterns(kinds)[k] == kind.filePatterns && Extensions(kinds)[k] == kind.extensions;
    if Skips(merged, file, matches) {
      if p :| p in merged.filePatterns && matches(p, file) {
        assert p in config.global.filePatterns + kind.filePatterns;
      } else {
        assert Extension(file) in config.global.extensions + kind.extensions;
      }
    }
  }

  /** With one kind requested nothing is lost either: the merged rules skip exactly what the kind's own rules skip. */
  lemma OneKindIsExact(config: FilterConfig, merged: Rules, file: string, matches: (string, string) -> bool,
                       kind: Rules, own: Rules)
    requires Merges(config, [kind], merged) && Combines(config.global, kind, own)
    ensures Skips(merged, file, matches) <==> Skips(own, file, matches)
  {
    assert FilePatterns([kind]) == [kind.filePatterns] && Extensions([kind]) == [kind.extensions];
    forall x ensures x in merged.filePatterns <==> x in own.filePatterns {
      assert x in own.filePatterns <==> x in config.global.filePatterns + kind.filePatterns;
      assert InAll([kind.filePatterns], x) <==> x in [kind.filePatterns][0];
    }
    forall x ensures x in merged.extensions <==> x in own.extensions {
      assert x in own.extensions <==> x in config.global.extensions + kind.extensions;
      assert InAll([kind.extensions], x) <==> x in [kind.extensions][0];
    }
  }

  // ---------------------------------------------------------------- query scope

  /** The directory of a package label: without the leading slashes and the target after the colon. */
  function PathOf(package: string): string {
    var rest := if "//" <= package then package[2..] else package;
    UpToColon(rest)
  }

  function UpToColon(s: string): string {
    if s == [] || s[0] == ':' then "" else [s[0]] + UpToColon(s[1..])
  }

  /** The directories of all packages but the root. */
  function PathsOf(labels: seq<string>): seq<string> {
    if labels == [] then []
    else
      var p := PathOf(labels[|labels| - 1]);
      PathsOf(labels[..|labels| - 1]) + if p == "" then [] else [p]
  }

  predicate Ancestor(p: string, q: string) {
    p + "/" <= q
  }

  ghost predicate HasAncestor(paths: seq<string>, p: string) {
    exists q :: q in paths && Ancestor(q, p)
  }

  /** The kept paths are those without an ancestor among the paths, as often as they occur. */
  ghost predicate Keeps(paths: seq<string>, kept: seq<string>) {
    && Sorted(kept)
    && forall p :: multiset(kept)[p] == (if HasAncestor(paths, p) then 0 else multiset(paths)[p])
  }

  function ScopeOf(kept: seq<string>): string {
    if kept == [] then ""
    else if |kept| == 1 then "//" + kept[0] + "/..."
    else ScopeOf(kept[..|kept| - 1]) + " + //" + kept[|kept| - 1] + "/..."
  }

  lemma AncestorTransitive(p: string, q: string, r: string)
    requires Ancestor(p, q) && Ancestor(q, r)
    ensures Ancestor(p, r)
  {
    assert p + "/" <= q <= r;
  }

  /** Going up from a path ends at an ancestor that has none. */
  lemma {:induction false} Topmost(paths: seq<string>, p: string) returns (top: string)
    requires HasAncestor(paths, p)
    ensures top in paths && Ancestor(top, p) && !HasAncestor(paths, top)
    decreases |p|
  {
    top :| top in paths && Ancestor(top, p);
    if HasAncestor(paths, top) {
      var higher := Topmost(paths, top);
      AncestorTransitive(higher, top, p);
      top := higher;
    }
  }

  /** In a sorted sequence ancestors come earlier. */
  lemma AncestorEarlier(sorted: seq<string>, i: nat, q: string)
    requires Sorted(sorted) && i < |sorted| && q in sorted && Ancestor(q, sorted[i])
    ensures q in sorted[..i]
  {
    var j :| 0 <= j < |sorted| && sorted[j] == q;
    AncestorIsLess(q, sorted[i]);
    assert j < i;
    assert sorted[..i][j] == q;
  }

  lemma AncestorIsLess(q: string, p: string)
    requires Ancestor(q, p)
    ensures q != p && !LexLe(p, q)
  {
    PrefixLe(q, p);
    if LexLe(p, q) { LexAntisymmetric(p, q); }
  }

  /** The scope written from the kept paths; the whole workspace if there are none. */
  ghost predicate IsScope(paths: seq<string>, kept: seq<string>, scope: string) {
    Keeps(paths, kept) && scope == if paths == [] then "//..." else ScopeOf(kept)
  }

  method DetermineQueryScope(labels: seq<string>) returns (scope: string)
    ensures exists kept :: IsScope(PathsOf(labels), kept, scope)
  {
    var paths: seq<string> := [];
    for i := 0 to |labels|
      invariant paths == PathsOf(labels[..i])
    {
      assert labels[..i + 1][..i] == labels[..i];
      var path := PathOf(labels[i]);
      if path != "" {
        paths := paths + [path];
      }
    }
    assert labels[..|labels|] == labels;
    if |paths| == 0 {
      assert IsScope(paths, [], "//...");
      return "//...";
    }
    var sorted := SortStrings(paths);
    var unique := KeepTopmost(sorted);
    AllKept(sorted, unique);
    SamePaths(paths, sorted, unique);
    scope := "//" + unique[0] + "/...";
    for i := 1 to |unique|
      invariant scope == ScopeOf(unique[..i])
    {
      assert unique[..i + 1][..i] == unique[..i];
      scope := scope + " + //" + unique[i] + "/...";
    }
    assert unique[..|unique|] == unique;
    assert IsScope(paths, unique, scope);
  }

  lemma SamePaths(paths: seq<string>, sorted: seq<string>, kept: seq<string>)
    requires multiset(sorted) == multiset(paths) && Keeps(sorted, kept)
    ensures Keeps(paths, kept)
  {
    forall p ensures HasAncestor(paths, p) <==> HasAncestor(sorted, p) {
      forall q ensures q in paths <==> q in sorted {
        assert q in multiset(paths) <==> q in multiset(sorted);
      }
    }
  }

  /** The loop that drops paths under a path kept before. */
  method KeepTopmost(sorted: seq<string>) returns (unique: seq<string>)
    requires sorted != [] && Sorted(sorted)
    ensures unique != [] && KeptSoFar(sorted, |sorted|, unique)
  {
    unique := [sorted[0]];
    FirstHasNoAncestor(sorted);
    for i := 1 to |sorted|
      invariant KeptSoFar(sorted, i, unique)
    {
      hide Sorted, HasAncestor, KeptSoFar;
      var isChild := IsUnder(unique, sorted[i]);
      ChildIff(sorted, i, unique);
      KeepOneMore(sorted, i, unique);
      if !isChild {
        unique := unique + [sorted[i]];
      }
    }
  }

  lemma AllKept(sorted: seq<string>, unique: seq<string>)
    requires KeptSoFar(sorted, |sorted|, unique)
    ensures Keeps(sorted, unique)
  {
    assert sorted[..|sorted|] == sorted;
  }

  /** Whether a path lies under one of the kept ones. */
  method IsUnder(unique: seq<string>, path: string) returns (isChild: bool)
    ensures isChild == HasAncestor(unique, path)
  {
    isChild := false;
    for j := 0 to |unique|
      invariant forall k :: 0 <= k < j ==> !Ancestor(unique[k], path)
    {
      if Ancestor(unique[j], path) {
        return true;
      }
    }
  }

  /** The first i sorted paths have been dealt with. */
  ghost predicate KeptSoFar(sorted: seq<string>, i: nat, unique: seq<string>) {
    && 1 <= i <= |sorted| && unique != [] && Sorted(unique)
    && (forall x :: x in unique ==> x in sorted[..i])
    && forall p :: multiset(unique)[p] == (if HasAncestor(sorted, p) then 0 else multiset(sorted[..i])[p])
  }

  lemma FirstHasNoAncestor(sorted: seq<string>)
    requires sorted != [] && Sorted(sorted)
    ensures KeptSoFar(sorted, 1, [sorted[0]])
  {
    assert sorted[..1] == [sorted[0]];
    if HasAncestor(sorted, sorted[0]) {
      var q :| q in sorted && Ancestor(q, sorted[0]);
      AncestorEarlier(sorted, 0, q);
    }
  }

  /** A path has an ancestor among the kept ones exactly when it has one at all. */
  lemma ChildIff(sorted: seq<string>, i: nat, unique: seq<string>)
    requires Sorted(sorted) && i < |sorted| && KeptSoFar(sorted, i, unique)
    ensures HasAncestor(unique, sorted[i]) <==> HasAncestor(sorted, sorted[i])
  {
    if HasAncestor(unique, sorted[i]) {
      var q :| q in unique && Ancestor(q, sorted[i]);
      assert q in sorted;
    }
    if HasAncestor(sorted, sorted[i]) {
      var top := Topmost(sorted, sorted[i]);
      AncestorEarlier(sorted, i, top);
      assert top in multiset(sorted[..i]);
      assert top in multiset(unique);
    }
  }

  lemma KeepOneMore(sorted: seq<string>, i: nat, unique: seq<string>)
    requires Sorted(sorted) && i < |sorted| && KeptSoFar(sorted, i, unique)
    ensures KeptSoFar(sorted, i + 1, if HasAncestor(sorted, sorted[i]) then unique else unique + [sorted[i]])
  {
    assert sorted[..i + 1] == sorted[..i] + [sorted[i]];
    forall k | 0 <= k < |unique| ensures LexLe(unique[k], sorted[i]) {
      assert unique[k] in unique;
      var j :| 0 <= j < i && sorted[..i][j] == unique[k];
    }
  }

  // ---------------------------------------------------------------- what the scope means

  /** Every path is one of `cover` or lies under one. */
  ghost predicate Covers(cover: seq<string>, paths: seq<string>) {
    forall p :: p in paths ==> p in cover || HasAncestor(cover, p)
  }

  /** The kept paths are the minimal cover: they are among the paths, they cover all of them, none lies inside another,
      and every other cover by some of the paths contains them. */
  lemma KeptIsMinimalCover(paths: seq<string>, kept: seq<string>)
    requires Keeps(paths, kept)
    ensures forall p :: p in kept ==> p in paths
    ensures Covers(kept, paths)
    ensures forall p :: p in kept ==> !HasAncestor(kept, p)
    ensures forall cover :: (forall c :: c in cover ==> c in paths) && Covers(cover, paths) ==>
              forall p :: p in kept ==> p in cover
  {
    forall p ensures p in kept <==> p in paths && !HasAncestor(paths, p) {
      assert p in kept <==> p in multiset(kept);
      assert p in paths <==> p in multiset(paths);
    }
    forall p | p in paths ensures p in kept || HasAncestor(kept, p) {
      if HasAncestor(paths, p) {
        var top := Topmost(paths, p);
        assert top in kept;
      }
    }
    forall p | p in kept ensures !HasAncestor(kept, p) {
      forall q | q in kept ensures !Ancestor(q, p) { assert q in paths; }
    }
    forall cover, p | (forall c :: c in cover ==> c in paths) && Covers(cover, paths) && p in kept ensures p in cover {
      assert p in paths;
      forall c | c in cover ensures !Ancestor(c, p) { assert c in paths; }
    }
  }
}
