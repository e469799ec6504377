/** Resolving a recipe: its extends chain overlaid from the root down, the defaults filled in, faithful overrides. */
module RecipeOverlay {
  import opened Outcomes

  datatype Value =
    | Null | Bool(flag: bool) | Number(number: real) | Text(text: string)
    | List(items: seq<Value>) | Mapping(entries: Data)

  type Data = map<string, Value>

  function Get(data: Data, key: string): Option<Value> {
    if key in data then Some(data[key]) else None
  }

  const KIND := "kind"
  const EXECUTOR := "executor"
  const KIND_SECTIONS: set<string> := {"executor", "oracle", "profiler", "adversary"}
  const FIXES: set<string> :=
    {"fence_tag", "prompt_spaces", "baseline_both", "prompt_newlines", "parsed_diagnostics", "execution_gate"}
  const UNCAPPED := Text("uncapped")

  // ----- merging

  /** The parent overlaid by the child: two mappings merge, and anything else from the child wins. */
  function Merge(parent: Data, child: Data): (merged: Data)
    ensures merged.Keys == parent.Keys + child.Keys
    decreases Mapping(child)
  {
    map key | key in parent.Keys + child.Keys ::
      if key in child then
        if key in parent && parent[key].Mapping? && child[key].Mapping?
        then Mapping(Merge(parent[key].entries, child[key].entries))
        else child[key]
      else parent[key]
  }

  // the value at a path of keys into nested mappings
  function At(data: Data, path: seq<string>): Option<Value>
    requires path != []
    decreases |path|
  {
    if path[0] !in data then None
    else if |path| == 1 then Some(data[path[0]])
    else if data[path[0]].Mapping? then At(data[path[0]].entries, path[1..])
    else None
  }

  // the child says nothing about the path: it stops at a missing key, below mappings of both
  predicate Silent(parent: Data, child: Data, path: seq<string>)
    requires path != []
    decreases |path|
  {
    path[0] !in child
    || (|path| > 1 && path[0] in parent && parent[path[0]].Mapping? && child[path[0]].Mapping?
        && Silent(parent[path[0]].entries, child[path[0]].entries, path[1..]))
  }

  /** What the child sets stands, unless it is a mapping to merge into; where it is silent, the parent's stands. */
  lemma {:induction false} MergeAt(parent: Data, child: Data, path: seq<string>)
    requires path != []
    ensures At(child, path).Some? && !At(child, path).value.Mapping?
            ==> At(Merge(parent, child), path) == At(child, path)
    ensures Silent(parent, child, path) ==> At(Merge(parent, child), path) == At(parent, path)
    decreases |path|
  {
    if |path| > 1 && path[0] in child && path[0] in parent && child[path[0]].Mapping? && parent[path[0]].Mapping? {
      MergeAt(parent[path[0]].entries, child[path[0]].entries, path[1..]);
    }
  }

  // the value is a mapping in both
  predicate BothMappings(a: Option<Value>, b: Option<Value>) {
    a.Some? && a.value.Mapping? && b.Some? && b.value.Mapping?
  }

  /** Where the child is not silent its value stands, merged into the parent's when both are mappings. */
  lemma {:induction false} MergeElse(parent: Data, child: Data, path: seq<string>)
    requires path != [] && !Silent(parent, child, path)
    ensures At(Merge(parent, child), path)
         == if BothMappings(At(parent, path), At(child, path))
            then Some(Mapping(Merge(At(parent, path).value.entries, At(child, path).value.entries)))
            else At(child, path)
    decreases |path|
  {
    if |path| > 1 && path[0] in child && path[0] in parent && child[path[0]].Mapping? && parent[path[0]].Mapping? {
      MergeElse(parent[path[0]].entries, child[path[0]].entries, path[1..]);
    }
  }

  // ----- one file over the chain so far

  datatype Form = Single | PerLanguage

  // an executor section's form; None when it is no mapping or an empty one
  function FormOf(section: Option<Value>): Option<Form> {
    if section.None? || !section.value.Mapping? || section.value.entries == map[] then None
    else if KIND in section.value.entries then Some(Single) else Some(PerLanguage)
  }

  predicate NamesOtherKind(inherited: Option<Value>, own: Option<Value>) {
    && inherited.Some? && inherited.value.Mapping? && own.Some? && own.value.Mapping?
    && KIND in inherited.value.entries && KIND in own.value.entries
    && inherited.value.entries[KIND] != own.value.entries[KIND]
  }

  predicate SwitchesForm(inherited: Option<Value>, own: Option<Value>) {
    FormOf(inherited).Some? && FormOf(own).Some? && FormOf(inherited) != FormOf(own)
  }

  function MergeExecutors(inherited: Data, own: Data): Data {
    map language | language in inherited.Keys + own.Keys ::
      if language in own then
        if language in inherited && inherited[language].Mapping? && own[language].Mapping?
           && !NamesOtherKind(Get(inherited, language), Get(own, language))
        then Mapping(Merge(inherited[language].entries, own[language].entries))
        else own[language]
      else inherited[language]
  }

  /** One file's keys over the chain so far. */
  function Overlay(merged: Data, child: Data): Data {
    var inherited, own := Get(merged, EXECUTOR), Get(child, EXECUTOR);
    var switched := (set section |
                       section in KIND_SECTIONS && NamesOtherKind(Get(merged, section), Get(child, section)))
                    + (if SwitchesForm(inherited, own) then {EXECUTOR} else {});
    var result := Merge(merged - switched, child);
    if FormOf(inherited) == Some(PerLanguage) && FormOf(own) == Some(PerLanguage) then
      result[EXECUTOR := Mapping(MergeExecutors(inherited.value.entries, own.value.entries))]
    else result
  }

  function OverlayAll(merged: Data, files: seq<Data>): Data
    decreases |files|
  {
    if files == [] then merged else OverlayAll(Overlay(merged, files[0]), files[1..])
  }

  // ----- a section of the result depends on that section alone

  // the child's section replaces the inherited one whole
  ghost predicate Switches(section: string, inherited: Option<Value>, own: Option<Value>) {
    || (section in KIND_SECTIONS && NamesOtherKind(inherited, own))
    || (section == EXECUTOR && SwitchesForm(inherited, own))
  }

  ghost function SectionStep(section: string, inherited: Option<Value>, own: Option<Value>): Option<Value> {
    if own.None? then inherited
    else if inherited.None? || !inherited.value.Mapping? || !own.value.Mapping? || Switches(section, inherited, own)
    then own
    else if section == EXECUTOR && FormOf(inherited) == Some(PerLanguage) && FormOf(own) == Some(PerLanguage)
    then Some(Mapping(MergeExecutors(inherited.value.entries, own.value.entries)))
    else Some(Mapping(Merge(inherited.value.entries, own.value.entries)))
  }

  lemma OverlaySection(section: string, merged: Data, child: Data)
    ensures Get(Overlay(merged, child), section) == SectionStep(section, Get(merged, section), Get(child, section))
  {
    hide MergeExecutors;
  }

  lemma {:induction false} SameSection(section: string, a: Data, b: Data, files: seq<Data>)
    requires Get(a, section) == Get(b, section)
    ensures Get(OverlayAll(a, files), section) == Get(OverlayAll(b, files), section)
    decreases |files|
  {
    hide Overlay, SectionStep, Get;
    if files == [] {
    } else {
      OverlaySection(section, a, files[0]);
      OverlaySection(section, b, files[0]);
      SameSection(section, Overlay(a, files[0]), Overlay(b, files[0]), files[1..]);
    }
  }

  /**
   * A file that names another kind in a section, or another form of executor, makes the chain before it irrelevant
   * to that section, whatever files follow: the section is what it would be had the chain started there.
   */
  lemma SwitchForgets(section: string, before: Data, file: Data, after: seq<Data>)
    requires Switches(section, Get(before, section), Get(file, section))
    ensures Get(Overlay(before, file), section) == Get(file, section)
    ensures Get(OverlayAll(Overlay(before, file), after), section)
         == Get(OverlayAll(Overlay(map[], file), after), section)
  {
    OverlaySection(section, before, file);
    OverlaySection(section, map[], file);
    hide Overlay;
    SameSection(section, Overlay(before, file), Overlay(map[], file), after);
  }

  // ----- what one file, and a chain of them, leave at a path of keys

  ghost predicate PerLanguageSection(section: Option<Value>) {
    section.Some? && section.value.Mapping? && section.value.entries != map[] && KIND !in section.value.entries
  }

  // the file replaces the path's section whole, or one language's entry of two per-language executor sections
  ghost predicate Replaces(merged: Data, child: Data, path: seq<string>)
    requires path != []
  {
    var inherited, own := Get(merged, path[0]), Get(child, path[0]);
    || Switches(path[0], inherited, own)
    || (path[0] == EXECUTOR && |path| > 1 && PerLanguageSection(inherited) && PerLanguageSection(own)
        && NamesOtherKind(Get(inherited.value.entries, path[1]), Get(own.value.entries, path[1])))
  }

  /**
   * One file over the chain so far, at every path of keys: in what the file replaces, nothing but its own is left;
   * elsewhere what was there stands where the file is silent, and what the file says where it is not.
   */
  lemma OverlayAt(merged: Data, child: Data, path: seq<string>)
    requires path != []
    ensures var result := At(Overlay(merged, child), path);
      if Replaces(merged, child, path) then result == At(child, path)
      else if Silent(merged, child, path) then result == At(merged, path)
      else if BothMappings(At(merged, path), At(child, path)) then result.Some? && result.value.Mapping?
      else result == At(child, path)
  {
    var inherited, own := Get(merged, path[0]), Get(child, path[0]);
    OverlaySection(path[0], merged, child);
    hide Overlay, Merge, MergeExecutors, NamesOtherKind;
    if BothMappings(inherited, own) && |path| > 1 {
      if path[0] == EXECUTOR && PerLanguageSection(inherited) && PerLanguageSection(own) {
        ExecutorsAt(inherited.value.entries, own.value.entries, path[1..]);
      } else {
        MergedAt(inherited.value.entries, own.value.entries, path[1..]);
      }
    }
  }

  lemma MergedAt(parent: Data, child: Data, path: seq<string>)
    requires path != []
    ensures var result := At(Merge(parent, child), path);
      if Silent(parent, child, path) then result == At(parent, path)
      else if BothMappings(At(parent, path), At(child, path)) then result.Some? && result.value.Mapping?
      else result == At(child, path)
  {
    if Silent(parent, child, path) {
      MergeAt(parent, child, path);
    } else {
      MergeElse(parent, child, path);
    }
  }

  lemma ExecutorsAt(inherited: Data, own: Data, path: seq<string>)
    requires path != []
    ensures var result := At(MergeExecutors(inherited, own), path);
      if NamesOtherKind(Get(inherited, path[0]), Get(own, path[0])) then result == At(own, path)
      else if Silent(inherited, own, path) then result == At(inherited, path)
      else if BothMappings(At(inherited, path), At(own, path)) then result.Some? && result.value.Mapping?
      else result == At(own, path)
  {
    hide Merge;
    if |path| > 1 && BothMappings(Get(inherited, path[0]), Get(own, path[0])) {
      MergedAt(inherited[path[0]].entries, own[path[0]].entries, path[1..]);
    }
  }

  // the section's value is a mapping that names this kind
  ghost predicate OfKind(section: Option<Value>, kind: Value) {
    section.Some? && section.value.Mapping? && Get(section.value.entries, KIND) == Some(kind)
  }

  /** A kind section of the chain keeps its keys exactly when the file names the same kind. */
  lemma KindDecides(section: string, merged: Data, child: Data, was: Value, now: Value, key: string)
    requires section in KIND_SECTIONS && OfKind(Get(merged, section), was) && OfKind(Get(child, section), now)
    requires key in merged[section].entries && key !in child[section].entries
    ensures Sets(Get(Overlay(merged, child), section), key) <==> was == now
  {
    OverlaySection(section, merged, child);
  }

  /** And so does one language's entry of two per-language executor sections. */
  lemma EntryKindDecides(inherited: Data, own: Data, language: string, was: Value, now: Value, key: string)
    requires OfKind(Get(inherited, language), was) && OfKind(Get(own, language), now)
    requires key in inherited[language].entries && key !in own[language].entries
    ensures Sets(Get(MergeExecutors(inherited, own), language), key) <==> was == now
  {
  }

  lemma {:induction false} OverlayLast(merged: Data, files: seq<Data>)
    requires files != []
    ensures var n := |files| - 1; OverlayAll(merged, files) == Overlay(OverlayAll(merged, files[..n]), files[n])
    decreases |files|
  {
    hide Overlay;
    if |files| == 1 {
    } else {
      OverlayLast(Overlay(merged, files[0]), files[1..]);
      assert files[1..][..|files| - 2] == files[..|files| - 1][1..];
    }
  }

  // the file says nothing of the path: it stops at a key it lacks, below mappings of its own
  predicate LeavesAlone(file: Data, path: seq<string>)
    requires path != []
    decreases |path|
  {
    path[0] !in file || (|path| > 1 && file[path[0]].Mapping? && LeavesAlone(file[path[0]].entries, path[1..]))
  }

  lemma {:induction false} AloneIsSilent(merged: Data, file: Data, path: seq<string>)
    requires path != [] && At(merged, path).Some? && LeavesAlone(file, path)
    ensures Silent(merged, file, path)
    decreases |path|
  {
    if path[0] !in file {
    } else {
      AloneIsSilent(merged[path[0]].entries, file[path[0]].entries, path[1..]);
    }
  }

  // no file from the i-th on says anything of the path or replaces what it is in
  ghost predicate Untouched(files: seq<Data>, i: nat, path: seq<string>)
    requires path != []
  {
    forall j | i <= j < |files| ::
      LeavesAlone(files[j], path) && !Replaces(OverlayAll(map[], files[..j]), files[j], path)
  }

  /** A value at a path stays while no file touches it. */
  lemma {:induction false} ValueStays(files: seq<Data>, i: nat, path: seq<string>)
    requires path != [] && i <= |files| && Untouched(files, i, path)
    requires At(OverlayAll(map[], files[..i]), path).Some?
    ensures At(OverlayAll(map[], files), path) == At(OverlayAll(map[], files[..i]), path)
    decreases |files|
  {
    hide Overlay, OverlayAll, At, Replaces, LeavesAlone;
    if i == |files| {
      assert files[..i] == files;
    } else {
      var n := |files| - 1;
      var before := files[..n];
      assert before[..i] == files[..i];
      forall j | i <= j < |before|
        ensures LeavesAlone(before[j], path) && !Replaces(OverlayAll(map[], before[..j]), before[j], path)
      {
        assert before[..j] == files[..j] && before[j] == files[j];
      }
      ValueStays(before, i, path);
      OverlayLast(map[], files);
      AloneIsSilent(OverlayAll(map[], before), files[n], path);
      OverlayAt(OverlayAll(map[], before), files[n], path);
    }
  }

  /** The last file that sets a value at a path decides it: later files that do not touch it leave it as it is. */
  lemma LastSetterDecides(files: seq<Data>, i: nat, path: seq<string>)
    requires path != [] && i < |files| && Untouched(files, i + 1, path)
    requires At(files[i], path).Some? && !At(files[i], path).value.Mapping?
    ensures At(OverlayAll(map[], files), path) == At(files[i], path)
  {
    hide Overlay, OverlayAll, Replaces, Untouched;
    var first := files[..i + 1];
    assert first[..i] == files[..i];
    OverlayLast(map[], first);
    SetIsHeard(OverlayAll(map[], files[..i]), files[i], path);
    OverlayAt(OverlayAll(map[], files[..i]), files[i], path);
    ValueStays(files, i + 1, path);
  }

  lemma {:induction false} SetIsHeard(merged: Data, file: Data, path: seq<string>)
    requires path != [] && At(file, path).Some?
    ensures !Silent(merged, file, path)
    decreases |path|
  {
    if |path| > 1 && path[0] in merged && merged[path[0]].Mapping? {
      SetIsHeard(merged[path[0]].entries, file[path[0]].entries, path[1..]);
    }
  }

  // ----- one language's executor

  ghost function Entry(section: Option<Value>, language: string): Option<Value> {
    if FormOf(section) == Some(PerLanguage) then Get(section.value.entries, language) else None
  }

  // the same executor section, or two per-language ones that agree on the language
  ghost predicate SameEntry(a: Option<Value>, b: Option<Value>, language: string) {
    a == b || (FormOf(a) == FormOf(b) == Some(PerLanguage) && Entry(a, language) == Entry(b, language))
  }

  lemma MergeNothing(parent: Data)
    ensures Merge(parent, map[]) == parent
  {
  }

  lemma StepKeepsEntry(a: Option<Value>, b: Option<Value>, own: Option<Value>, language: string)
    requires SameEntry(a, b, language) && language != KIND
    ensures SameEntry(SectionStep(EXECUTOR, a, own), SectionStep(EXECUTOR, b, own), language)
  {
    if a != b && own.Some? && own.value.Mapping? {
      if own.value.entries == map[] {
        MergeNothing(a.value.entries);
        MergeNothing(b.value.entries);
      } else if FormOf(own) == Some(PerLanguage) {
        ExecutorsStayPerLanguage(a, own, language);
        ExecutorsStayPerLanguage(b, own, language);
      }
    }
  }

  lemma ExecutorsStayPerLanguage(inherited: Option<Value>, own: Option<Value>, language: string)
    requires FormOf(inherited) == FormOf(own) == Some(PerLanguage)
    ensures var merged := Some(Mapping(MergeExecutors(inherited.value.entries, own.value.entries)));
      && FormOf(merged) == Some(PerLanguage)
      && Entry(merged, language)
         == if Entry(own, language).None? then Entry(inherited, language)
            else if Entry(inherited, language).None? || !Entry(inherited, language).value.Mapping?
                    || !Entry(own, language).value.Mapping?
                    || NamesOtherKind(Entry(inherited, language), Entry(own, language))
            then Entry(own, language)
            else Some(Mapping(Merge(Entry(inherited, language).value.entries, Entry(own, language).value.entries)))
  {
    var merged := MergeExecutors(inherited.value.entries, own.value.entries);
    var some :| some in own.value.entries;
    assert some in merged;
    hide Merge;
  }

  lemma {:induction false} SameEntryAfter(a: Data, b: Data, files: seq<Data>, language: string)
    requires SameEntry(Get(a, EXECUTOR), Get(b, EXECUTOR), language) && language != KIND
    ensures SameEntry(Get(OverlayAll(a, files), EXECUTOR), Get(OverlayAll(b, files), EXECUTOR), language)
    decreases |files|
  {
    hide Overlay, SectionStep, SameEntry, Get;
    if files == [] {
    } else {
      OverlaySection(EXECUTOR, a, files[0]);
      OverlaySection(EXECUTOR, b, files[0]);
      StepKeepsEntry(Get(a, EXECUTOR), Get(b, EXECUTOR), Get(files[0], EXECUTOR), language);
      SameEntryAfter(Overlay(a, files[0]), Overlay(b, files[0]), files[1..], language);
    }
  }

  /** The same for one language's entry of two per-language executor sections. */
  lemma EntrySwitchForgets(before: Data, file: Data, after: seq<Data>, language: string)
    requires FormOf(Get(before, EXECUTOR)) == FormOf(Get(file, EXECUTOR)) == Some(PerLanguage)
    requires NamesOtherKind(Entry(Get(before, EXECUTOR), language), Entry(Get(file, EXECUTOR), language))
    ensures Entry(Get(Overlay(before, file), EXECUTOR), language) == Entry(Get(file, EXECUTOR), language)
    ensures Entry(Get(OverlayAll(Overlay(before, file), after), EXECUTOR), language)
         == Entry(Get(OverlayAll(Overlay(map[], file), after), EXECUTOR), language)
  {
    OverlaySection(EXECUTOR, before, file);
    OverlaySection(EXECUTOR, map[], file);
    ExecutorsStayPerLanguage(Get(before, EXECUTOR), Get(file, EXECUTOR), language);
    assert language != KIND;
    hide Overlay, MergeExecutors;
    SameEntryAfter(Overlay(before, file), Overlay(map[], file), after, language);
  }

  // ----- no key of the old component survives

  ghost predicate Sets(section: Option<Value>, key: string) {
    section.Some? && section.value.Mapping? && key in section.value.entries
  }

  lemma {:induction false} KeyComesFromAFile(section: string, key: string, merged: Data, files: seq<Data>)
    requires Sets(Get(OverlayAll(merged, files), section), key)
    ensures Sets(Get(merged, section), key) || exists i :: 0 <= i < |files| && Sets(Get(files[i], section), key)
    decreases |files|
  {
    if files == [] {
    } else {
      OverlaySection(section, merged, files[0]);
      hide Overlay, Merge, Get;
      var next := Overlay(merged, files[0]);
      KeyComesFromAFile(section, key, next, files[1..]);
      if !Sets(Get(next, section), key) {
        var i :| 0 <= i < |files[1..]| && Sets(Get(files[1..][i], section), key);
        assert Sets(Get(files[i + 1], section), key);
      } else {
        assert Sets(Get(merged, section), key) || Sets(Get(files[0], section), key);
      }
    }
  }

  /** After a switch, each key left in the section was set by the switching file or by one after it. */
  lemma NoKeySurvivesSwitch(section: string, key: string, before: Data, file: Data, after: seq<Data>)
    requires Switches(section, Get(before, section), Get(file, section))
    requires Sets(Get(OverlayAll(Overlay(before, file), after), section), key)
    ensures Sets(Get(file, section), key) || exists i :: 0 <= i < |after| && Sets(Get(after[i], section), key)
  {
    hide Overlay, Merge, Get, OverlayAll, Switches;
    SwitchForgets(section, before, file, after);
    KeyComesFromAFile(section, key, Overlay(before, file), after);
  }

  // ----- resolving

  function Own(file: Data): Data {
    file - {"extends"}
  }

  function Owns(chain: seq<Data>): seq<Data> {
    if chain == [] then [] else [Own(chain[0])] + Owns(chain[1..])
  }

  function SetDefault(data: Data, key: string, value: Value): (result: Data)
    ensures key in result && (key in data ==> result == data)
  {
    if key in data then data else data[key := value]
  }

  function FixDefaults(fixes: Data): Data {
    (map name | name in FIXES :: Bool(true)) + fixes
  }

  function WithDefaults(data: Data, name: string): Data {
    var named := SetDefault(SetDefault(data, "project", Text(name)), "faithful", Bool(false));
    var fixed := SetDefault(named, "fixes", Mapping(map[]));
    if fixed["fixes"].Mapping? then fixed["fixes" := Mapping(FixDefaults(fixed["fixes"].entries))] else fixed
  }

  function WithFaithful(data: Data): Data
    requires "faithful" in data && "fixes" in data
  {
    if data["faithful"] != Bool(true) then data
    else
      var looped := SetDefault(data, "loop", Mapping(map[]));
      var uncapped := if looped["loop"].Mapping?
                      then looped["loop" := Mapping(looped["loop"].entries["max_corrections" := UNCAPPED])] else looped;
      if uncapped["fixes"].Mapping?
      then uncapped["fixes" := Mapping(uncapped["fixes"].entries + (map name | name in FIXES :: Bool(false)))]
      else uncapped
  }

  /** The chain's files, from the root ancestor to the recipe called `name`, resolved. */
  function Resolve(chain: seq<Data>, name: string): (data: Data)
    ensures "faithful" in data && "fixes" in data && "project" in data
  {
    WithFaithful(WithDefaults(OverlayAll(map[], Owns(chain)), name))
  }

  lemma {:induction false} OverlayAdds(merged: Data, files: seq<Data>, key: string)
    requires key !in merged && forall file | file in files :: key !in file
    requires key !in KIND_SECTIONS
    ensures key !in OverlayAll(merged, files)
    decreases |files|
  {
    if files == [] {
    } else {
      assert files[0] in files;
      OverlayAdds(Overlay(merged, files[0]), files[1..], key);
    }
  }

  lemma {:induction false} OwnsHaveNoExtends(chain: seq<Data>)
    ensures forall file | file in Owns(chain) :: "extends" !in file
  {
    if chain == [] {
    } else {
      OwnsHaveNoExtends(chain[1..]);
    }
  }

  lemma MergeOnNothing(child: Data)
    ensures Merge(map[], child) == child
  {
  }

  lemma OverlayOnNothing(data: Data)
    ensures Overlay(map[], data) == data
  {
    MergeOnNothing(data);
    hide Merge;
    var nothing: Data := map[];
    assert nothing - {} == nothing;
    assert (set section | section in KIND_SECTIONS && NamesOtherKind(Get(map[], section), Get(data, section))) == {};
  }

  // the keys and values the defaults and the overrides leave alone
  ghost predicate Settled(data: Data) {
    && Defaulted(data)
    && (data["faithful"] == Bool(true) ==>
      && (data["fixes"].Mapping? ==> forall name | name in FIXES :: data["fixes"].entries[name] == Bool(false))
      && "loop" in data
      && (data["loop"].Mapping? ==> Get(data["loop"].entries, "max_corrections") == Some(UNCAPPED)))
  }

  ghost predicate Defaulted(data: Data) {
    && "extends" !in data && "project" in data && "faithful" in data && "fixes" in data
    && (data["fixes"].Mapping? ==> FIXES <= data["fixes"].entries.Keys)
  }

  lemma DefaultsFill(data: Data, name: string)
    requires "extends" !in data
    ensures Defaulted(WithDefaults(data, name))
  {
  }

  lemma FaithfulSettles(data: Data)
    requires Defaulted(data)
    ensures Settled(WithFaithful(data))
  {
  }

  lemma ResolveSettles(chain: seq<Data>, name: string)
    ensures Settled(Resolve(chain, name))
  {
    OwnsHaveNoExtends(chain);
    OverlayAdds(map[], Owns(chain), "extends");
    hide OverlayAll, Settled, WithDefaults, WithFaithful;
    DefaultsFill(OverlayAll(map[], Owns(chain)), name);
    FaithfulSettles(WithDefaults(OverlayAll(map[], Owns(chain)), name));
  }

  lemma DefaultsUnchanged(data: Data, name: string)
    requires Defaulted(data)
    ensures WithDefaults(data, name) == data
  {
    if data["fixes"].Mapping? {
      assert FixDefaults(data["fixes"].entries) == data["fixes"].entries;
      assert data["fixes" := data["fixes"]] == data;
    }
  }

  lemma FaithfulUnchanged(data: Data)
    requires Settled(data)
    ensures WithFaithful(data) == data
  {
    if data["faithful"] == Bool(true) {
      if data["loop"].Mapping? {
        var loop := data["loop"].entries;
        assert loop["max_corrections" := UNCAPPED] == loop;
        assert data["loop" := Mapping(loop)] == data;
      }
      if data["fixes"].Mapping? {
        var fixes := data["fixes"].entries;
        assert fixes + (map name | name in FIXES :: Bool(false)) == fixes;
        assert data["fixes" := Mapping(fixes)] == data;
      }
    }
  }

  /** Resolving is a fixpoint: the resolved mapping, loaded alone under any name, resolves to itself. */
  lemma ResolveIdempotent(chain: seq<Data>, name: string, again: string)
    ensures Resolve([Resolve(chain, name)], again) == Resolve(chain, name)
  {
    hide Overlay, WithDefaults, WithFaithful;
    var data := Resolve(chain, name);
    ResolveSettles(chain, name);
    assert Own(data) == data;
    assert Owns([data]) == [data];
    OverlayOnNothing(data);
    assert OverlayAll(map[], [data]) == data;
    DefaultsUnchanged(data, again);
    FaithfulUnchanged(data);
  }

  lemma OwnAt(chain: seq<Data>, path: seq<string>, i: nat)
    requires path != [] && path[0] != "extends" && i < |chain|
    ensures |Owns(chain)| == |chain| && Owns(chain)[i] == Own(chain[i])
    ensures At(Own(chain[i]), path) == At(chain[i], path)
  {
    OwnsEach(chain, i);
  }

  lemma {:induction false} OwnsEach(chain: seq<Data>, i: nat)
    requires i < |chain|
    ensures |Owns(chain)| == |chain| && Owns(chain)[i] == Own(chain[i])
  {
    if |chain| == 1 {
    } else {
      OwnsEach(chain[1..], if i == 0 then 0 else i - 1);
    }
  }

  /** The resolved recipe holds at a path what the last file of its chain to set a value there says. */
  lemma ResolvedLastSetter(chain: seq<Data>, name: string, i: nat, path: seq<string>)
    requires path != [] && path[0] !in {"extends", "fixes"} && i < |chain|
    requires path[0] == "loop" ==> Resolve(chain, name)["faithful"] != Bool(true)
    requires Untouched(Owns(chain), i + 1, path)
    requires At(chain[i], path).Some? && !At(chain[i], path).value.Mapping?
    ensures At(Resolve(chain, name), path) == At(chain[i], path)
  {
    hide Resolve, OverlayAll, Untouched, Owns, Own;
    OwnAt(chain, path, i);
    LastSetterDecides(Owns(chain), i, path);
    DefaultsOnlyFill(chain, name, path[0]);
  }

  // what the chain says of a fix, when its fixes are a mapping
  function FixOf(data: Data, fix: string): Option<Value> {
    if "fixes" in data && data["fixes"].Mapping? then Get(data["fixes"].entries, fix) else None
  }

  /**
   * The defaults only fill in: every key the chain sets keeps its value, but for the loop and the fixes of a faithful
   * recipe; the project is else the recipe's own name, and each fix the chain leaves open is on.
   */
  lemma DefaultsOnlyFill(chain: seq<Data>, name: string, key: string)
    ensures var merged, data := OverlayAll(map[], Owns(chain)), Resolve(chain, name);
      && (key in merged && key !in {"loop", "fixes"} ==> Get(data, key) == Get(merged, key))
      && ("project" !in merged ==> data["project"] == Text(name))
      && ("faithful" !in merged ==> data["faithful"] == Bool(false))
      && (data["faithful"] != Bool(true) ==>
        && (key in merged && key != "fixes" ==> Get(data, key) == Get(merged, key))
        && (key in FIXES && data["fixes"].Mapping? ==>
          FixOf(data, key) == if FixOf(merged, key).Some? then FixOf(merged, key) else Some(Bool(true))))
  {
    var merged := OverlayAll(map[], Owns(chain));
    hide OverlayAll, WithDefaults, WithFaithful;
    DefaultsFilled(merged, name, key);
    FaithfulKeeps(WithDefaults(merged, name), key);
    FaithfulKeeps(WithDefaults(merged, name), "project");
    FaithfulKeeps(WithDefaults(merged, name), "faithful");
  }

  lemma DefaultsFilled(merged: Data, name: string, key: string)
    ensures var data := WithDefaults(merged, name);
      && "project" in data && "faithful" in data && "fixes" in data
      && (key in merged && key != "fixes" ==> Get(data, key) == Get(merged, key))
      && ("project" !in merged ==> data["project"] == Text(name))
      && ("faithful" !in merged ==> data["faithful"] == Bool(false))
      && (key in FIXES && data["fixes"].Mapping? ==>
        FixOf(data, key) == if FixOf(merged, key).Some? then FixOf(merged, key) else Some(Bool(true)))
  {
  }

  lemma FaithfulKeeps(data: Data, key: string)
    requires "faithful" in data && "fixes" in data
    ensures key !in {"loop", "fixes"} ==> Get(WithFaithful(data), key) == Get(data, key)
    ensures data["faithful"] != Bool(true) ==> WithFaithful(data) == data
  {
  }

  /** A recipe resolved as faithful is uncapped with every fix off, whatever its chain said. */
  lemma FaithfulOverrides(chain: seq<Data>, name: string, fix: string)
    requires Resolve(chain, name)["faithful"] == Bool(true) && fix in FIXES
    ensures var data := Resolve(chain, name);
      && (data["fixes"].Mapping? ==> Get(data["fixes"].entries, fix) == Some(Bool(false)))
      && "loop" in data && (data["loop"].Mapping? ==> Get(data["loop"].entries, "max_corrections") == Some(UNCAPPED))
  {
    hide Resolve;
    ResolveSettles(chain, name);
  }

  // ----- the same, changing one mapping in place

  class Resolving {
    var data: Data

    constructor (merged: Data)
      ensures data == merged
    {
      data := merged;
    }

    method SetDefaultKey(key: string, value: Value)
      modifies this
      ensures data == SetDefault(old(data), key, value)
    {
      if key !in data {
        data := data[key := value];
      }
    }

    method MaterializeDefaults(name: string)
      modifies this
      ensures data == WithDefaults(old(data), name)
    {
      SetDefaultKey("project", Text(name));
      SetDefaultKey("faithful", Bool(false));
      SetDefaultKey("fixes", Mapping(map[]));
      if data["fixes"].Mapping? {
        FillFixes(data["fixes"].entries);
      }
    }

    method FillFixes(given: Data)
      modifies this
      ensures data == old(data)["fixes" := Mapping(FixDefaults(given))]
    {
      var fixes, left := given, FIXES;
      while left != {}
        invariant left <= FIXES && fixes == (map fix | fix in FIXES - left :: Bool(true)) + given
      {
        var fix :| fix in left;
        if fix !in fixes {
          fixes := fixes[fix := Bool(true)];
        }
        left := left - {fix};
      }
      assert FIXES - left == FIXES;
      assert fixes == FixDefaults(given);
      data := data["fixes" := Mapping(fixes)];
    }

    method ApplyFaithful()
      requires "faithful" in data && "fixes" in data
      modifies this
      ensures data == WithFaithful(old(data))
    {
      if data["faithful"] != Bool(true) {
        return;
      }
      SetDefaultKey("loop", Mapping(map[]));
      if data["loop"].Mapping? {
        data := data["loop" := Mapping(data["loop"].entries["max_corrections" := UNCAPPED])];
      }
      if data["fixes"].Mapping? {
        data := data["fixes" := Mapping(data["fixes"].entries + (map fix | fix in FIXES :: Bool(false)))];
      }
    }
  }

  method ResolveChain(chain: seq<Data>, name: string) returns (data: Data)
    ensures data == Resolve(chain, name)
  {
    hide Overlay, WithFaithful;
    var merged: Data := map[];
    assert chain[0..] == chain;
    for i := 0 to |chain|
      invariant OverlayAll(merged, Owns(chain[i..])) == OverlayAll(map[], Owns(chain))
    {
      assert chain[i..][1..] == chain[i + 1..];
      merged := Overlay(merged, Own(chain[i]));
    }
    var resolving := new Resolving(merged);
    resolving.MaterializeDefaults(name);
    resolving.ApplyFaithful();
    data := resolving.data;
  }
}
