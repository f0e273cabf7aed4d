/** The license policy: the lists a job is judged by, and the settings each license is attributed to. */
module Licenses {
  import opened Common
  import opened Settings
  import opened Scanners
  import Order

  const DENY := "deny"
  const WARN := "warn"
  const DENY_FROM := "denyFrom"
  const WARN_FROM := "warnFrom"
  const FILE_PATTERNS := "filePatterns"
  const TRIVY_LICENSE := "trivy-license"
  const TRIVY_FS := "trivy-fs"

  // ---- lists that only grow ----

  /** Adds the ids of a list that are not empty and not there yet. */
  function Added(out: seq<string>, ids: seq<string>): seq<string>
    decreases ids
  {
    if ids == [] then out
    else Added(if ids[0] != "" && ids[0] !in out then out + [ids[0]] else out, ids[1..])
  }

  lemma {:induction false} AddedHolds(out: seq<string>, ids: seq<string>)
    ensures forall id :: id in Added(out, ids) <==> id in out || (id != "" && id in ids)
    ensures Distinct(out) ==> Distinct(Added(out, ids))
    decreases ids
  {
    if ids != [] {
      var next := if ids[0] != "" && ids[0] !in out then out + [ids[0]] else out;
      AddedHolds(next, ids[1..]);
      assert forall id :: id in ids <==> id == ids[0] || id in ids[1..];
    }
  }

  method AddTo(out: seq<string>, ids: seq<string>) returns (r: seq<string>)
    ensures r == Added(out, ids)
  {
    r := out;
    for i := 0 to |ids|
      invariant Added(out, ids) == Added(r, ids[i..])
    {
      assert ids[i..][1..] == ids[i + 1..];
      if ids[i] != "" && ids[i] !in r {
        r := r + [ids[i]];
      }
    }
  }

  /** The project's ids for a key and the component's, sorted. */
  function Policy(project: Block, comp: Block, key: string): seq<string> {
    Order.Sort(Added(Added([], Strings(project, key)), Strings(comp, key)))
  }

  /** `unionSetting`. */
  method UnionSetting(project: Block, comp: Block, key: string) returns (out: seq<string>)
    ensures out == Policy(project, comp, key)
  {
    var ids := SettingStrings(project, key);
    out := AddTo([], ids);
    ids := SettingStrings(comp, key);
    out := AddTo(out, ids);
    out := Order.Sort(out);
  }

  /** `union`. */
  method Union(policy: seq<string>, own: seq<string>) returns (out: seq<string>)
    ensures out == Order.Sort(Added(policy, own))
  {
    out := AddTo(policy, own);
    out := Order.Sort(out);
  }

  /** Exactly the ids either level lists, each once and in order, the empty one left out. */
  lemma {:induction false} PolicyHolds(project: Block, comp: Block, key: string)
    ensures Order.StrictlySorted(Policy(project, comp, key))
    ensures forall id :: id in Policy(project, comp, key) <==>
      id != "" && (id in Strings(project, key) || id in Strings(comp, key))
  {
    hide Strings;
    var a := Added([], Strings(project, key));
    AddedHolds([], Strings(project, key));
    AddedHolds(a, Strings(comp, key));
    Order.SortSorts(Added(a, Strings(comp, key)));
    Order.SortDistinct(Added(a, Strings(comp, key)));
  }

  lemma {:induction false} UnionHolds(policy: seq<string>, own: seq<string>)
    requires Distinct(policy)
    ensures Order.StrictlySorted(Order.Sort(Added(policy, own)))
    ensures forall id :: id in Order.Sort(Added(policy, own)) <==> id in policy || (id != "" && id in own)
  {
    AddedHolds(policy, own);
    Order.SortSorts(Added(policy, own));
    Order.SortDistinct(Added(policy, own));
  }

  // ---- attribution ----

  /** A setting that may list a license, in the order they merge. */
  datatype Source = Project | Component | ProjectBlock | ComponentBlock

  type Origins = map<string, seq<Source>>

  function From(from: Origins, id: string): seq<Source> { if id in from then from[id] else [] }

  function Noted(from: Origins, place: Source, ids: seq<string>): Origins
    decreases ids
  {
    if ids == [] then from
    else
      var next := if ids[0] != "" && place !in From(from, ids[0])
                  then from[ids[0] := From(from, ids[0]) + [place]] else from;
      Noted(next, place, ids[1..])
  }

  method Note(from: Origins, place: Source, ids: seq<string>) returns (r: Origins)
    ensures r == Noted(from, place, ids)
  {
    r := from;
    for i := 0 to |ids|
      invariant Noted(from, place, ids) == Noted(r, place, ids[i..])
    {
      assert ids[i..][1..] == ids[i + 1..];
      if ids[i] != "" && place !in From(r, ids[i]) {
        r := r[ids[i] := From(r, ids[i]) + [place]];
      }
    }
  }

  lemma {:induction false} NotedIs(from: Origins, place: Source, ids: seq<string>)
    requires forall id :: id in from ==> from[id] != []
    ensures var r := Noted(from, place, ids);
            forall id ::
              From(r, id) ==
              From(from, id) + (if id != "" && id in ids && place !in From(from, id) then [place] else [])
    ensures forall id :: id in Noted(from, place, ids) <==> id in from || (id != "" && id in ids)
    ensures forall id :: id in Noted(from, place, ids) ==> Noted(from, place, ids)[id] != []
    decreases ids
  {
    if ids != [] {
      var next := if ids[0] != "" && place !in From(from, ids[0])
                  then from[ids[0] := From(from, ids[0]) + [place]] else from;
      NotedIs(next, place, ids[1..]);
      assert forall id :: id in ids <==> id == ids[0] || id in ids[1..];
    }
  }

  /** The block a scanner has at one level, if the setting there is one. */
  function BlockAt(settings: Block, scanner: string): Option<Block> {
    var key := KeyFor(scanner);
    if key in settings && settings[key].Map? then Some(settings[key].entries) else None
  }

  /** A block writes something other than null for a key. */
  predicate Writes(block: Option<Block>, key: string) {
    block.Some? && key in block.value && block.value[key] != Null
  }

  /** The list a scanner's own blocks are read for, and where it is written. */
  function OwnList(project: Block, comp: Block, scanner: string, key: string): (seq<string>, Source) {
    var c, p := BlockAt(comp, scanner), BlockAt(project, scanner);
    if Writes(c, key) then (Strings(c.value, key), ComponentBlock)
    else if p.Some? then (Strings(p.value, key), ProjectBlock)
    else ([], ProjectBlock)
  }

  function Sources(project: Block, comp: Block, scanner: string, key: string): Origins {
    var own := OwnList(project, comp, scanner, key);
    Noted(Noted(Noted(map[], Project, Strings(project, key)), Component, Strings(comp, key)), own.1, own.0)
  }

  /** `policySources`. */
  method PolicySources(project: Block, comp: Block, scanner: string, key: string) returns (from: Origins)
    ensures from == Sources(project, comp, scanner, key)
  {
    hide Strings, KeyFor, Noted;
    from := map[];
    var ids := SettingStrings(project, key);
    from := Note(from, Project, ids);
    ids := SettingStrings(comp, key);
    from := Note(from, Component, ids);
    var c, p := BlockAt(comp, scanner), BlockAt(project, scanner);
    if c.Some? && key in c.value && c.value[key] != Null {
      ids := SettingStrings(c.value, key);
      from := Note(from, ComponentBlock, ids);
    } else if p.Some? {
      ids := SettingStrings(p.value, key);
      from := Note(from, ProjectBlock, ids);
    } else {
      NoteNothing(from, ProjectBlock);
    }
  }

  lemma {:induction false} NoteNothing(from: Origins, place: Source)
    ensures Noted(from, place, []) == from
  {
  }

  /** Each license is attributed to exactly the settings that list it: the project's, then the component's,
      then the scanner's own block, each once. */
  lemma {:induction false} SourcesAre(project: Block, comp: Block, scanner: string, key: string, id: string)
    ensures var own := OwnList(project, comp, scanner, key);
            From(Sources(project, comp, scanner, key), id) ==
              (if id != "" && id in Strings(project, key) then [Project] else []) +
              (if id != "" && id in Strings(comp, key) then [Component] else []) +
              (if id != "" && id in own.0 then [own.1] else [])
    ensures id in Sources(project, comp, scanner, key) <==>
              id != "" &&
                (id in Strings(project, key) || id in Strings(comp, key) ||
                 id in OwnList(project, comp, scanner, key).0)
  {
    hide Strings, OwnList, Noted;
    OwnIsABlocks(project, comp, scanner, key);
    var own := OwnList(project, comp, scanner, key);
    NotedThrice(Strings(project, key), Strings(comp, key), own.0, own.1, id);
  }

  lemma {:induction false} OwnIsABlocks(project: Block, comp: Block, scanner: string, key: string)
    ensures OwnList(project, comp, scanner, key).1 in {ProjectBlock, ComponentBlock}
  {
  }

  lemma {:induction false} NotedThrice(first: seq<string>, second: seq<string>, third: seq<string>, own: Source,
          id: string)
    requires own in {ProjectBlock, ComponentBlock}
    ensures var r := Noted(Noted(Noted(map[], Project, first), Component, second), own, third);
            && From(r, id) == (if id != "" && id in first then [Project] else []) +
                              (if id != "" && id in second then [Component] else []) +
                              (if id != "" && id in third then [own] else [])
            && (id in r <==> id != "" && (id in first || id in second || id in third))
  {
    hide Noted;
    var a := Noted(map[], Project, first);
    NotedIs(map[], Project, first);
    assert From(map[], id) == [];
    var b := Noted(a, Component, second);
    NotedIs(a, Component, second);
    NotedIs(b, own, third);
    assert From(a, id) == if id != "" && id in first then [Project] else [];
  }

  // ---- the settings a job carries ----

  function FromKey(key: string): string { if key == DENY then DENY_FROM else WARN_FROM }

  /** How a job's settings name where a license is listed. */
  type Spelling = seq<Source> -> string

  function Spelled(from: Origins, spell: Spelling): Value {
    Map(map id | id in from :: Text(spell(from[id])))
  }

  /** A scanner's own settings with one list of the policy joined in. */
  function WithList(cfg: Block, policy: seq<string>, own: Block, key: string): Block {
    if policy == [] then cfg else cfg[key := Texts(Order.Sort(Added(policy, Strings(own, key))))]
  }

  function WithSources(cfg: Block, from: Origins, key: string, spell: Spelling): Block {
    if from == map[] then cfg - {FromKey(key)} else cfg[FromKey(key) := Spelled(from, spell)]
  }

  /** A scanner's settings once the keys of `done` are settled. */
  function Listed(project: Block, comp: Block, own: Block, done: set<string>): Block {
    var a := if DENY in done then WithList(own, Policy(project, comp, DENY), own, DENY) else own;
    if WARN in done then WithList(a, Policy(project, comp, WARN), own, WARN) else a
  }

  function Attributed(project: Block, comp: Block, scanner: string, cfg: Block, spell: Spelling,
          done: set<string>): Block
  {
    var a := if DENY in done then WithSources(cfg, Sources(project, comp, scanner, DENY), DENY, spell) else cfg;
    if WARN in done then WithSources(a, Sources(project, comp, scanner, WARN), WARN, spell) else a
  }

  const POLICY_KEYS := {DENY, WARN}

  /** What one job of a scanner is configured with. */
  function JobConfig(project: Block, comp: Block, sel: Selection, patterns: Option<seq<string>>,
          spell: Spelling): Block
  {
    var lists := Listed(project, comp, sel.config, POLICY_KEYS);
    var cfg := Attributed(project, comp, sel.name, lists, spell, POLICY_KEYS);
    if patterns.Some? then cfg[FILE_PATTERNS := Texts(patterns.value)] else cfg - {FILE_PATTERNS}
  }

  lemma {:induction false} KeysDiffer()
    ensures |{DENY, WARN, DENY_FROM, WARN_FROM, FILE_PATTERNS, ENABLED}| == 6
    ensures DENY != WARN && DENY_FROM != WARN_FROM && ENABLED !in {DENY, WARN, DENY_FROM, WARN_FROM, FILE_PATTERNS}
    ensures {DENY, WARN} !! {DENY_FROM, WARN_FROM, FILE_PATTERNS} && FILE_PATTERNS !in {DENY_FROM, WARN_FROM}
  {
  }

  lemma {:induction false} OneMoreList(project: Block, comp: Block, own: Block, done: set<string>, key: string)
    requires done <= POLICY_KEYS && key in POLICY_KEYS - done
    ensures Listed(project, comp, own, done + {key}) ==
      WithList(Listed(project, comp, own, done), Policy(project, comp, key), own, key)
  {
    hide Policy, WithList;
    ListsCommute(own, Policy(project, comp, DENY), Policy(project, comp, WARN));
  }

  lemma {:induction false} ListsCommute(own: Block, denied: seq<string>, warned: seq<string>)
    ensures WithList(WithList(own, denied, own, DENY), warned, own, WARN) ==
            WithList(WithList(own, warned, own, WARN), denied, own, DENY)
  {
    hide Strings, Added;
    assert DENY != WARN by { KeysDiffer(); }
  }

  lemma {:induction false} OneMoreSource(project: Block, comp: Block, scanner: string, cfg: Block, spell: Spelling,
          done: set<string>, key: string)
    requires done <= POLICY_KEYS && key in POLICY_KEYS - done
    ensures Attributed(project, comp, scanner, cfg, spell, done + {key}) ==
            WithSources(Attributed(project, comp, scanner, cfg, spell, done),
                        Sources(project, comp, scanner, key), key, spell)
  {
    hide Sources, WithSources;
    var denied, warned := Sources(project, comp, scanner, DENY), Sources(project, comp, scanner, WARN);
    SourcesCommute(cfg, denied, warned, spell);
  }

  /** The two attributions are under different keys. */
  lemma {:induction false} SourcesCommute(cfg: Block, denied: Origins, warned: Origins, spell: Spelling)
    ensures WithSources(WithSources(cfg, denied, DENY, spell), warned, WARN, spell) ==
            WithSources(WithSources(cfg, warned, WARN, spell), denied, DENY, spell)
  {
    hide Spelled;
    assert FromKey(DENY) != FromKey(WARN) by { KeysDiffer(); }
  }

  /** The policy's lists joined into a scanner's settings, in whatever order the policy gives its keys. */
  method JoinLists(project: Block, comp: Block, policy: map<string, seq<string>>, own: Block) returns (cfg: Block)
    requires policy == LicensePolicy(project, comp)
    ensures cfg == Listed(project, comp, own, POLICY_KEYS)
  {
    hide Policy, Strings, Added, Listed;
    cfg := own;
    var left := policy.Keys;
    NothingToList(project, comp, own, POLICY_KEYS - left);
    while left != {}
      invariant left <= policy.Keys && cfg == Listed(project, comp, own, POLICY_KEYS - left)
      decreases left
    {
      var k :| k in left;
      OneMoreList(project, comp, own, POLICY_KEYS - left, k);
      assert POLICY_KEYS - (left - {k}) == POLICY_KEYS - left + {k};
      left := left - {k};
      var ids := SettingStrings(own, k);
      var list := Union(policy[k], ids);
      cfg := cfg[k := Texts(list)];
    }
    assert POLICY_KEYS - {} == POLICY_KEYS;
  }

  lemma {:induction false} NothingToList(project: Block, comp: Block, own: Block, done: set<string>)
    requires forall k :: k in done ==> Policy(project, comp, k) == []
    ensures Listed(project, comp, own, done) == own
  {
    hide Policy, Strings, Added;
  }

  method Attribute(project: Block, comp: Block, scanner: string, lists: Block, spell: Spelling) returns (cfg: Block)
    ensures cfg == Attributed(project, comp, scanner, lists, spell, POLICY_KEYS)
  {
    hide Sources, Spelled, FromKey, Attributed;
    cfg := lists;
    var left := POLICY_KEYS;
    assert POLICY_KEYS - left == {};
    NothingToAttribute(project, comp, scanner, lists, spell);
    while left != {}
      invariant left <= POLICY_KEYS && cfg == Attributed(project, comp, scanner, lists, spell, POLICY_KEYS - left)
      decreases left
    {
      var k :| k in left;
      OneMoreSource(project, comp, scanner, lists, spell, POLICY_KEYS - left, k);
      assert POLICY_KEYS - (left - {k}) == POLICY_KEYS - left + {k};
      left := left - {k};
      ghost var before := cfg;
      cfg := cfg - {FromKey(k)};
      var from := PolicySources(project, comp, scanner, k);
      if from != map[] {
        cfg := cfg[FromKey(k) := Spelled(from, spell)];
        assert cfg == before[FromKey(k) := Spelled(from, spell)];
      }
    }
    assert POLICY_KEYS - {} == POLICY_KEYS;
  }

  lemma {:induction false} NothingToAttribute(project: Block, comp: Block, scanner: string, lists: Block,
          spell: Spelling)
    ensures Attributed(project, comp, scanner, lists, spell, {}) == lists
  {
  }

  /** One job's settings. */
  method Configure(project: Block, comp: Block, policy: map<string, seq<string>>, sel: Selection,
          patterns: Option<seq<string>>, spell: Spelling)
    returns (cfg: Block)
    requires policy == LicensePolicy(project, comp)
    ensures cfg == JobConfig(project, comp, sel, patterns, spell)
  {
    hide Listed, Attributed, LicensePolicy;
    cfg := JoinLists(project, comp, policy, sel.config);
    cfg := Attribute(project, comp, sel.name, cfg, spell);
    ghost var before := cfg;
    cfg := cfg - {FILE_PATTERNS};
    if patterns.Some? {
      cfg := cfg[FILE_PATTERNS := Texts(patterns.value)];
      assert cfg == before[FILE_PATTERNS := Texts(patterns.value)];
    }
  }

  /** `licensePolicy`, with a key only for a list that holds something. */
  function LicensePolicy(project: Block, comp: Block): map<string, seq<string>> {
    map k | k in POLICY_KEYS && Policy(project, comp, k) != [] :: Policy(project, comp, k)
  }

  // ---- what a job's lists hold ----

  /** Two settings agree on a key. */
  predicate Agree(a: Block, b: Block, key: string) {
    (key in a <==> key in b) && (key in a ==> a[key] == b[key])
  }

  lemma {:induction false} AttributionLeavesLists(project: Block, comp: Block, scanner: string, cfg: Block,
          patterns: Option<seq<string>>, spell: Spelling, key: string)
    requires key in POLICY_KEYS
    ensures var a := Attributed(project, comp, scanner, cfg, spell, POLICY_KEYS);
            Agree(if patterns.Some? then a[FILE_PATTERNS := Texts(patterns.value)] else a - {FILE_PATTERNS}, cfg, key)
  {
    hide Sources, Spelled;
    KeysDiffer();
  }

  lemma {:induction false} ListedAt(project: Block, comp: Block, own: Block, key: string)
    requires key in POLICY_KEYS
    ensures Agree(Listed(project, comp, own, POLICY_KEYS), WithList(own, Policy(project, comp, key), own, key), key)
  {
    hide Policy, Strings, Added;
    KeysDiffer();
  }

  lemma {:induction false} JobList(project: Block, comp: Block, sel: Selection, patterns: Option<seq<string>>,
          spell: Spelling, key: string)
    requires key in POLICY_KEYS
    ensures var policy := Policy(project, comp, key);
            Strings(JobConfig(project, comp, sel, patterns, spell), key) ==
            if policy == [] then Strings(sel.config, key) else Order.Sort(Added(policy, Strings(sel.config, key)))
  {
    hide Policy, Added, Listed, Attributed;
    var lists := Listed(project, comp, sel.config, POLICY_KEYS);
    AttributionLeavesLists(project, comp, sel.name, lists, patterns, spell, key);
    ListedAt(project, comp, sel.config, key);
  }

  /** A job's list holds at least what the project lists and what the component lists, whatever the scanner's
      own blocks write: exactly those ids and the block's own. */
  lemma {:induction false} ListsOnlyTighten(project: Block, comp: Block, sel: Selection, patterns: Option<seq<string>>,
          spell: Spelling, key: string, id: string)
    requires key in POLICY_KEYS && id != ""
    ensures id in Strings(JobConfig(project, comp, sel, patterns, spell), key) <==>
            id in Strings(project, key) || id in Strings(comp, key) || id in Strings(sel.config, key)
  {
    hide Policy, Added, Strings, JobConfig;
    JobList(project, comp, sel, patterns, spell, key);
    PolicyHolds(project, comp, key);
    var policy := Policy(project, comp, key);
    assert Distinct(policy);
    UnionHolds(policy, Strings(sel.config, key));
    assert id in policy ==> policy != [];
  }

  /** The list a selected scanner's settings hold is the one its attribution reads, unless the component
      writes null for it: then the settings hold none, and the attribution reads the project's. */
  lemma {:induction false} OwnListIsMerged(project: Block, comp: Block, scanner: string, key: string)
    requires key in POLICY_KEYS
    ensures var c := BlockAt(comp, scanner);
            Strings(Select(MergedBlocks(project, comp), scanner).config, key) ==
            if c.Some? && key in c.value && c.value[key] == Null then [] else OwnList(project, comp, scanner, key).0
  {
    KeysDiffer();
    hide KeyFor;
    var block := KeyFor(scanner);
    var merged := BlockOf(MergedBlocks(project, comp), block);
    assert Strings(Config(merged), key) == Strings(merged, key);
    var c, p := BlockAt(comp, scanner), BlockAt(project, scanner);
    if c.Some? {
      var under := if p.Some? then p.value else map[];
      assert merged == Merge(Map(under), Map(c.value)).entries;
      MergedKey(under, c.value, key);
    }
  }

  lemma {:induction false} MergedKey(p: Block, c: Block, key: string)
    ensures var m := Merge(Map(p), Map(c)).entries;
            Strings(m, key) == if key in c then Strings(c, key) else Strings(p, key)
  {
  }

  /** The licenses a job's settings name the places of. */
  function AttributedIds(cfg: Block, key: string): set<string> {
    var at := if key == "deny" then "denyFrom" else "warnFrom";
    if at in cfg && cfg[at].Map? then cfg[at].entries.Keys else {}
  }

  /** Whatever else a scanner's settings hold, its jobs keep. */
  lemma {:induction false} TheRestIsKept(project: Block, comp: Block, sel: Selection, patterns: Option<seq<string>>,
          spell: Spelling, key: string)
    requires key !in {"deny", "warn", "denyFrom", "warnFrom", "filePatterns"}
    ensures Agree(JobConfig(project, comp, sel, patterns, spell), sel.config, key)
  {
    hide Policy, Sources;
    var lists := Listed(project, comp, sel.config, POLICY_KEYS);
    var cfg := Attributed(project, comp, sel.name, lists, spell, POLICY_KEYS);
    assert Agree(lists, sel.config, key);
    assert Agree(cfg, lists, key);
  }

  lemma {:induction false} JobAttribution(project: Block, comp: Block, sel: Selection, patterns: Option<seq<string>>,
          spell: Spelling, key: string)
    requires key in POLICY_KEYS
    ensures AttributedIds(JobConfig(project, comp, sel, patterns, spell), key) ==
      Sources(project, comp, sel.name, key).Keys
    ensures forall id :: id in Sources(project, comp, sel.name, key) ==>
              JobConfig(project, comp, sel, patterns, spell)[FromKey(key)].entries[id] ==
                Text(spell(Sources(project, comp, sel.name, key)[id]))
  {
    KeysDiffer();
    hide Listed, Sources;
  }

  /** A job's attribution names every license of its list and no other; except exactly where the component's
      block writes null over a list of the project's block that holds an id neither level lists: that id is
      attributed and not in the list. */
  lemma {:induction false} AttributionIsExact(project: Block, comp: Block, scanner: string,
          patterns: Option<seq<string>>, spell: Spelling, key: string)
    requires key in POLICY_KEYS
    ensures var job := JobConfig(project, comp, Select(MergedBlocks(project, comp), scanner), patterns, spell);
            (forall id :: id in AttributedIds(job, key) <==> id != "" && id in Strings(job, key)) <==>
            !NulledOver(project, comp, scanner, key)
  {
    hide JobConfig, Strings, Sources, OwnList, AttributedIds, BlockAt, MergedBlocks;
    var sel := Select(MergedBlocks(project, comp), scanner);
    var job := JobConfig(project, comp, sel, patterns, spell);
    var own := OwnList(project, comp, scanner, key).0;
    JobAttribution(project, comp, sel, patterns, spell, key);
    OwnListIsMerged(project, comp, scanner, key);
    OwnUnderNull(project, comp, scanner, key);
    forall id
      ensures id in AttributedIds(job, key) <==>
        id != "" && (id in Strings(project, key) || id in Strings(comp, key) || id in own)
    {
      SourcesAre(project, comp, scanner, key, id);
    }
    forall id | id != ""
      ensures id in Strings(job, key) <==>
        id in Strings(project, key) || id in Strings(comp, key) || id in Strings(sel.config, key)
    {
      ListsOnlyTighten(project, comp, sel, patterns, spell, key, id);
    }
    if NulledOver(project, comp, scanner, key) {
      var id :| id != "" && id in own && id !in Strings(project, key) && id !in Strings(comp, key);
      assert id in AttributedIds(job, key) && id !in Strings(job, key);
    }
  }

  /** The component's block for a scanner writes null for a list, and the project's lists an id there which
      neither level lists for the whole control. */
  ghost predicate NulledOver(project: Block, comp: Block, scanner: string, key: string) {
    var c, p := BlockAt(comp, scanner), BlockAt(project, scanner);
    && c.Some? && key in c.value && c.value[key] == Null && p.Some?
    && exists id :: id != "" && id in Strings(p.value, key) && id !in Strings(project, key) && id !in Strings(comp, key)
  }

  /** A project whose trivy-license block denies a license, and a component whose block writes null for the
      list: the job is told where the license is denied, and does not deny it. */
  lemma {:induction false} NullKeepsTheAttribution(patterns: Option<seq<string>>, spell: Spelling)
    ensures var project: Block := map[KeyFor(TRIVY_LICENSE) := Map(map[DENY := Texts(["GPL-3.0"])])];
            var comp: Block := map[KeyFor(TRIVY_LICENSE) := Map(map[DENY := Null])];
            var job := JobConfig(project, comp, Select(MergedBlocks(project, comp), TRIVY_LICENSE), patterns, spell);
            "GPL-3.0" in AttributedIds(job, DENY) && "GPL-3.0" !in Strings(job, DENY)
  {
    var k := KeyFor(TRIVY_LICENSE);
    var project: Block := map[k := Map(map[DENY := Texts(["GPL-3.0"])])];
    var comp: Block := map[k := Map(map[DENY := Null])];
    assert k != DENY;
    assert OwnList(project, comp, TRIVY_LICENSE, DENY).0 == ["GPL-3.0"];
    assert Strings(project, DENY) == [] && Strings(comp, DENY) == [];
    var sel := Select(MergedBlocks(project, comp), TRIVY_LICENSE);
    assert Strings(sel.config, DENY) == [] by {
      hide KeyFor;
      OwnListIsMerged(project, comp, TRIVY_LICENSE, DENY);
    }
    hide JobConfig, Strings, Sources, OwnList, MergedBlocks, KeyFor, Select;
    JobAttribution(project, comp, sel, patterns, spell, DENY);
    SourcesAre(project, comp, TRIVY_LICENSE, DENY, "GPL-3.0");
    ListsOnlyTighten(project, comp, sel, patterns, spell, DENY, "GPL-3.0");
  }

  lemma {:induction false} OwnUnderNull(project: Block, comp: Block, scanner: string, key: string)
    ensures NulledOver(project, comp, scanner, key) <==>
            var c := BlockAt(comp, scanner);
            && c.Some? && key in c.value && c.value[key] == Null
            && exists id ::
                 id != "" && id in OwnList(project, comp, scanner, key).0 && id !in Strings(project, key) &&
                 id !in Strings(comp, key)
  {
  }

  // ---- planning ----

  datatype Target =
    | Repository(url: string, revision: string, paths: seq<string>, ignore: seq<string>, upstream: bool)
    | Image(ref: string, digest: string, upstream: bool)

  datatype Job = Job(scanner: string, target: Target, config: Block)

  /** What the descriptor says: each level's settings for this control and for `sca`. */
  datatype Descriptor = Descriptor(project: Block, comp: Block, scaProject: Block, scaComp: Block, spell: Spelling)

  function FilePatterns(d: Descriptor): seq<string> {
    var key := KeyFor(TRIVY_FS);
    Strings(Merge(Map(BlockOf(Blocks(d.scaProject), key)), Map(BlockOf(Blocks(d.scaComp), key))).entries, FILE_PATTERNS)
  }

  /** Only trivy-license on a repository reads the files sca's setting names. */
  function PatternsFor(d: Descriptor, target: Target, scanner: string): Option<seq<string>> {
    if target.Repository? && scanner == TRIVY_LICENSE && FilePatterns(d) != [] then Some(FilePatterns(d)) else None
  }

  function JobFor(d: Descriptor, target: Target, sel: Selection): Job {
    Job(sel.name, target, JobConfig(d.project, d.comp, sel, PatternsFor(d, target, sel.name), d.spell))
  }

  function TargetJobs(d: Descriptor, target: Target, sels: seq<Selection>): (r: seq<Job>)
    ensures |r| == |sels| && forall i :: 0 <= i < |sels| ==> r[i] == JobFor(d, target, sels[i])
  {
    if sels == [] then [] else [JobFor(d, target, sels[0])] + TargetJobs(d, target, sels[1..])
  }

  function Jobs(d: Descriptor, targets: seq<Target>, sels: seq<Selection>): seq<Job> {
    if targets == [] then [] else TargetJobs(d, targets[0], sels) + Jobs(d, targets[1..], sels)
  }

  /** `Plan`: every selected scanner on every repository, then on every image. */
  method Plan(d: Descriptor, repositories: seq<Target>, images: seq<Target>) returns (jobs: seq<Job>)
    ensures var merged := MergedBlocks(d.project, d.comp);
            exists extra :: Extras(merged, [TRIVY_LICENSE], extra) &&
                            jobs ==
                              Jobs(d, repositories + images,
                                   Defaults(merged, [TRIVY_LICENSE]) + Selections(merged, extra))
  {
    hide MergedBlocks, Extras, Defaults, Selections, JobConfig, Merge, KeyFor, Blocks, Strings, LicensePolicy;
    var deny := UnionSetting(d.project, d.comp, DENY);
    var warn := UnionSetting(d.project, d.comp, WARN);
    var policy := (if deny != [] then map[DENY := deny] else map[]) + (if warn != [] then map[WARN := warn] else map[]);
    assert policy == LicensePolicy(d.project, d.comp) by { PolicyIs(d.project, d.comp); }
    var key := KeyFor(TRIVY_FS);
    var block := DeepMerge(BlockOf(Blocks(d.scaProject), key), BlockOf(Blocks(d.scaComp), key));
    var patterns := SettingStrings(block, FILE_PATTERNS);
    assert patterns == FilePatterns(d);
    var sels := ResolveScanners(d.project, Some(d.comp), [TRIVY_LICENSE]);
    jobs := PlanTargets(d, policy, patterns, repositories + images, sels);
  }

  lemma {:induction false} PolicyIs(project: Block, comp: Block)
    ensures var deny, warn := Policy(project, comp, DENY), Policy(project, comp, WARN);
            LicensePolicy(project, comp) ==
              (if deny != [] then map[DENY := deny] else map[]) + (if warn != [] then map[WARN := warn] else map[])
  {
    hide Policy;
    KeysDiffer();
  }

  method PlanTargets(d: Descriptor, policy: map<string, seq<string>>, patterns: seq<string>, targets: seq<Target>,
          sels: seq<Selection>)
    returns (jobs: seq<Job>)
    requires policy == LicensePolicy(d.project, d.comp) && patterns == FilePatterns(d)
    ensures jobs == Jobs(d, targets, sels)
  {
    hide JobFor, LicensePolicy, FilePatterns, TargetJobs;
    jobs := [];
    for t := 0 to |targets|
      invariant Jobs(d, targets, sels) == jobs + Jobs(d, targets[t..], sels)
    {
      assert targets[t..][1..] == targets[t + 1..];
      var more := PlanTarget(d, policy, patterns, targets[t], sels);
      jobs := jobs + more;
    }
    assert targets[|targets|..] == [];
  }

  method PlanTarget(d: Descriptor, policy: map<string, seq<string>>, patterns: seq<string>, target: Target,
          sels: seq<Selection>)
    returns (jobs: seq<Job>)
    requires policy == LicensePolicy(d.project, d.comp) && patterns == FilePatterns(d)
    ensures jobs == TargetJobs(d, target, sels)
  {
    hide JobConfig, LicensePolicy, FilePatterns, TargetJobs, JobFor, PatternsFor;
    jobs := [];
    TargetJobsAt(d, target, sels);
    for i := 0 to |sels|
      invariant jobs == TargetJobs(d, target, sels)[..i]
    {
      var wanted := target.Repository? && sels[i].name == TRIVY_LICENSE && |patterns| > 0;
      var cfg := Configure(d.project, d.comp, policy, sels[i], if wanted then Some(patterns) else None, d.spell);
      JobIs(d, target, sels[i], patterns);
      jobs := jobs + [Job(sels[i].name, target, cfg)];
    }
  }

  lemma {:induction false} JobIs(d: Descriptor, target: Target, sel: Selection, patterns: seq<string>)
    requires patterns == FilePatterns(d)
    ensures var wanted := target.Repository? && sel.name == TRIVY_LICENSE && |patterns| > 0;
            JobFor(d, target, sel) ==
              Job(sel.name, target, JobConfig(d.project, d.comp, sel, if wanted then Some(patterns) else None, d.spell))
  {
    hide JobConfig, FilePatterns;
  }

  lemma {:induction false} TargetJobsAt(d: Descriptor, target: Target, sels: seq<Selection>)
    ensures var r := TargetJobs(d, target, sels);
            |r| == |sels| && forall i :: 0 <= i < |sels| ==> r[i] == JobFor(d, target, sels[i])
  {
  }

  lemma {:induction false} JobsAre(d: Descriptor, targets: seq<Target>, sels: seq<Selection>, job: Job)
    ensures job in Jobs(d, targets, sels) <==>
      exists t, i :: 0 <= t < |targets| && 0 <= i < |sels| && job == JobFor(d, targets[t], sels[i])
  {
    hide JobFor;
    if targets != [] {
      JobsAre(d, targets[1..], sels, job);
      var first := TargetJobs(d, targets[0], sels);
      if job in first {
        var i :| 0 <= i < |first| && first[i] == job;
        assert job == JobFor(d, targets[0], sels[i]);
      }
      if t, i :| 0 <= t < |targets| && 0 <= i < |sels| && job == JobFor(d, targets[t], sels[i]) {
        if t == 0 { assert first[i] == job; } else { assert targets[1..][t - 1] == targets[t]; }
      }
    }
  }

  /** Each target's jobs stand together, one for each scanner in the scanners' order, after those of the targets
      before it. */
  lemma {:induction false} JobsInOrder(d: Descriptor, before: seq<Target>, target: Target, after: seq<Target>,
          sels: seq<Selection>)
    ensures var own := seq(|sels|, i requires 0 <= i < |sels| =>
              Job(sels[i].name, target,
                  JobConfig(d.project, d.comp, sels[i], PatternsFor(d, target, sels[i].name), d.spell)));
            Jobs(d, before + [target] + after, sels) == Jobs(d, before, sels) + own + Jobs(d, after, sels)
  {
    OwnJobs(d, target, sels);
    hide JobConfig, PatternsFor, TargetJobs;
    JobsConcat(d, before + [target], after, sels);
    JobsConcat(d, before, [target], sels);
    assert Jobs(d, [target], sels) == TargetJobs(d, target, sels) by { assert [target][1..] == []; }
    hide Jobs;
  }

  lemma {:induction false} OwnJobs(d: Descriptor, target: Target, sels: seq<Selection>)
    ensures TargetJobs(d, target, sels) == seq(|sels|, i requires 0 <= i < |sels| =>
              Job(sels[i].name, target,
                  JobConfig(d.project, d.comp, sels[i], PatternsFor(d, target, sels[i].name), d.spell)))
  {
    hide JobConfig, PatternsFor;
    TargetJobsAt(d, target, sels);
  }

  lemma {:induction false} JobsConcat(d: Descriptor, a: seq<Target>, b: seq<Target>, sels: seq<Selection>)
    ensures Jobs(d, a + b, sels) == Jobs(d, a, sels) + Jobs(d, b, sels)
  {
    hide TargetJobs;
    if a == [] {
      assert a + b == b;
    } else {
      assert (a + b)[1..] == a[1..] + b;
      JobsConcat(d, a[1..], b, sels);
    }
  }

  /** A job reads the files sca's setting names exactly when it is trivy-license on a repository and sca names
      some, whatever the scanner's own block writes under that key. */
  lemma {:induction false} PatternsAreScas(d: Descriptor, target: Target, sel: Selection)
    ensures var cfg := JobFor(d, target, sel).config;
            && (FILE_PATTERNS in cfg <==> target.Repository? && sel.name == TRIVY_LICENSE && FilePatterns(d) != [])
            && (FILE_PATTERNS in cfg ==> cfg[FILE_PATTERNS] == Texts(FilePatterns(d)))
  {
    hide Listed, Attributed, FilePatterns;
  }

  /** The guarantee: whatever a component or a scanner's block writes, every job planned denies what the
      project and the component deny, and warns of what they warn of. */
  lemma {:induction false} EveryJobHoldsThePolicy(d: Descriptor, targets: seq<Target>, sels: seq<Selection>, job: Job,
          key: string, id: string)
    requires job in Jobs(d, targets, sels) && key in POLICY_KEYS && id != ""
    requires id in Strings(d.project, key) || id in Strings(d.comp, key)
    ensures id in Strings(job.config, key)
  {
    hide JobConfig, Strings, PatternsFor;
    JobsAre(d, targets, sels, job);
    var t, i :| 0 <= t < |targets| && 0 <= i < |sels| && job == JobFor(d, targets[t], sels[i]);
    ListsOnlyTighten(d.project, d.comp, sels[i], PatternsFor(d, targets[t], sels[i].name), d.spell, key, id);
  }
}
