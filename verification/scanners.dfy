/** Which scanners run for a control, and the settings each runs with. */
module Scanners {
  import opened Common
  import opened Settings
  import Order
  import Text

  const ENABLED := "enabled"

  // ---- the key a scanner is configured under ----

  /** The scanners whose name has more than one word, each with its camelCase key. */
  const CONFIG_KEYS: map<string, string> := map[
    "kube-bench" := "kubeBench",
    "kube-bench-job" := "kubeBenchJob",
    "draugr-k8s-policies" := "draugrK8sPolicies",
    "draugr-tls" := "draugrTls",
    "draugr-headers" := "draugrHeaders",
    "trivy-fs" := "trivyFs",
    "grype-fs" := "grypeFs",
    "trivy-config" := "trivyConfig",
    "trivy-license" := "trivyLicense",
    "mend-sca" := "mendSca",
    "mend-licenses" := "mendLicenses",
    "sarif-import" := "sarifImport"
  ]

  lemma {:induction false} KeysTellScannersApart()
    ensures forall a, b :: a in CONFIG_KEYS && b in CONFIG_KEYS && CONFIG_KEYS[a] == CONFIG_KEYS[b] ==> a == b
  {
  }

  lemma {:induction false} NoKeyIsAName()
    ensures forall a :: a in CONFIG_KEYS ==> CONFIG_KEYS[a] !in CONFIG_KEYS
  {
  }

  /** A key of the table, and the scanner it is for. */
  predicate IsKey(key: string) { exists name :: name in CONFIG_KEYS && CONFIG_KEYS[name] == key }

  function Named(key: string): (name: string)
    requires IsKey(key)
    ensures name in CONFIG_KEYS && CONFIG_KEYS[name] == key
  {
    KeysTellScannersApart();
    var name :| name in CONFIG_KEYS && CONFIG_KEYS[name] == key;
    name
  }

  /** `configKeyFor`. */
  function KeyFor(scanner: string): string {
    if scanner in CONFIG_KEYS then CONFIG_KEYS[scanner] else scanner
  }

  /** `scannerNameFor`: nothing for a hyphenated key. */
  function NameFor(key: string): Option<string> {
    if IsKey(key) then Some(Named(key))
    else if key in CONFIG_KEYS then None
    else Some(key)
  }

  /** Every key accepted is the key of the scanner it names. */
  lemma {:induction false} KeyOfName(key: string)
    ensures NameFor(key).Some? ==> KeyFor(NameFor(key).value) == key
    ensures NameFor(key).None? <==> key in CONFIG_KEYS
  {
    NoKeyIsAName();
  }

  /** A scanner is named by its own key unless its name is another scanner's key. */
  lemma {:induction false} NameOfKey(scanner: string)
    ensures NameFor(KeyFor(scanner)) == Some(scanner) <==> !IsKey(scanner)
  {
    NoKeyIsAName();
    KeysTellScannersApart();
  }

  function Capital(word: string): string {
    if word != "" && 'a' <= word[0] <= 'z' then [word[0] - 'a' + 'A'] + word[1..] else word
  }

  function Capitals(words: seq<string>): string {
    if words == [] then "" else Capital(words[0]) + Capitals(words[1..])
  }

  /** A name's words run together, each but the first with a capital. */
  function CamelCase(name: string): string {
    var words := Text.Split(name, '-');
    words[0] + Capitals(words[1..])
  }

  lemma {:induction false} CamelOf(words: seq<string>)
    requires words != [] && forall w :: w in words ==> '-' !in w
    ensures CamelCase(Text.Join(words, '-')) == words[0] + Capitals(words[1..])
  {
    Text.SplitJoin(words, '-');
  }

  lemma {:induction false} CamelOfTwo(a: string, b: string)
    requires '-' !in a && '-' !in b
    ensures CamelCase(a + "-" + b) == a + Capital(b)
  {
    hide Capital, CamelCase;
    var words := [a, b];
    CamelOf(words);
    assert words[1..] == [b] && [b][1..] == [] && Capitals([b]) == Capital(b) + Capitals([]) == Capital(b);
    assert Text.Join(words, '-') == a + "-" + b;
  }

  lemma {:induction false} CamelOfThree(a: string, b: string, c: string)
    requires '-' !in a && '-' !in b && '-' !in c
    ensures CamelCase(a + "-" + b + "-" + c) == a + Capital(b) + Capital(c)
  {
    hide Capital, CamelCase;
    var words := [a, b, c];
    CamelOf(words);
    assert words[1..] == [b, c] && [b, c][1..] == [c] && [c][1..] == [];
    assert Capitals([b, c]) == Capital(b) + (Capital(c) + Capitals([])) == Capital(b) + Capital(c);
    assert Text.Join([b, c], '-') == b + "-" + c;
    assert a + Capital(b) + Capital(c) == a + (Capital(b) + Capital(c));
    assert Text.Join(words, '-') == a + "-" + (b + "-" + c) == a + "-" + b + "-" + c;
  }

  lemma {:induction false} TwoWords(scanner: string, key: string, a: string, b: string)
    requires scanner in CONFIG_KEYS && CONFIG_KEYS[scanner] == key
    requires scanner == a + "-" + b && key == a + Capital(b) && '-' !in a && '-' !in b
    ensures CONFIG_KEYS[scanner] == CamelCase(scanner)
  {
    hide *;
    CamelOfTwo(a, b);
  }

  lemma {:induction false} ThreeWords(scanner: string, key: string, a: string, b: string, c: string)
    requires scanner in CONFIG_KEYS && CONFIG_KEYS[scanner] == key
    requires scanner == a + "-" + b + "-" + c && key == a + Capital(b) + Capital(c)
    requires '-' !in a && '-' !in b && '-' !in c
    ensures CONFIG_KEYS[scanner] == CamelCase(scanner)
  {
    hide *;
    CamelOfThree(a, b, c);
  }

  lemma {:induction false} KubeKeys(scanner: string)
    requires scanner in {"kube-bench", "kube-bench-job"}
    ensures scanner in CONFIG_KEYS && CONFIG_KEYS[scanner] == CamelCase(scanner)
  {
    hide CamelCase;
    if scanner == "kube-bench" {
      TwoWords("kube-bench", "kubeBench", "kube", "bench");
    } else {
      ThreeWords("kube-bench-job", "kubeBenchJob", "kube", "bench", "job");
    }
  }

  lemma {:induction false} DraugrKeys(scanner: string)
    requires scanner in {"draugr-k8s-policies", "draugr-tls", "draugr-headers"}
    ensures scanner in CONFIG_KEYS && CONFIG_KEYS[scanner] == CamelCase(scanner)
  {
    hide CamelCase;
    if scanner == "draugr-k8s-policies" {
      ThreeWords("draugr-k8s-policies", "draugrK8sPolicies", "draugr", "k8s", "policies");
    } else if scanner == "draugr-tls" {
      TwoWords("draugr-tls", "draugrTls", "draugr", "tls");
    } else {
      TwoWords("draugr-headers", "draugrHeaders", "draugr", "headers");
    }
  }

  lemma {:induction false} TrivyKeys(scanner: string)
    requires scanner in {"trivy-fs", "trivy-config", "trivy-license"}
    ensures scanner in CONFIG_KEYS && CONFIG_KEYS[scanner] == CamelCase(scanner)
  {
    hide CamelCase;
    if scanner == "trivy-fs" {
      TwoWords("trivy-fs", "trivyFs", "trivy", "fs");
    } else if scanner == "trivy-config" {
      TwoWords("trivy-config", "trivyConfig", "trivy", "config");
    } else {
      TwoWords("trivy-license", "trivyLicense", "trivy", "license");
    }
  }

  lemma {:induction false} OtherKeys(scanner: string)
    requires scanner in {"grype-fs", "mend-sca", "mend-licenses", "sarif-import"}
    ensures scanner in CONFIG_KEYS && CONFIG_KEYS[scanner] == CamelCase(scanner)
  {
    hide CamelCase;
    if scanner == "grype-fs" {
      TwoWords("grype-fs", "grypeFs", "grype", "fs");
    } else if scanner == "mend-sca" {
      TwoWords("mend-sca", "mendSca", "mend", "sca");
    } else if scanner == "mend-licenses" {
      TwoWords("mend-licenses", "mendLicenses", "mend", "licenses");
    } else {
      TwoWords("sarif-import", "sarifImport", "sarif", "import");
    }
  }

  /** A scanner of the table, and one whose name is a single word, is configured under its name in camel
      case. */
  lemma {:induction false} KeysAreCamelCase(scanner: string)
    requires scanner in CONFIG_KEYS || '-' !in scanner
    ensures KeyFor(scanner) == CamelCase(scanner)
  {
    if scanner !in CONFIG_KEYS {
      Text.SplitWhole(scanner, '-');
      return;
    }
    var kube, draugr := {"kube-bench", "kube-bench-job"}, {"draugr-k8s-policies", "draugr-tls", "draugr-headers"};
    var trivy := {"trivy-fs", "trivy-config", "trivy-license"};
    assert scanner in kube + draugr + trivy + {"grype-fs", "mend-sca", "mend-licenses", "sarif-import"};
    hide CamelCase, CONFIG_KEYS;
    if scanner in kube {
      KubeKeys(scanner);
    } else if scanner in draugr {
      DraugrKeys(scanner);
    } else if scanner in trivy {
      TrivyKeys(scanner);
    } else {
      OtherKeys(scanner);
    }
  }

  // ---- which scanners run ----

  /** The scanner that decides reachability, which its own setting enables and no block may. */
  const REACHABILITY_ANALYZER := "govulncheck"

  datatype Selection = Selection(name: string, config: Block)

  /** `controlBlocks`: the settings under a control that are themselves blocks. */
  function Blocks(settings: Block): map<string, Block> {
    map k | k in settings && settings[k].Map? :: settings[k].entries
  }

  /** `enabledFlag`. */
  function Flag(block: Block): Option<bool> {
    if ENABLED in block && block[ENABLED].Bool? then Some(block[ENABLED].b) else None
  }

  /** `configFromBlock`, no settings being an empty map. */
  function Config(block: Block): Block { block - {ENABLED} }

  function BlockOf(merged: map<string, Block>, key: string): Block {
    if key in merged then merged[key] else map[]
  }

  /** The blocks of a control, the component's merged over the project's. */
  function MergedBlocks(project: Block, comp: Block): map<string, Block> {
    var p, c := Blocks(project), Blocks(comp);
    map k | k in p.Keys + c.Keys ::
      if k !in c then p[k] else Merge(Map(BlockOf(p, k)), Map(c[k])).entries
  }

  /** The same with some of the component's blocks still to come. */
  function PartlyMerged(p: map<string, Block>, c: map<string, Block>, left: set<string>): map<string, Block> {
    map k | k in p.Keys + (c.Keys - left) ::
      if k !in c || k in left then p[k] else Merge(Map(BlockOf(p, k)), Map(c[k])).entries
  }

  lemma {:induction false} OneBlockMore(p: map<string, Block>, c: map<string, Block>, left: set<string>, k: string)
    requires k in left && k in c
    ensures BlockOf(PartlyMerged(p, c, left), k) == BlockOf(p, k)
    ensures PartlyMerged(p, c, left - {k}) ==
            PartlyMerged(p, c, left)[k := Merge(Map(BlockOf(p, k)), Map(c[k])).entries]
  {
    hide Merge;
  }

  lemma {:induction false} AllBlocks(project: Block, comp: Block)
    ensures PartlyMerged(Blocks(project), Blocks(comp), Blocks(comp).Keys) == Blocks(project)
    ensures PartlyMerged(Blocks(project), Blocks(comp), {}) == MergedBlocks(project, comp)
  {
    hide Merge, Blocks;
  }

  method MergeBlocks(project: Block, comp: Block) returns (merged: map<string, Block>)
    ensures merged == MergedBlocks(project, comp)
  {
    hide Merge, Blocks, BlockOf, PartlyMerged, MergedBlocks;
    var p, c := Blocks(project), Blocks(comp);
    AllBlocks(project, comp);
    merged := p;
    var left := c.Keys;
    while left != {}
      invariant left <= c.Keys && merged == PartlyMerged(p, c, left)
      decreases left
    {
      var name :| name in left;
      OneBlockMore(p, c, left, name);
      left := left - {name};
      var block := DeepMerge(BlockOf(merged, name), c[name]);
      merged := merged[name := block];
    }
  }

  /** A scanner that runs by default and is not switched off. */
  predicate RunsByDefault(merged: map<string, Block>, name: string) {
    Flag(BlockOf(merged, KeyFor(name))) != Some(false)
  }

  /** A key that switches on a scanner which does not run by default. */
  predicate SwitchesOn(merged: map<string, Block>, defaults: seq<string>, key: string) {
    && key in merged && Flag(merged[key]) == Some(true)
    && (forall d :: d in defaults ==> KeyFor(d) != key)
    && NameFor(key).Some? && NameFor(key).value != REACHABILITY_ANALYZER
  }

  function Select(merged: map<string, Block>, name: string): Selection {
    Selection(name, Config(BlockOf(merged, KeyFor(name))))
  }

  function Defaults(merged: map<string, Block>, defaults: seq<string>): seq<Selection> {
    if defaults == [] then []
    else
      (if RunsByDefault(merged, defaults[0]) then [Select(merged, defaults[0])] else []) +
      Defaults(merged, defaults[1..])
  }

  function Selections(merged: map<string, Block>, names: seq<string>): (r: seq<Selection>)
    ensures |r| == |names| && forall i :: 0 <= i < |names| ==> r[i] == Select(merged, names[i])
  {
    if names == [] then [] else [Select(merged, names[0])] + Selections(merged, names[1..])
  }

  /** The scanners a descriptor switches on beyond the defaults. */
  ghost predicate Extras(merged: map<string, Block>, defaults: seq<string>, extra: seq<string>) {
    && Order.StrictlySorted(extra)
    && forall n :: n in extra <==> exists key :: SwitchesOn(merged, defaults, key) && NameFor(key) == Some(n)
  }

  /** The set of keys is what the loop over the merged blocks collects, whatever order it meets them in. */
  method CollectExtras(merged: map<string, Block>, defaults: seq<string>) returns (extra: seq<string>)
    ensures Extras(merged, defaults, extra)
  {
    hide NameFor, KeyFor, Flag;
    extra := [];
    var left := merged.Keys;
    while left != {}
      invariant left <= merged.Keys
      invariant forall i, j :: 0 <= i < j < |extra| ==> extra[i] != extra[j]
      invariant forall n :: n in extra <==>
        exists key :: key !in left && SwitchesOn(merged, defaults, key) && NameFor(key) == Some(n)
      decreases left
    {
      var key :| key in left;
      left := left - {key};
      if exists d :: d in defaults && KeyFor(d) == key {
        continue;
      }
      var name := NameFor(key);
      if name.None? || name.value == REACHABILITY_ANALYZER {
        continue;
      }
      if Flag(merged[key]) == Some(true) {
        assert SwitchesOn(merged, defaults, key);
        assert name.value !in extra by {
          forall other | other !in left && other != key && SwitchesOn(merged, defaults, other)
            ensures NameFor(other) != name
          {
            KeyOfName(key);
            KeyOfName(other);
          }
        }
        extra := extra + [name.value];
      }
    }
    Order.SortSorts(extra);
    Order.SortDistinct(extra);
    extra := Order.Sort(extra);
  }

  /** `resolveScanners`. */
  method ResolveScanners(project: Block, comp: Option<Block>, defaults: seq<string>)
    returns (out: seq<Selection>)
    ensures var merged := MergedBlocks(project, if comp.Some? then comp.value else map[]);
            exists extra ::
              Extras(merged, defaults, extra) && out == Defaults(merged, defaults) + Selections(merged, extra)
  {
    hide MergedBlocks, Extras, Defaults, Selections;
    var merged := MergeBlocks(project, if comp.Some? then comp.value else map[]);
    out := SelectDefaults(merged, defaults);
    var names := CollectExtras(merged, defaults);
    ghost var first := out;
    SelectionsAt(merged, names);
    for i := 0 to |names|
      invariant out == first + Selections(merged, names)[..i]
    {
      out := out + [Select(merged, names[i])];
    }
    assert out == first + Selections(merged, names);
  }

  /** The default scanners, in the order given. */
  method SelectDefaults(merged: map<string, Block>, defaults: seq<string>) returns (out: seq<Selection>)
    ensures out == Defaults(merged, defaults)
  {
    hide *;
    out := [];
    DefaultsFrom(merged, defaults, |defaults|);
    for i := 0 to |defaults|
      invariant Defaults(merged, defaults) == out + Defaults(merged, defaults[i..])
    {
      DefaultsFrom(merged, defaults, i);
      if RunsByDefault(merged, defaults[i]) {
        out := out + [Select(merged, defaults[i])];
      }
    }
  }

  lemma {:induction false} DefaultsFrom(merged: map<string, Block>, defaults: seq<string>, i: nat)
    requires i <= |defaults|
    ensures Defaults(merged, defaults[i..]) ==
            if i == |defaults| then []
            else
              (if RunsByDefault(merged, defaults[i]) then [Select(merged, defaults[i])] else []) +
              Defaults(merged, defaults[i + 1..])
  {
    hide RunsByDefault, Select;
    if i < |defaults| { assert defaults[i..][1..] == defaults[i + 1..]; }
  }

  lemma {:induction false} SelectionsAt(merged: map<string, Block>, names: seq<string>)
    ensures var r := Selections(merged, names);
            |r| == |names| && forall i :: 0 <= i < |names| ==> r[i] == Select(merged, names[i])
  {
  }

  /** The selection does not depend on the order any map was walked in. */
  lemma {:induction false} ExtrasAreDetermined(merged: map<string, Block>, defaults: seq<string>, a: seq<string>,
          b: seq<string>)
    requires Extras(merged, defaults, a) && Extras(merged, defaults, b)
    ensures a == b
  {
    hide SwitchesOn, NameFor;
    Order.StrictlySortedUnique(a, b);
  }

  /** A scanner's block says whether it runs. */
  predicate Says(blocks: map<string, Block>, key: string, runs: bool) {
    key in blocks && "enabled" in blocks[key] && blocks[key]["enabled"] == Bool(runs)
  }

  lemma {:induction false} FlagSays(blocks: map<string, Block>, key: string)
    ensures Flag(BlockOf(blocks, key)) == Some(true) <==> Says(blocks, key, true)
    ensures Flag(BlockOf(blocks, key)) == Some(false) <==> Says(blocks, key, false)
    ensures key in blocks ==> BlockOf(blocks, key) == blocks[key]
  {
  }

  /** Exactly which scanners run: a default one unless its own block says `enabled: false`, any other exactly
      when the block under its own key says `enabled: true`, unless it decides reachability or is named by a
      key that is another scanner's. */
  lemma {:induction false} RunsExactly(merged: map<string, Block>, defaults: seq<string>, extra: seq<string>,
          name: string)
    requires Extras(merged, defaults, extra)
    ensures (exists s :: s in Defaults(merged, defaults) && s.name == name) <==>
      name in defaults && !Says(merged, KeyFor(name), false)
    ensures name in extra <==>
      && (forall d :: d in defaults ==> KeyFor(d) != KeyFor(name)) && !IsKey(name)
      && name != REACHABILITY_ANALYZER && Says(merged, KeyFor(name), true)
  {
    DefaultsAre(merged, defaults, name);
    FlagSays(merged, KeyFor(name));
    hide Flag, IsKey, Defaults, KeyFor, BlockOf;
    NameOfKey(name);
    if name in extra {
      var key :| SwitchesOn(merged, defaults, key) && NameFor(key) == Some(name);
      KeyOfName(key);
    }
    if NameFor(KeyFor(name)) == Some(name) && SwitchesOn(merged, defaults, KeyFor(name)) {
      assert name in extra;
    }
  }

  lemma {:induction false} DefaultsAre(merged: map<string, Block>, defaults: seq<string>, name: string)
    ensures (exists s :: s in Defaults(merged, defaults) && s.name == name) <==>
      name in defaults && RunsByDefault(merged, name)
  {
    hide RunsByDefault;
    if defaults != [] {
      DefaultsAre(merged, defaults[1..], name);
      var rest := Defaults(merged, defaults[1..]);
      var all := Defaults(merged, defaults);
      assert forall s :: s in rest ==> s in all;
      if RunsByDefault(merged, defaults[0]) { assert Select(merged, defaults[0]) in all; }
      if s :| s in all && s.name == name {
        assert s in rest || s == Select(merged, defaults[0]);
      }
    }
  }

  /** A scanner is selected at most once, when the defaults name each once. */
  lemma {:induction false} SelectedOnce(merged: map<string, Block>, defaults: seq<string>, extra: seq<string>)
    requires Extras(merged, defaults, extra) && forall i, j :: 0 <= i < j < |defaults| ==> defaults[i] != defaults[j]
    ensures DistinctNames(Defaults(merged, defaults) + Selections(merged, extra))
  {
    hide RunsByDefault, Select, KeyFor, Extras, Defaults, Selections, IsKey, Flag;
    DefaultsOnce(merged, defaults);
    SelectionsAt(merged, extra);
    ExtrasDistinct(merged, defaults, extra);
    var first, second := Defaults(merged, defaults), Selections(merged, extra);
    forall i | 0 <= i < |extra| ensures second[i].name == extra[i] {
      SelectionNames(merged, extra[i]);
    }
    forall i, n | 0 <= i < |first| && n in extra ensures first[i].name != n {
      DefaultsAre(merged, defaults, first[i].name);
      RunsExactly(merged, defaults, extra, n);
      assert first[i] in first;
    }
    forall i, j | 0 <= i < j < |second| ensures second[i].name != second[j].name {
      assert second[i].name == extra[i] && second[j].name == extra[j];
    }
    forall i, j | 0 <= i < |first| && 0 <= j < |second| ensures first[i].name != second[j].name {
      assert second[j].name == extra[j] && extra[j] in extra;
    }
    DistinctTogether(first, second);
  }

  ghost predicate DistinctNames(s: seq<Selection>) {
    forall i, j :: 0 <= i < j < |s| ==> s[i].name != s[j].name
  }

  lemma {:induction false} DistinctTogether(a: seq<Selection>, b: seq<Selection>)
    requires DistinctNames(a) && DistinctNames(b)
    requires forall i, j :: 0 <= i < |a| && 0 <= j < |b| ==> a[i].name != b[j].name
    ensures DistinctNames(a + b)
  {
    var s := a + b;
    forall i, j | 0 <= i < j < |s| ensures s[i].name != s[j].name {
      if i >= |a| {
        assert s[i] == b[i - |a|] && s[j] == b[j - |a|];
      } else if j >= |a| {
        assert s[i] == a[i] && s[j] == b[j - |a|];
      } else {
        assert s[i] == a[i] && s[j] == a[j];
      }
    }
  }

  lemma {:induction false} SelectionNames(merged: map<string, Block>, name: string)
    ensures Select(merged, name).name == name
  {
  }

  lemma {:induction false} ExtrasDistinct(merged: map<string, Block>, defaults: seq<string>, extra: seq<string>)
    requires Extras(merged, defaults, extra)
    ensures forall i, j :: 0 <= i < j < |extra| ==> extra[i] != extra[j]
  {
  }

  lemma {:induction false} DefaultsOnce(merged: map<string, Block>, defaults: seq<string>)
    requires forall i, j :: 0 <= i < j < |defaults| ==> defaults[i] != defaults[j]
    ensures DistinctNames(Defaults(merged, defaults))
  {
    hide RunsByDefault, Select;
    if defaults != [] {
      var rest := Defaults(merged, defaults[1..]);
      DefaultsOnce(merged, defaults[1..]);
      SelectionNames(merged, defaults[0]);
      forall j | 0 <= j < |rest| ensures rest[j].name != defaults[0] {
        DefaultsAre(merged, defaults[1..], rest[j].name);
        assert rest[j] in rest;
        var k :| 0 <= k < |defaults[1..]| && defaults[1..][k] == rest[j].name;
        assert defaults[k + 1] == rest[j].name;
      }
      DistinctTogether([Select(merged, defaults[0])], rest);
      assert [] + rest == rest;
    }
  }

  /** What a level's settings write for a scanner's flag. */
  function Written(settings: Block, key: string): Option<Value> {
    if key in settings && settings[key].Map? && "enabled" in settings[key].entries
    then Some(settings[key].entries["enabled"]) else None
  }

  /** A component that writes whether a scanner runs is obeyed, whatever the project writes, and one that does
      not leaves it to the project. */
  lemma {:induction false} ComponentDecides(project: Block, comp: Block, key: string, runs: bool)
    ensures Says(MergedBlocks(project, comp), key, runs) <==>
            (if Written(comp, key).Some? then Written(comp, key) else Written(project, key)) == Some(Bool(runs))
  {
    MergedSetting(project, comp, key, "enabled");
  }

  /** One setting of a merged block: the component's where it writes one, deeply merged where both levels
      write a mapping, and else the project's. */
  lemma {:induction false} MergedSetting(project: Block, comp: Block, key: string, s: string)
    ensures var merged := MergedBlocks(project, comp);
            var p := if key in project && project[key].Map? then project[key].entries else map[];
            var c := if key in comp && comp[key].Map? then comp[key].entries else map[];
            && (key in merged <==> (key in project && project[key].Map?) || (key in comp && comp[key].Map?))
            && (key in merged ==>
                  && (s in merged[key] <==> s in p || s in c)
                  && (s in c && !(s in p && p[s].Map? && c[s].Map?) ==> merged[key][s] == c[s])
                  && (s in p && s in c ==> merged[key][s] == Merge(p[s], c[s]))
                  && (s in p && s !in c ==> merged[key][s] == p[s]))
  {
    var p, c := BlockOf(Blocks(project), key), BlockOf(Blocks(comp), key);
    assert Merge(Map(p), Map(c)).entries.Keys == p.Keys + c.Keys;
    if s in p && s in c { assert Merge(Map(p), Map(c)).entries[s] == Merge(p[s], c[s]); }
  }

  /** A selected scanner runs with the settings of its merged block, all but the flag. */
  lemma {:induction false} SelectedSettings(merged: map<string, Block>, name: string, s: string)
    ensures var key := KeyFor(name); var config := Select(merged, name).config;
            && (s in config <==> s != "enabled" && key in merged && s in merged[key])
            && (s in config ==> config[s] == merged[key][s])
  {
    hide KeyFor;
  }
}
