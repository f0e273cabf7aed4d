/** Judging each component on its own findings: a partition of the findings, one row a component, and the
    counts that must add up. */
module Verdicts {
  import opened Common
  import Order

  datatype Finding = Finding(component: string, priority: string, suppressed: bool, correlated: bool, id: string)

  type Reports = map<string, seq<Finding>>

  datatype Verdict = Pass | Warn | Fail

  /** What the policy says of a set of reports, and of each control in it. */
  datatype Judgement = Judgement(verdict: Verdict, controls: seq<(string, Verdict)>)

  datatype Component = Component(name: string, exposure: string, criticality: string, targets: nat)

  datatype Unscanned = Unscanned(component: string, what: string)

  datatype Row = Row(name: string, verdict: Verdict, exposure: string, criticality: string, controls: seq<string>,
                     findings: nat, priorities: seq<nat>, unscanned: seq<Unscanned>, declared: nat)

  // ---- counting ----

  /** The findings a number in the report is about. */
  datatype Which =
    | Reported
    | Unattributed
    | Of(name: string)
    | Counted(name: string)
    | Copies(name: string)
    | Banded(name: string, band: int)
    | Elsewhere(names: seq<string>)

  /** `priorityBand`. */
  function Band(p: string): int {
    if p == "P1" then 0 else if p == "P2" then 1 else if p == "P3" then 2 else if p == "P4" then 3 else -1
  }

  predicate Holds(w: Which, f: Finding) {
    !f.suppressed &&
    match w
    case Reported => true
    case Unattributed => f.component == ""
    case Of(c) => f.component != "" && f.component == c
    case Counted(c) => f.component != "" && f.component == c && !f.correlated
    case Copies(c) => f.component != "" && f.component == c && f.correlated
    case Banded(c, b) => f.component != "" && f.component == c && !f.correlated && Band(f.priority) == b
    case Elsewhere(names) => f.component != "" && f.component !in names
  }

  function Count(fs: seq<Finding>, w: Which): nat {
    if fs == [] then 0 else Count(fs[..|fs| - 1], w) + if Holds(w, fs[|fs| - 1]) then 1 else 0
  }

  /** A count over every report, in whatever order they come. */
  ghost function Total(m: Reports, w: Which): nat
    decreases |m|
  {
    if m == map[] then 0 else var k :| k in m; Count(m[k], w) + Total(m - {k}, w)
  }

  lemma {:induction false} TotalTakesOut(m: Reports, w: Which, k: string)
    requires k in m
    ensures Total(m, w) == Count(m[k], w) + Total(m - {k}, w)
    decreases |m|
  {
    hide Count;
    var c :| c in m && Total(m, w) == Count(m[c], w) + Total(m - {c}, w);
    if c != k {
      TotalTakesOut(m - {c}, w, k);
      TotalTakesOut(m - {k}, w, c);
      assert m - {c} - {k} == m - {k} - {c};
    }
  }

  /** What a component's findings are, control by control. */
  function Mine(fs: seq<Finding>, c: string): seq<Finding> {
    if fs == [] then []
    else Mine(fs[..|fs| - 1], c) + if Holds(Of(c), fs[|fs| - 1]) then [fs[|fs| - 1]] else []
  }

  function Share(m: Reports, c: string): Reports {
    map k | k in m && Mine(m[k], c) != [] :: Mine(m[k], c)
  }

  /** A number about one component can be counted on its share alone. */
  predicate About(w: Which, c: string) { (w.Of? || w.Counted? || w.Copies? || w.Banded?) && w.name == c }

  /** A count is the number of findings it is about. */
  lemma {:induction false} CountIs(fs: seq<Finding>, w: Which)
    ensures Count(fs, w) == |set i | 0 <= i < |fs| && Holds(w, fs[i])|
  {
    hide Holds;
    if fs != [] {
      var n := |fs| - 1;
      CountIs(fs[..n], w);
      OneMorePlace(fs, w);
      hide Count;
    }
  }

  lemma {:induction false} OneMorePlace(fs: seq<Finding>, w: Which)
    requires fs != []
    ensures var n := |fs| - 1;
            var all, before := set i | 0 <= i < |fs| && Holds(w, fs[i]), set i | 0 <= i < n && Holds(w, fs[..n][i]);
            |all| == |before| + if Holds(w, fs[n]) then 1 else 0
  {
    hide Holds;
    var n := |fs| - 1;
    var all, before := set i | 0 <= i < |fs| && Holds(w, fs[i]), set i | 0 <= i < n && Holds(w, fs[..n][i]);
    forall i ensures i in all <==> i in before || (i == n && Holds(w, fs[n])) {
    }
    assert all == if Holds(w, fs[n]) then before + {n} else before;
  }

  lemma {:induction false} MineSnoc(fs: seq<Finding>, f: Finding, c: string)
    ensures Mine(fs + [f], c) == Mine(fs, c) + if Holds(Of(c), f) then [f] else []
  {
    hide Holds;
    assert (fs + [f])[..|fs|] == fs;
  }

  lemma {:induction false} CountSnoc(fs: seq<Finding>, f: Finding, w: Which)
    ensures Count(fs + [f], w) == Count(fs, w) + if Holds(w, f) then 1 else 0
  {
    hide Holds;
    assert (fs + [f])[..|fs|] == fs;
  }

  lemma {:induction false} MineCounts(fs: seq<Finding>, c: string, w: Which)
    requires About(w, c)
    ensures Count(Mine(fs, c), w) == Count(fs, w)
  {
    if fs != [] {
      var n := |fs| - 1;
      var f := fs[n];
      assert Holds(w, f) ==> Holds(Of(c), f);
      hide Holds, Mine, Count, About;
      MineCounts(fs[..n], c, w);
      assert fs == fs[..n] + [f];
      MineSnoc(fs[..n], f, c);
      CountSnoc(fs[..n], f, w);
      CountSnoc(Mine(fs[..n], c), f, w);
      assert Mine(fs[..n], c) + [] == Mine(fs[..n], c);
    }
  }

  lemma {:induction false} ShareWithout(m: Reports, c: string, k: string)
    requires k in m
    ensures Share(m - {k}, c) == Share(m, c) - {k}
    ensures k in Share(m, c) <==> Mine(m[k], c) != []
    ensures k in Share(m, c) ==> Share(m, c)[k] == Mine(m[k], c)
  {
    hide Mine;
  }

  lemma {:induction false} ShareCounts(m: Reports, c: string, w: Which)
    requires About(w, c)
    ensures Total(Share(m, c), w) == Total(m, w)
    decreases |m|
  {
    hide Mine, Holds, Count, Total, Share;
    if m != map[] {
      var k :| k in m;
      var share := Share(m, c);
      TotalTakesOut(m, w, k);
      ShareCounts(m - {k}, c, w);
      MineCounts(m[k], c, w);
      ShareWithout(m, c, k);
      if k in share {
        TotalTakesOut(share, w, k);
      } else {
        assert share - {k} == share;
        NoneCounted(w);
      }
    } else {
      NoShare(c);
    }
  }

  lemma {:induction false} NoShare(c: string)
    ensures Share(map[], c) == map[]
  {
  }

  lemma {:induction false} NoneCounted(w: Which)
    ensures Count([], w) == 0
  {
  }

  // ---- the parts and the whole ----

  function SumOf(m: seq<Finding>, names: seq<string>): nat {
    if names == [] then 0 else Count(m, Of(names[0])) + SumOf(m, names[1..])
  }

  lemma {:induction false} SumOfSnoc(fs: seq<Finding>, names: seq<string>)
    requires fs != [] && Distinct(names)
    ensures var f := fs[|fs| - 1];
            SumOf(fs, names) == SumOf(fs[..|fs| - 1], names) +
              if !f.suppressed && f.component != "" && f.component in names then 1 else 0
    decreases names
  {
    if names != [] {
      SumOfSnoc(fs, names[1..]);
      var f := fs[|fs| - 1];
      assert f.component in names <==> f.component == names[0] || f.component in names[1..];
      assert names[0] !in names[1..];
    }
  }

  lemma {:induction false} SumOfNothing(names: seq<string>)
    ensures SumOf([], names) == 0
  {
    if names != [] { SumOfNothing(names[1..]); }
  }

  /** In one report, the components' findings, the unattributed ones and those of components not listed are
      all of them. */
  lemma {:induction false} ReportAddsUp(fs: seq<Finding>, names: seq<string>)
    requires Distinct(names)
    ensures Count(fs, Reported) == Count(fs, Unattributed) + SumOf(fs, names) + Count(fs, Elsewhere(names))
  {
    if fs == [] {
      SumOfNothing(names);
    } else {
      ReportAddsUp(fs[..|fs| - 1], names);
      SumOfSnoc(fs, names);
    }
  }

  ghost function TotalOf(m: Reports, names: seq<string>): nat {
    if names == [] then 0 else Total(m, Of(names[0])) + TotalOf(m, names[1..])
  }

  lemma {:induction false} TotalOfTakesOut(m: Reports, names: seq<string>, k: string)
    requires k in m
    ensures TotalOf(m, names) == SumOf(m[k], names) + TotalOf(m - {k}, names)
    decreases names
  {
    hide Count, Total;
    if names != [] {
      TotalTakesOut(m, Of(names[0]), k);
      TotalOfTakesOut(m, names[1..], k);
    }
  }

  lemma {:induction false} TotalOfNothing(names: seq<string>)
    ensures TotalOf(map[], names) == 0
  {
    if names != [] { TotalOfNothing(names[1..]); }
  }

  lemma {:induction false} ReportsAddUp(m: Reports, names: seq<string>)
    requires Distinct(names)
    ensures Total(m, Reported) == Total(m, Unattributed) + TotalOf(m, names) + Total(m, Elsewhere(names))
    decreases |m|
  {
    hide Count, SumOf, TotalOf;
    if m == map[] {
      TotalOfNothing(names);
    } else {
      var k :| k in m;
      TotalTakesOut(m, Reported, k);
      TotalTakesOut(m, Unattributed, k);
      TotalTakesOut(m, Elsewhere(names), k);
      TotalOfTakesOut(m, names, k);
      ReportAddsUp(m[k], names);
      ReportsAddUp(m - {k}, names);
    }
  }

  /** A component's findings are those its row counts and the copies it leaves out. */
  lemma {:induction false} CopiesAreLeftOut(m: Reports, c: string)
    ensures Total(m, Of(c)) == Total(m, Counted(c)) + Total(m, Copies(c))
    decreases |m|
  {
    hide Count;
    if m != map[] {
      var k :| k in m;
      TotalTakesOut(m, Of(c), k);
      TotalTakesOut(m, Counted(c), k);
      TotalTakesOut(m, Copies(c), k);
      CopiesInReport(m[k], c);
      CopiesAreLeftOut(m - {k}, c);
    }
  }

  lemma {:induction false} CopiesInReport(fs: seq<Finding>, c: string)
    ensures Count(fs, Of(c)) == Count(fs, Counted(c)) + Count(fs, Copies(c))
  {
    if fs != [] { CopiesInReport(fs[..|fs| - 1], c); }
  }

  // ---- the rows ----

  /** The first half of `componentVerdicts`: findings grouped by component and control, in whatever order the
      reports come, and how many belong to none. */
  method Partition(reports: Reports) returns (groups: map<string, Reports>, unattributed: nat)
    ensures forall c :: Grouped(groups, c) == Share(reports, c)
    ensures unattributed == Total(reports, Unattributed)
  {
    hide Mine, Count, Total, Share, Holds;
    groups, unattributed := map[], 0;
    var left := reports;
    assert reports - left.Keys == map[];
    NothingShared();
    while left != map[]
      invariant left.Keys <= reports.Keys && forall k :: k in left ==> left[k] == reports[k]
      invariant forall c :: Grouped(groups, c) == Share(reports - left.Keys, c)
      invariant unattributed + Total(left, Unattributed) == Total(reports, Unattributed)
      decreases |left|
    {
      var control :| control in left;
      TotalTakesOut(left, Unattributed, control);
      var more;
      groups, more := GroupReport(groups, control, left[control], reports - left.Keys);
      unattributed := unattributed + more;
      assert (reports - left.Keys)[control := left[control]] == reports - (left - {control}).Keys;
      left := left - {control};
    }
    assert reports - {} == reports;
  }

  function Grouped(groups: map<string, Reports>, c: string): Reports { if c in groups then groups[c] else map[] }

  lemma {:induction false} NothingShared()
    ensures forall c :: Share(map[], c) == map[]
    ensures Total(map[], Unattributed) == 0
  {
  }

  /** One report's findings, each put under its component. */
  method GroupReport(before: map<string, Reports>, control: string, results: seq<Finding>, ghost seen: Reports)
    returns (groups: map<string, Reports>, unattributed: nat)
    requires control !in seen && forall c :: Grouped(before, c) == Share(seen, c)
    ensures forall c :: Grouped(groups, c) == Share(seen[control := results], c)
    ensures unattributed == Count(results, Unattributed)
  {
    hide Share, Mine, Count;
    CountNothing();
    groups, unattributed := before, 0;
    assert results[..0] == [];
    forall c ensures Grouped(groups, c) == Share(seen[control := results[..0]], c) {
      ShareOfEmpty(seen, control, c);
    }
    for i := 0 to |results|
      invariant forall c :: Grouped(groups, c) == Share(seen[control := results[..i]], c)
      invariant unattributed == Count(results[..i], Unattributed)
    {
      var res := results[i];
      assert results[..i + 1] == results[..i] + [res];
      CountSnoc(results[..i], res, Unattributed);
      ghost var now, next := seen[control := results[..i]], seen[control := results[..i + 1]];
      forall c
        ensures Share(next, c) ==
          if Holds(Of(c), res) then Share(now, c)[control := Mine(results[..i], c) + [res]] else Share(now, c)
      {
        ShareOfSnoc(seen, control, results[..i], res, c);
      }
      if res.suppressed {
        assert forall c :: Share(next, c) == Share(now, c);
        continue;
      }
      if res.component == "" {
        assert forall c :: Share(next, c) == Share(now, c);
        unattributed := unattributed + 1;
        continue;
      }
      var r := Grouped(groups, res.component);
      ShareAt(now, control, res.component);
      var had := if control in r then r[control] else [];
      assert had == Mine(results[..i], res.component) by { assert now[control] == results[..i]; }
      ghost var was := groups;
      groups := groups[res.component := r[control := had + [res]]];
      forall c ensures Grouped(groups, c) == Share(next, c) {
        if c != res.component {
          assert Grouped(groups, c) == Grouped(was, c) && !Holds(Of(c), res);
        } else {
          assert Holds(Of(c), res);
        }
      }
    }
    assert results[..|results|] == results;
  }

  lemma {:induction false} CountNothing()
    ensures Count([], Unattributed) == 0
  {
  }

  lemma {:induction false} ShareOfEmpty(seen: Reports, control: string, c: string)
    requires control !in seen
    ensures Share(seen[control := []], c) == Share(seen, c)
  {
  }

  lemma {:induction false} ShareIs(m: Reports, c: string)
    ensures forall k :: k in Share(m, c) <==> k in m && Mine(m[k], c) != []
    ensures forall k :: k in Share(m, c) ==> Share(m, c)[k] == Mine(m[k], c)
  {
    hide Mine;
  }

  lemma {:induction false} ShareOfSnoc(seen: Reports, control: string, results: seq<Finding>, res: Finding, c: string)
    requires control !in seen
    ensures Share(seen[control := results + [res]], c) ==
            if Holds(Of(c), res) then Share(seen[control := results], c)[control := Mine(results, c) + [res]]
            else Share(seen[control := results], c)
  {
    hide Mine, Holds, Share;
    MineSnoc(results, res, c);
    assert Mine(results, c) + [] == Mine(results, c);
    var x, y := seen[control := results + [res]], seen[control := results];
    ShareIs(x, c);
    ShareIs(y, c);
    var l := Share(x, c);
    var r := if Holds(Of(c), res) then Share(y, c)[control := Mine(results, c) + [res]] else Share(y, c);
    forall k ensures (k in l <==> k in r) && (k in l ==> l[k] == r[k]) {
      if k != control { assert k in x ==> x[k] == y[k]; }
    }
  }

  lemma {:induction false} ShareAt(m: Reports, control: string, c: string)
    requires control in m
    ensures (if control in Share(m, c) then Share(m, c)[control] else []) == Mine(m[control], c)
  {
  }

  function InScope(components: seq<Component>, includes: string -> bool): seq<string> {
    if components == [] then []
    else (if includes(components[0].name) then [components[0].name] else []) + InScope(components[1..], includes)
  }

  function ByName(components: seq<Component>): (m: map<string, Component>)
    ensures forall n :: n in m <==> exists c :: c in components && c.name == n
    ensures forall n :: n in m ==> m[n] in components && m[n].name == n
  {
    if components == [] then map[]
    else
      assert components == components[..|components| - 1] + [components[|components| - 1]];
      ByName(components[..|components| - 1])[components[|components| - 1].name := components[|components| - 1]]
  }

  /** Of components of one name, the last counts. */
  lemma {:induction false} LastOfAName(components: seq<Component>, i: nat)
    requires i < |components| && forall j :: i < j < |components| ==> components[j].name != components[i].name
    ensures components[i].name in ByName(components) && ByName(components)[components[i].name] == components[i]
  {
    var n := |components| - 1;
    if i < n {
      assert components[..n][i] == components[i];
      assert forall j :: 0 <= j < n ==> components[..n][j] == components[j];
      LastOfAName(components[..n], i);
    }
  }

  function FailedControls(controls: seq<(string, Verdict)>): seq<string> {
    if controls == [] then []
    else (if controls[0].1.Fail? then [controls[0].0] else []) + FailedControls(controls[1..])
  }

  function UnscannedOf(unscanned: seq<Unscanned>, name: string): seq<Unscanned> {
    if unscanned == [] then []
    else (if unscanned[0].component == name then [unscanned[0]] else []) + UnscannedOf(unscanned[1..], name)
  }

  /** The row of a component. */
  ghost function RowFor(reports: Reports, c: Component, unscanned: seq<Unscanned>,
          evaluate: Reports -> Judgement): Row
  {
    var j := evaluate(Share(reports, c.name));
    var missed := UnscannedOf(unscanned, c.name);
    Row(c.name, j.verdict, c.exposure, c.criticality, FailedControls(j.controls), Total(reports, Counted(c.name)),
        seq(4, b => Total(reports, Banded(c.name, b))), missed, if missed == [] then 0 else c.targets)
  }

  ghost function RowsFor(reports: Reports, components: map<string, Component>, names: seq<string>,
          unscanned: seq<Unscanned>, evaluate: Reports -> Judgement): (rows: seq<Row>)
    requires forall n :: n in names ==> n in components
    ensures |rows| == |names| && forall i :: 0 <= i < |names| ==>
      rows[i] == RowFor(reports, components[names[i]], unscanned, evaluate)
  {
    seq(|names|, i requires 0 <= i < |names| => RowFor(reports, components[names[i]], unscanned, evaluate))
  }

  /** What a row tells of its component: the failed controls of the verdict on its own findings, what was not
      scanned of it and, where anything was not, how many targets it declares; and in each slot, from P1 to P4,
      how many findings of that band are its own, unsuppressed, and no second copy. */
  lemma {:induction false} RowTells(reports: Reports, c: Component, unscanned: seq<Unscanned>,
          evaluate: Reports -> Judgement)
    ensures var row := RowFor(reports, c, unscanned, evaluate); var j := evaluate(Share(reports, c.name));
            && (forall n :: n in row.controls <==> (n, Fail) in j.controls)
            && (forall u :: u in row.unscanned <==> u in unscanned && u.component == c.name)
            && row.declared == (if exists u :: u in unscanned && u.component == c.name then c.targets else 0)
            && row.findings == Total(reports, Counted(c.name)) && |row.priorities| == 4
            && (forall b :: 0 <= b < 4 ==> row.priorities[b] == Total(reports, Banded(c.name, b)))
            && (forall f :: Holds(Counted(c.name), f) <==>
                  !f.suppressed && !f.correlated && c.name != "" && f.component == c.name)
            && (forall b, f :: 0 <= b < 4 ==>
                  (Holds(Banded(c.name, b), f) <==>
                     Holds(Counted(c.name), f) && f.priority == ["P1", "P2", "P3", "P4"][b]))
  {
    FailedAre(evaluate(Share(reports, c.name)).controls);
    UnscannedAre(unscanned, c.name);
    forall b, f | 0 <= b < 4
      ensures Holds(Banded(c.name, b), f) <==>
        Holds(Counted(c.name), f) && f.priority == ["P1", "P2", "P3", "P4"][b]
    {
      SlotHolds(c.name, b, f);
    }
    forall f
      ensures Holds(Counted(c.name), f) <==>
        !f.suppressed && !f.correlated && c.name != "" && f.component == c.name
    {
    }
    hide Total, Share, FailedControls, UnscannedOf, Holds;
    var missed := UnscannedOf(unscanned, c.name);
    assert missed != [] ==> missed[0] in missed;
  }

  lemma {:induction false} SlotHolds(name: string, b: int, f: Finding)
    requires 0 <= b < 4
    ensures Holds(Banded(name, b), f) <==> Holds(Counted(name), f) && f.priority == ["P1", "P2", "P3", "P4"][b]
  {
  }

  lemma {:induction false} FailedAre(controls: seq<(string, Verdict)>)
    ensures forall n :: n in FailedControls(controls) <==> (n, Fail) in controls
  {
    if controls != [] {
      FailedAre(controls[1..]);
      assert controls == [controls[0]] + controls[1..];
    }
  }

  lemma {:induction false} UnscannedAre(unscanned: seq<Unscanned>, name: string)
    ensures forall u :: u in UnscannedOf(unscanned, name) <==> u in unscanned && u.component == name
  {
    if unscanned != [] {
      UnscannedAre(unscanned[1..], name);
      assert unscanned == [unscanned[0]] + unscanned[1..];
    }
  }

  function Failing(rows: seq<Row>, fail: bool): seq<Row> {
    if rows == [] then [] else (if rows[0].verdict.Fail? == fail then [rows[0]] else []) + Failing(rows[1..], fail)
  }

  /** What the stable sort leaves: the failing rows first, each group in the order it had. */
  function FailFirst(rows: seq<Row>): seq<Row> { Failing(rows, true) + Failing(rows, false) }

  lemma {:induction false} MineHolds(fs: seq<Finding>, c: string)
    ensures forall f :: f in Mine(fs, c) ==> Holds(Of(c), f)
  {
    hide Holds;
    if fs != [] { MineHolds(fs[..|fs| - 1], c); }
  }

  lemma {:induction false} ShareHolds(m: Reports, c: string)
    ensures forall k :: k in Share(m, c) ==> forall f :: f in Share(m, c)[k] ==> Holds(Of(c), f)
  {
    hide Mine, Holds;
    forall k | k in Share(m, c) ensures forall f :: f in Share(m, c)[k] ==> Holds(Of(c), f) {
      MineHolds(m[k], c);
    }
  }

  /** One report of a row: its findings, the second copies left out, and each by its band. */
  method CountReport(results: seq<Finding>, name: string, findings: nat, bands: seq<nat>) returns (n: nat, p: seq<nat>)
    requires |bands| == 4 && forall f :: f in results ==> Holds(Of(name), f)
    ensures n == findings + Count(results, Counted(name))
    ensures |p| == 4 && forall b :: 0 <= b < 4 ==> p[b] == bands[b] + Count(results, Banded(name, b))
  {
    n, p := findings, bands;
    for i := 0 to |results|
      invariant n == findings + Count(results[..i], Counted(name))
      invariant |p| == 4 && forall b :: 0 <= b < 4 ==> p[b] == bands[b] + Count(results[..i], Banded(name, b))
    {
      var r := results[i];
      assert r in results && results[..i + 1] == results[..i] + [r];
      CountSnoc(results[..i], r, Counted(name));
      forall b | 0 <= b < 4
        ensures Count(results[..i + 1], Banded(name, b)) ==
          Count(results[..i], Banded(name, b)) + if Holds(Banded(name, b), r) then 1 else 0
      {
        CountSnoc(results[..i], r, Banded(name, b));
      }
      if r.correlated {
        continue;
      }
      n := n + 1;
      var band := Band(r.priority);
      if band >= 0 {
        p := p[band := p[band] + 1];
      }
    }
    assert results[..|results|] == results;
  }

  method CountShare(share: Reports, name: string) returns (n: nat, p: seq<nat>)
    requires forall k :: k in share ==> forall f :: f in share[k] ==> Holds(Of(name), f)
    ensures n == Total(share, Counted(name)) && |p| == 4 && forall b :: 0 <= b < 4 ==>
      p[b] == Total(share, Banded(name, b))
  {
    hide Holds, Count, Total;
    n, p := 0, [0, 0, 0, 0];
    var left := share;
    forall w: Which ensures Total(map[], w) == 0 { TotalOfNone(w); }
    while left != map[]
      invariant left.Keys <= share.Keys && forall k :: k in left ==> left[k] == share[k]
      invariant n + Total(left, Counted(name)) == Total(share, Counted(name)) && |p| == 4
      invariant forall b :: 0 <= b < 4 ==> p[b] + Total(left, Banded(name, b)) == Total(share, Banded(name, b))
      decreases |left|
    {
      var k :| k in left;
      TotalTakesOut(left, Counted(name), k);
      forall b | 0 <= b < 4
        ensures Total(left, Banded(name, b)) == Count(left[k], Banded(name, b)) + Total(left - {k}, Banded(name, b))
      {
        TotalTakesOut(left, Banded(name, b), k);
      }
      n, p := CountReport(left[k], name, n, p);
      left := left - {k};
    }
  }

  lemma {:induction false} TotalOfNone(w: Which)
    ensures Total(map[], w) == 0
  {
  }

  method JudgeComponent(share: Reports, c: Component, unscanned: seq<Unscanned>, evaluate: Reports -> Judgement,
          ghost reports: Reports)
    returns (cv: Row)
    requires share == Share(reports, c.name)
    ensures cv == RowFor(reports, c, unscanned, evaluate)
  {
    hide Mine, Holds, Total, Count, Share, FailedControls, UnscannedOf;
    var res := evaluate(share);
    ShareHolds(reports, c.name);
    var n, p := CountShare(share, c.name);
    ShareCounts(reports, c.name, Counted(c.name));
    forall b | 0 <= b < 4 ensures p[b] == Total(reports, Banded(c.name, b)) {
      ShareCounts(reports, c.name, Banded(c.name, b));
    }
    assert p == seq(4, b => Total(reports, Banded(c.name, b)));
    var controls := ControlsFailed(res.controls);
    var missed := Missed(unscanned, c.name);
    var declared := if |missed| > 0 then c.targets else 0;
    return Row(c.name, res.verdict, c.exposure, c.criticality, controls, n, p, missed, declared);
  }

  method ControlsFailed(controls: seq<(string, Verdict)>) returns (failed: seq<string>)
    ensures failed == FailedControls(controls)
  {
    failed := [];
    for i := 0 to |controls|
      invariant FailedControls(controls) == failed + FailedControls(controls[i..])
    {
      assert controls[i..][1..] == controls[i + 1..];
      if controls[i].1.Fail? {
        failed := failed + [controls[i].0];
      }
    }
    assert controls[|controls|..] == [];
  }

  method Missed(unscanned: seq<Unscanned>, name: string) returns (missed: seq<Unscanned>)
    ensures missed == UnscannedOf(unscanned, name)
  {
    missed := [];
    for i := 0 to |unscanned|
      invariant UnscannedOf(unscanned, name) == missed + UnscannedOf(unscanned[i..], name)
    {
      assert unscanned[i..][1..] == unscanned[i + 1..];
      if unscanned[i].component == name {
        missed := missed + [unscanned[i]];
      }
    }
    assert unscanned[|unscanned|..] == [];
  }

  lemma {:induction false} InScopeAre(components: seq<Component>, includes: string -> bool)
    ensures forall n :: n in InScope(components, includes) <==>
      includes(n) && exists c :: c in components && c.name == n
  {
    if components != [] {
      InScopeAre(components[1..], includes);
      assert forall c :: c in components <==> c == components[0] || c in components[1..];
    }
  }

  ghost predicate NamedOnce(components: seq<Component>) {
    forall i, j :: 0 <= i < j < |components| ==> components[i].name != components[j].name
  }

  lemma {:induction false} InScopeDistinct(components: seq<Component>, includes: string -> bool)
    requires NamedOnce(components)
    ensures Distinct(InScope(components, includes))
  {
    if components != [] {
      InScopeDistinct(components[1..], includes);
      InScopeAre(components[1..], includes);
      forall c | c in components[1..] ensures c.name != components[0].name {
        var i :| 0 <= i < |components[1..]| && components[1..][i] == c;
        assert components[i + 1] == c;
      }
    }
  }

  /** The names rows are made for, in order. */
  function RowNames(components: seq<Component>, includes: string -> bool): seq<string> {
    Order.Sort(InScope(components, includes))
  }

  lemma {:induction false} RowNamesAre(components: seq<Component>, includes: string -> bool)
    ensures forall n :: n in RowNames(components, includes) <==>
      includes(n) && exists c :: c in components && c.name == n
    ensures NamedOnce(components) ==> Order.StrictlySorted(RowNames(components, includes))
  {
    InScopeAre(components, includes);
    Order.SortSorts(InScope(components, includes));
    if NamedOnce(components) {
      InScopeDistinct(components, includes);
      Order.SortDistinct(InScope(components, includes));
    }
  }

  /** `componentVerdicts`. */
  method ComponentVerdicts(components: seq<Component>, reports: Reports, includes: string -> bool,
          unscanned: seq<Unscanned>, evaluate: Reports -> Judgement)
    returns (rows: seq<Row>, unattributed: nat)
    ensures |components| < 2 ==> rows == [] && unattributed == 0
    ensures |components| >= 2 ==>
              && unattributed == Total(reports, Unattributed)
              && (forall n :: n in RowNames(components, includes) ==> n in ByName(components))
              && rows ==
                   FailFirst(RowsFor(reports, ByName(components), RowNames(components, includes), unscanned, evaluate))
  {
    hide Total, Share, RowFor, InScope, RowsFor, FailFirst, ByName, RowNames;
    if |components| < 2 {
      return [], 0;
    }
    var groups;
    groups, unattributed := Partition(reports);
    var named := ByName(components);
    var names := RowNames(components, includes);
    RowNamesAre(components, includes);
    rows := [];
    ghost var all := RowsFor(reports, named, names, unscanned, evaluate);
    for i := 0 to |names|
      invariant rows == all[..i]
    {
      assert names[i] in names;
      var cv := JudgeComponent(Grouped(groups, names[i]), named[names[i]], unscanned, evaluate, reports);
      rows := rows + [cv];
    }
    assert all[..|names|] == all;
    rows := FailFirst(rows);
  }

  // ---- what the rows add up to ----

  function Findings(rows: seq<Row>): nat {
    if rows == [] then 0 else rows[0].findings + Findings(rows[1..])
  }

  ghost function LeftOut(reports: Reports, names: seq<string>): nat {
    if names == [] then 0 else Total(reports, Copies(names[0])) + LeftOut(reports, names[1..])
  }

  lemma {:induction false} FindingsByVerdict(rows: seq<Row>)
    ensures Findings(Failing(rows, true)) + Findings(Failing(rows, false)) == Findings(rows)
  {
    if rows != [] {
      FindingsByVerdict(rows[1..]);
      FindingsOfOne(rows, true);
      FindingsOfOne(rows, false);
    }
  }

  lemma {:induction false} FindingsOfOne(rows: seq<Row>, fail: bool)
    requires rows != []
    ensures Findings(Failing(rows, fail)) ==
      (if rows[0].verdict.Fail? == fail then rows[0].findings else 0) + Findings(Failing(rows[1..], fail))
  {
    var rest := Failing(rows[1..], fail);
    if rows[0].verdict.Fail? == fail { assert ([rows[0]] + rest)[1..] == rest; } else { assert [] + rest == rest; }
  }

  lemma {:induction false} FindingsConcat(a: seq<Row>, b: seq<Row>)
    ensures Findings(a + b) == Findings(a) + Findings(b)
  {
    if a == [] {
      assert a + b == b;
    } else {
      assert (a + b)[1..] == a[1..] + b;
      FindingsConcat(a[1..], b);
    }
  }

  lemma {:induction false} RowsCount(reports: Reports, named: map<string, Component>, names: seq<string>,
          unscanned: seq<Unscanned>, evaluate: Reports -> Judgement)
    requires forall n :: n in names ==> n in named && named[n].name == n
    ensures Findings(RowsFor(reports, named, names, unscanned, evaluate)) + LeftOut(reports, names) ==
      TotalOf(reports, names)
    decreases names
  {
    hide Total;
    if names != [] {
      assert names[0] in names;
      RowsCount(reports, named, names[1..], unscanned, evaluate);
      CopiesAreLeftOut(reports, names[0]);
      var rest := RowsFor(reports, named, names[1..], unscanned, evaluate);
      var first := RowFor(reports, named[names[0]], unscanned, evaluate);
      assert RowsFor(reports, named, names, unscanned, evaluate) == [first] + rest;
      assert ([first] + rest)[1..] == rest;
    }
  }

  /** Nothing is lost and nothing counted twice: the rows' findings, the second copies they leave out, the
      findings of no component, and those of a component without a row are all that was reported. So the rows,
      copies and unattributed findings alone add up exactly when no finding names a component without a row. */
  lemma {:induction false} PartsAddUp(components: seq<Component>, reports: Reports, includes: string -> bool,
          unscanned: seq<Unscanned>, evaluate: Reports -> Judgement)
    requires NamedOnce(components)
    ensures forall n :: n in RowNames(components, includes) ==> n in ByName(components)
    ensures var names := RowNames(components, includes);
            var rows := FailFirst(RowsFor(reports, ByName(components), names, unscanned, evaluate));
            && Findings(rows) + LeftOut(reports, names) + Total(reports, Unattributed) +
               Total(reports, Elsewhere(names)) == Total(reports, Reported)
            && (Findings(rows) + LeftOut(reports, names) + Total(reports, Unattributed) == Total(reports, Reported) <==>
                forall k, f :: k in reports && f in reports[k] ==> !Holds(Elsewhere(names), f))
  {
    hide Total, RowsFor, RowNames, Holds, ByName, InScope;
    RowNamesAre(components, includes);
    var names, named := RowNames(components, includes), ByName(components);
    var rows := RowsFor(reports, named, names, unscanned, evaluate);
    FindingsConcat(Failing(rows, true), Failing(rows, false));
    FindingsByVerdict(rows);
    RowsCount(reports, named, names, unscanned, evaluate);
    ReportsAddUp(reports, names);
    TotalIsNone(reports, Elsewhere(names));
  }

  /** A finding of a component the file does not name is in no row, and not unattributed either. */
  lemma {:induction false} FindingElsewhere(includes: string -> bool, unscanned: seq<Unscanned>,
          evaluate: Reports -> Judgement)
    ensures var components := [Component("a", "", "", 1), Component("b", "", "", 1)];
            var reports := map["trivy" := [Finding("gone", "P1", false, false, "1")]];
            var names := RowNames(components, includes);
            && (forall n :: n in names ==> n in ByName(components))
            && var rows := FailFirst(RowsFor(reports, ByName(components), names, unscanned, evaluate));
               Findings(rows) + LeftOut(reports, names) + Total(reports, Unattributed) < Total(reports, Reported)
  {
    hide Total, RowsFor, RowNames, ByName, FailFirst, Findings, LeftOut;
    var components := [Component("a", "", "", 1), Component("b", "", "", 1)];
    var f := Finding("gone", "P1", false, false, "1");
    var reports: Reports := map["trivy" := [f]];
    PartsAddUp(components, reports, includes, unscanned, evaluate);
    RowNamesAre(components, includes);
    assert "gone" !in RowNames(components, includes);
    assert f in reports["trivy"] && Holds(Elsewhere(RowNames(components, includes)), f);
  }

  lemma {:induction false} TotalIsNone(m: Reports, w: Which)
    ensures Total(m, w) == 0 <==> forall k, f :: k in m && f in m[k] ==> !Holds(w, f)
    decreases |m|
  {
    hide Holds, Count, Total;
    if m == map[] {
      TotalOfNone(w);
    } else {
      var k :| k in m;
      TotalTakesOut(m, w, k);
      TotalIsNone(m - {k}, w);
      CountIsNone(m[k], w);
      assert forall j :: j in m <==> j == k || j in m - {k};
    }
  }

  lemma {:induction false} CountIsNone(fs: seq<Finding>, w: Which)
    ensures Count(fs, w) == 0 <==> forall f :: f in fs ==> !Holds(w, f)
  {
    hide Holds;
    if fs != [] {
      CountIsNone(fs[..|fs| - 1], w);
      assert fs == fs[..|fs| - 1] + [fs[|fs| - 1]];
    }
  }

  /** A row's bands and its findings without a priority make up its findings. */
  lemma {:induction false} BandsAddUp(m: Reports, c: string)
    ensures Total(m, Counted(c)) == Total(m, Banded(c, 0)) + Total(m, Banded(c, 1)) + Total(m, Banded(c, 2)) +
                                    Total(m, Banded(c, 3)) + Total(m, Banded(c, -1))
    decreases |m|
  {
    hide Count;
    if m != map[] {
      var k :| k in m;
      TotalTakesOut(m, Counted(c), k);
      forall b | -1 <= b < 4
        ensures Total(m, Banded(c, b)) == Count(m[k], Banded(c, b)) + Total(m - {k}, Banded(c, b))
      {
        TotalTakesOut(m, Banded(c, b), k);
      }
      BandsInReport(m[k], c);
      BandsAddUp(m - {k}, c);
    }
  }

  lemma {:induction false} BandsInReport(fs: seq<Finding>, c: string)
    ensures Count(fs, Counted(c)) == Count(fs, Banded(c, 0)) + Count(fs, Banded(c, 1)) + Count(fs, Banded(c, 2)) +
                                     Count(fs, Banded(c, 3)) + Count(fs, Banded(c, -1))
  {
    if fs != [] { BandsInReport(fs[..|fs| - 1], c); }
  }

  // ---- one row each, failing first ----

  function NamesOf(rows: seq<Row>): seq<string> {
    seq(|rows|, i requires 0 <= i < |rows| => rows[i].name)
  }

  lemma {:induction false} RestInOrder(rows: seq<Row>)
    requires rows != [] && Order.StrictlySorted(NamesOf(rows))
    ensures Order.StrictlySorted(NamesOf(rows[1..]))
    ensures forall r :: r in rows[1..] ==> Order.Less(rows[0].name, r.name)
  {
    var all, rest := NamesOf(rows), NamesOf(rows[1..]);
    hide Order.Less;
    forall i, j | 0 <= i < j < |rest| ensures Order.Less(rest[i], rest[j]) {
      assert rest[i] == all[i + 1] && rest[j] == all[j + 1];
    }
    forall r | r in rows[1..] ensures Order.Less(rows[0].name, r.name) {
      var k :| 0 <= k < |rows[1..]| && rows[1..][k] == r;
      assert all[0] == rows[0].name && all[k + 1] == r.name;
    }
  }

  lemma {:induction false} PrependInOrder(first: Row, rest: seq<Row>)
    requires Order.StrictlySorted(NamesOf(rest)) && forall r :: r in rest ==> Order.Less(first.name, r.name)
    ensures Order.StrictlySorted(NamesOf([first] + rest))
  {
    hide Order.Less;
    var names := NamesOf([first] + rest);
    forall i, j | 0 <= i < j < |names| ensures Order.Less(names[i], names[j]) {
      assert names[j] == rest[j - 1].name && rest[j - 1] in rest && names[j] == NamesOf(rest)[j - 1];
      if i > 0 { assert names[i] == NamesOf(rest)[i - 1]; }
    }
  }

  /** A filter of rows in order is in order, and holds exactly its rows. */
  lemma {:induction false} FailingIsInOrder(rows: seq<Row>, fail: bool)
    requires Order.StrictlySorted(NamesOf(rows))
    ensures forall r :: r in Failing(rows, fail) <==> r in rows && r.verdict.Fail? == fail
    ensures Order.StrictlySorted(NamesOf(Failing(rows, fail)))
  {
    hide NamesOf, Order.StrictlySorted, Order.Less;
    if rows == [] {
      assert Failing(rows, fail) == rows;
    } else {
      RestInOrder(rows);
      FailingIsInOrder(rows[1..], fail);
      assert rows == [rows[0]] + rows[1..];
      var kept := Failing(rows[1..], fail);
      if rows[0].verdict.Fail? == fail {
        PrependInOrder(rows[0], kept);
      } else {
        assert [] + kept == kept;
      }
    }
  }

  /** Every component in scope has exactly one row, and no other has one; the failing rows come first, and
      each group is in the order of its names. */
  lemma {:induction false} OneRowEach(components: seq<Component>, reports: Reports, includes: string -> bool,
          unscanned: seq<Unscanned>, evaluate: Reports -> Judgement)
    requires NamedOnce(components)
    ensures forall n :: n in RowNames(components, includes) ==> n in ByName(components)
    ensures var rows := RowsFor(reports, ByName(components), RowNames(components, includes), unscanned, evaluate);
            && FailFirst(rows) == Failing(rows, true) + Failing(rows, false)
            && Order.StrictlySorted(NamesOf(Failing(rows, true))) && Order.StrictlySorted(NamesOf(Failing(rows, false)))
            && (forall n :: (n in NamesOf(Failing(rows, true)) || n in NamesOf(Failing(rows, false))) <==>
                            includes(n) && exists c :: c in components && c.name == n)
            && (forall n :: !(n in NamesOf(Failing(rows, true)) && n in NamesOf(Failing(rows, false))))
  {
    hide RowFor, RowNames, ByName, InScope, Failing, Total;
    RowNamesAre(components, includes);
    var names := RowNames(components, includes);
    var rows := RowsFor(reports, ByName(components), names, unscanned, evaluate);
    RowIsNamed(reports, unscanned, evaluate);
    assert NamesOf(rows) == names by {
      forall i | 0 <= i < |names| ensures NamesOf(rows)[i] == names[i] {
        assert names[i] in names;
      }
    }
    FailingIsInOrder(rows, true);
    FailingIsInOrder(rows, false);
    forall n ensures n in NamesOf(Failing(rows, true)) <==> exists r :: r in rows && r.name == n && r.verdict.Fail? {
      NamesAre(Failing(rows, true), n);
    }
    forall n ensures n in NamesOf(Failing(rows, false)) <==> exists r :: r in rows && r.name == n && !r.verdict.Fail? {
      NamesAre(Failing(rows, false), n);
    }
    forall n ensures n in names <==> exists r :: r in rows && r.name == n {
      NamesAre(rows, n);
    }
    forall r, q | r in rows && q in rows && r.name == q.name ensures r == q {
      OneOfAName(rows, r, q);
    }
  }

  lemma {:induction false} RowIsNamed(reports: Reports, unscanned: seq<Unscanned>, evaluate: Reports -> Judgement)
    ensures forall c: Component :: RowFor(reports, c, unscanned, evaluate).name == c.name
  {
  }

  lemma {:induction false} NamesAre(rows: seq<Row>, n: string)
    ensures n in NamesOf(rows) <==> exists r :: r in rows && r.name == n
  {
    if n in NamesOf(rows) {
      var i :| 0 <= i < |rows| && NamesOf(rows)[i] == n;
      assert rows[i] in rows;
    }
    if r :| r in rows && r.name == n {
      var i :| 0 <= i < |rows| && rows[i] == r;
      assert NamesOf(rows)[i] == n;
    }
  }

  lemma {:induction false} OneOfAName(rows: seq<Row>, r: Row, q: Row)
    requires Order.StrictlySorted(NamesOf(rows)) && r in rows && q in rows && r.name == q.name
    ensures r == q
  {
    var i :| 0 <= i < |rows| && rows[i] == r;
    var j :| 0 <= j < |rows| && rows[j] == q;
    assert NamesOf(rows)[i] == NamesOf(rows)[j];
    SortedTellsApart(NamesOf(rows), i, j);
    SortedTellsApart(NamesOf(rows), j, i);
  }

  lemma {:induction false} SortedTellsApart(names: seq<string>, i: nat, j: nat)
    requires Order.StrictlySorted(names) && i < |names| && j < |names|
    ensures i < j ==> names[i] != names[j]
  {
  }
}
