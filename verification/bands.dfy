/** When two reports narrowed to priority bands may be compared: exactly when no finding both scans
    saw would be read as fixed, or as new once the new ones are narrowed. */
module Bands {

  /** A finding's action band. */
  datatype Priority = Unbanded | P1 | P2 | P3 | P4 {
    function Rank(): nat {
      match this case P1 => 4 case P2 => 3 case P3 => 2 case P4 => 1 case Unbanded => 0
    }
  }

  function ToUpper(s: string): string {
    if s == "" then "" else [if 'a' <= s[0] <= 'z' then s[0] - 'a' + 'A' else s[0]] + ToUpper(s[1..])
  }

  function BandOf(s: string): Priority {
    if s == "P1" then P1 else if s == "P2" then P2 else if s == "P3" then P3 else if s == "P4" then P4 else Unbanded
  }

  /** `rankOf`: a band's urgency, zero for a name that is none. */
  function RankOf(band: string): nat { BandOf(ToUpper(band)).Rank() }

  /** What a report says of itself: the band it was narrowed to, if any. */
  datatype Narrowing = Whole | To(band: string)

  datatype Refusal =
    | ReadsAsFixed(base: Narrowing, headBand: string, below: seq<string>)
    | ReadsAsNew(baseBand: string, headBand: string, below: seq<string>)

  datatype Verdict = Comparable | Refused(why: Refusal)

  method BandsBelow(band: string) returns (below: seq<string>)
    requires RankOf(band) > 1
    ensures below != [] && forall b :: b in below <==> b in {"P1", "P2", "P3", "P4"} && RankOf(b) < RankOf(band)
  {
    below := [];
    var all := ["P1", "P2", "P3", "P4"];
    for i := 0 to 4
      invariant forall b :: b in below <==> b in all[..i] && RankOf(b) < RankOf(band)
    {
      assert all[..i + 1] == all[..i] + [all[i]];
      if RankOf(all[i]) < RankOf(band) {
        below := below + [all[i]];
      }
    }
    assert all[..4] == all && all[3] in all;
    assert ToUpper("P4") == "P4";
  }

  /** `comparableBands`. It accepts exactly when no finding present, in one band, in both full scans
      can be misread, whatever else the scans hold. */
  method ComparableBands(base: Narrowing, headBand: string, minPriority: string) returns (v: Verdict)
    ensures v.Comparable? <==>
      forall b: Scan, h: Scan :: NothingMisread(b, RankOfNarrowing(base), h, RankOf(headBand), RankOf(minPriority))
    ensures v.Refused? && v.why.ReadsAsFixed? ==>
      exists b: Scan, h: Scan, f ::
        Misread(b, RankOfNarrowing(base), h, RankOf(headBand), RankOf(minPriority), f) &&
        f in Fixed(Narrow(b, RankOfNarrowing(base)), Narrow(h, RankOf(headBand)))
    ensures v.Refused? && v.why.ReadsAsNew? ==>
      exists b: Scan, h: Scan, f ::
        Misread(b, RankOfNarrowing(base), h, RankOf(headBand), RankOf(minPriority), f) &&
        f in New(Narrow(b, RankOfNarrowing(base)), Narrow(h, RankOf(headBand)))
  {
    hide ToUpper, BandOf;
    Exactness(RankOfNarrowing(base), RankOf(headBand), RankOf(minPriority));
    RankBound(headBand);
    RankBound(minPriority);
    if base.To? { RankBound(base.band); }
    NoName();
    var baseBand, narrowed := if base.To? then base.band else "", base.To?;
    if RankOf(baseBand) <= 1 {
      baseBand, narrowed := "", false;
    }
    var head := headBand;
    if RankOf(head) <= 1 {
      head := "";
    }
    if head != "" && (!narrowed || RankOf(head) > RankOf(baseBand)) {
      var below := BandsBelow(head);
      FixedWitness(RankOfNarrowing(base), RankOf(headBand), RankOf(minPriority));
      return Refused(ReadsAsFixed(if narrowed then To(baseBand) else Whole, head, below));
    }
    if !narrowed {
      return Comparable;
    }
    var reach := head;
    if minPriority != "" && (reach == "" || RankOf(minPriority) > RankOf(reach)) {
      reach := minPriority;
    }
    if reach != "" && RankOf(reach) >= RankOf(baseBand) {
      return Comparable;
    }
    var below := BandsBelow(baseBand);
    NewWitness(RankOfNarrowing(base), RankOf(headBand), RankOf(minPriority));
    return Refused(ReadsAsNew(baseBand, head, below));
  }

  function RankOfNarrowing(n: Narrowing): nat { if n.To? then RankOf(n.band) else 0 }

  /** Which names are bands, and how urgent: a `P` of either case and a digit from 1, the most urgent, to 4. */
  lemma {:induction false} RankExactly(s: string)
    ensures RankOf(s) ==
            if |s| == 2 && s[0] in {'P', 'p'} && '1' <= s[1] <= '4' then 5 - (s[1] - '0') as int else 0
  {
    UpperIs(s);
    var u := ToUpper(s);
    hide ToUpper;
    assert |u| == 2 ==> (u == "P1" <==> u[0] == 'P' && u[1] == '1') && (u == "P2" <==> u[0] == 'P' && u[1] == '2');
    assert |u| == 2 ==> (u == "P3" <==> u[0] == 'P' && u[1] == '3') && (u == "P4" <==> u[0] == 'P' && u[1] == '4');
  }

  lemma {:induction false} UpperIs(s: string)
    ensures |ToUpper(s)| == |s| && forall i :: 0 <= i < |s| ==>
      (ToUpper(s)[i] == 'P' <==> s[i] in {'P', 'p'}) && ('1' <= s[i] <= '4' ==> ToUpper(s)[i] == s[i]) &&
      ('1' <= ToUpper(s)[i] <= '4' ==> ToUpper(s)[i] == s[i])
  {
    if s != "" { UpperIs(s[1..]); }
  }

  lemma {:induction false} RankBound(band: string)
    ensures RankOf(band) <= 4
  {
  }

  lemma {:induction false} NoName()
    ensures RankOf("") == 0
  {
  }

  // ---- what a comparison reads ----

  /** Everything a scan found: each finding with its band. */
  type Scan = map<int, Priority>

  /** A narrowed report keeps the findings at or above its band, and the unbanded ones. */
  predicate Holds(p: Priority, rank: nat) { p.Unbanded? || p.Rank() >= rank }

  ghost function Narrow(full: Scan, rank: nat): Scan {
    map f | f in full && Holds(full[f], rank) :: full[f]
  }

  ghost function Fixed(base: Scan, head: Scan): set<int> { base.Keys - head.Keys }

  ghost function New(base: Scan, head: Scan): set<int> { head.Keys - base.Keys }

  /** `NarrowNew`. */
  ghost function NarrowNew(found: set<int>, head: Scan, rank: nat): set<int> {
    set f | f in found && f in head && Holds(head[f], rank)
  }

  /** A finding both scans hold in the same band, called fixed, or new after the narrowing. */
  ghost predicate Misread(base: Scan, baseRank: nat, head: Scan, headRank: nat, minRank: nat, f: int) {
    var b, h := Narrow(base, baseRank), Narrow(head, headRank);
    && f in base && f in head && base[f] == head[f]
    && (f in Fixed(b, h) || f in NarrowNew(New(b, h), h, minRank))
  }

  ghost predicate NothingMisread(base: Scan, baseRank: nat, head: Scan, headRank: nat, minRank: nat) {
    forall f :: f in base ==> !Misread(base, baseRank, head, headRank, minRank, f)
  }

  function Larger(a: nat, b: nat): nat { if a < b then b else a }

  /** The head leaves out no band the base holds, and the base leaves out none of those judged. */
  predicate Covers(baseRank: nat, headRank: nat, minRank: nat) {
    headRank <= Larger(baseRank, 1) && baseRank <= Larger(Larger(headRank, minRank), 1)
  }

  lemma {:induction false} Exactness(baseRank: nat, headRank: nat, minRank: nat)
    requires baseRank <= 4 && headRank <= 4 && minRank <= 4
    ensures Covers(baseRank, headRank, minRank) <==>
            forall b: Scan, h: Scan :: NothingMisread(b, baseRank, h, headRank, minRank)
  {
    if Covers(baseRank, headRank, minRank) {
      forall b: Scan, h: Scan, f | f in b ensures !Misread(b, baseRank, h, headRank, minRank, f) {
        if f in h && b[f] == h[f] { assert b[f].Unbanded? || 1 <= b[f].Rank(); }
      }
    } else if headRank > Larger(baseRank, 1) {
      FixedWitness(baseRank, headRank, minRank);
    } else {
      NewWitness(baseRank, headRank, minRank);
    }
  }

  function OfRank(r: nat): (p: Priority)
    requires 1 <= r <= 4
    ensures p.Rank() == r
  {
    if r == 1 then P4 else if r == 2 then P3 else if r == 3 then P2 else P1
  }

  lemma {:induction false} FixedWitness(baseRank: nat, headRank: nat, minRank: nat)
    requires baseRank <= 4 && headRank <= 4 && headRank > Larger(baseRank, 1)
    ensures exists b: Scan, h: Scan, f ::
      Misread(b, baseRank, h, headRank, minRank, f) && f in Fixed(Narrow(b, baseRank), Narrow(h, headRank))
    ensures exists b: Scan, h: Scan :: !NothingMisread(b, baseRank, h, headRank, minRank)
  {
    var scan: Scan := map[0 := OfRank(headRank - 1)];
    assert 0 in Narrow(scan, baseRank) && 0 !in Narrow(scan, headRank);
    assert Misread(scan, baseRank, scan, headRank, minRank, 0);
    assert !NothingMisread(scan, baseRank, scan, headRank, minRank);
  }

  lemma {:induction false} NewWitness(baseRank: nat, headRank: nat, minRank: nat)
    requires baseRank <= 4 && headRank <= 4 && minRank <= 4 && baseRank > Larger(Larger(headRank, minRank), 1)
    ensures exists b: Scan, h: Scan, f ::
      Misread(b, baseRank, h, headRank, minRank, f) && f in New(Narrow(b, baseRank), Narrow(h, headRank))
    ensures exists b: Scan, h: Scan :: !NothingMisread(b, baseRank, h, headRank, minRank)
  {
    var scan: Scan := map[0 := OfRank(baseRank - 1)];
    assert 0 !in Narrow(scan, baseRank) && 0 in Narrow(scan, headRank);
    assert Misread(scan, baseRank, scan, headRank, minRank, 0);
    assert !NothingMisread(scan, baseRank, scan, headRank, minRank);
  }

  // ---- findings whose band moved ----

  /** A finding both scans saw, whatever its bands, is called fixed, or new after the narrowing. */
  ghost predicate MisreadAtAll(base: Scan, baseRank: nat, head: Scan, headRank: nat, minRank: nat, f: int) {
    var b, h := Narrow(base, baseRank), Narrow(head, headRank);
    f in base && f in head && (f in Fixed(b, h) || f in NarrowNew(New(b, h), h, minRank))
  }

  /** No finding both scans saw can be misread, whatever became of its band, exactly when neither report
      leaves any band out: reports narrowed at all, alike or not, accepted or not, can misread some pair of
      scans. */
  lemma {:induction false} NothingAtAllMisread(baseRank: nat, headRank: nat, minRank: nat)
    requires baseRank <= 4 && headRank <= 4 && minRank <= 4
    ensures (forall b: Scan, h: Scan, f :: !MisreadAtAll(b, baseRank, h, headRank, minRank, f)) <==>
            baseRank <= 1 && headRank <= 1
  {
    var top: Scan, low: Scan := map[0 := P1], map[0 := P4];
    if headRank > 1 {
      assert 0 in Narrow(top, baseRank) && 0 !in Narrow(low, headRank);
      assert MisreadAtAll(top, baseRank, low, headRank, minRank, 0);
    } else if baseRank > 1 {
      assert 0 !in Narrow(low, baseRank) && 0 in Narrow(top, headRank) && Narrow(top, headRank)[0] == P1;
      assert MisreadAtAll(low, baseRank, top, headRank, minRank, 0);
    } else {
      forall b: Scan, h: Scan, f ensures !MisreadAtAll(b, baseRank, h, headRank, minRank, f) {
        if f in b && f in h { assert f in Narrow(b, baseRank) && f in Narrow(h, headRank); }
      }
    }
  }

  /** Between reports `comparableBands` accepts, a finding both scans saw is read as fixed only if it fell, or
      had no band before, and as new only if it rose, or has no band now: what was kept on one side and left
      out on the other crossed the band it was left out by. */
  lemma {:induction false} AcceptedMisreadingMoved(base: Scan, baseRank: nat, head: Scan, headRank: nat, minRank: nat,
          f: int)
    requires Covers(baseRank, headRank, minRank) && f in base && f in head
    ensures var b, h := Narrow(base, baseRank), Narrow(head, headRank);
            && (f in Fixed(b, h) <==> Holds(base[f], baseRank) && !Holds(head[f], headRank))
            && (f in Fixed(b, h) ==> base[f].Unbanded? || head[f].Rank() < base[f].Rank())
            && (f in NarrowNew(New(b, h), h, minRank) <==>
                  !Holds(base[f], baseRank) && Holds(head[f], headRank) && Holds(head[f], minRank))
            && (f in NarrowNew(New(b, h), h, minRank) ==> head[f].Unbanded? || base[f].Rank() < head[f].Rank())
  {
    assert base[f].Unbanded? || base[f].Rank() >= 1;
    assert head[f].Unbanded? || head[f].Rank() >= 1;
  }

  lemma {:induction false} RankOfP2()
    ensures RankOf("P2") == 3
  {
    assert ToUpper("P2") == "P2";
  }

  /** Such a misreading on each side of reports both narrowed to P2, which are accepted: a finding that rose
      from P3 to P1 reads as new, and one that fell from P1 to P3 as fixed, though both scans saw both. */
  lemma {:induction false} MovedFindingsMisread()
    ensures Covers(RankOf("P2"), RankOf("P2"), 0)
    ensures exists b: Scan, h: Scan ::
      && b == map[0 := P3, 1 := P1] && h == map[0 := P1, 1 := P3]
      && 0 in NarrowNew(New(Narrow(b, RankOf("P2")), Narrow(h, RankOf("P2"))), Narrow(h, RankOf("P2")), 0)
      && 1 in Fixed(Narrow(b, RankOf("P2")), Narrow(h, RankOf("P2")))
  {
    RankOfP2();
    hide RankOf;
    var b: Scan, h: Scan := map[0 := P3, 1 := P1], map[0 := P1, 1 := P3];
    AcceptedMisreadingMoved(b, 3, h, 3, 0, 0);
    AcceptedMisreadingMoved(b, 3, h, 3, 0, 1);
  }
}
