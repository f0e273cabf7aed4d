/** Decoded configuration values, and merging one settings block over another. */
module Settings {

  datatype Value =
    | Null
    | Bool(b: bool)
    | Number(n: int)
    | Text(s: string)
    | Texts(texts: seq<string>)
    | List(items: seq<Value>)
    | Map(entries: Block)

  type Block = map<string, Value>

  /** `deepMerge` of two values a key holds: mappings merge key by key, anything else is replaced. */
  function Merge(dst: Value, src: Value): (r: Value)
    ensures dst.Map? && src.Map? ==> r.Map?
    decreases src
  {
    if dst.Map? && src.Map? then
      Map(map k | k in dst.entries.Keys + src.entries.Keys ::
            if k !in src.entries then dst.entries[k]
            else if k !in dst.entries then src.entries[k]
            else Merge(dst.entries[k], src.entries[k]))
    else src
  }

  /** The merge of what two blocks hold under a key of the second. */
  function Settled(dst: Block, src: Block, k: string): Value
    requires k in src
  {
    if k in dst then Merge(dst[k], src[k]) else src[k]
  }

  /** The merge of two blocks with some of the source's keys still to come. */
  function Partly(dst: Block, src: Block, left: set<string>): Block {
    map k | k in dst.Keys + (src.Keys - left) ::
      if k !in src || k in left then dst[k] else Settled(dst, src, k)
  }

  lemma {:induction false} OneKeyMore(dst: Block, src: Block, left: set<string>, k: string)
    requires k in src && k in left
    ensures Partly(dst, src, left - {k}) == Partly(dst, src, left)[k := Settled(dst, src, k)]
  {
    hide Merge;
  }

  lemma {:induction false} AllKeys(dst: Block, src: Block)
    ensures Partly(dst, src, src.Keys) == dst && Map(Partly(dst, src, {})) == Merge(Map(dst), Map(src))
  {
    assert Partly(dst, src, {}) == Merge(Map(dst), Map(src)).entries;
  }

  lemma {:induction false} StillToCome(dst: Block, src: Block, left: set<string>, k: string)
    requires k in left && k in src
    ensures k in Partly(dst, src, left) <==> k in dst
    ensures k in dst ==> Partly(dst, src, left)[k] == dst[k]
    ensures !(k in dst && dst[k].Map? && src[k].Map?) ==> Settled(dst, src, k) == src[k]
  {
  }

  /** `deepMerge`, over the source's keys in whatever order its map gives them. */
  method DeepMerge(dst: Block, src: Block) returns (out: Block)
    ensures Map(out) == Merge(Map(dst), Map(src))
    decreases Map(src)
  {
    out := dst;
    var left := src.Keys;
    AllKeys(dst, src);
    hide Partly, Merge;
    while left != {}
      invariant left <= src.Keys && out == Partly(dst, src, left)
      decreases left
    {
      var k :| k in left;
      StillToCome(dst, src, left, k);
      OneKeyMore(dst, src, left, k);
      left := left - {k};
      var v := src[k];
      if k in out && out[k].Map? && v.Map? {
        var merged := DeepMerge(out[k].entries, v.entries);
        out := out[k := Map(merged)];
      } else {
        out := out[k := v];
      }
    }
  }

  /** A value merged over itself is itself. */
  lemma {:induction false} MergeIdempotent(x: Value)
    ensures Merge(x, x) == x
  {
    if x.Map? {
      forall k | k in x.entries ensures Merge(x.entries[k], x.entries[k]) == x.entries[k] {
        MergeIdempotent(x.entries[k]);
      }
    }
  }

  /** `z` already settles every key `x` does, at every depth. */
  predicate Settles(z: Value, x: Value)
    decreases z
  {
    z.Map? && x.Map? ==> forall k :: k in x.entries ==> k in z.entries && Settles(z.entries[k], x.entries[k])
  }

  /** Merging over `x` leaves `z` as it was exactly when `z` settles every key of `x`. */
  lemma {:induction false} MergeChangesNothing(x: Value, z: Value)
    ensures Merge(x, z) == z <==> Settles(z, x)
    decreases z
  {
    if x.Map? && z.Map? {
      forall k | k in x.entries && k in z.entries
        ensures Merge(x.entries[k], z.entries[k]) == z.entries[k] <==> Settles(z.entries[k], x.entries[k])
      {
        MergeChangesNothing(x.entries[k], z.entries[k]);
      }
      var m := Merge(x, z);
      if m == z {
        forall k | k in x.entries ensures k in z.entries && Settles(z.entries[k], x.entries[k]) {
          assert k in m.entries;
          assert k in z.entries && m.entries[k] == Merge(x.entries[k], z.entries[k]);
        }
      }
      if Settles(z, x) {
        assert m.entries == z.entries;
      }
    }
  }

  /** Nowhere is a mapping replaced by something that is not one and that by a mapping again, unless the last
      settles every key of the first. */
  predicate Regroupable(x: Value, y: Value, z: Value)
    decreases z
  {
    x.Map? && z.Map? ==>
      if y.Map? then
        forall k :: k in x.entries && k in y.entries && k in z.entries ==>
          Regroupable(x.entries[k], y.entries[k], z.entries[k])
      else Settles(z, x)
  }

  /** Merging three levels groups either way exactly when they are regroupable. */
  lemma {:induction false} MergeAssociates(x: Value, y: Value, z: Value)
    ensures Merge(Merge(x, y), z) == Merge(x, Merge(y, z)) <==> Regroupable(x, y, z)
    decreases z
  {
    if x.Map? && z.Map? {
      if y.Map? {
        var l, r := Merge(Merge(x, y), z), Merge(x, Merge(y, z));
        forall k | k in x.entries && k in y.entries && k in z.entries
          ensures l.entries[k] == r.entries[k] <==> Regroupable(x.entries[k], y.entries[k], z.entries[k])
        {
          MergeAssociates(x.entries[k], y.entries[k], z.entries[k]);
        }
        assert l.entries.Keys == r.entries.Keys;
        forall k | k in l.entries && !(k in x.entries && k in y.entries && k in z.entries)
          ensures l.entries[k] == r.entries[k]
        {
        }
        if l == r {
          forall k | k in x.entries && k in y.entries && k in z.entries
            ensures Regroupable(x.entries[k], y.entries[k], z.entries[k])
          {
            assert k in l.entries;
          }
        }
        if Regroupable(x, y, z) {
          assert l.entries == r.entries;
        }
      } else {
        MergeChangesNothing(x, z);
      }
    }
  }

  /** At `k`, a mapping replaced by a number and that by a mapping again: merged from the left, `k` holds what
      the third level writes alone; merged from the right, the first level's `a` stays with it. */
  lemma {:induction false} GroupingMatters()
    ensures var x, y := Map(map["k" := Map(map["a" := Number(1)])]), Map(map["k" := Number(1)]);
            var z := Map(map["k" := Map(map["b" := Number(2)])]);
            && !Regroupable(x, y, z)
            && Merge(Merge(x, y), z) == z
            && Merge(x, Merge(y, z)) == Map(map["k" := Map(map["a" := Number(1), "b" := Number(2)])])
  {
    var first, third := Map(map["a" := Number(1)]), Map(map["b" := Number(2)]);
    OnlyFirstHas("a", "b", Number(1), Number(2));
    hide Merge, Settles;
    MergeOne("k", first, Number(1));
    MergeOne("k", Number(1), third);
    MergeOne("k", first, third);
    ReplacedByOther(first, 1, third);
    NotRegroupable("k", first, 1, third);
  }

  lemma {:induction false} OnlyFirstHas(a: string, b: string, x: Value, y: Value)
    requires a != b
    ensures var first, third := Map(map[a := x]), Map(map[b := y]);
            !Settles(third, first) && Merge(first, third) == Map(map[a := x, b := y])
  {
    var first, third := Map(map[a := x]), Map(map[b := y]);
    assert a in first.entries && a !in third.entries;
    assert Merge(first, third).entries == map[a := x, b := y];
  }

  lemma {:induction false} ReplacedByOther(first: Value, n: int, third: Value)
    ensures Merge(first, Number(n)) == Number(n) && Merge(Number(n), third) == third
  {
  }

  lemma {:induction false} NotRegroupable(k: string, first: Value, n: int, third: Value)
    requires first.Map? && third.Map? && !Settles(third, first)
    ensures !Regroupable(Map(map[k := first]), Map(map[k := Number(n)]), Map(map[k := third]))
  {
    var x, y, z := Map(map[k := first]), Map(map[k := Number(n)]), Map(map[k := third]);
    assert k in x.entries && k in y.entries && k in z.entries && !Regroupable(first, Number(n), third);
  }

  lemma {:induction false} MergeOne(k: string, a: Value, b: Value)
    ensures Merge(Map(map[k := a]), Map(map[k := b])) == Map(map[k := Merge(a, b)])
  {
    assert Merge(Map(map[k := a]), Map(map[k := b])).entries == map[k := Merge(a, b)];
  }

  /** No key is a mapping at one level and something else at another. */
  predicate SameShape(x: Value, y: Value)
    decreases x
  {
    && (x.Map? <==> y.Map?)
    && (x.Map? && y.Map? ==> forall k :: k in x.entries && k in y.entries ==> SameShape(x.entries[k], y.entries[k]))
  }

  lemma {:induction false} SameShapesRegroup(x: Value, y: Value, z: Value)
    requires SameShape(x, y)
    ensures Merge(Merge(x, y), z) == Merge(x, Merge(y, z))
  {
    SameShapeIsRegroupable(x, y, z);
    MergeAssociates(x, y, z);
  }

  lemma {:induction false} SameShapeIsRegroupable(x: Value, y: Value, z: Value)
    requires SameShape(x, y)
    ensures Regroupable(x, y, z)
    decreases z
  {
    if x.Map? && z.Map? {
      forall k | k in x.entries && k in y.entries && k in z.entries
        ensures Regroupable(x.entries[k], y.entries[k], z.entries[k])
      {
        SameShapeIsRegroupable(x.entries[k], y.entries[k], z.entries[k]);
      }
    }
  }

  /** `settingStrings`: the strings of a list, one that is not a string left out. */
  function Strings(block: Block, key: string): seq<string> {
    if key !in block then []
    else match block[key]
      case Texts(texts) => texts
      case List(items) => OnlyStrings(items)
      case _ => []
  }

  function OnlyStrings(items: seq<Value>): seq<string> {
    if items == [] then []
    else (if items[0].Text? then [items[0].s] else []) + OnlyStrings(items[1..])
  }

  function AsValues(texts: seq<string>): (items: seq<Value>)
    ensures |items| == |texts| && forall i :: 0 <= i < |items| ==> items[i] == Text(texts[i])
  {
    seq(|texts|, i requires 0 <= i < |texts| => Text(texts[i]))
  }

  lemma {:induction false} OnlyStringsOf(texts: seq<string>)
    ensures OnlyStrings(AsValues(texts)) == texts
  {
    if texts != [] {
      assert AsValues(texts)[1..] == AsValues(texts[1..]);
      OnlyStringsOf(texts[1..]);
    }
  }

  lemma {:induction false} OnlyStringsConcat(a: seq<Value>, b: seq<Value>)
    ensures OnlyStrings(a + b) == OnlyStrings(a) + OnlyStrings(b)
  {
    if a == [] {
      assert a + b == b;
    } else {
      assert (a + b)[1..] == a[1..] + b;
      OnlyStringsConcat(a[1..], b);
    }
  }

  /** A list of strings reads the same however it was decoded, what is no string among them is passed over, and any
      other setting reads as none. */
  lemma {:induction false} StringsAre(block: Block, key: string, before: seq<string>, other: Value, after: seq<string>)
    requires !other.Text?
    ensures Strings(block[key := Texts(before + after)], key) == before + after
    ensures Strings(block[key := List(AsValues(before + after))], key) == before + after
    ensures Strings(block[key := List(AsValues(before) + [other] + AsValues(after))], key) == before + after
    ensures key !in block || !(block[key].Texts? || block[key].List?) ==> Strings(block, key) == []
  {
    OnlyStringsOf(before + after);
    PassesOver(before, other, after);
    hide OnlyStrings, AsValues;
  }

  lemma {:induction false} PassesOver(before: seq<string>, other: Value, after: seq<string>)
    requires !other.Text?
    ensures OnlyStrings(AsValues(before) + [other] + AsValues(after)) == before + after
  {
    assert OnlyStrings([other]) == [] by { assert [other][1..] == []; }
    hide OnlyStrings, AsValues;
    OnlyStringsOf(before);
    OnlyStringsOf(after);
    OnlyStringsConcat(AsValues(before) + [other], AsValues(after));
    OnlyStringsConcat(AsValues(before), [other]);
    assert before + [] == before;
  }

  method SettingStrings(block: Block, key: string) returns (out: seq<string>)
    ensures out == Strings(block, key)
  {
    if key !in block {
      return [];
    }
    match block[key] {
      case Texts(texts) =>
        return texts;
      case List(items) =>
        out := [];
        for i := 0 to |items|
          invariant OnlyStrings(items) == out + OnlyStrings(items[i..])
        {
          assert items[i..][1..] == items[i + 1..];
          if items[i].Text? {
            out := out + [items[i].s];
          }
        }
        assert items[|items|..] == [];
      case _ =>
        return [];
    }
  }
}
