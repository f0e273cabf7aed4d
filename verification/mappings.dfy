/** Merging settings where they live: mappings in memory, which may hold one another and be held from several
    places. */
module Mappings {
  import opened Settings

  /** What a mapping holds under a key: a plain value, or another mapping by reference. */
  datatype Item = Plain(v: Value) | Nested(m: Mapping)

  class Mapping {
    var entries: map<string, Item>
    /** The mappings reached from here, this one among them. */
    ghost var repr: set<Mapping>

    ghost predicate Valid()
      reads this, repr
      decreases repr
    {
      && this in repr
      && forall k :: k in entries ==> Holds(entries[k])
    }

    ghost predicate Holds(item: Item)
      requires this in repr
      reads this, repr
      decreases repr, 0
    {
      match item
      case Plain(v) => !v.Map?
      case Nested(m) => m in repr && m.repr <= repr && this !in m.repr && m.Valid()
    }

    /** The value a mapping stands for. */
    ghost function Meaning(): (r: Value)
      requires Valid()
      reads this, repr
      ensures r.Map?
      decreases repr
    {
      Map(map k | k in entries ::
        (assert Holds(entries[k]); if entries[k].Plain? then entries[k].v else entries[k].m.Meaning()))
    }

    /** A mapping of the items another has. */
    constructor (other: Mapping, ghost within: set<Mapping>)
      requires other.Valid() && other.repr <= within
      ensures Valid() && repr == within + {this} && entries == other.entries && Meaning() == other.Meaning()
    {
      entries, repr := other.entries, within + {this};
      new;
      assert forall k :: k in entries ==> other.Holds(entries[k]);
    }

    /** Puts an item under a key, in place. */
    method Put(k: string, item: Item)
      requires Valid() && Sound(item) && this !in Reach(item)
      modifies this
      ensures Valid() && repr == old(repr + Reach(item)) && entries == old(entries)[k := item]
      ensures Meaning() == Map(old(Meaning().entries[k := MeaningOf(item)]))
    {
      ghost var was, value := Meaning().entries, MeaningOf(item);
      ItemsAre(this);
      var items := entries[k := item];
      ghost var reach, meaning := repr + Reach(item), was[k := value];
      assert Stand(items, reach, meaning, this);
      hide Mapping.Holds, Mapping.Valid, Mapping.Meaning, MeaningOf, Sound;
      entries, repr := items, reach;
      assert Stand(items, reach, meaning, this);
      hide *;
      StandsFor(this, meaning);
    }
  }

  /** What an item reaches. */
  ghost function Reach(item: Item): set<Mapping>
    reads if item.Nested? then {item.m} else {}
  {
    if item.Nested? then item.m.repr + {item.m} else {}
  }

  ghost predicate Sound(item: Item)
    reads Reach(item)
  {
    match item
    case Plain(v) => !v.Map?
    case Nested(m) => m.Valid()
  }

  ghost function MeaningOf(item: Item): Value
    requires Sound(item)
    reads Reach(item)
  {
    match item
    case Plain(v) => v
    case Nested(m) => m.Meaning()
  }

  lemma {:induction false} ItemMeans(m: Mapping, k: string)
    requires m.Valid() && k in m.entries
    ensures var item := m.entries[k];
            Sound(item) && m !in Reach(item) && Reach(item) <= m.repr && k in m.Meaning().entries &&
              m.Meaning().entries[k] == MeaningOf(item)
    ensures m.entries[k].Nested? ==> m.entries[k].m.repr < m.repr
  {
    assert m.Holds(m.entries[k]);
  }

  /** What items stand for, none of them reaching a mapping. */
  ghost predicate Stand(items: map<string, Item>, reach: set<Mapping>, meaning: Block, apart: Mapping)
    reads set k, m | k in items && m in Reach(items[k]) :: m
  {
    && apart in reach && items.Keys == meaning.Keys
    && forall k :: k in items ==>
         Sound(items[k]) && Reach(items[k]) <= reach && apart !in Reach(items[k]) && MeaningOf(items[k]) == meaning[k]
  }

  lemma {:induction false} ItemsAre(m: Mapping)
    requires m.Valid()
    ensures Stand(m.entries, m.repr, m.Meaning().entries, m)
  {
    forall k | k in m.entries
      ensures Sound(m.entries[k]) && Reach(m.entries[k]) <= m.repr && m !in Reach(m.entries[k])
      ensures m.Meaning().entries[k] == MeaningOf(m.entries[k])
    {
      ItemMeans(m, k);
    }
  }

  lemma {:induction false} StandsFor(m: Mapping, meaning: Block)
    requires Stand(m.entries, m.repr, meaning, m)
    ensures m.Valid() && m.Meaning() == Map(meaning)
  {
    assert forall k :: k in m.entries ==> m.Holds(m.entries[k]);
    assert m.Meaning().entries == meaning;
  }

  lemma {:induction false} KeysMean(m: Mapping)
    requires m.Valid()
    ensures m.Meaning().entries.Keys == m.entries.Keys
  {
  }

  /** Both sides hold a mapping under a key. */
  ghost predicate BothNest(dst: Mapping, src: Mapping, k: string)
    reads dst, src
  {
    k in dst.entries && k in src.entries && dst.entries[k].Nested? && src.entries[k].Nested?
  }

  lemma {:induction false} ReplacedMeans(dst: Mapping, src: Mapping, k: string)
    requires dst.Valid() && src.Valid() && k in src.entries && !BothNest(dst, src, k)
    ensures k in src.Meaning().entries &&
      Settled(dst.Meaning().entries, src.Meaning().entries, k) == src.Meaning().entries[k]
  {
    ItemMeans(src, k);
    if k in dst.entries { ItemMeans(dst, k); }
  }

  lemma {:induction false} MergedMeans(dst: Mapping, src: Mapping, k: string)
    requires dst.Valid() && src.Valid() && BothNest(dst, src, k)
    ensures var d, s := dst.entries[k].m, src.entries[k].m;
            && d.Valid() && s.Valid() && d.repr <= dst.repr && s.repr < src.repr
            && k in src.Meaning().entries
            && Settled(dst.Meaning().entries, src.Meaning().entries, k) == Merge(d.Meaning(), s.Meaning())
  {
    ItemMeans(src, k);
    ItemMeans(dst, k);
  }

  /** Where a merge's items come from, some keys of the source still to come: what both hold a mapping under
      has a mapping of neither's, and every other item is the source's own, or else the destination's. */
  ghost predicate Holding(dst: Mapping, src: Mapping, entries: map<string, Item>, left: set<string>)
    reads dst, src
  {
    && entries.Keys == dst.entries.Keys + (src.entries.Keys - left)
    && (forall k :: k in dst.entries && (k !in src.entries || k in left) ==> entries[k] == dst.entries[k])
    && (forall k :: k in src.entries && k !in left ==>
          if BothNest(dst, src, k)
          then entries[k].Nested? && entries[k].m !in dst.repr + src.repr
          else entries[k] == src.entries[k])
  }

  lemma {:induction false} HoldingMore(dst: Mapping, src: Mapping, entries: map<string, Item>, left: set<string>,
          k: string, item: Item)
    requires Holding(dst, src, entries, left) && k in left && k in src.entries
    requires if BothNest(dst, src, k) then item.Nested? && item.m !in dst.repr + src.repr else item == src.entries[k]
    ensures Holding(dst, src, entries[k := item], left - {k})
  {
  }

  lemma {:induction false} StillDestinations(dst: Mapping, src: Mapping, entries: map<string, Item>, left: set<string>,
          k: string)
    requires Holding(dst, src, entries, left) && k in left && k in src.entries
    ensures k in entries && entries[k].Nested? && src.entries[k].Nested? <==> BothNest(dst, src, k)
    ensures BothNest(dst, src, k) ==> k in entries && entries[k] == dst.entries[k]
  {
  }

  lemma {:induction false} NestedMeans(m: Mapping)
    requires m.Valid()
    ensures Sound(Nested(m)) && MeaningOf(Nested(m)) == m.Meaning() && Reach(Nested(m)) == m.repr
  {
  }

  /** A mapping being built beside two that it shares with, some keys of the source still to come. */
  ghost predicate Building(out: Mapping, dst: Mapping, src: Mapping, left: set<string>)
    reads out, out.repr, dst, dst.repr, src, src.repr
  {
    && dst.Valid() && src.Valid() && out.Valid() && dst.repr + src.repr <= out.repr && out !in dst.repr + src.repr
    && Holding(dst, src, out.entries, left)
    && out.Meaning() == Map(Partly(dst.Meaning().entries, src.Meaning().entries, left))
  }

  /** What a key of the source may be given: the item both sides come to. */
  ghost predicate Fits(dst: Mapping, src: Mapping, k: string, item: Item)
    requires dst.Valid() && src.Valid()
    reads dst, dst.repr, src, src.repr, Reach(item)
  {
    && k in src.entries && k in src.Meaning().entries && Sound(item)
    && (if BothNest(dst, src, k) then item.Nested? && item.m !in dst.repr + src.repr else item == src.entries[k])
    && MeaningOf(item) == Settled(dst.Meaning().entries, src.Meaning().entries, k)
  }

  lemma {:induction false} Apart(out: Mapping, dst: Mapping, src: Mapping, left: set<string>)
    requires Building(out, dst, src, left)
    ensures dst.Valid() && src.Valid() && out.Valid() && out != dst && out != src && out !in dst.repr &&
      out !in src.repr
    ensures dst.repr <= out.repr && src.repr <= out.repr
  {
  }

  lemma {:induction false} Unpack(out: Mapping, dst: Mapping, src: Mapping, left: set<string>)
    requires Building(out, dst, src, left)
    ensures dst.Valid() && src.Valid() && out.Valid() && Holding(dst, src, out.entries, left)
    ensures out.Meaning() == Map(Partly(dst.Meaning().entries, src.Meaning().entries, left))
  {
  }

  lemma {:induction false} Pack(out: Mapping, dst: Mapping, src: Mapping, left: set<string>)
    requires dst.Valid() && src.Valid() && out.Valid() && Holding(dst, src, out.entries, left)
    requires dst.repr <= out.repr && src.repr <= out.repr && out !in dst.repr && out !in src.repr
    requires out.Meaning() == Map(Partly(dst.Meaning().entries, src.Meaning().entries, left))
    ensures Building(out, dst, src, left)
  {
  }

  lemma {:induction false} FitsMeans(dst: Mapping, src: Mapping, k: string, item: Item)
    requires dst.Valid() && src.Valid() && Fits(dst, src, k, item)
    ensures k in src.entries && k in src.Meaning().entries && Sound(item)
    ensures if BothNest(dst, src, k) then item.Nested? && item.m !in dst.repr + src.repr else item == src.entries[k]
    ensures MeaningOf(item) == Settled(dst.Meaning().entries, src.Meaning().entries, k)
  {
  }

  lemma {:induction false} FitsOf(dst: Mapping, src: Mapping, k: string, item: Item)
    requires dst.Valid() && src.Valid() && k in src.entries && k in src.Meaning().entries && Sound(item)
    requires if BothNest(dst, src, k) then item.Nested? && item.m !in dst.repr + src.repr else item == src.entries[k]
    requires MeaningOf(item) == Settled(dst.Meaning().entries, src.Meaning().entries, k)
    ensures Fits(dst, src, k, item)
  {
  }

  method Settle(out: Mapping, dst: Mapping, src: Mapping, k: string, item: Item, ghost left: set<string>)
    requires dst.Valid() && src.Valid()
    requires Building(out, dst, src, left) && k in left && Fits(dst, src, k, item) && out !in Reach(item)
    modifies out
    ensures Building(out, dst, src, left - {k}) && out.repr == old(out.repr + Reach(item))
  {
    hide *;
    Apart(out, dst, src, left);
    Unpack(out, dst, src, left);
    FitsMeans(dst, src, k, item);
    HoldingMore(dst, src, out.entries, left, k, item);
    ghost var dm, sm := dst.Meaning().entries, src.Meaning().entries;
    OneKeyMore(dm, sm, left, k);
    out.Put(k, item);
    assert dst.Meaning() == Map(dm) && src.Meaning() == Map(sm);
    Pack(out, dst, src, left - {k});
  }

  /** One turn of the loop: what a key of the source comes to. */
  method MergeKey(out: Mapping, dst: Mapping, src: Mapping, k: string, ghost left: set<string>)
    requires Building(out, dst, src, left) && k in left && k in src.entries
    modifies out
    ensures Building(out, dst, src, left - {k})
    ensures old(out.repr) <= out.repr && fresh(out.repr - old(out.repr))
    decreases src.repr, 0
  {
    hide *;
    Apart(out, dst, src, left);
    Unpack(out, dst, src, left);
    StillDestinations(dst, src, out.entries, left, k);
    ItemMeans(src, k);
    var v := src.entries[k];
    if k in out.entries && out.entries[k].Nested? && v.Nested? {
      MergedMeans(dst, src, k);
      var merged := DeepMerge(out.entries[k].m, v.m);
      NestedMeans(merged);
      FitsOf(dst, src, k, Nested(merged));
      Settle(out, dst, src, k, Nested(merged), left);
    } else {
      ReplacedMeans(dst, src, k);
      FitsOf(dst, src, k, v);
      Settle(out, dst, src, k, v, left);
    }
  }

  method MergeKeys(out: Mapping, dst: Mapping, src: Mapping)
    requires Building(out, dst, src, src.entries.Keys)
    modifies out
    ensures Building(out, dst, src, {})
    ensures old(out.repr) <= out.repr && fresh(out.repr - old(out.repr))
    decreases src.repr, 1
  {
    hide *;
    var left := src.entries.Keys;
    while left != {}
      invariant left <= src.entries.Keys && Building(out, dst, src, left)
      invariant old(out.repr) <= out.repr && fresh(out.repr - old(out.repr))
      decreases left
    {
      var k :| k in left;
      Apart(out, dst, src, left);
      MergeKey(out, dst, src, k, left);
      left := left - {k};
    }
  }

  /** `deepMerge`, over the source's keys in whatever order its map gives them. It writes to mappings it makes
      and to no other, and shares with its inputs what only one of them settles. */
  method DeepMerge(dst: Mapping, src: Mapping) returns (out: Mapping)
    requires dst.Valid() && src.Valid()
    ensures fresh(out) && out.Valid() && fresh(out.repr - dst.repr - src.repr)
    ensures out.Meaning() == Merge(dst.Meaning(), src.Meaning())
    ensures Holding(dst, src, out.entries, {})
    decreases src.repr, 2
  {
    out := new Mapping(dst, dst.repr + src.repr);
    Started(out, dst, src);
    hide *;
    MergeKeys(out, dst, src);
    Finished(out, dst, src);
  }

  lemma {:induction false} Started(out: Mapping, dst: Mapping, src: Mapping)
    requires dst.Valid() && src.Valid() && out.Valid() && dst.repr + src.repr <= out.repr && out !in dst.repr + src.repr
    requires out.entries == dst.entries && out.Meaning() == dst.Meaning()
    ensures Building(out, dst, src, src.entries.Keys)
  {
    KeysMean(src);
    AllKeys(dst.Meaning().entries, src.Meaning().entries);
  }

  lemma {:induction false} Finished(out: Mapping, dst: Mapping, src: Mapping)
    requires Building(out, dst, src, {})
    ensures dst.Valid() && src.Valid() && out.Valid() && Holding(dst, src, out.entries, {})
    ensures out.Meaning() == Merge(dst.Meaning(), src.Meaning())
  {
    AllKeys(dst.Meaning().entries, src.Meaning().entries);
  }
}
