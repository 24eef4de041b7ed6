/** Decoding arrays and maps into a destination that is grown and filled in place. */
module TypedDecoders {
  import opened Wire
  import opened Schemas
  import opened Values
  import opened Decoding
  import opened BufferedReader
  import opened GenericReader
  import Skipping

  /** A destination slice: a backing array of which the first `len` elements are in use. */
  class Slice {
    var data: array<Value>
    var len: nat

    ghost predicate Valid()
      reads this
    {
      len <= data.Length
    }

    ghost function Contents(): seq<Value>
      reads this, data
      requires Valid()
    {
      data[..len]
    }

    constructor ()
      ensures Valid() && fresh(data) && Contents() == []
    {
      data := new Value[0];
      len := 0;
    }

    /** Changes the length; elements that stay in use keep their values. */
    method Grow(size: nat)
      requires Valid()
      modifies this
      ensures Valid() && len == size && (data == old(data) || fresh(data))
      ensures old(len) <= size ==> Contents()[..old(len)] == old(Contents())
    {
      if size > data.Length {
        var larger := new Value[size](i requires 0 <= i < size reads this, data => if i < data.Length then data[i] else VNull);
        data := larger;
      }
      len := size;
    }
  }

  function Least(a: nat, b: nat): nat {
    if a <= b then a else b
  }

  lemma LeastOf(a: nat, b: nat)
    ensures Least(a, b) <= a && Least(a, b) <= b && (Least(a, b) == a || Least(a, b) == b)
  {
  }

  /** One item of a block. */
  lemma ItemsStep(cfg: Config, g: Graph, depth: nat, s: Schema, keyed: bool, count: nat, b: Bytes)
    requires count > 0
    ensures ReadItems(cfg, g, depth, s, keyed, count, b)
         == match (if keyed then ReadText(cfg, b) else Ok([], b))
            case Fail(e) => Fail(e)
            case Ok(key, rest) =>
              match Read(cfg, g, depth, s, rest)
              case Fail(e) => Fail(e)
              case Ok(v, rest') => Prepend([Entry(key, v)], ReadItems(cfg, g, depth, s, keyed, count - 1, rest'))
  {
    hide Read, ReadText;
  }

  lemma NoItems(cfg: Config, g: Graph, depth: nat, s: Schema, keyed: bool, b: Bytes)
    ensures ReadItems(cfg, g, depth, s, keyed, 0, b) == Ok([], b)
  {
  }

  /** The elements of one block, written to the slots made for them. */
  method FillBlock(r: Reader, g: Graph, depth: nat, s: Schema, dest: Slice, start: nat, count: nat)
    returns (ghost pairs: seq<Entry>)
    requires r.Valid() && dest.Valid() && start + count == dest.len
    modifies r, r.buf, dest.data
    ensures r.Valid() && (old(r.error).Some? ==> r.error.Some?)
    ensures dest.Contents()[..start] == old(dest.Contents()[..start])
    ensures old(r.error).None? ==> Delivers(r, ReadItems(r.cfg, g, depth, s, false, count, old(r.Remaining())), pairs)
    ensures old(r.error).None? && r.error.None? ==> dest.Contents()[start..] == PairValues(pairs)
  {
    hide Flow, FlowEnd, Read, ReadText, ReadItems, PairValues;
    NoValues();
    pairs := [];
    ghost var o := ReadItems(r.cfg, g, depth, s, false, count, r.Remaining());
    PrependNothing(o);
    for i := 0 to count
      invariant r.Valid() && (old(r.error).Some? ==> r.error.Some?) && |pairs| == i
      invariant dest.data[..start] == old(dest.data[..start])
      invariant dest.data[start..start + i] == PairValues(pairs)
      invariant old(r.error).None? ==>
                  && r.error.None?
                  && o == Prepend(pairs, ReadItems(r.cfg, g, depth, s, false, count - i, r.Remaining()))
    {
      ItemsStep(r.cfg, g, depth, s, false, count - i, r.Remaining());
      var v := ReadNext(r, g, depth, s);
      dest.data[start + i] := v;
      assert dest.data[..start] == old(dest.data[..start]);
      if r.error.Some? {
        return;
      }
      PrependTwice(pairs, [Entry([], v)], ReadItems(r.cfg, g, depth, s, false, count - i - 1, r.Remaining()));
      OneMoreValue(pairs, v);
      assert dest.data[start..start + i + 1] == dest.data[start..start + i] + [v];
      pairs := pairs + [Entry([], v)];
    }
    NoItems(r.cfg, g, depth, s, false, r.Remaining());
    assert pairs + [] == pairs;
  }

  lemma OneMoreValue(pairs: seq<Entry>, v: Value)
    ensures PairValues(pairs + [Entry([], v)]) == PairValues(pairs) + [v]
  {
    var more := PairValues(pairs + [Entry([], v)]);
    forall k | 0 <= k < |more| ensures more[k] == (PairValues(pairs) + [v])[k] {
      assert more[k] == (pairs + [Entry([], v)])[k].value;
    }
  }

  lemma NoValues()
    ensures PairValues([]) == []
  {
  }

  lemma ValuesAppend(a: seq<Entry>, b: seq<Entry>)
    ensures PairValues(a + b) == PairValues(a) + PairValues(b)
  {
  }

  /** Room for one more block, and its elements in it. */
  method AppendBlock(r: Reader, g: Graph, depth: nat, s: Schema, dest: Slice, count: nat) returns (ghost pairs: seq<Entry>)
    requires r.Valid() && dest.Valid()
    modifies r, r.buf, dest, dest.data
    ensures r.Valid() && dest.Valid() && (old(r.error).Some? ==> r.error.Some?)
    ensures (dest.data == old(dest.data) || fresh(dest.data)) && dest.len == old(dest.len) + count
    ensures old(r.error).None? ==> Delivers(r, ReadItems(r.cfg, g, depth, s, false, count, old(r.Remaining())), pairs)
    ensures old(r.error).None? && r.error.None? ==> dest.Contents() == old(dest.Contents()) + PairValues(pairs)
  {
    hide Flow, FlowEnd, ReadItems, PairValues;
    var start := dest.len;
    dest.Grow(start + count);
    pairs := FillBlock(r, g, depth, s, dest, start, count);
    assert dest.Contents() == dest.Contents()[..start] + dest.Contents()[start..];
  }

  /** One block: none left, one more, or a failure. */
  method NextBlock(r: Reader, g: Graph, depth: nat, s: Schema, dest: Slice, runtimeLimit: nat)
    returns (more: bool, ghost pairs: seq<Entry>)
    requires r.Valid() && dest.Valid() && dest.len <= Least(r.cfg.maxItems, runtimeLimit)
    modifies r, r.buf, dest, dest.data
    ensures r.Valid() && dest.Valid() && (old(r.error).Some? ==> r.error.Some?)
    ensures (dest.data == old(dest.data) || fresh(dest.data)) && old(dest.len) <= dest.len <= Least(r.cfg.maxItems, runtimeLimit)
    ensures more ==> r.error.None? && old(dest.len) < dest.len
    ensures old(r.error).None? ==>
              var limit := Least(r.cfg.maxItems, runtimeLimit);
              var o := ReadBlocks(r.cfg, g, depth, s, false, limit - old(dest.len), old(r.Remaining()));
              if r.error.Some? then o.Fail?
              else if more then
                && o == Prepend(pairs, ReadBlocks(r.cfg, g, depth, s, false, limit - dest.len, r.Remaining()))
                && dest.Contents() == old(dest.Contents()) + PairValues(pairs)
              else o == Ok([], r.Remaining()) && dest.Contents() == old(dest.Contents())
  {
    hide Flow, FlowEnd, ReadItems, ReadBlocks, Skipping.ReadBlockHeader, PairValues, Least;
    LeastOf(r.cfg.maxItems, runtimeLimit);
    more, pairs := false, [];
    GenericReader.BlocksStep(r.cfg, g, depth, s, false, Least(r.cfg.maxItems, runtimeLimit) - dest.len, r.Remaining());
    var count, _ := r.ReadBlockHeader();
    if count == 0 || r.error.Some? {
      return;
    }
    if count > r.cfg.maxItems - dest.len || count > runtimeLimit - dest.len {
      r.ReportError(Limit);
      return;
    }
    pairs := AppendBlock(r, g, depth, s, dest, count);
    more := r.error.None?;
  }

  /**
   * An array into a slice. Both the configured limit and the runtime's allocation limit count
   * the elements of all blocks together, and the slice never outgrows them.
   */
  method DecodeArray(r: Reader, g: Graph, depth: nat, s: Schema, dest: Slice, runtimeLimit: nat) returns (ghost pairs: seq<Entry>)
    requires r.Valid() && dest.Valid()
    modifies r, r.buf, dest, dest.data
    ensures r.Valid() && dest.Valid() && (old(r.error).Some? ==> r.error.Some?)
    ensures dest.len <= Least(r.cfg.maxItems, runtimeLimit)
    ensures old(r.error).None? ==>
              Delivers(r, ReadBlocks(r.cfg, g, depth, s, false, Least(r.cfg.maxItems, runtimeLimit), old(r.Remaining())), pairs)
    ensures old(r.error).None? && r.error.None? ==> dest.Contents() == PairValues(pairs)
  {
    hide Flow, FlowEnd, ReadItems, ReadBlocks, PairValues, Least;
    NoValues();
    dest.Grow(0);
    pairs := [];
    ghost var limit := Least(r.cfg.maxItems, runtimeLimit);
    ghost var o := ReadBlocks(r.cfg, g, depth, s, false, limit, r.Remaining());
    PrependNothing(o);
    var more := true;
    while more
      invariant r.Valid() && dest.Valid() && (old(r.error).Some? ==> r.error.Some?)
      invariant (dest.data == old(dest.data) || fresh(dest.data)) && dest.len <= limit
      invariant old(r.error).None? && r.error.None? ==>
                  && dest.Contents() == PairValues(pairs)
                  && o == if more then Prepend(pairs, ReadBlocks(r.cfg, g, depth, s, false, limit - dest.len, r.Remaining()))
                          else Ok(pairs, r.Remaining())
      invariant old(r.error).None? && r.error.Some? ==> o.Fail? && !more
      decreases limit - dest.len, more
    {
      ghost var block;
      more, block := NextBlock(r, g, depth, s, dest, runtimeLimit);
      if more {
        ValuesAppend(pairs, block);
        PrependTwice(pairs, block, ReadBlocks(r.cfg, g, depth, s, false, limit - dest.len, r.Remaining()));
        pairs := pairs + block;
      } else {
        assert pairs + [] == pairs;
      }
    }
  }

  /** A destination map. */
  class Table {
    var entries: map<Text, Value>

    constructor ()
      ensures entries == map[]
    {
      entries := map[];
    }
  }

  lemma CollectNone()
    ensures Collect([]) == map[]
  {
  }

  lemma CollectOne(pairs: seq<Entry>, key: Text, v: Value)
    ensures Collect(pairs + [Entry(key, v)]) == Collect(pairs)[key := v]
  {
    assert (pairs + [Entry(key, v)])[..|pairs|] == pairs;
  }

  lemma {:induction false} CollectMore(a: seq<Entry>, b: seq<Entry>)
    ensures Collect(a + b) == Collect(a) + Collect(b)
    decreases |b|
  {
    hide Collect;
    if b == [] {
      CollectNone();
      assert a + b == a;
    } else {
      var front, last := b[..|b| - 1], b[|b| - 1];
      CollectMore(a, front);
      assert a + b == (a + front) + [last] && b == front + [last];
      CollectOne(a + front, last.key, last.value);
      CollectOne(front, last.key, last.value);
      PutLast(Collect(a), Collect(front), last.key, last.value);
    }
  }

  lemma PutLast(a: map<Text, Value>, b: map<Text, Value>, key: Text, v: Value)
    ensures (a + b)[key := v] == a + b[key := v]
  {
  }

  /** The entries of one block; a key met again takes the later value. */
  method PutBlock(r: Reader, g: Graph, depth: nat, s: Schema, dest: Table, count: nat) returns (ghost pairs: seq<Entry>)
    requires r.Valid()
    modifies r, r.buf, dest
    ensures r.Valid() && (old(r.error).Some? ==> r.error.Some?) && |pairs| <= count
    ensures dest.entries == old(dest.entries) + Collect(pairs)
    ensures old(r.error).None? ==> Delivers(r, ReadItems(r.cfg, g, depth, s, true, count, old(r.Remaining())), pairs)
  {
    hide Flow, FlowEnd, Read, ReadText, ReadItems, Collect;
    CollectNone();
    pairs := [];
    ghost var o := ReadItems(r.cfg, g, depth, s, true, count, r.Remaining());
    PrependNothing(o);
    for i := 0 to count
      invariant r.Valid() && (old(r.error).Some? ==> r.error.Some?) && |pairs| == i
      invariant dest.entries == old(dest.entries) + Collect(pairs)
      invariant old(r.error).None? ==>
                  && r.error.None?
                  && o == Prepend(pairs, ReadItems(r.cfg, g, depth, s, true, count - i, r.Remaining()))
    {
      ItemsStep(r.cfg, g, depth, s, true, count - i, r.Remaining());
      var key := r.ReadString();
      var v := ReadNext(r, g, depth, s);
      if r.error.Some? {
        return;
      }
      PrependTwice(pairs, [Entry(key, v)], ReadItems(r.cfg, g, depth, s, true, count - i - 1, r.Remaining()));
      CollectOne(pairs, key, v);
      pairs := pairs + [Entry(key, v)];
      dest.entries := dest.entries[key := v];
    }
    NoItems(r.cfg, g, depth, s, true, r.Remaining());
    assert pairs + [] == pairs;
  }

  /** A map into a destination, whose other entries stay; no more than the limit are put in. */
  method DecodeMap(r: Reader, g: Graph, depth: nat, s: Schema, dest: Table) returns (ghost pairs: seq<Entry>)
    requires r.Valid()
    modifies r, r.buf, dest
    ensures r.Valid() && (old(r.error).Some? ==> r.error.Some?)
    ensures |pairs| <= r.cfg.maxEntries && dest.entries == old(dest.entries) + Collect(pairs)
    ensures old(r.error).None? ==>
              Delivers(r, ReadBlocks(r.cfg, g, depth, s, true, r.cfg.maxEntries, old(r.Remaining())), pairs)
  {
    hide Flow, FlowEnd, ReadItems, ReadBlocks, Skipping.ReadBlockHeader, Collect;
    var limit := r.cfg.maxEntries;
    var size := 0;
    pairs := [];
    CollectNone();
    ghost var o := ReadBlocks(r.cfg, g, depth, s, true, limit, r.Remaining());
    PrependNothing(o);
    while true
      invariant r.Valid() && (old(r.error).Some? ==> r.error.Some?)
      invariant 0 <= size <= limit && |pairs| <= size
      invariant dest.entries == old(dest.entries) + Collect(pairs)
      invariant old(r.error).None? ==>
                  && r.error.None?
                  && o == Prepend(pairs, ReadBlocks(r.cfg, g, depth, s, true, limit - size, r.Remaining()))
      decreases limit - size
    {
      GenericReader.BlocksStep(r.cfg, g, depth, s, true, limit - size, r.Remaining());
      var count, _ := r.ReadBlockHeader();
      if count == 0 || r.error.Some? {
        assert pairs + [] == pairs;
        return;
      }
      if count > limit - size {
        r.ReportError(Limit);
        return;
      }
      size := size + count;
      ghost var block := PutBlock(r, g, depth, s, dest, count);
      CollectMore(pairs, block);
      PrependTwice(pairs, block, ReadBlocks(r.cfg, g, depth, s, true, limit - size, r.Remaining()));
      pairs := pairs + block;
      if r.error.Some? {
        return;
      }
    }
  }
}
