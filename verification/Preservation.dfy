/** A decode plan gives every writer datum the meaning it has for the reader. */
module Preservation {
  import opened Wire
  import opened Datums
  import opened Schemas
  import opened Values
  import opened Skipping
  import opened Decoding
  import opened Compatibility
  import opened Meanings
  import opened Plans

  // --- forgetting union tags ---

  function Erased(v: Option<Value>): Option<Value> {
    match v
    case Some(value) => Some(Erase(value))
    case None => None
  }

  function ErasedMap(obj: map<Text, Value>): map<Text, Value> {
    map k | k in obj :: Erase(obj[k])
  }

  function ErasedFields(obj: Option<map<Text, Value>>): Option<map<Text, Value>> {
    match obj
    case Some(m) => Some(ErasedMap(m))
    case None => None
  }

  function ErasedEntries(pairs: seq<Entry>): (r: seq<Entry>)
    ensures |r| == |pairs|
    ensures forall i :: 0 <= i < |r| ==> r[i] == Entry(pairs[i].key, Erase(pairs[i].value))
  {
    seq(|pairs|, i requires 0 <= i < |pairs| => Entry(pairs[i].key, Erase(pairs[i].value)))
  }

  function ErasedPairs(pairs: Option<seq<Entry>>): Option<seq<Entry>> {
    match pairs
    case Some(entries) => Some(ErasedEntries(entries))
    case None => None
  }

  lemma ErasedConcat(a: seq<Entry>, b: seq<Entry>)
    ensures ErasedEntries(a + b) == ErasedEntries(a) + ErasedEntries(b)
  {
  }

  lemma ErasedOne(key: Text, v: Value)
    ensures ErasedEntries([Entry(key, v)]) == [Entry(key, Erase(v))]
  {
  }

  lemma {:induction false} CollectErased(pairs: seq<Entry>)
    ensures ErasedMap(Collect(pairs)) == Collect(ErasedEntries(pairs))
  {
    if pairs != [] {
      var init := pairs[..|pairs| - 1];
      CollectErased(init);
      assert ErasedEntries(pairs)[..|pairs| - 1] == ErasedEntries(init);
    }
  }

  lemma GatherErased(keyed: bool, pairs: seq<Entry>)
    ensures Erase(Gather(keyed, pairs)) == Gather(keyed, ErasedEntries(pairs))
  {
    if keyed {
      CollectErased(pairs);
    } else {
      assert Erase(Gather(keyed, pairs)).elems == PairValues(ErasedEntries(pairs));
    }
  }

  // --- objects assembled from named slots ---

  datatype Slot = Slot(name: Text, value: Option<Value>)

  /** An object with exactly the slots' values, or nothing if some slot is empty. */
  ghost predicate Assembles(slots: seq<Slot>, r: Option<map<Text, Value>>) {
    match r
    case None => exists x | x in slots :: x.value.None?
    case Some(m) =>
      && (forall x | x in slots :: x.value.Some? && x.name in m && m[x.name] == x.value.value)
      && (forall n | n in m :: exists x | x in slots :: x.name == n)
  }

  ghost predicate SameSlots(a: seq<Slot>, b: seq<Slot>) {
    forall x: Slot :: x in a <==> x in b
  }

  ghost predicate Functional(slots: seq<Slot>) {
    forall x, y | x in slots && y in slots && x.name == y.name :: x == y
  }

  lemma AssemblesOnce(a: seq<Slot>, p: Option<map<Text, Value>>, b: seq<Slot>, q: Option<map<Text, Value>>)
    requires SameSlots(a, b) && Assembles(a, p) && Assembles(b, q)
    ensures p == q
  {
    if p.Some? && q.Some? {
      assert forall n | n in p.value :: n in q.value && q.value[n] == p.value[n];
      assert forall n | n in q.value :: n in p.value;
      assert p.value == q.value;
    }
  }

  /** The slots a plan fills, in its order. */
  function PlanSlots(cfg: Config, h: Graph, fields: seq<Field>, ds: seq<Datum>): seq<Slot>
    decreases |fields|
  {
    if fields == [] then []
    else if fields[0].action.SetDefault? then [DefaultSlot(cfg, h, fields[0])] + PlanSlots(cfg, h, fields[1..], ds)
    else if ds == [] then [Slot(fields[0].name, None)]
    else if fields[0].action.Ignore? then PlanSlots(cfg, h, fields[1..], ds[1..])
    else [KeptSlot(cfg, h, fields[0], ds[0])] + PlanSlots(cfg, h, fields[1..], ds[1..])
  }

  function KeptSlot(cfg: Config, h: Graph, f: Field, d: Datum): Slot {
    Slot(f.name, Erased(Denote(cfg, h, true, f.typ, d)))
  }

  function DefaultSlot(cfg: Config, h: Graph, f: Field): Slot {
    Slot(f.name, if f.def.Some? then Erased(Denote(cfg, h, false, f.typ, f.def.value)) else None)
  }

  lemma {:induction false} DenoteAssembles(cfg: Config, h: Graph, fields: seq<Field>, ds: seq<Datum>,
                                           done: seq<Slot>, obj: map<Text, Value>)
    requires Functional(done + PlanSlots(cfg, h, fields, ds))
    requires Assembles(done, Some(ErasedMap(obj)))
    requires |ds| <= |fields| && forall k :: |ds| <= k < |fields| ==> fields[k].action.SetDefault?
    requires forall k :: 0 <= k < |ds| ==> !fields[k].action.SetDefault?
    ensures Assembles(done + PlanSlots(cfg, h, fields, ds), ErasedFields(DenoteFields(cfg, h, true, fields, ds, obj)))
    decreases |fields|
  {
    var slots := PlanSlots(cfg, h, fields, ds);
    if fields == [] {
      assert done + slots == done;
    } else if fields[0].action.Ignore? {
      DenoteAssembles(cfg, h, fields[1..], ds[1..], done, obj);
    } else {
      var slot := if fields[0].action.SetDefault? then DefaultSlot(cfg, h, fields[0]) else KeptSlot(cfg, h, fields[0], ds[0]);
      var ds' := if fields[0].action.SetDefault? then ds else ds[1..];
      assert slots == [slot] + PlanSlots(cfg, h, fields[1..], ds');
      assert done + slots == (done + [slot]) + PlanSlots(cfg, h, fields[1..], ds');
      assert slot in done + slots;
      if slot.value.Some? {
        var v := if fields[0].action.SetDefault? then Denote(cfg, h, false, fields[0].typ, fields[0].def.value)
                 else Denote(cfg, h, true, fields[0].typ, ds[0]);
        AssembleNext(done, slot, PlanSlots(cfg, h, fields[1..], ds'), obj, v.value);
        DenoteAssembles(cfg, h, fields[1..], ds', done + [slot], obj[fields[0].name := v.value]);
      }
    }
  }

  lemma AssembleNext(done: seq<Slot>, slot: Slot, rest: seq<Slot>, obj: map<Text, Value>, v: Value)
    requires Functional((done + [slot]) + rest)
    requires Assembles(done, Some(ErasedMap(obj))) && slot.value == Some(Erase(v))
    ensures Assembles(done + [slot], Some(ErasedMap(obj[slot.name := v])))
  {
    var m := ErasedMap(obj[slot.name := v]);
    forall x | x in done + [slot]
      ensures x.value.Some? && x.name in m && m[x.name] == x.value.value
    {
      assert x in (done + [slot]) + rest && slot in (done + [slot]) + rest;
    }
    forall n | n in m
      ensures exists x | x in done + [slot] :: x.name == n
    {
      if n == slot.name {
        assert slot in done + [slot];
      } else {
        assert n in ErasedMap(obj);
        var x :| x in done && x.name == n;
        assert x in done + [slot];
      }
    }
  }

  /** The slots are those of the kept fields and of the defaults. */
  function SlotAt(cfg: Config, h: Graph, fields: seq<Field>, ds: seq<Datum>, k: nat): Slot
    requires k < |fields|
  {
    if k < |ds| then KeptSlot(cfg, h, fields[k], ds[k]) else DefaultSlot(cfg, h, fields[k])
  }

  ghost predicate FrontAndDefaults(fields: seq<Field>, n: nat) {
    && n <= |fields|
    && (forall k :: n <= k < |fields| ==> fields[k].action.SetDefault?)
    && forall k :: 0 <= k < n ==> !fields[k].action.SetDefault?
  }

  lemma {:induction false} SlotsMembers(cfg: Config, h: Graph, fields: seq<Field>, ds: seq<Datum>)
    requires FrontAndDefaults(fields, |ds|)
    ensures forall k :: 0 <= k < |fields| && !fields[k].action.Ignore? ==>
              SlotAt(cfg, h, fields, ds, k) in PlanSlots(cfg, h, fields, ds)
    ensures forall x | x in PlanSlots(cfg, h, fields, ds) ::
              exists k :: 0 <= k < |fields| && !fields[k].action.Ignore? && x == SlotAt(cfg, h, fields, ds, k)
    decreases |fields|
  {
    if fields != [] {
      var rest := fields[1..];
      var ds' := if fields[0].action.SetDefault? then ds else ds[1..];
      SlotsMembers(cfg, h, rest, ds');
      assert forall k :: 0 < k < |fields| ==> SlotAt(cfg, h, fields, ds, k) == SlotAt(cfg, h, rest, ds', k - 1);
      forall k | 0 <= k < |fields| && !fields[k].action.Ignore?
        ensures SlotAt(cfg, h, fields, ds, k) in PlanSlots(cfg, h, fields, ds)
      {
        if k > 0 {
          assert rest[k - 1] == fields[k];
          assert SlotAt(cfg, h, rest, ds', k - 1) in PlanSlots(cfg, h, rest, ds');
        }
      }
      forall x | x in PlanSlots(cfg, h, fields, ds)
        ensures exists k :: 0 <= k < |fields| && !fields[k].action.Ignore? && x == SlotAt(cfg, h, fields, ds, k)
      {
        if x in PlanSlots(cfg, h, rest, ds') {
          var k :| 0 <= k < |rest| && !rest[k].action.Ignore? && x == SlotAt(cfg, h, rest, ds', k);
          assert x == SlotAt(cfg, h, fields, ds, k + 1) && !fields[k + 1].action.Ignore?;
        } else {
          assert x == SlotAt(cfg, h, fields, ds, 0) && !fields[0].action.Ignore?;
        }
      }
    }
  }

  // --- the reader's view of the same slots ---

  function ReaderSlot(cfg: Config, g: Graph, f: Field, ws: seq<Field>, m: Option<nat>, ds: seq<Datum>): Slot
    requires DeclaredGraph(g) && Declared(f.typ, |g|)
    requires forall f | f in ws :: Declared(f.typ, |g|)
    requires |ds| == |ws| && (m.Some? ==> m.value < |ws|)
  {
    Slot(f.name, FieldMeaning(cfg, g, f, ws, m, ds))
  }

  function ReaderSlots(cfg: Config, g: Graph, rs: seq<Field>, ws: seq<Field>, matched: seq<Option<nat>>,
                       ds: seq<Datum>): (r: seq<Slot>)
    requires DeclaredGraph(g)
    requires forall f | f in rs :: Declared(f.typ, |g|)
    requires forall f | f in ws :: Declared(f.typ, |g|)
    requires |matched| == |rs| && Bounded(matched, |ws|) && |ds| == |ws|
    ensures |r| == |rs| && NamedAfter(r, rs)
    ensures forall j :: 0 <= j < |rs| ==> r[j] == ReaderSlot(cfg, g, rs[j], ws, matched[j], ds)
  {
    seq(|rs|, j requires 0 <= j < |rs| => ReaderSlot(cfg, g, rs[j], ws, matched[j], ds))
  }

  predicate NamedAfter(slots: seq<Slot>, rs: seq<Field>) {
    |slots| == |rs| && forall j :: 0 <= j < |rs| ==> slots[j].name == rs[j].name
  }

  lemma FirstNameApart(slots: seq<Slot>, rs: seq<Field>)
    requires NamedAfter(slots, rs) && rs != []
    requires forall i, j :: 0 <= i < j < |rs| ==> rs[i].name != rs[j].name
    ensures forall x | x in slots[1..] :: x.name != slots[0].name
  {
  }

  lemma NamesFunctional(slots: seq<Slot>, rs: seq<Field>)
    requires NamedAfter(slots, rs) && ValidFields(rs)
    ensures Functional(slots)
  {
    forall x, y | x in slots && y in slots && x.name == y.name
      ensures x == y
    {
      var i :| 0 <= i < |slots| && slots[i] == x;
      var j :| 0 <= j < |slots| && slots[j] == y;
      assert rs[i].name == rs[j].name;
    }
  }

  lemma ReaderSlotsTail(cfg: Config, g: Graph, rs: seq<Field>, ws: seq<Field>, matched: seq<Option<nat>>, ds: seq<Datum>)
    requires DeclaredGraph(g) && rs != []
    requires forall f | f in rs :: Declared(f.typ, |g|)
    requires forall f | f in ws :: Declared(f.typ, |g|)
    requires |matched| == |rs| && Bounded(matched, |ws|) && |ds| == |ws|
    ensures ReaderSlots(cfg, g, rs, ws, matched, ds)[1..] == ReaderSlots(cfg, g, rs[1..], ws, matched[1..], ds)
  {
  }

  lemma {:induction false} MeaningAssembles(cfg: Config, g: Graph, rs: seq<Field>, ws: seq<Field>,
                                            matched: seq<Option<nat>>, ds: seq<Datum>)
    requires DeclaredGraph(g)
    requires forall f | f in rs :: Declared(f.typ, |g|)
    requires forall f | f in ws :: Declared(f.typ, |g|)
    requires |matched| == |rs| && Bounded(matched, |ws|) && |ds| == |ws|
    requires forall i, j :: 0 <= i < j < |rs| ==> rs[i].name != rs[j].name
    ensures Assembles(ReaderSlots(cfg, g, rs, ws, matched, ds), MeaningFields(cfg, g, rs, ws, matched, ds))
    decreases |rs|
  {
    if rs == [] {
      assert MeaningFields(cfg, g, rs, ws, matched, ds) == Some(map[]);
    } else {
      hide MeaningFields, FieldMeaning, Declared;
      var slots := ReaderSlots(cfg, g, rs, ws, matched, ds);
      MeaningAssembles(cfg, g, rs[1..], ws, matched[1..], ds);
      ReaderSlotsTail(cfg, g, rs, ws, matched, ds);
      FirstNameApart(slots, rs);
      AssembleFront(slots[0], slots[1..], MeaningFields(cfg, g, rs[1..], ws, matched[1..], ds));
      assert slots == [slots[0]] + slots[1..];
      FirstFieldMeaning(cfg, g, rs, ws, matched, ds);
    }
  }

  lemma FirstFieldMeaning(cfg: Config, g: Graph, rs: seq<Field>, ws: seq<Field>, matched: seq<Option<nat>>, ds: seq<Datum>)
    requires DeclaredGraph(g) && rs != []
    requires forall f | f in rs :: Declared(f.typ, |g|)
    requires forall f | f in ws :: Declared(f.typ, |g|)
    requires |matched| == |rs| && Bounded(matched, |ws|) && |ds| == |ws|
    ensures MeaningFields(cfg, g, rs, ws, matched, ds)
         == With(ReaderSlot(cfg, g, rs[0], ws, matched[0], ds), MeaningFields(cfg, g, rs[1..], ws, matched[1..], ds))
  {
  }

  function With(slot: Slot, m: Option<map<Text, Value>>): Option<map<Text, Value>> {
    if slot.value.None? || m.None? then None else Some(m.value[slot.name := slot.value.value])
  }

  lemma AssembleFront(slot: Slot, rest: seq<Slot>, m: Option<map<Text, Value>>)
    requires Assembles(rest, m) && forall x | x in rest :: x.name != slot.name
    ensures Assembles([slot] + rest, With(slot, m))
  {
    assert slot in [slot] + rest;
    if slot.value.Some? && m.Some? {
      var m' := m.value[slot.name := slot.value.value];
      forall n | n in m'
        ensures exists x | x in [slot] + rest :: x.name == n
      {
        if n != slot.name {
          var x :| x in rest && x.name == n;
          assert x in [slot] + rest;
        }
      }
    } else if slot.value.Some? {
      var x :| x in rest && x.value.None?;
      assert x in [slot] + rest;
    }
  }

  // --- matching is one to one ---

  lemma {:induction false} MatchedOnce(readers: seq<Label>, writers: seq<Label>, used: set<nat>, i: nat, j: nat)
    requires MatchFields(readers, writers, used).Some?
    requires j < |readers| && MatchFields(readers, writers, used).value[j].Some?
    ensures MatchFields(readers, writers, used).value[j].value !in used
    ensures i < |readers| && MatchFields(readers, writers, used).value[i] == MatchFields(readers, writers, used).value[j] ==> i == j
    decreases |readers|
  {
    var m := MatchFields(readers, writers, used).value;
    var index := m[0];
    var used' := if index.Some? then used + {index.value} else used;
    if j > 0 {
      MatchedOnce(readers[1..], writers, used', if i > 0 then i - 1 else 0, j - 1);
    }
    if j == 0 && 0 < i < |readers| && m[i].Some? {
      MatchedOnce(readers[1..], writers, used', 0, i - 1);
    }
  }

  lemma {:induction false} DefaultsOfUnmatched(rs: seq<Field>, matched: seq<Option<nat>>)
    requires |matched| == |rs|
    ensures forall f | f in DefaultFields(rs, matched) ::
              exists j :: 0 <= j < |rs| && matched[j].None? && f == DefaultField(rs[j])
    ensures forall j :: 0 <= j < |rs| && matched[j].None? ==> DefaultField(rs[j]) in DefaultFields(rs, matched)
  {
    if rs != [] {
      DefaultsOfUnmatched(rs[1..], matched[1..]);
      forall f | f in DefaultFields(rs, matched)
        ensures exists j :: 0 <= j < |rs| && matched[j].None? && f == DefaultField(rs[j])
      {
        if f in DefaultFields(rs[1..], matched[1..]) {
          var j :| 0 <= j < |rs[1..]| && matched[1..][j].None? && f == DefaultField(rs[1..][j]);
          assert matched[j + 1].None? && f == DefaultField(rs[j + 1]);
        } else {
          assert matched[0].None? && f == DefaultField(rs[0]);
        }
      }
      forall j | 0 <= j < |rs| && matched[j].None?
        ensures DefaultField(rs[j]) in DefaultFields(rs, matched)
      {
        if j > 0 {
          assert matched[1..][j - 1].None? && rs[1..][j - 1] == rs[j];
        }
      }
    }
  }

  // --- records ---

  ghost predicate Keeps(cfg: Config, g: Graph, h: Graph, r: Schema, w: Schema, s: Schema, d: Datum)
    requires DeclaredGraph(g) && Declared(r, |g|) && Declared(w, |g|)
  {
    Shape(h, s, d) && Erased(Denote(cfg, h, true, s, d)) == Meaning(cfg, g, r, w, d)
  }

  /** The plan of writer field `k` keeps its meaning. */
  ghost predicate FieldKept(cfg: Config, g: Graph, h: Graph, rs: seq<Field>, ws: seq<Field>,
                            matched: seq<Option<nat>>, f: Field, k: nat, d: Datum)
    requires DeclaredGraph(g) && |matched| == |rs| && k < |ws|
    requires forall f | f in rs :: Declared(f.typ, |g|)
    requires forall f | f in ws :: Declared(f.typ, |g|)
  {
    && Shape(h, f.typ, d)
    && (ReaderOf(matched, k).Some? ==> Keeps(cfg, g, h, rs[ReaderOf(matched, k).value].typ, ws[k].typ, f.typ, d))
  }

  lemma {:induction false} ShapeOfWriter(g: Graph, ws: seq<Field>, ds: seq<Datum>)
    requires ShapeFields(g, ws, ds) && forall f | f in ws :: f.action.Keep?
    ensures |ds| == |ws| && forall k :: 0 <= k < |ws| ==> Shape(g, ws[k].typ, ds[k])
    decreases |ws|
  {
    if ws != [] {
      ShapeOfWriter(g, ws[1..], ds[1..]);
      forall k | 0 <= k < |ws|
        ensures Shape(g, ws[k].typ, ds[k])
      {
        if k > 0 {
          assert ws[k] == ws[1..][k - 1] && ds[k] == ds[1..][k - 1];
        }
      }
    }
  }

  lemma {:induction false} ShapeOfPlan(h: Graph, fields: seq<Field>, ds: seq<Datum>)
    requires FrontAndDefaults(fields, |ds|)
    requires forall k :: 0 <= k < |ds| ==> Shape(h, fields[k].typ, ds[k])
    ensures ShapeFields(h, fields, ds)
    decreases |fields|
  {
    if fields != [] {
      ShapeOfPlan(h, fields[1..], if fields[0].action.SetDefault? then ds else ds[1..]);
    }
  }

  lemma DefaultMeaningKept(cfg: Config, g: Graph, h: Graph, f: Field)
    requires DeclaredGraph(g) && Embeds(g, h) && Declared(f.typ, |g|)
    ensures DefaultSlot(cfg, h, DefaultField(f)) == Slot(f.name, DefaultMeaning(cfg, g, f))
  {
    if f.def.Some? {
      DenoteKept(cfg, g, h, f.typ, f.def.value);
    }
  }

  /** What the records, their matching and their plan have in common below. */
  ghost predicate Planned(g: Graph, recs: Records, h: Graph, rs: seq<Field>, ws: seq<Field>,
                          matched: seq<Option<nat>>, fields: seq<Field>, n: nat)
  {
    && DeclaredGraph(g) && Embeds(g, h)
    && (forall f | f in rs :: Declared(f.typ, |g|))
    && (forall f | f in ws :: Declared(f.typ, |g|))
    && MatchFields(Labels(rs), Labels(ws), {}) == Some(matched) && |matched| == |rs| && Bounded(matched, |ws|)
    && FieldsPlan(g, recs, h, rs, ws, fields) && n == |ws|
  }

  lemma PlanIsFrontAndDefaults(g: Graph, recs: Records, h: Graph, rs: seq<Field>, ws: seq<Field>,
                               matched: seq<Option<nat>>, fields: seq<Field>, n: nat)
    requires Planned(g, recs, h, rs, ws, matched, fields, n)
    ensures FrontAndDefaults(fields, n)
  {
    DefaultsOfUnmatched(rs, matched);
    forall k | n <= k < |fields|
      ensures fields[k].action.SetDefault?
    {
      assert fields[k] == fields[n..][k - n];
      assert fields[k] in DefaultFields(rs, matched);
    }
    forall k | 0 <= k < n
      ensures !fields[k].action.SetDefault?
    {
      assert WriterFieldPlan(g, recs, h, rs, ws, matched, k, fields[k]);
    }
  }

  lemma FrontSlot(cfg: Config, g: Graph, recs: Records, h: Graph, rs: seq<Field>, ws: seq<Field>,
                  matched: seq<Option<nat>>, fields: seq<Field>, ds: seq<Datum>, k: nat)
    requires Planned(g, recs, h, rs, ws, matched, fields, |ds|) && k < |ws|
    requires FieldKept(cfg, g, h, rs, ws, matched, fields[k], k, ds[k])
    ensures match ReaderOf(matched, k)
            case None => fields[k].action.Ignore?
            case Some(j) =>
              && !fields[k].action.Ignore?
              && SlotAt(cfg, h, fields, ds, k) == ReaderSlot(cfg, g, rs[j], ws, matched[j], ds)
  {
    assert WriterFieldPlan(g, recs, h, rs, ws, matched, k, fields[k]);
  }

  /** Every slot of the plan is one of the reader's. */
  lemma PlanSlotsIncluded(cfg: Config, g: Graph, recs: Records, h: Graph, rs: seq<Field>, ws: seq<Field>,
                          matched: seq<Option<nat>>, fields: seq<Field>, ds: seq<Datum>)
    requires Planned(g, recs, h, rs, ws, matched, fields, |ds|)
    requires forall k :: 0 <= k < |ws| ==> FieldKept(cfg, g, h, rs, ws, matched, fields[k], k, ds[k])
    ensures forall x | x in PlanSlots(cfg, h, fields, ds) :: x in ReaderSlots(cfg, g, rs, ws, matched, ds)
  {
    hide PlanSlots, SlotAt, ReaderSlot, FieldKept, WriterFieldPlan, FieldsPlan;
    PlanIsFrontAndDefaults(g, recs, h, rs, ws, matched, fields, |ds|);
    SlotsMembers(cfg, h, fields, ds);
    var qs := ReaderSlots(cfg, g, rs, ws, matched, ds);
    forall x | x in PlanSlots(cfg, h, fields, ds)
      ensures x in qs
    {
      var k :| 0 <= k < |fields| && !fields[k].action.Ignore? && x == SlotAt(cfg, h, fields, ds, k);
      if k < |ws| {
        FrontSlot(cfg, g, recs, h, rs, ws, matched, fields, ds, k);
        assert x == qs[ReaderOf(matched, k).value];
      } else {
        var j := BackSlot(cfg, g, recs, h, rs, ws, matched, fields, ds, k);
        assert x == qs[j];
      }
    }
  }

  lemma BackSlot(cfg: Config, g: Graph, recs: Records, h: Graph, rs: seq<Field>, ws: seq<Field>,
                 matched: seq<Option<nat>>, fields: seq<Field>, ds: seq<Datum>, k: nat) returns (j: nat)
    requires Planned(g, recs, h, rs, ws, matched, fields, |ds|) && |ws| <= k < |fields|
    ensures j < |rs| && SlotAt(cfg, h, fields, ds, k) == ReaderSlot(cfg, g, rs[j], ws, matched[j], ds)
  {
    DefaultsOfUnmatched(rs, matched);
    assert fields[k] == fields[|ws|..][k - |ws|];
    assert fields[k] in DefaultFields(rs, matched);
    j :| 0 <= j < |rs| && matched[j].None? && fields[k] == DefaultField(rs[j]);
    DefaultMeaningKept(cfg, g, h, rs[j]);
  }

  /** The slot of reader field `j` is one of the plan's. */
  lemma ReaderSlotIncluded(cfg: Config, g: Graph, recs: Records, h: Graph, rs: seq<Field>, ws: seq<Field>,
                           matched: seq<Option<nat>>, fields: seq<Field>, ds: seq<Datum>, j: nat)
    requires Planned(g, recs, h, rs, ws, matched, fields, |ds|) && j < |rs|
    requires matched[j].Some? ==> var k := matched[j].value; FieldKept(cfg, g, h, rs, ws, matched, fields[k], k, ds[k])
    ensures exists k :: 0 <= k < |fields| && !fields[k].action.Ignore?
              && SlotAt(cfg, h, fields, ds, k) == ReaderSlot(cfg, g, rs[j], ws, matched[j], ds)
  {
    if matched[j].Some? {
      var k := matched[j].value;
      MatchedOnce(Labels(rs), Labels(ws), {}, ReaderOf(matched, k).value, j);
      FrontSlot(cfg, g, recs, h, rs, ws, matched, fields, ds, k);
    } else {
      DefaultsOfUnmatched(rs, matched);
      DefaultMeaningKept(cfg, g, h, rs[j]);
      var i :| 0 <= i < |fields[|ws|..]| && fields[|ws|..][i] == DefaultField(rs[j]);
      assert fields[|ws| + i] == DefaultField(rs[j]);
      assert SlotAt(cfg, h, fields, ds, |ws| + i) == ReaderSlot(cfg, g, rs[j], ws, matched[j], ds);
    }
  }

  /** Every slot of the reader is one of the plan's. */
  lemma ReaderSlotsIncluded(cfg: Config, g: Graph, recs: Records, h: Graph, rs: seq<Field>, ws: seq<Field>,
                            matched: seq<Option<nat>>, fields: seq<Field>, ds: seq<Datum>)
    requires Planned(g, recs, h, rs, ws, matched, fields, |ds|)
    requires forall k :: 0 <= k < |ws| ==> FieldKept(cfg, g, h, rs, ws, matched, fields[k], k, ds[k])
    ensures forall x | x in ReaderSlots(cfg, g, rs, ws, matched, ds) :: x in PlanSlots(cfg, h, fields, ds)
  {
    PlanIsFrontAndDefaults(g, recs, h, rs, ws, matched, fields, |ds|);
    SlotsMembers(cfg, h, fields, ds);
    var qs := ReaderSlots(cfg, g, rs, ws, matched, ds);
    forall x | x in qs
      ensures x in PlanSlots(cfg, h, fields, ds)
    {
      var j :| 0 <= j < |qs| && x == qs[j];
      ReaderSlotIncluded(cfg, g, recs, h, rs, ws, matched, fields, ds, j);
    }
  }

  lemma SlotsDecide(cfg: Config, h: Graph, fields: seq<Field>, ds: seq<Datum>, qs: seq<Slot>, q: Option<map<Text, Value>>)
    requires FrontAndDefaults(fields, |ds|) && Functional(qs) && Assembles(qs, q)
    requires SameSlots(PlanSlots(cfg, h, fields, ds), qs)
    ensures ErasedFields(DenoteFields(cfg, h, true, fields, ds, map[])) == q
  {
    var ps := PlanSlots(cfg, h, fields, ds);
    assert [] + ps == ps;
    assert ErasedMap(map[]) == map[];
    DenoteAssembles(cfg, h, fields, ds, [], map[]);
    AssemblesOnce(ps, ErasedFields(DenoteFields(cfg, h, true, fields, ds, map[])), qs, q);
  }

  lemma FieldsMeaning(cfg: Config, g: Graph, recs: Records, h: Graph, rs: seq<Field>, ws: seq<Field>,
                      matched: seq<Option<nat>>, fields: seq<Field>, ds: seq<Datum>)
    requires Planned(g, recs, h, rs, ws, matched, fields, |ds|) && ValidFields(rs)
    requires forall k :: 0 <= k < |ws| ==> FieldKept(cfg, g, h, rs, ws, matched, fields[k], k, ds[k])
    ensures ShapeFields(h, fields, ds)
    ensures ErasedFields(DenoteFields(cfg, h, true, fields, ds, map[])) == MeaningFields(cfg, g, rs, ws, matched, ds)
  {
    PlanIsFrontAndDefaults(g, recs, h, rs, ws, matched, fields, |ds|);
    PlanSlotsIncluded(cfg, g, recs, h, rs, ws, matched, fields, ds);
    ReaderSlotsIncluded(cfg, g, recs, h, rs, ws, matched, fields, ds);
    ShapeOfPlan(h, fields, ds);
    var qs := ReaderSlots(cfg, g, rs, ws, matched, ds);
    MeaningAssembles(cfg, g, rs, ws, matched, ds);
    NamesFunctional(qs, rs);
    SlotsDecide(cfg, h, fields, ds, qs, MeaningFields(cfg, g, rs, ws, matched, ds));
  }

  // --- arrays and maps ---

  function Gathered(keyed: bool, pairs: Option<seq<Entry>>): Option<Value> {
    if pairs.Some? then Some(Gather(keyed, pairs.value)) else None
  }

  lemma GatheredErased(keyed: bool, pairs: Option<seq<Entry>>)
    ensures Erased(Gathered(keyed, pairs)) == Gathered(keyed, ErasedPairs(pairs))
  {
    if pairs.Some? {
      GatherErased(keyed, pairs.value);
    }
  }

  function Collection(keyed: bool, s: Schema): Schema {
    if keyed then Map(s) else Array(s)
  }

  lemma DenotedCollection(cfg: Config, h: Graph, keyed: bool, s: Schema, d: Datum)
    requires d.DBlocks?
    ensures Denote(cfg, h, true, Collection(keyed, s), d) == Gathered(keyed, DenoteBlocks(cfg, h, true, s, keyed, d.blocks))
  {
  }

  lemma MeantCollection(cfg: Config, g: Graph, keyed: bool, r: Schema, w: Schema, d: Datum)
    requires DeclaredGraph(g) && Declared(r, |g|) && Declared(w, |g|) && d.DBlocks?
    ensures Meaning(cfg, g, Collection(keyed, r), Collection(keyed, w), d)
         == Gathered(keyed, MeaningBlocks(cfg, g, r, w, keyed, d.blocks))
  {
  }

  lemma CollectionKeeps(cfg: Config, g: Graph, h: Graph, keyed: bool, r: Schema, w: Schema, s: Schema, d: Datum)
    requires DeclaredGraph(g) && Declared(r, |g|) && Declared(w, |g|) && d.DBlocks? && d.keyed == keyed
    requires ShapeBlocks(h, s, keyed, d.blocks)
    requires ErasedPairs(DenoteBlocks(cfg, h, true, s, keyed, d.blocks)) == MeaningBlocks(cfg, g, r, w, keyed, d.blocks)
    ensures Keeps(cfg, g, h, Collection(keyed, r), Collection(keyed, w), Collection(keyed, s), d)
  {
    DenotedCollection(cfg, h, keyed, s, d);
    MeantCollection(cfg, g, keyed, r, w, d);
    GatheredErased(keyed, DenoteBlocks(cfg, h, true, s, keyed, d.blocks));
  }

  // --- the main theorem ---

  /** Resolution keeps the meaning of every datum, record by record and branch by branch. */
  lemma {:induction false} PlanMeaning(cfg: Config, g: Graph, recs: Records, h: Graph,
                                       r: Schema, w: Schema, s: Schema, d: Datum)
    requires DeclaredGraph(g) && Declared(r, |g|) && Declared(w, |g|)
    requires Complete(g, recs, h) && Plan(g, recs, h, r, w, s) && Shape(g, w, d)
    ensures Keeps(cfg, g, h, r, w, s, d)
    decreases d, 1, Size(r) + Size(w)
  {
    var reader, writer := Deref(r), Deref(w);
    PlanDeref(g, recs, h, r, w, s);
    if writer.Union? {
      UnionMeaning(cfg, g, recs, h, reader, writer, s, d);
    } else if reader.Union? {
      BranchMeaning(cfg, g, recs, h, reader, writer, s, d);
    } else {
      SolidMeaning(cfg, g, recs, h, reader, writer, s, d);
    }
    MeaningDeref(cfg, g, r, w, d);
  }

  lemma PlanDeref(g: Graph, recs: Records, h: Graph, r: Schema, w: Schema, s: Schema)
    requires DeclaredGraph(g) && Declared(r, |g|) && Declared(w, |g|)
    ensures Plan(g, recs, h, r, w, s) == Plan(g, recs, h, Deref(r), Deref(w), s)
  {
  }

  lemma MeaningDeref(cfg: Config, g: Graph, r: Schema, w: Schema, d: Datum)
    requires DeclaredGraph(g) && Declared(r, |g|) && Declared(w, |g|)
    ensures Meaning(cfg, g, r, w, d) == Meaning(cfg, g, Deref(r), Deref(w), d)
  {
  }

  lemma DefKeeps(cfg: Config, g: Graph, h: Graph, i: nat, j: nat, s: Schema, d: Datum)
    requires DeclaredGraph(g) && i < |g| && j < |g|
    requires Shape(h, s, d) && Erased(Denote(cfg, h, true, s, d)) == MeaningDef(cfg, g, g[i], g[j], d)
    ensures Keeps(cfg, g, h, Named(i), Named(j), s, d)
  {
    hide Denote, Shape, MeaningDef;
  }

  /** Neither side is a union or a reference. */
  lemma {:induction false} SolidMeaning(cfg: Config, g: Graph, recs: Records, h: Graph,
                                        reader: Schema, writer: Schema, s: Schema, d: Datum)
    requires DeclaredGraph(g) && Declared(reader, |g|) && Declared(writer, |g|)
    requires !reader.Ref? && !writer.Ref? && !reader.Union? && !writer.Union?
    requires Complete(g, recs, h) && Plan(g, recs, h, reader, writer, s) && Shape(g, writer, d)
    ensures Keeps(cfg, g, h, reader, writer, s, d)
    decreases d, 0, 2
  {
    hide Meaning, Denote, Complete, Keeps;
    match (reader, writer)
    case (Array(items), Array(witems)) => CollectionMeaning(cfg, g, recs, h, false, items, witems, s.items, d);
    case (Map(values), Map(wvalues)) => CollectionMeaning(cfg, g, recs, h, true, values, wvalues, s.values, d);
    case (Named(i), Named(j)) =>
      DefMeaning(cfg, g, recs, h, i, j, s, d);
      DefKeeps(cfg, g, h, i, j, s, d);
    case _ => NativeMeaning(cfg, g, recs, h, reader, writer, s, d);
  }

  lemma NativeMeaning(cfg: Config, g: Graph, recs: Records, h: Graph, reader: Schema, writer: Schema, s: Schema, d: Datum)
    requires DeclaredGraph(g) && Declared(reader, |g|) && Declared(writer, |g|)
    requires reader.Null? || reader.Primitive? || writer.Null? || writer.Primitive?
    requires !reader.Ref? && !writer.Ref? && !reader.Union? && !writer.Union?
    requires Plan(g, recs, h, reader, writer, s) && Shape(g, writer, d)
    ensures Keeps(cfg, g, h, reader, writer, s, d)
  {
    if reader.Primitive? {
      PrimitiveErased(cfg, reader.kind, reader.logical, d);
    }
  }

  lemma PrimitiveErased(cfg: Config, kind: Kind, logical: Logical, d: Datum)
    ensures Erased(PrimitiveValue(cfg, kind, logical, d)) == PrimitiveValue(cfg, kind, logical, d)
  {
  }

  lemma {:induction false} BranchMeaning(cfg: Config, g: Graph, recs: Records, h: Graph,
                                         reader: Schema, writer: Schema, s: Schema, d: Datum)
    requires DeclaredGraph(g) && Declared(reader, |g|) && Declared(writer, |g|)
    requires reader.Union? && !writer.Ref? && !writer.Union?
    requires Complete(g, recs, h) && Plan(g, recs, h, reader, writer, s) && Shape(g, writer, d)
    ensures Keeps(cfg, g, h, reader, writer, s, d)
    decreases d, 1, Size(reader) + Size(writer), 0
  {
    var k := FirstMatch(g, reader.types, writer).value;
    SizeOfBranch(reader.types, k);
    PlanMeaning(cfg, g, recs, h, reader.types[k], writer, s, d);
  }

  lemma {:induction false} UnionMeaning(cfg: Config, g: Graph, recs: Records, h: Graph,
                                        reader: Schema, writer: Schema, s: Schema, d: Datum)
    requires DeclaredGraph(g) && Declared(reader, |g|) && Declared(writer, |g|) && !reader.Ref? && writer.Union?
    requires Complete(g, recs, h) && Plan(g, recs, h, reader, writer, s) && Shape(g, writer, d)
    ensures Keeps(cfg, g, h, reader, writer, s, d)
    decreases d, 0, 0
  {
    hide Complete, Meaning, Denote;
    var k := d.branch;
    SizeOfBranch(writer.types, k);
    PlanOfUnion(g, recs, h, reader, writer, s, k);
    PlanMeaning(cfg, g, recs, h, reader, writer.types[k], s.plans[k], d.datum);
    BranchDenotes(cfg, h, s, d);
    BranchMeans(cfg, g, reader, writer, d);
  }

  lemma PlanOfUnion(g: Graph, recs: Records, h: Graph, reader: Schema, writer: Schema, s: Schema, k: nat)
    requires DeclaredGraph(g) && Declared(reader, |g|) && Declared(writer, |g|) && !reader.Ref? && writer.Union?
    requires Plan(g, recs, h, reader, writer, s) && k < |writer.types|
    ensures s.Union? && |s.plans| == |writer.types| && DecodeTypes(s)[k] == s.plans[k]
    ensures Plan(g, recs, h, reader, writer.types[k], s.plans[k])
  {
    SizeOfBranch(writer.types, k);
  }

  lemma BranchDenotes(cfg: Config, h: Graph, s: Schema, d: Datum)
    requires s.Union? && d.DUnion? && d.branch < |DecodeTypes(s)|
    ensures Erased(Denote(cfg, h, true, s, d)) == Erased(Denote(cfg, h, true, DecodeTypes(s)[d.branch], d.datum))
  {
  }

  lemma BranchMeans(cfg: Config, g: Graph, reader: Schema, writer: Schema, d: Datum)
    requires DeclaredGraph(g) && Declared(reader, |g|) && Declared(writer, |g|) && !reader.Ref? && writer.Union?
    requires d.DUnion? && d.branch < |writer.types|
    ensures Meaning(cfg, g, reader, writer, d) == Meaning(cfg, g, reader, writer.types[d.branch], d.datum)
  {
  }

  lemma {:induction false} DefMeaning(cfg: Config, g: Graph, recs: Records, h: Graph, i: nat, j: nat, s: Schema, d: Datum)
    requires DeclaredGraph(g) && i < |g| && j < |g|
    requires Complete(g, recs, h) && DefPlan(g, recs, h, i, j, s) && ShapeDef(g, g[j], d)
    ensures Shape(h, s, d) && Erased(Denote(cfg, h, true, s, d)) == MeaningDef(cfg, g, g[i], g[j], d)
    decreases d, 0, 1
  {
    assert h[..|g|][i] == h[i];
    if g[i].Record? {
      RecordMeaning(cfg, g, recs, h, i, j, recs[(i, j)], d);
    } else if g[i].Enum? {
      EnumMeaning(cfg, g, recs, h, i, j, s, d);
    }
  }

  lemma EnumMeaning(cfg: Config, g: Graph, recs: Records, h: Graph, i: nat, j: nat, s: Schema, d: Datum)
    requires DeclaredGraph(g) && i < |g| && j < |g| && g[i].Enum? && Embeds(g, h)
    requires DefPlan(g, recs, h, i, j, s) && ShapeDef(g, g[j], d)
    ensures Shape(h, s, d) && Erased(Denote(cfg, h, true, s, d)) == MeaningDef(cfg, g, g[i], g[j], d)
  {
    assert h[..|g|][i] == h[i];
    assert WireSymbols(h[s.id]) == g[j].symbols;
  }

  lemma {:induction false} RecordMeaning(cfg: Config, g: Graph, recs: Records, h: Graph, i: nat, j: nat, id: nat, d: Datum)
    requires DeclaredGraph(g) && i < |g| && j < |g| && g[i].Record? && g[j].Record?
    requires Complete(g, recs, h) && RecordPlan(g, recs, h, i, j, id) && ShapeDef(g, g[j], d)
    ensures ShapeDef(h, h[id], d)
    ensures Erased(DenoteDef(cfg, h, true, h[id], d)) == MeaningDef(cfg, g, g[i], g[j], d)
    decreases d, 0, 0
  {
    var rs, ws, fields, ds := g[i].fields, g[j].fields, h[id].fields, d.fields;
    var matched := MatchFields(Labels(rs), Labels(ws), {}).value;
    MatchFieldsBounds(Labels(rs), Labels(ws), {});
    ShapeOfWriter(g, ws, ds);
    forall k | 0 <= k < |ws|
      ensures FieldKept(cfg, g, h, rs, ws, matched, fields[k], k, ds[k])
    {
      WriterFieldMeaning(cfg, g, recs, h, rs, ws, matched, k, fields[k], ds[k]);
    }
    FieldsMeaning(cfg, g, recs, h, rs, ws, matched, fields, ds);
    RecordDenotes(cfg, g, h, g[i], g[j], h[id], d, matched);
  }

  lemma {:induction false} WriterFieldMeaning(cfg: Config, g: Graph, recs: Records, h: Graph, rs: seq<Field>, ws: seq<Field>,
                                              matched: seq<Option<nat>>, k: nat, f: Field, d: Datum)
    requires DeclaredGraph(g) && |matched| == |rs| && k < |ws|
    requires forall f | f in rs :: Declared(f.typ, |g|)
    requires forall f | f in ws :: Declared(f.typ, |g|)
    requires Complete(g, recs, h) && WriterFieldPlan(g, recs, h, rs, ws, matched, k, f) && Shape(g, ws[k].typ, d)
    ensures FieldKept(cfg, g, h, rs, ws, matched, f, k, d)
    decreases d, 2
  {
    match ReaderOf(matched, k)
    case None =>
      assert f == IgnoredField(ws[k]);
      ShapeKept(g, h, ws[k].typ, d);
    case Some(n) =>
      assert Plan(g, recs, h, rs[n].typ, ws[k].typ, f.typ);
      PlanMeaning(cfg, g, recs, h, rs[n].typ, ws[k].typ, f.typ, d);
  }

  lemma EraseRecord(m: map<Text, Value>)
    ensures Erase(VRecord(m)) == VRecord(ErasedMap(m))
  {
  }

  lemma RecordDenotes(cfg: Config, g: Graph, h: Graph, r: Def, w: Def, p: Def, d: Datum, matched: seq<Option<nat>>)
    requires DeclaredGraph(g) && DeclaredDef(r, |g|) && DeclaredDef(w, |g|)
    requires r.Record? && w.Record? && p.Record? && d.DRecord? && |d.fields| == |w.fields|
    requires MatchFields(Labels(r.fields), Labels(w.fields), {}) == Some(matched)
    requires |matched| == |r.fields| && Bounded(matched, |w.fields|)
    requires ErasedFields(DenoteFields(cfg, h, true, p.fields, d.fields, map[]))
          == MeaningFields(cfg, g, r.fields, w.fields, matched, d.fields)
    ensures Erased(DenoteDef(cfg, h, true, p, d)) == MeaningDef(cfg, g, r, w, d)
  {
    var obj := DenoteFields(cfg, h, true, p.fields, d.fields, map[]);
    if obj.Some? {
      EraseRecord(obj.value);
    }
  }

  lemma {:induction false} CollectionMeaning(cfg: Config, g: Graph, recs: Records, h: Graph, keyed: bool,
                                             r: Schema, w: Schema, s: Schema, d: Datum)
    requires DeclaredGraph(g) && Declared(r, |g|) && Declared(w, |g|)
    requires Complete(g, recs, h) && Plan(g, recs, h, r, w, s) && Shape(g, Collection(keyed, w), d)
    ensures Keeps(cfg, g, h, Collection(keyed, r), Collection(keyed, w), Collection(keyed, s), d)
    decreases d, 0, 0
  {
    BlocksMeaning(cfg, g, recs, h, r, w, s, keyed, d.blocks);
    CollectionKeeps(cfg, g, h, keyed, r, w, s, d);
  }

  lemma {:induction false} ItemsMeaning(cfg: Config, g: Graph, recs: Records, h: Graph,
                                        r: Schema, w: Schema, s: Schema, keyed: bool, items: seq<Item>)
    requires DeclaredGraph(g) && Declared(r, |g|) && Declared(w, |g|)
    requires Complete(g, recs, h) && Plan(g, recs, h, r, w, s) && ShapeItems(g, w, keyed, items)
    ensures ShapeItems(h, s, keyed, items)
    ensures ErasedPairs(DenoteItems(cfg, h, true, s, keyed, items)) == MeaningItems(cfg, g, r, w, keyed, items)
    decreases items, 0
  {
    if items != [] {
      PlanMeaning(cfg, g, recs, h, r, w, s, items[0].datum);
      ItemsMeaning(cfg, g, recs, h, r, w, s, keyed, items[1..]);
      FirstItem(cfg, g, h, r, w, s, keyed, items);
    }
  }

  lemma {:induction false} BlocksMeaning(cfg: Config, g: Graph, recs: Records, h: Graph,
                                         r: Schema, w: Schema, s: Schema, keyed: bool, blocks: seq<Block>)
    requires DeclaredGraph(g) && Declared(r, |g|) && Declared(w, |g|)
    requires Complete(g, recs, h) && Plan(g, recs, h, r, w, s) && ShapeBlocks(g, w, keyed, blocks)
    ensures ShapeBlocks(h, s, keyed, blocks)
    ensures ErasedPairs(DenoteBlocks(cfg, h, true, s, keyed, blocks)) == MeaningBlocks(cfg, g, r, w, keyed, blocks)
    decreases blocks, 0
  {
    if blocks != [] {
      ItemsMeaning(cfg, g, recs, h, r, w, s, keyed, blocks[0].items);
      BlocksMeaning(cfg, g, recs, h, r, w, s, keyed, blocks[1..]);
      FirstBlock(cfg, g, h, r, w, s, keyed, blocks);
    }
  }

  lemma FirstItem(cfg: Config, g: Graph, h: Graph, r: Schema, w: Schema, s: Schema, keyed: bool, items: seq<Item>)
    requires DeclaredGraph(g) && Declared(r, |g|) && Declared(w, |g|)
    requires items != [] && (keyed ==> ValidUtf8(items[0].key))
    requires Erased(Denote(cfg, h, true, s, items[0].datum)) == Meaning(cfg, g, r, w, items[0].datum)
    requires ErasedPairs(DenoteItems(cfg, h, true, s, keyed, items[1..])) == MeaningItems(cfg, g, r, w, keyed, items[1..])
    ensures ErasedPairs(DenoteItems(cfg, h, true, s, keyed, items)) == MeaningItems(cfg, g, r, w, keyed, items)
  {
    hide Denote, Meaning, DenoteItems, MeaningItems;
    FirstItemDenotes(cfg, h, true, s, keyed, items);
    FirstItemMeans(cfg, g, r, w, keyed, items);
    ItemErased(cfg, h, s, keyed, items[0]);
    JoinErased(DenoteItem(cfg, h, true, s, keyed, items[0]), DenoteItems(cfg, h, true, s, keyed, items[1..]));
  }

  function OneEntry(key: Text, v: Option<Value>): Option<seq<Entry>> {
    if v.Some? then Some([Entry(key, v.value)]) else None
  }

  lemma ItemErased(cfg: Config, h: Graph, s: Schema, keyed: bool, item: Item)
    requires keyed ==> ValidUtf8(item.key)
    ensures ErasedPairs(DenoteItem(cfg, h, true, s, keyed, item))
         == OneEntry(if keyed then item.key else [], Erased(Denote(cfg, h, true, s, item.datum)))
  {
    hide Denote;
    var v := Denote(cfg, h, true, s, item.datum);
    if v.Some? {
      ErasedOne(if keyed then item.key else [], v.value);
    }
  }

  lemma FirstItemMeans(cfg: Config, g: Graph, r: Schema, w: Schema, keyed: bool, items: seq<Item>)
    requires DeclaredGraph(g) && Declared(r, |g|) && Declared(w, |g|) && items != []
    ensures MeaningItems(cfg, g, r, w, keyed, items)
         == Join(OneEntry(if keyed then items[0].key else [], Meaning(cfg, g, r, w, items[0].datum)),
                 MeaningItems(cfg, g, r, w, keyed, items[1..]))
  {
    hide Meaning;
  }

  lemma FirstBlock(cfg: Config, g: Graph, h: Graph, r: Schema, w: Schema, s: Schema, keyed: bool, blocks: seq<Block>)
    requires DeclaredGraph(g) && Declared(r, |g|) && Declared(w, |g|) && blocks != []
    requires ErasedPairs(DenoteItems(cfg, h, true, s, keyed, blocks[0].items)) == MeaningItems(cfg, g, r, w, keyed, blocks[0].items)
    requires ErasedPairs(DenoteBlocks(cfg, h, true, s, keyed, blocks[1..])) == MeaningBlocks(cfg, g, r, w, keyed, blocks[1..])
    ensures ErasedPairs(DenoteBlocks(cfg, h, true, s, keyed, blocks)) == MeaningBlocks(cfg, g, r, w, keyed, blocks)
  {
    hide DenoteItems, MeaningItems, DenoteBlocks, MeaningBlocks;
    DenotedBlocks(cfg, h, s, keyed, blocks);
    MeantBlocks(cfg, g, r, w, keyed, blocks);
    JoinErased(DenoteItems(cfg, h, true, s, keyed, blocks[0].items), DenoteBlocks(cfg, h, true, s, keyed, blocks[1..]));
  }

  lemma JoinErased(a: Option<seq<Entry>>, b: Option<seq<Entry>>)
    ensures ErasedPairs(Join(a, b)) == Join(ErasedPairs(a), ErasedPairs(b))
  {
    if a.Some? && b.Some? {
      ErasedConcat(a.value, b.value);
    }
  }

  lemma DenotedBlocks(cfg: Config, h: Graph, s: Schema, keyed: bool, blocks: seq<Block>)
    requires blocks != []
    ensures DenoteBlocks(cfg, h, true, s, keyed, blocks)
         == Join(DenoteItems(cfg, h, true, s, keyed, blocks[0].items), DenoteBlocks(cfg, h, true, s, keyed, blocks[1..]))
  {
  }

  lemma MeantBlocks(cfg: Config, g: Graph, r: Schema, w: Schema, keyed: bool, blocks: seq<Block>)
    requires DeclaredGraph(g) && Declared(r, |g|) && Declared(w, |g|) && blocks != []
    ensures MeaningBlocks(cfg, g, r, w, keyed, blocks)
         == Join(MeaningItems(cfg, g, r, w, keyed, blocks[0].items), MeaningBlocks(cfg, g, r, w, keyed, blocks[1..]))
  {
  }

  // --- end to end ---

  /** Every default of a record field is a datum of the field's type. */
  ghost predicate SoundDefaults(cfg: Config, g: Graph, hgt: nat) {
    forall i :: 0 <= i < |g| && g[i].Record? ==>
      forall f | f in g[i].fields && f.def.Some? ::
        Shape(g, f.typ, f.def.value) && Within(cfg, f.def.value) && Height(f.def.value) <= hgt
  }

  lemma DefaultsKept(cfg: Config, g: Graph, recs: Records, h: Graph, hgt: nat, id: nat)
    requires DeclaredGraph(g) && SoundDefaults(cfg, g, hgt) && Complete(g, recs, h)
    requires id < |h| && h[id].Record?
    ensures SoundFields(cfg, h, |g|, hgt, h[id].fields)
  {
    if id < |g| {
      assert h[..|g|][id] == h[id];
    } else {
      var i: nat, j: nat :| (i, j) in recs && recs[(i, j)] == id;
      assert RecordPlan(g, recs, h, i, j, id);
      PlannedDefaultsKept(cfg, g, recs, h, hgt, i, g[j].fields, h[id].fields);
    }
  }

  lemma DeclaredDefaultOk(cfg: Config, g: Graph, h: Graph, hgt: nat, i: nat, n: nat)
    requires DeclaredGraph(g) && Embeds(g, h) && SoundDefaults(cfg, g, hgt)
    requires i < |g| && g[i].Record? && n < |g[i].fields| && g[i].fields[n].def.Some?
    ensures DefaultOk(cfg, h, |g|, hgt, DefaultField(g[i].fields[n]))
  {
    var f := g[i].fields[n];
    assert f in g[i].fields;
    ShapeKept(g, h, f.typ, f.def.value);
  }

  lemma PlannedDefaultsKept(cfg: Config, g: Graph, recs: Records, h: Graph, hgt: nat, i: nat, ws: seq<Field>, fields: seq<Field>)
    requires DeclaredGraph(g) && Embeds(g, h) && SoundDefaults(cfg, g, hgt) && i < |g| && g[i].Record?
    requires forall f | f in ws :: Declared(f.typ, |g|)
    requires FieldsPlan(g, recs, h, g[i].fields, ws, fields)
    ensures SoundFields(cfg, h, |g|, hgt, fields)
  {
    hide FieldsPlan, DefaultOk, SoundDefaults, Declared;
    var rs := g[i].fields;
    forall f | f in fields && f.action.SetDefault?
      ensures DefaultOk(cfg, h, |g|, hgt, f)
    {
      var k :| 0 <= k < |fields| && fields[k] == f;
      PlannedDefault(g, recs, h, rs, ws, fields, k);
      var n :| 0 <= n < |rs| && rs[n].def.Some? && f == DefaultField(rs[n]);
      DeclaredDefaultOk(cfg, g, h, hgt, i, n);
    }
  }

  lemma PlannedDefault(g: Graph, recs: Records, h: Graph, rs: seq<Field>, ws: seq<Field>, fields: seq<Field>, k: nat)
    requires DeclaredGraph(g)
    requires forall f | f in rs :: Declared(f.typ, |g|)
    requires forall f | f in ws :: Declared(f.typ, |g|)
    requires FieldsPlan(g, recs, h, rs, ws, fields) && k < |fields| && fields[k].action.SetDefault?
    ensures exists n :: 0 <= n < |rs| && rs[n].def.Some? && fields[k] == DefaultField(rs[n])
  {
    var matched := MatchFields(Labels(rs), Labels(ws), {}).value;
    assert k < |ws| ==> WriterFieldPlan(g, recs, h, rs, ws, matched, k, fields[k]);
    assert fields[k] == fields[|ws|..][k - |ws|];
    assert fields[k] in DefaultFields(rs, matched);
    DefaultsOfUnmatched(rs, matched);
  }

  lemma PlanGraphSound(cfg: Config, g: Graph, recs: Records, h: Graph, hgt: nat)
    requires DeclaredGraph(g) && SoundDefaults(cfg, g, hgt) && Complete(g, recs, h)
    ensures Sound(cfg, h, |g|, hgt)
  {
    assert forall i :: 0 <= i < |g| ==> h[..|g|][i] == h[i];
    forall id | 0 <= id < |h| && h[id].Record?
      ensures SoundFields(cfg, h, |g|, hgt, h[id].fields)
    {
      DefaultsKept(cfg, g, recs, h, hgt, id);
    }
  }

  /**
   * Running the interpreter on a plan over the encoding of a writer datum, followed by
   * anything, delivers what "Schema Resolution" makes of the datum and stops right after it,
   * or fails exactly where that has no value. Skipping the same plan stops at the same place.
   */
  lemma ResolutionPreservesMeaning(cfg: Config, g: Graph, recs: Records, h: Graph, hgt: nat, depth: nat,
                                   r: Schema, w: Schema, s: Schema, d: Datum, suffix: Bytes)
    requires DeclaredGraph(g) && Declared(r, |g|) && Declared(w, |g|) && SoundDefaults(cfg, g, hgt)
    requires Complete(g, recs, h) && Plan(g, recs, h, r, w, s)
    requires Shape(g, w, d) && Within(cfg, d) && Height(d) + hgt <= depth
    ensures var out := Read(cfg, h, depth, s, Encode(d) + suffix);
            match Meaning(cfg, g, r, w, d)
            case Some(v) => out.Ok? && Erase(out.value) == v && out.rest == suffix
            case None => out.Fail?
    ensures Skip(cfg, h, depth, s, Encode(d) + suffix) == Ok((), suffix)
  {
    PlanMeaning(cfg, g, recs, h, r, w, s, d);
    PlanGraphSound(cfg, g, recs, h, hgt);
    ReadDenotes(cfg, h, |g|, hgt, true, depth, s, d, suffix);
    SkipExact(cfg, h, depth, s, d, suffix);
  }
}
