/** The fields of a resolved record never clash, whatever the writer called its own. */
module ResolvedFields {
  import opened Wire
  import opened Schemas
  import opened Compatibility
  import opened Plans
  import opened Preservation

  /** Fails on the first name or alias that repeats. */
  method ValidateRecordFields(fields: seq<Field>) returns (ok: bool)
    ensures ok <==> ValidFields(fields)
  {
    var names: set<Text> := {};
    for i := 0 to |fields|
      invariant names == set k | 0 <= k < i :: fields[k].name
      invariant forall a, b :: 0 <= a < b < i ==> fields[a].name != fields[b].name
    {
      if fields[i].name in names {
        return false;
      }
      names := names + {fields[i].name};
    }
    for i := 0 to |fields|
      invariant names == NamesAndAliases(fields, i)
      invariant AliasesApart(fields, i)
    {
      var aliases := fields[i].aliases;
      for k := 0 to |aliases|
        invariant names == NamesAndAliases(fields, i) + Elements(aliases, k)
        invariant Fresh(fields, i, k)
      {
        if aliases[k] in names {
          Clash(fields, i, k);
          return false;
        }
        FreshNext(fields, i, k);
        names := names + {aliases[k]};
      }
      AliasesNext(fields, i);
    }
    AllApart(fields);
    ok := true;
  }

  function Elements(aliases: seq<Text>, n: nat): set<Text>
    requires n <= |aliases|
  {
    set k | 0 <= k < n :: aliases[k]
  }

  /** Every field name, and the aliases of the first `n` fields. */
  function NamesAndAliases(fields: seq<Field>, n: nat): set<Text>
    requires n <= |fields|
  {
    (set k | 0 <= k < |fields| :: fields[k].name)
    + (set k, a | 0 <= k < n && a in fields[k].aliases :: a)
  }

  /** The first `n` fields have aliases apart from all names and from each other. */
  ghost predicate AliasesApart(fields: seq<Field>, n: nat)
    requires n <= |fields|
  {
    && (forall i, j :: 0 <= i < |fields| && 0 <= j < n ==> fields[i].name !in fields[j].aliases)
    && (forall i :: 0 <= i < n ==> Distinct(fields[i].aliases))
    && (forall i, j :: 0 <= i < j < n ==> Apart(fields[i].aliases, fields[j].aliases))
  }

  /** The first `k` aliases of field `i` are new and distinct. */
  ghost predicate Fresh(fields: seq<Field>, i: nat, k: nat)
    requires i < |fields| && k <= |fields[i].aliases|
  {
    && (forall a :: 0 <= a < k ==> fields[i].aliases[a] !in NamesAndAliases(fields, i))
    && forall a, b :: 0 <= a < b < k ==> fields[i].aliases[a] != fields[i].aliases[b]
  }

  lemma FreshNext(fields: seq<Field>, i: nat, k: nat)
    requires i < |fields| && k < |fields[i].aliases| && Fresh(fields, i, k)
    requires fields[i].aliases[k] !in NamesAndAliases(fields, i) + Elements(fields[i].aliases, k)
    ensures Fresh(fields, i, k + 1)
    ensures Elements(fields[i].aliases, k + 1) == Elements(fields[i].aliases, k) + {fields[i].aliases[k]}
  {
  }

  lemma AliasesNext(fields: seq<Field>, i: nat)
    requires i < |fields| && AliasesApart(fields, i) && Fresh(fields, i, |fields[i].aliases|)
    ensures AliasesApart(fields, i + 1)
    ensures NamesAndAliases(fields, i + 1) == NamesAndAliases(fields, i) + Elements(fields[i].aliases, |fields[i].aliases|)
  {
    var aliases := fields[i].aliases;
    forall j | 0 <= j < i
      ensures Apart(fields[j].aliases, aliases)
    {
      forall x | x in fields[j].aliases
        ensures x !in aliases
      {
        assert x in NamesAndAliases(fields, i);
      }
    }
    forall j | 0 <= j < |fields|
      ensures fields[j].name !in aliases
    {
      assert fields[j].name in NamesAndAliases(fields, i);
    }
    var all := NamesAndAliases(fields, i) + Elements(aliases, |aliases|);
    forall x | x in NamesAndAliases(fields, i + 1)
      ensures x in all
    {
      if x in aliases {
        assert exists a :: 0 <= a < |aliases| && aliases[a] == x;
      }
    }
    forall x | x in all
      ensures x in NamesAndAliases(fields, i + 1)
    {
      if x in Elements(aliases, |aliases|) {
        assert x in fields[i].aliases;
      }
    }
  }

  /** A repeated alias shows the fields invalid. */
  lemma Clash(fields: seq<Field>, i: nat, k: nat)
    requires i < |fields| && k < |fields[i].aliases|
    requires fields[i].aliases[k] in NamesAndAliases(fields, i) + Elements(fields[i].aliases, k)
    ensures !ValidFields(fields)
  {
    var alias := fields[i].aliases[k];
    if alias in Elements(fields[i].aliases, k) {
      assert !Distinct(fields[i].aliases);
    } else if exists j :: 0 <= j < |fields| && fields[j].name == alias {
      assert alias in fields[i].aliases;
    } else {
      var j :| 0 <= j < i && alias in fields[j].aliases;
      assert !Apart(fields[j].aliases, fields[i].aliases);
    }
  }

  lemma AllApart(fields: seq<Field>)
    requires forall a, b :: 0 <= a < b < |fields| ==> fields[a].name != fields[b].name
    requires AliasesApart(fields, |fields|)
    ensures ValidFields(fields)
  {
  }

  // --- the fields of a plan are valid ---

  /** Where field `k` of a plan got its name and aliases: from reader field `j`, or from the writer. */
  ghost predicate Origin(rs: seq<Field>, ws: seq<Field>, matched: seq<Option<nat>>, f: Field, k: nat, o: Option<nat>)
    requires |matched| == |rs|
  {
    match o
    case Some(j) =>
      && j < |rs| && f.name == rs[j].name && f.aliases == rs[j].aliases
      && matched[j] == (if k < |ws| then Some(k) else None)
    case None => k < |ws| && ReaderOf(matched, k).None? && f.name == ws[k].name && f.aliases == []
  }

  lemma FrontOrigin(g: Graph, recs: Records, h: Graph, rs: seq<Field>, ws: seq<Field>, matched: seq<Option<nat>>,
                    k: nat, f: Field)
    requires DeclaredGraph(g) && |matched| == |rs| && k < |ws|
    requires forall f | f in rs :: Declared(f.typ, |g|)
    requires forall f | f in ws :: Declared(f.typ, |g|)
    requires WriterFieldPlan(g, recs, h, rs, ws, matched, k, f)
    ensures Origin(rs, ws, matched, f, k, ReaderOf(matched, k))
  {
  }

  lemma {:induction false} DefaultOrigin(rs: seq<Field>, matched: seq<Option<nat>>, a: nat) returns (i: nat)
    requires |matched| == |rs| && a < |DefaultFields(rs, matched)|
    ensures i < |rs| && matched[i].None? && DefaultFields(rs, matched)[a] == DefaultField(rs[i])
  {
    if matched[0].None? && a == 0 {
      i := 0;
    } else {
      i := DefaultOrigin(rs[1..], matched[1..], if matched[0].None? then a - 1 else a);
      i := i + 1;
    }
  }

  lemma {:induction false} DefaultOrigins(rs: seq<Field>, matched: seq<Option<nat>>, a: nat, b: nat) returns (i: nat, j: nat)
    requires |matched| == |rs| && a < b < |DefaultFields(rs, matched)|
    ensures i < j < |rs| && matched[i].None? && matched[j].None?
    ensures DefaultFields(rs, matched)[a] == DefaultField(rs[i]) && DefaultFields(rs, matched)[b] == DefaultField(rs[j])
  {
    if matched[0].None? && a == 0 {
      i := 0;
      j := DefaultOrigin(rs[1..], matched[1..], b - 1);
      j := j + 1;
    } else {
      var d := if matched[0].None? then 1 else 0;
      i, j := DefaultOrigins(rs[1..], matched[1..], a - d, b - d);
      i, j := i + 1, j + 1;
    }
  }

  /** A writer field that matches no reader field shares no name with any. */
  lemma UnmatchedWriterApart(rs: seq<Field>, ws: seq<Field>, matched: seq<Option<nat>>, j: nat, k: nat)
    requires ValidFields(ws) && MatchFields(Labels(rs), Labels(ws), {}) == Some(matched)
    requires |matched| == |rs| && j < |rs| && k < |ws| && ReaderOf(matched, k).None?
    ensures ws[k].name != rs[j].name && ws[k].name !in rs[j].aliases
  {
    MatchedByField(Labels(rs), Labels(ws), {}, j);
    LookupUnique(ws, k);
    if ws[k].name in rs[j].aliases {
      MatchedByAlias(Labels(ws), rs[j].aliases, Lookup(Labels(ws), rs[j].name), ws[k].name);
    }
    if ws[k].name == rs[j].name {
      MatchedByName(Labels(ws), rs[j].aliases, Some(k));
    }
  }

  lemma {:induction false} MatchedByField(readers: seq<Label>, writers: seq<Label>, used: set<nat>, j: nat)
    requires MatchFields(readers, writers, used).Some? && j < |readers|
    ensures MatchField(writers, readers[j]) == Found(MatchFields(readers, writers, used).value[j])
    decreases |readers|
  {
    if j > 0 {
      var index := MatchField(writers, readers[0]).index;
      MatchedByField(readers[1..], writers, if index.Some? then used + {index.value} else used, j - 1);
    }
  }

  lemma LookupUnique(ws: seq<Field>, k: nat)
    requires ValidFields(ws) && k < |ws|
    ensures Lookup(Labels(ws), ws[k].name) == Some(k)
  {
    var r := Lookup(Labels(ws), ws[k].name);
    assert Labels(ws)[k].name == ws[k].name;
    assert ws[r.value].name == ws[k].name;
  }

  lemma {:induction false} MatchedByName(writers: seq<Label>, aliases: seq<Text>, found: Option<nat>)
    requires found.Some?
    ensures MatchAliases(writers, aliases, found) in {Ambiguous, Found(found)}
    decreases |aliases|
  {
    if aliases != [] && Lookup(writers, aliases[0]).None? {
      MatchedByName(writers, aliases[1..], found);
    }
  }

  lemma {:induction false} MatchedByAlias(writers: seq<Label>, aliases: seq<Text>, found: Option<nat>, name: Text)
    requires name in aliases && Lookup(writers, name).Some?
    ensures MatchAliases(writers, aliases, found) in {Ambiguous, Found(Lookup(writers, name))}
    decreases |aliases|
  {
    if aliases[0] == name {
      if found.None? {
        MatchedByName(writers, aliases[1..], Lookup(writers, name));
      }
    } else {
      assert name in aliases[1..];
      var i := Lookup(writers, aliases[0]);
      if i.None? || found.None? {
        MatchedByAlias(writers, aliases[1..], if i.Some? then i else found, name);
      }
    }
  }

  /** Two plan fields share no name and no alias. */
  ghost predicate FieldsApart(a: Field, b: Field) {
    a.name != b.name && a.name !in b.aliases && b.name !in a.aliases && Apart(a.aliases, b.aliases)
  }

  lemma OriginsApart(rs: seq<Field>, ws: seq<Field>, matched: seq<Option<nat>>,
                     a: Field, k: nat, o: Option<nat>, b: Field, n: nat, p: Option<nat>)
    requires ValidFields(rs) && ValidFields(ws) && MatchFields(Labels(rs), Labels(ws), {}) == Some(matched)
    requires |matched| == |rs| && Origin(rs, ws, matched, a, k, o) && Origin(rs, ws, matched, b, n, p)
    requires k != n && (o.Some? && p.Some? ==> o != p)
    ensures FieldsApart(a, b)
  {
    match (o, p)
    case (Some(i), Some(j)) => ReadersApart(rs, i, j);
    case (Some(i), None) => UnmatchedWriterApart(rs, ws, matched, i, n);
    case (None, Some(j)) => UnmatchedWriterApart(rs, ws, matched, j, k);
    case (None, None) => assert ws[k].name != ws[n].name;
  }

  lemma ReadersApart(rs: seq<Field>, i: nat, j: nat)
    requires ValidFields(rs) && i < |rs| && j < |rs| && i != j
    ensures FieldsApart(rs[i], rs[j])
  {
    if i < j {
      assert Apart(rs[i].aliases, rs[j].aliases);
    } else {
      assert Apart(rs[j].aliases, rs[i].aliases);
      assert rs[j].name != rs[i].name;
    }
  }

  lemma FieldOrigin(g: Graph, recs: Records, h: Graph, rs: seq<Field>, ws: seq<Field>,
                    matched: seq<Option<nat>>, fields: seq<Field>, k: nat) returns (o: Option<nat>)
    requires Planned(g, recs, h, rs, ws, matched, fields, |ws|) && k < |fields|
    ensures Origin(rs, ws, matched, fields[k], k, o)
  {
    if k < |ws| {
      o := ReaderOf(matched, k);
      FrontOrigin(g, recs, h, rs, ws, matched, k, fields[k]);
    } else {
      assert fields[k] == fields[|ws|..][k - |ws|];
      var j := DefaultOrigin(rs, matched, k - |ws|);
      o := Some(j);
    }
  }

  lemma PlanFieldsApart(g: Graph, recs: Records, h: Graph, rs: seq<Field>, ws: seq<Field>,
                        matched: seq<Option<nat>>, fields: seq<Field>, a: nat, b: nat)
    requires Planned(g, recs, h, rs, ws, matched, fields, |ws|) && ValidFields(rs) && ValidFields(ws)
    requires a < b < |fields|
    ensures FieldsApart(fields[a], fields[b])
  {
    var n := |ws|;
    if a < n {
      var o := FieldOrigin(g, recs, h, rs, ws, matched, fields, a);
      var p := FieldOrigin(g, recs, h, rs, ws, matched, fields, b);
      OriginsApart(rs, ws, matched, fields[a], a, o, fields[b], b, p);
    } else {
      assert fields[a] == fields[n..][a - n] && fields[b] == fields[n..][b - n];
      var i, j := DefaultOrigins(rs, matched, a - n, b - n);
      ReadersApart(rs, i, j);
    }
  }

  lemma PlanFieldApartFromItself(g: Graph, recs: Records, h: Graph, rs: seq<Field>, ws: seq<Field>,
                                 matched: seq<Option<nat>>, fields: seq<Field>, k: nat)
    requires Planned(g, recs, h, rs, ws, matched, fields, |ws|) && ValidFields(rs) && k < |fields|
    ensures fields[k].name !in fields[k].aliases && Distinct(fields[k].aliases)
  {
    var o := FieldOrigin(g, recs, h, rs, ws, matched, fields, k);
    assert o.Some? ==> Distinct(rs[o.value].aliases) && rs[o.value].name !in rs[o.value].aliases;
  }

  /** Validating the fields of a resolved record cannot fail. */
  lemma PlanFieldsValid(g: Graph, recs: Records, h: Graph, rs: seq<Field>, ws: seq<Field>,
                        matched: seq<Option<nat>>, fields: seq<Field>)
    requires Planned(g, recs, h, rs, ws, matched, fields, |ws|) && ValidFields(rs) && ValidFields(ws)
    ensures ValidFields(fields)
  {
    forall a, b | 0 <= a < b < |fields|
      ensures FieldsApart(fields[a], fields[b])
    {
      PlanFieldsApart(g, recs, h, rs, ws, matched, fields, a, b);
    }
    forall k | 0 <= k < |fields|
      ensures fields[k].name !in fields[k].aliases && Distinct(fields[k].aliases)
    {
      PlanFieldApartFromItself(g, recs, h, rs, ws, matched, fields, k);
    }
    forall i, j | 0 <= i < |fields| && 0 <= j < |fields|
      ensures fields[i].name !in fields[j].aliases
    {
      if i < j {
        assert FieldsApart(fields[i], fields[j]);
      } else if j < i {
        assert FieldsApart(fields[j], fields[i]);
      }
    }
  }
}
