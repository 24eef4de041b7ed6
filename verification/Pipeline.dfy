/** From two schemas and a chunked stream to the reader's value: the pieces put together. */
module Pipeline {
  import opened Wire
  import opened Datums
  import opened Schemas
  import opened Values
  import opened Skipping
  import opened Decoding
  import opened Compatibility
  import opened MemoExactness
  import opened SchemaCompatibility
  import opened Meanings
  import opened Plans
  import opened Preservation
  import opened SchemaResolution
  import opened BufferedReader
  import opened SkipDecoders
  import opened GenericReader

  /** What reading delivered is the meaning of the datum; it failed exactly if there is none. */
  predicate Meant(m: Option<Value>, failed: bool, v: Value) {
    match m
    case Some(value) => !failed && Erase(v) == value
    case None => failed
  }

  /**
   * Resolves a reader against a writer and reads one datum of the writer from a source that
   * delivers it in any chunks, through a buffer of any size. On a memo that answers truly for
   * the reader, incompatible schemas are refused; otherwise the value is the meaning of the
   * datum and exactly its bytes are consumed, and it fails exactly where the datum has no
   * meaning for the reader.
   */
  method ResolveAndRead(checker: Checker, cfg: Config, g: Graph, reader: Schema, writer: Schema, depth: nat,
                        script: seq<Chunk>, size: nat, ghost hgt: nat, ghost d: Datum, ghost suffix: Bytes)
    returns (ok: bool, failed: bool, v: Value, ghost rest: Bytes)
    requires DeclaredGraph(g) && Declared(reader, |g|) && Declared(writer, |g|) && SoundDefaults(cfg, g, hgt)
    requires Shape(g, writer, d) && Within(cfg, d) && Height(d) + hgt <= depth
    requires size > 0 && Flow(script, 0) == Encode(d) + suffix
    modifies checker
    ensures Reliable(g, old(checker.cache), reader) ==> (ok <==> Compatible(g, (reader, writer)))
    ensures Reliable(g, old(checker.cache), reader) && ok ==>
              && Meant(Meaning(cfg, g, reader, writer, d), failed, v)
              && (!failed ==> rest == suffix)
              && Truthful(g, checker.cache)
  {
    hide Read, Meaning, Erase, Encode, Skip, Plan, Complete, Compatible, Reliable, Truthful;
    ghost var reliable := Reliable(g, checker.cache, reader);
    var s, h;
    ghost var recs;
    ok, s, h, recs := Resolve(checker, g, reader, writer);
    failed, v, rest := true, VNull, [];
    if ok {
      if reliable {
        ResolutionPreservesMeaning(cfg, g, recs, h, hgt, depth, reader, writer, s, d, suffix);
      }
      var r := new Reader(cfg, script, size);
      v := ReadNext(r, h, depth, s);
      failed, rest := r.error.Some?, r.Remaining();
    }
  }

  /** Skipping what the plan describes leaves the reader at the same place. */
  method ResolveAndSkip(checker: Checker, cfg: Config, g: Graph, reader: Schema, writer: Schema, depth: nat,
                        script: seq<Chunk>, size: nat, ghost hgt: nat, ghost d: Datum, ghost suffix: Bytes)
    returns (ok: bool, failed: bool, ghost rest: Bytes)
    requires DeclaredGraph(g) && Declared(reader, |g|) && Declared(writer, |g|) && SoundDefaults(cfg, g, hgt)
    requires Shape(g, writer, d) && Within(cfg, d) && Height(d) + hgt <= depth
    requires size > 0 && Flow(script, 0) == Encode(d) + suffix
    modifies checker
    ensures Reliable(g, old(checker.cache), reader) ==> (ok <==> Compatible(g, (reader, writer)))
    ensures Reliable(g, old(checker.cache), reader) && ok ==> !failed && rest == suffix && Truthful(g, checker.cache)
  {
    hide Read, Meaning, Erase, Encode, Skip, Plan, Complete, Compatible, Compiled, AllFilled, Reliable, Truthful;
    ghost var reliable := Reliable(g, checker.cache, reader);
    var s, h;
    ghost var recs;
    ok, s, h, recs := Resolve(checker, g, reader, writer);
    failed, rest := true, [];
    if ok {
      if reliable {
        ResolutionPreservesMeaning(cfg, g, recs, h, hgt, depth, reader, writer, s, d, suffix);
      }
      var r := new Reader(cfg, script, size);
      var decoder, slots, ids := CreateSkipDecoder(h, s);
      Run(r, h, ids, slots, depth, s, decoder);
      failed, rest := r.error.Some?, r.Remaining();
    }
  }
}
