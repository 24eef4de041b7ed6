/** Integers of the host's types: conversions that wrap, and the range checks around them. */
module Integers {
  import opened Wire
  import opened BufferedReader
  import BufferedWriter
  import opened GenericReader
  import Values

  datatype Width = W8 | W16 | W32 | W64

  /** A host integer type. */
  datatype IntType = IntType(width: Width, signed: bool) {
    /** How many values it has. */
    function Values(): (n: int)
      ensures n > 0
    {
      match width
      case W8 => 0x100
      case W16 => 0x1_0000
      case W32 => 0x1_0000_0000
      case W64 => 0x1_0000_0000_0000_0000
    }

    predicate Holds(v: int) {
      if signed then -(Values() / 2) <= v < Values() / 2 else 0 <= v < Values()
    }
  }

  /** The ranges of the eight types. */
  lemma HoldsExact(v: int)
    ensures IntType(W8, true).Holds(v) <==> -128 <= v <= 127
    ensures IntType(W8, false).Holds(v) <==> 0 <= v <= 255
    ensures IntType(W16, true).Holds(v) <==> -32_768 <= v <= 32_767
    ensures IntType(W16, false).Holds(v) <==> 0 <= v <= 65_535
    ensures IntType(W32, true).Holds(v) <==> -2_147_483_648 <= v <= 2_147_483_647
    ensures IntType(W32, false).Holds(v) <==> 0 <= v <= 4_294_967_295
    ensures IntType(W64, true).Holds(v) <==> -9_223_372_036_854_775_808 <= v <= 9_223_372_036_854_775_807
    ensures IntType(W64, false).Holds(v) <==> 0 <= v <= 18_446_744_073_709_551_615
  {
  }

  const INT32: IntType := IntType(W32, true)
  const INT64: IntType := IntType(W64, true)

  /** Conversion keeps the low bits. */
  function Convert(v: int, t: IntType): (c: int)
    ensures t.Holds(c)
    ensures t.Holds(v) ==> c == v
  {
    WrapHolds(v, t);
    var low := v % t.Values();
    if t.signed && low >= t.Values() / 2 then low - t.Values() else low
  }

  lemma WrapHolds(v: int, t: IntType)
    ensures 0 <= v % t.Values() < t.Values()
    ensures 0 <= v < t.Values() ==> v % t.Values() == v
    ensures t.signed && -(t.Values() / 2) <= v < 0 ==> v % t.Values() == v + t.Values()
  {
  }

  /** What a decoder asks of a wire value before it stores it. */
  predicate Stores(v: int, t: IntType) {
    var converted := Convert(v, t);
    Convert(converted, INT64) == v && !(v < 0 && converted > 0)
  }

  /** The two comparisons accept exactly the values of the destination type. */
  lemma StoresExact(v: int, t: IntType)
    requires Int64(v)
    ensures Stores(v, t) <==> t.Holds(v)
  {
  }

  /** What an encoder asks of a value of its type before it writes it as an int. */
  predicate Sends(v: int, t: IntType) {
    var encoded := Convert(v, INT32);
    Convert(encoded, t) == v && !(encoded < 0 && v > 0)
  }

  /** They accept exactly the values in the range of an Avro int. */
  lemma SendsExact(v: int, t: IntType)
    requires t.Holds(v)
    ensures Sends(v, t) <==> Int32(v)
    ensures Sends(v, t) ==> Convert(v, INT32) == v
  {
  }

  /** A variable of a host integer type. */
  class Destination {
    const t: IntType
    var value: int

    ghost predicate Valid()
      reads this
    {
      t.Holds(value)
    }

    constructor (t: IntType)
      ensures this.t == t && value == 0 && Valid()
    {
      this.t := t;
      value := 0;
    }
  }

  /** Stores a decoded value unless it does not fit or an earlier step failed. */
  method SetInteger(r: Reader, dest: Destination, value: int)
    requires r.Valid() && dest.Valid() && Int64(value)
    modifies r`error, dest
    ensures dest.Valid()
    ensures old(r.error).Some? ==> r.error == old(r.error) && dest.value == old(dest.value)
    ensures old(r.error).None? ==> (r.error.None? <==> dest.t.Holds(value))
    ensures old(r.error).None? ==> dest.value == if dest.t.Holds(value) then value else old(dest.value)
  {
    StoresExact(value, dest.t);
    if r.error.Some? {
      return;
    }
    var converted := Convert(value, dest.t);
    if Convert(converted, INT64) != value || (value < 0 && converted > 0) {
      r.ReportError(Invalid);
      return;
    }
    dest.value := converted;
  }

  const DAY_MILLIS: int := 86_400_000

  /** Decodes an int into a host variable; a failure leaves the variable alone. */
  method DecodeInt(r: Reader, dest: Destination, timeOfDay: bool)
    requires r.Valid() && dest.Valid()
    modifies r, r.buf, dest
    ensures r.Valid() && dest.Valid() && (old(r.error).Some? ==> r.error.Some? && dest.value == old(dest.value))
    ensures old(r.error).None? ==>
              match Wire.ReadInt(old(r.Remaining()))
              case Fail(_) => r.error.Some? && dest.value == old(dest.value)
              case Ok(v, rest) =>
                if dest.t.Holds(v) && (timeOfDay ==> 0 <= v < 86_400_000)
                then r.error.None? && dest.value == v && r.Remaining() == rest
                else r.error.Some? && dest.value == old(dest.value)
  {
    hide Wire.ReadInt;
    var value := r.ReadInt();
    if timeOfDay {
      var ok := ReadTimeUnits(r, value, DAY_MILLIS);
      if !ok {
        return;
      }
    }
    SetInteger(r, dest, value);
  }

  /** Encodes a host integer as an int, or reports that it cannot and writes nothing. */
  method EncodeInt(w: BufferedWriter.Writer, value: int, t: IntType, timeOfDay: bool)
    requires w.Valid() && t.Holds(value)
    modifies w, w.data
    ensures w.Valid() && (w.data == old(w.data) || fresh(w.data))
    ensures old(w.error).Some? ==> w.error == old(w.error) && w.Contents() == old(w.Contents())
    ensures old(w.error).None? ==>
              (w.error.None? <==> Int32(value) && (timeOfDay ==> 0 <= value < 86_400_000))
    ensures old(w.error).None? ==>
              w.Contents() == if w.error.None? then old(w.Contents()) + EncodeLong(value) else old(w.Contents())
  {
    SendsExact(value, t);
    if w.error.Some? {
      return;
    }
    var encoded := Convert(value, INT32);
    if Convert(encoded, t) != value || (encoded < 0 && value > 0) {
      w.error := Some(Invalid);
      return;
    }
    if timeOfDay && !Values.ValidTimeUnits(encoded, DAY_MILLIS) {
      w.error := Some(Invalid);
      return;
    }
    w.WriteInt(encoded);
  }

  /** What one host encodes another decodes unchanged, or refuses because its type is too narrow. */
  method SendInt(value: int, from: IntType, to: IntType, timeOfDay: bool, cfg: Values.Config) returns (sent: bool, got: Option<int>)
    requires from.Holds(value)
    ensures sent <==> Int32(value) && (timeOfDay ==> 0 <= value < 86_400_000)
    ensures sent ==> got == if to.Holds(value) then Some(value) else None
  {
    var w := new BufferedWriter.Writer(16, false);
    EncodeInt(w, value, from, timeOfDay);
    if w.error.Some? {
      return false, None;
    }
    ghost var bytes := w.Contents();
    assert bytes == EncodeLong(value) + [];
    IntRoundTrip(value, []);
    var b := new byte[w.len](i requires 0 <= i < w.len && w.Valid() reads w, w.data => w.data[i]);
    assert b[..] == bytes;
    var r := new Reader.FromBytes(cfg, b);
    var dest := new Destination(to);
    DecodeInt(r, dest, timeOfDay);
    return true, if r.error.None? then Some(dest.value) else None;
  }
}
