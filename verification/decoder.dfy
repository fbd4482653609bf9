/** Per-frame decoding (`decode_packet`, sharktooth.py:264-291) and the opcode
    table (sharktooth.py:54-56). The decoder's result is the record the
    `%`-formatted line is built from. */
module Decoder {
  import opened Wrappers
  import opened JsonPath
  import opened Capture

  /** Opcode, as two lower-case hex digits, to operation name. */
  const OpcodeTable: map<string, string> := map["ad" := "Spectral Acquisition"]

  const BulkReadName: string := "BULK READ"
  const UnknownName: string := "unknown"
  const ToSpec: string := "  toSpec"
  const FromSpec: string := "fromSpec"

  /** Hex characters 58 and 59 of the payload: the opcode byte of a control
      request, when the frame is one. */
  const OpcodeStart: nat := 58
  const OpcodeEnd: nat := 60

  /** A decoded frame: capture time (passed through as found), operation name,
      direction and frame length as `%d` renders it. */
  datatype Decoded = Decoded(time: Json, kind: string, direction: string, size: int)

  /** Python's slice `s[lo:hi]`, which clamps both bounds to the length. */
  function PySlice<T>(s: seq<T>, lo: nat, hi: nat): (r: seq<T>)
    requires lo <= hi
    ensures |r| == if |s| <= lo then 0 else if |s| <= hi then |s| - lo else hi - lo
    ensures forall k :: 0 <= k < |r| ==> r[k] == s[lo + k]
  {
    if |s| <= lo then [] else if |s| <= hi then s[lo..] else s[lo..hi]
  }

  /** `packet_data[58:60]`: strings and lists slice; anything else (None, a
      number, a dictionary) raises. The opcode is empty, hence falsy, exactly
      when the payload ends at or before character 58, and it is the two
      characters 58 and 59 when the payload reaches past them. */
  function OpcodeOf(payload: Json): (r: Result<Json, Error>)
    ensures r.Ok? <==> payload.JStr? || payload.JArr?
    ensures payload.JStr? ==> r.value.JStr?
    ensures payload.JArr? ==> r.value.JArr?
    ensures r.Ok? ==> (Truthy(r.value) <==> Length(payload) > OpcodeStart)
    ensures payload.JStr? && |payload.s| >= OpcodeEnd ==> r.value.s == payload.s[OpcodeStart..OpcodeEnd]
  {
    match payload
    case JStr(s) => Ok(JStr(PySlice(s, OpcodeStart, OpcodeEnd)))
    case JArr(a) => Ok(JArr(PySlice(a, OpcodeStart, OpcodeEnd)))
    case _ => Err(TypeFault)
  }

  /** `len()` of a string or a list. */
  function Length(v: Json): nat
    requires v.JStr? || v.JArr?
  {
    if v.JStr? then |v.s| else |v.items|
  }

  /** The classification chain of sharktooth.py:273-280, in its priority order.
      Each name is produced by exactly one branch: "BULK READ" by the length,
      "unknown" by an empty opcode, and any name starting with "0x" by an
      opcode missing from the table; a non-empty list opcode raises, because
      a list is unhashable. */
  function KindOf(bulk: bool, opcode: Json): (r: Result<string, Error>)
    requires opcode.JStr? || opcode.JArr?
    ensures r.Err? <==> !bulk && opcode.JArr? && opcode.items != []
    ensures r == Ok(BulkReadName) <==> bulk
    ensures r == Ok(UnknownName) <==> !bulk && !Truthy(opcode)
    ensures !bulk && opcode.JStr? && opcode.s in OpcodeTable ==> r == Ok(OpcodeTable[opcode.s])
    ensures r.Ok? && HexName(r.value) <==> !bulk && opcode.JStr? && opcode.s != "" && opcode.s !in OpcodeTable
    ensures r.Ok? && HexName(r.value) ==> r.value == "0x" + opcode.s
  {
    TableNames();
    if bulk then Ok(BulkReadName)
    else if !Truthy(opcode) then Ok(UnknownName)
    else match opcode
      case JStr(o) =>
        if o in OpcodeTable then Ok(OpcodeTable[o])
        else assert ("0x" + o)[..2] == "0x"; Ok("0x" + o)
      case _ => Err(TypeFault)   // a non-empty list is unhashable, so `in` raises
  }

  /** A name of the form "0x..": an opcode the table does not know. */
  predicate HexName(name: string) {
    |name| >= 2 && name[..2] == "0x"
  }

  /** The table's names differ from the fixed names and do not look like hex. */
  lemma TableNames()
    ensures forall o | o in OpcodeTable ::
      (!HexName(OpcodeTable[o]) && OpcodeTable[o] != BulkReadName && OpcodeTable[o] != UnknownName)
    ensures !HexName(BulkReadName) && !HexName(UnknownName)
  {
    forall o | o in OpcodeTable
      ensures OpcodeTable[o][0] == 'S' && |OpcodeTable[o]| >= 2
    {
      assert o == "ad";
    }
    assert BulkReadName[0] == 'B' && UnknownName[0] == 'u';
  }

  /** The table knows one opcode: `ad` is a spectral acquisition, and every
      other opcode string below the bulk length gets another name. */
  lemma SpectralAcquisitionOpcode(o: string)
    ensures KindOf(false, JStr(o)) == Ok("Spectral Acquisition") <==> o == "ad"
  {
    TableNames();
    if o != "ad" && o != "" {
      assert o !in OpcodeTable;
    }
  }

  /** Python's `int()` of a float: truncation toward zero. */
  function Trunc(r: real): (z: int)
    ensures r >= 0.0 ==> z as real <= r < z as real + 1.0
    ensures r < 0.0 ==> z as real - 1.0 < r <= z as real
  {
    if r >= 0.0 then r.Floor else -((-r).Floor)
  }

  /** `%d` of `packet_size or "??"`: a falsy size becomes the string "??",
      which `%d` refuses with a TypeError; so does any size that is not a
      number. A number prints truncated toward zero, and `True` as 1. */
  function PrintedSize(size: Json): (r: Result<int, Error>)
    ensures r.Ok? <==> (size.JNum? && size.n != 0.0) || size == JBool(true)
    ensures size.JNum? && r.Ok? ==> r.value == Trunc(size.n)
    ensures size == JBool(true) ==> r == Ok(1)
  {
    if !Truthy(size) then Err(TypeFault)
    else match size
      case JNum(n) => Ok(Trunc(n))
      case JBool(b) => Ok(1)
      case _ => Err(TypeFault)
  }

  /** Direction of a frame, from its source endpoint alone. */
  function Direction(packet: Json): (d: string)
    ensures d == ToSpec <==> UsbSrc(packet) == Host
    ensures d == FromSpec <==> UsbSrc(packet) != Host
  {
    if UsbSrc(packet) == Host then ToSpec else FromSpec
  }

  /** `decode_packet`: the steps run in the source's order, and the first one
      that raises decides the error. */
  function DecodePacket(packet: Json): (r: Result<Decoded, Error>)
    ensures r.Ok? ==> r.value.time == Field(packet, TimePath)
    ensures r.Ok? ==> r.value.direction == Direction(packet)
    ensures r.Ok? ==> (r.value.kind == BulkReadName <==> SizeAtLeastBulk(Field(packet, SizePath)) == Ok(true))
  {
    var opcode :- OpcodeOf(Field(packet, PayloadPath));
    var bulk :- SizeAtLeastBulk(Field(packet, SizePath));
    var kind :- KindOf(bulk, opcode);
    var size :- PrintedSize(Field(packet, SizePath));
    Ok(Decoded(Field(packet, TimePath), kind, Direction(packet), size))
  }

  /** A frame with a string payload and a non-zero numeric length decodes, and
      its name tells which branch of the priority chain fired: the length
      decides "BULK READ" whatever the opcode; below it a known opcode gives
      its table name, an unknown one "0x" and its hex digits, and a payload too
      short to hold an opcode gives "unknown". */
  lemma DecodeWellFormedFrame(packet: Json, s: string, n: real)
    requires Field(packet, PayloadPath) == JStr(s)
    requires Field(packet, SizePath) == JNum(n) && n != 0.0
    ensures DecodePacket(packet).Ok?
    ensures DecodePacket(packet).value.size == Trunc(n)
    ensures DecodePacket(packet).value.kind == BulkReadName <==> n >= BulkReadSize
    ensures DecodePacket(packet).value.kind == UnknownName <==> n < BulkReadSize && |s| <= OpcodeStart
    ensures var op := PySlice(s, OpcodeStart, OpcodeEnd);
      n < BulkReadSize && op in OpcodeTable ==> DecodePacket(packet).value.kind == OpcodeTable[op]
    ensures var op := PySlice(s, OpcodeStart, OpcodeEnd);
      HexName(DecodePacket(packet).value.kind) <==> n < BulkReadSize && |s| > OpcodeStart && op !in OpcodeTable
    ensures HexName(DecodePacket(packet).value.kind) ==>
      DecodePacket(packet).value.kind == "0x" + PySlice(s, OpcodeStart, OpcodeEnd)
  {
  }

  /** Exactly when decoding raises: a payload that cannot be sliced, a length
      that cannot be compared, a falsy length (rendered "??", which `%d`
      refuses), or a list payload long enough to give a non-empty opcode on a
      frame below the bulk-read length. */
  lemma DecodeFaultIff(packet: Json)
    ensures var payload := Field(packet, PayloadPath);
      var size := Field(packet, SizePath);
      DecodePacket(packet).Err? <==>
        || !(payload.JStr? || payload.JArr?)
        || !(size.JNum? || size.JBool?)
        || !Truthy(size)
        || (payload.JArr? && !(size.JNum? && size.n >= BulkReadSize) && |payload.items| > OpcodeStart)
  {
  }

  /** A frame whose length is zero never decodes. */
  lemma ZeroLengthFrameFaults(packet: Json)
    requires Field(packet, SizePath) == JNum(0.0)
    ensures DecodePacket(packet).Err?
  {
  }
}
