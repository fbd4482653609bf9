/** Fields of one captured frame record, read the way sharktooth.py reads them,
    and the endpoint address of a frame (`get_usb_addr`, sharktooth.py:160-172). */
module Capture {
  import opened Wrappers
  import opened JsonPath

  /** The exceptions the analysis can raise.
      NoPacketData: no capture loaded or an empty one (sharktooth.py:183-185).
      TypeFault: a Python TypeError from a field of an unexpected type.
      NotSingleSpectrometer: the fingerprints do not name exactly one address each (sharktooth.py:215-217).
      NotSelected: a command run before a usable selection (sharktooth.py:235-236). */
  datatype Error = NoPacketData | TypeFault | NotSingleSpectrometer | NotSelected

  /** The pair of endpoints of the selected spectrometer. */
  datatype Selection = Selection(cmd: Json, read: Json)

  const PayloadPath: seq<Step> := [Key("_source"), Key("layers"), Key("frame_raw"), Index(0)]
  const SizePath: seq<Step> := [Key("_source"), Key("layers"), Key("frame_raw"), Index(2)]
  const TimePath: seq<Step> := [Key("_source"), Key("layers"), Key("frame"), Key("frame.time_relative")]
  const SrcPath: seq<Step> := [Key("_source"), Key("layers"), Key("usb"), Key("usb.src")]
  const DstPath: seq<Step> := [Key("_source"), Key("layers"), Key("usb"), Key("usb.dst")]

  const Host: Json := JStr("host")

  /** Frame length from which a frame counts as a bulk read of a spectrum. */
  const BulkReadSize: real := 2075.0

  /** The value Python code sees for a lookup: a missing path gives `None`,
      which is also what a JSON null decodes to. */
  function Field(packet: Json, path: seq<Step>): Json {
    match NavPath(packet, path)
    case None => JNull
    case Some(w) => w
  }

  /** A field reads as `None` exactly when the lookup misses or finds a JSON
      null; any other value read is the value at the path. */
  lemma FieldNullIff(packet: Json, path: seq<Step>)
    ensures Field(packet, path) == JNull <==> NavPath(packet, path) == None || NavPath(packet, path) == Some(JNull)
    ensures Field(packet, path) != JNull ==> NavPath(packet, path) == Some(Field(packet, path))
  {
  }

  function UsbSrc(packet: Json): Json {
    Field(packet, SrcPath)
  }

  function UsbDst(packet: Json): Json {
    Field(packet, DstPath)
  }

  /** The endpoint of a frame that is not the host, whichever direction the
      frame travels. */
  function UsbAddr(packet: Json): (addr: Json)
    ensures addr == UsbSrc(packet) || addr == UsbDst(packet)
    ensures UsbSrc(packet) == Host ==> addr == UsbDst(packet)
    ensures UsbSrc(packet) != Host ==> addr == UsbSrc(packet)
    ensures addr == Host <==> UsbSrc(packet) == Host && UsbDst(packet) == Host
  {
    if UsbSrc(packet) == Host then UsbDst(packet) else UsbSrc(packet)
  }

  /** Python's `size >= 2075`: numbers and booleans compare, anything else
      (None, a string, a list, a dictionary) raises a TypeError. */
  function SizeAtLeastBulk(size: Json): (r: Result<bool, Error>)
    ensures r.Ok? <==> size.JNum? || size.JBool?
    ensures r == Ok(true) <==> size.JNum? && size.n >= BulkReadSize
  {
    match size
    case JNum(n) => Ok(n >= BulkReadSize)
    case JBool(b) => Ok(false)   // True and False compare as 1 and 0
    case _ => Err(TypeFault)
  }
}
