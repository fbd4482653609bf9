/** Small concrete captures and their proved outcomes: hand-built exports on
    which the end-to-end behaviour of the analysis is proved. */
module Scenarios {
  import opened Wrappers
  import opened JsonPath
  import opened Capture
  import opened Classifier
  import opened Decoder
  import opened Relevance
  import opened SharkTooth

  /** A frame record as the JSON export nests it. */
  function Frame(src: string, dst: string, payload: string, size: real): Json {
    JObj(map["_source" := JObj(map["layers" := JObj(map[
      "frame" := JObj(map["frame.time_relative" := JStr("0.000000000")]),
      "frame_raw" := JArr([JStr(payload), JNum(0.0), JNum(size)]),
      "usb" := JObj(map["usb.src" := JStr(src), "usb.dst" := JStr(dst)])])])])
  }

  /** A frame record that has no `usb` layer at all. */
  function BareFrame(payload: string, size: real): Json {
    JObj(map["_source" := JObj(map["layers" := JObj(map[
      "frame_raw" := JArr([JStr(payload), JNum(0.0), JNum(size)])])])])
  }

  /** The `layers` object of a frame record. */
  function Layers(f: Json): Json {
    if f.JObj? && "_source" in f.fields && f.fields["_source"].JObj? && "layers" in f.fields["_source"].fields
    then f.fields["_source"].fields["layers"] else JNull
  }

  lemma NavThroughLayers(f: Json, path: seq<Step>)
    requires |path| >= 2 && path[0] == Key("_source") && path[1] == Key("layers")
    requires f.JObj? && "_source" in f.fields && f.fields["_source"].JObj? && "layers" in f.fields["_source"].fields
    ensures NavPath(f, path) == NavPath(Layers(f), path[2..])
  {
    assert path[1..][1..] == path[2..];
  }

  lemma NavTwo(v: Json, a: Step, b: Step)
    ensures NavPath(v, [a, b]) == match Descend(v, a)
                                  case None => None
                                  case Some(w) => Descend(w, b)
  {
    assert [a, b][1..] == [b];
    match Descend(v, a)
    case None =>
    case Some(w) =>
      assert [b][1..] == [];
      match Descend(w, b)
      case None =>
      case Some(x) => assert NavPath(x, []) == Some(x);
  }

  lemma FramePayload(src: string, dst: string, payload: string, size: real)
    ensures Field(Frame(src, dst, payload, size), PayloadPath) == JStr(payload)
  {
    var f := Frame(src, dst, payload, size);
    NavThroughLayers(f, PayloadPath);
    NavTwo(Layers(f), Key("frame_raw"), Index(0));
  }

  lemma FrameSize(src: string, dst: string, payload: string, size: real)
    ensures Field(Frame(src, dst, payload, size), SizePath) == JNum(size)
  {
    var f := Frame(src, dst, payload, size);
    NavThroughLayers(f, SizePath);
    NavTwo(Layers(f), Key("frame_raw"), Index(2));
  }

  lemma FrameTime(src: string, dst: string, payload: string, size: real)
    ensures Field(Frame(src, dst, payload, size), TimePath) == JStr("0.000000000")
  {
    var f := Frame(src, dst, payload, size);
    NavThroughLayers(f, TimePath);
    NavTwo(Layers(f), Key("frame"), Key("frame.time_relative"));
  }

  lemma FrameSrc(src: string, dst: string, payload: string, size: real)
    ensures Field(Frame(src, dst, payload, size), SrcPath) == JStr(src)
  {
    var f := Frame(src, dst, payload, size);
    NavThroughLayers(f, SrcPath);
    NavTwo(Layers(f), Key("usb"), Key("usb.src"));
  }

  lemma FrameDst(src: string, dst: string, payload: string, size: real)
    ensures Field(Frame(src, dst, payload, size), DstPath) == JStr(dst)
  {
    var f := Frame(src, dst, payload, size);
    NavThroughLayers(f, DstPath);
    NavTwo(Layers(f), Key("usb"), Key("usb.dst"));
  }

  lemma FrameFields(src: string, dst: string, payload: string, size: real)
    ensures var f := Frame(src, dst, payload, size);
      && Field(f, PayloadPath) == JStr(payload)
      && Field(f, SizePath) == JNum(size)
      && Field(f, TimePath) == JStr("0.000000000")
      && UsbSrc(f) == JStr(src)
      && UsbDst(f) == JStr(dst)
  {
    FramePayload(src, dst, payload, size);
    FrameSize(src, dst, payload, size);
    FrameTime(src, dst, payload, size);
    FrameSrc(src, dst, payload, size);
    FrameDst(src, dst, payload, size);
  }

  lemma BareFrameFields(payload: string, size: real)
    ensures var f := BareFrame(payload, size);
      && Field(f, PayloadPath) == JStr(payload)
      && Field(f, SizePath) == JNum(size)
      && UsbAddr(f) == JNull
  {
    var f := BareFrame(payload, size);
    var layers := Layers(f);
    assert layers.fields["frame_raw"] == JArr([JStr(payload), JNum(0.0), JNum(size)]);
    assert "usb" !in layers.fields;
    NavThroughLayers(f, PayloadPath);
    NavTwo(layers, Key("frame_raw"), Index(0));
    NavThroughLayers(f, SizePath);
    NavTwo(layers, Key("frame_raw"), Index(2));
    NavThroughLayers(f, SrcPath);
    NavTwo(layers, Key("usb"), Key("usb.src"));
  }

  /** A control payload that carries the acquisition request pattern. */
  const AcqPayload: string := "000040ad000000"

  lemma AcqPayloadMatches()
    ensures Contains(AcqPayload, AcqPattern)
  {
    assert AcqPayload[2..][..|AcqPattern|] == AcqPattern;
  }

  /** An acquisition request frame: acquisition fingerprint only. */
  lemma RequestFrameFacts(src: string, dst: string)
    ensures var f := Frame(src, dst, AcqPayload, 64.0);
      && !Faulty(f) && Matches(Acquisition, f) && !Matches(BulkRead, f)
      && UsbSrc(f) == JStr(src) && UsbDst(f) == JStr(dst)
  {
    FrameFields(src, dst, AcqPayload, 64.0);
    AcqPayloadMatches();
  }

  /** A spectrum readout frame: bulk-read fingerprint only. */
  lemma ReadoutFrameFacts(src: string, dst: string)
    ensures var f := Frame(src, dst, "00", 2200.0);
      && !Faulty(f) && !Matches(Acquisition, f) && Matches(BulkRead, f)
      && UsbSrc(f) == JStr(src) && UsbDst(f) == JStr(dst)
  {
    FrameFields(src, dst, "00", 2200.0);
  }

  /** A request frame followed by a readout frame selects the pair of their
      addresses. */
  lemma RequestThenReadout(a: Json, b: Json)
    requires !Faulty(a) && Matches(Acquisition, a) && !Matches(BulkRead, a)
    requires !Faulty(b) && !Matches(Acquisition, b) && Matches(BulkRead, b)
    requires Hashable(UsbAddr(a)) && Hashable(UsbAddr(b))
    ensures Classify([a, b]) == Ok(Selection(UsbAddr(a), UsbAddr(b)))
  {
    OneAddressFingerprint([a, b], Acquisition, 0);
    OneAddressFingerprint([a, b], BulkRead, 1);
    ClassifyOkIff([a, b]);
  }

  /** Both fingerprints on endpoint 2.2.0: the command and the read address
      are the same. */
  lemma SameEndpointSelected()
    ensures Classify([Frame("2.2.0", "host", AcqPayload, 64.0), Frame("2.2.0", "host", "00", 2200.0)])
         == Ok(Selection(JStr("2.2.0"), JStr("2.2.0")))
  {
    RequestFrameFacts("2.2.0", "host");
    ReadoutFrameFacts("2.2.0", "host");
    RequestThenReadout(Frame("2.2.0", "host", AcqPayload, 64.0), Frame("2.2.0", "host", "00", 2200.0));
  }

  /** The request goes from the host to 2.2.0 and the spectrum comes back from
      2.255.2: two distinct addresses are selected. */
  lemma TwoEndpointsSelected()
    ensures Classify([Frame("host", "2.2.0", AcqPayload, 64.0), Frame("2.255.2", "host", "00", 2200.0)])
         == Ok(Selection(JStr("2.2.0"), JStr("2.255.2")))
  {
    RequestFrameFacts("host", "2.2.0");
    ReadoutFrameFacts("2.255.2", "host");
    RequestThenReadout(Frame("host", "2.2.0", AcqPayload, 64.0), Frame("2.255.2", "host", "00", 2200.0));
  }

  /** Acquisition requests to two different addresses, then a readout: the
      cardinality check raises. */
  lemma TwoRequestsThenReadout(a: Json, b: Json, r: Json)
    requires !Faulty(a) && Matches(Acquisition, a)
    requires !Faulty(b) && Matches(Acquisition, b)
    requires !Faulty(r)
    requires Hashable(UsbAddr(a)) && Hashable(UsbAddr(b)) && Hashable(UsbAddr(r))
    requires UsbAddr(a) != UsbAddr(b)
    ensures Classify([a, b, r]) == Err(NotSingleSpectrometer)
  {
    var packets := [a, b, r];
    FingerprintAddrsHashable(packets, Acquisition);
    FingerprintAddrsHashable(packets, BulkRead);
    AmbiguousFingerprintRejected(packets, Acquisition, 0, 1);
  }

  /** Acquisition requests to two devices: no selection. */
  lemma TwoSpectrometersRejected()
    ensures Classify([Frame("host", "2.2.0", AcqPayload, 64.0), Frame("host", "2.7.0", AcqPayload, 64.0),
                      Frame("2.2.0", "host", "00", 2200.0)]) == Err(NotSingleSpectrometer)
  {
    RequestFrameFacts("host", "2.2.0");
    RequestFrameFacts("host", "2.7.0");
    ReadoutFrameFacts("2.2.0", "host");
    TwoRequestsThenReadout(Frame("host", "2.2.0", AcqPayload, 64.0), Frame("host", "2.7.0", AcqPayload, 64.0),
                           Frame("2.2.0", "host", "00", 2200.0));
  }

  /** A 60-character control payload whose byte 29 is 0xad, sent by the host. */
  const AcqControlPayload: string := "000000000000000000000000000000000000000000000000000000000000"[..58] + "ad"

  lemma AcquisitionRequestDecodes()
    ensures DecodePacket(Frame("host", "2.2.0", AcqControlPayload, 64.0))
         == Ok(Decoded(JStr("0.000000000"), "Spectral Acquisition", ToSpec, 64))
  {
    FrameFields("host", "2.2.0", AcqControlPayload, 64.0);
    assert PySlice(AcqControlPayload, OpcodeStart, OpcodeEnd) == "ad";
  }

  /** Selecting on a capture whose fingerprinted frame has no `usb` layer
      succeeds with `None` for both addresses; every later command then
      reports that nothing is selected. */
  method NullAddressSelection() returns (selected: Result<Selection, Error>, frames: Result<seq<nat>, Error>)
    ensures selected == Ok(Selection(JNull, JNull))
    ensures frames == Err(NotSelected)
  {
    var f := BareFrame(AcqPayload, 2200.0);
    BareFrameFields(AcqPayload, 2200.0);
    AcqPayloadMatches();
    assert Matches(Acquisition, [f][0]) && Matches(BulkRead, [f][0]);
    OneAddressFingerprint([f], Acquisition, 0);
    OneAddressFingerprint([f], BulkRead, 0);
    ClassifyOkIff([f]);
    var session := new Session([f]);
    selected := session.SelectSpectrometer();
    frames := session.GetRelevantFrameNumbers();
  }
}
