/** The analysis session: the loaded capture and the two selection globals
    `_spec_cmd_addr` / `_spec_read_addr` of sharktooth.py:43-48, with the
    commands that read and write them. */
module SharkTooth {
  import opened Wrappers
  import opened JsonPath
  import opened Capture
  import opened Classifier
  import opened Decoder
  import opened Relevance

  class Session {
    /** The parsed capture; never changed once loaded. */
    const packets: seq<Json>
    /** The selected endpoints; `JNull` stands for Python's `None`. */
    var specCmdAddr: Json
    var specReadAddr: Json

    /** A freshly loaded capture with nothing selected yet. */
    constructor (packets: seq<Json>)
      ensures this.packets == packets
      ensures specCmdAddr == JNull && specReadAddr == JNull
      ensures !Selected()
    {
      this.packets := packets;
      specCmdAddr := JNull;
      specReadAddr := JNull;
    }

    /** The guard `not _spec_cmd_addr or not _spec_read_addr` does not fire. */
    predicate Selected()
      reads this
    {
      Truthy(specCmdAddr) && Truthy(specReadAddr)
    }

    function CurrentSelection(): Selection
      reads this
    {
      Selection(specCmdAddr, specReadAddr)
    }

    /** `select_spectrometer` (sharktooth.py:174-228): the globals are written
        only after both address sets proved to be singletons, so a failing
        call leaves any earlier selection as it was. */
    method SelectSpectrometer() returns (r: Result<Selection, Error>)
      modifies this
      ensures r == Classify(packets)
      ensures r.Ok? ==> specCmdAddr == r.value.cmd && specReadAddr == r.value.read
      ensures r.Err? ==> specCmdAddr == old(specCmdAddr) && specReadAddr == old(specReadAddr)
    {
      r := ClassifyCapture(packets);
      if r.Ok? {
        specCmdAddr := r.value.cmd;
        specReadAddr := r.value.read;
      }
    }

    /** `get_relevant_frame_numbers` (sharktooth.py:230-245). */
    method GetRelevantFrameNumbers() returns (r: Result<seq<nat>, Error>)
      ensures r.Err? <==> !Selected()
      ensures r.Err? ==> r.error == NotSelected
      ensures r.Ok? ==> r.value == RelevantIndices(packets, CurrentSelection())
    {
      if !Truthy(specCmdAddr) || !Truthy(specReadAddr) {
        return Err(NotSelected);
      }
      var selected: seq<nat> := [];
      var i := 0;
      while i < |packets|
        invariant 0 <= i <= |packets|
        invariant selected == RelevantIndices(packets[..i], CurrentSelection())
      {
        assert packets[..i + 1][..i] == packets[..i];
        var addr := UsbAddr(packets[i]);
        if addr == specCmdAddr || addr == specReadAddr {
          selected := selected + [i];
        }
        i := i + 1;
      }
      assert packets[..i] == packets;
      r := Ok(selected);
    }

    /** `get_relevant_packets` (sharktooth.py:247-262): the frames at the
        relevant indices, in the same order. */
    method GetRelevantPackets() returns (r: Result<seq<Json>, Error>)
      ensures r.Err? <==> !Selected()
      ensures r.Err? ==> r.error == NotSelected
      ensures r.Ok? ==> var rel := RelevantIndices(packets, CurrentSelection());
        |r.value| == |rel| && forall k :: 0 <= k < |rel| ==> r.value[k] == packets[rel[k]]
    {
      if !Truthy(specCmdAddr) || !Truthy(specReadAddr) {
        return Err(NotSelected);
      }
      var selected: seq<Json> := [];
      var i := 0;
      while i < |packets|
        invariant 0 <= i <= |packets|
        invariant var rel := RelevantIndices(packets[..i], CurrentSelection());
          |selected| == |rel| && forall k :: 0 <= k < |rel| ==> selected[k] == packets[rel[k]]
      {
        assert packets[..i + 1][..i] == packets[..i];
        var addr := UsbAddr(packets[i]);
        if addr == specCmdAddr || addr == specReadAddr {
          selected := selected + [packets[i]];
        }
        i := i + 1;
      }
      assert packets[..i] == packets;
      r := Ok(selected);
    }

    /** `print_relevant_packets(offset, count)` (sharktooth.py:293-315): the
        lines it prints, and the exception that ended it early, if any. */
    method PrintRelevantPackets(offset: int, count: int) returns (lines: seq<Line>, fault: Option<Error>)
      ensures !Selected() ==> lines == [] && fault == Some(NotSelected)
      ensures Selected() ==>
        (lines, fault) == DecodeLines(packets, WindowIndices(packets, CurrentSelection(), offset, count))
    {
      if !Truthy(specCmdAddr) || !Truthy(specReadAddr) {
        return [], Some(NotSelected);
      }
      lines, fault := PrintWindow(packets, CurrentSelection(), offset, count);
    }
  }

  /** Selecting twice on the same capture gives the same answer and the same
      selection as selecting once. */
  method SelectTwice(s: Session) returns (first: Result<Selection, Error>, second: Result<Selection, Error>)
    modifies s
    ensures first == second == Classify(s.packets)
    ensures first.Ok? ==> s.specCmdAddr == first.value.cmd && s.specReadAddr == first.value.read
    ensures first.Err? ==> s.specCmdAddr == old(s.specCmdAddr) && s.specReadAddr == old(s.specReadAddr)
  {
    first := s.SelectSpectrometer();
    second := s.SelectSpectrometer();
  }
}
