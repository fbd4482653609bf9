/** Frames of the selected spectrometer (`get_relevant_frame_numbers`,
    `get_relevant_packets`, sharktooth.py:230-262) and the paging window of
    `print_relevant_packets` (sharktooth.py:293-315). */
module Relevance {
  import opened Wrappers
  import opened JsonPath
  import opened Capture
  import opened Decoder

  /** `get_usb_addr(packet) in [_spec_cmd_addr, _spec_read_addr]`. */
  predicate IsRelevant(packet: Json, sel: Selection) {
    UsbAddr(packet) == sel.cmd || UsbAddr(packet) == sel.read
  }

  /** The indices of the relevant frames, in capture order. */
  function RelevantIndices(packets: seq<Json>, sel: Selection): (r: seq<nat>)
    ensures forall k :: 0 <= k < |r| ==> r[k] < |packets|
    decreases |packets|
  {
    if packets == [] then []
    else
      var n := |packets| - 1;
      RelevantIndices(packets[..n], sel) + if IsRelevant(packets[n], sel) then [n] else []
  }

  /** The relevant indices are exactly those whose address is one of the
      selected pair, each once, in strictly ascending order. */
  lemma {:induction false} RelevantIndicesExact(packets: seq<Json>, sel: Selection)
    ensures forall k :: 0 <= k < |RelevantIndices(packets, sel)| ==>
      IsRelevant(packets[RelevantIndices(packets, sel)[k]], sel)
    ensures forall i :: 0 <= i < |packets| && IsRelevant(packets[i], sel) ==>
      i in RelevantIndices(packets, sel)
    ensures forall k, l :: 0 <= k < l < |RelevantIndices(packets, sel)| ==>
      RelevantIndices(packets, sel)[k] < RelevantIndices(packets, sel)[l]
    decreases |packets|
  {
    if packets != [] {
      var n := |packets| - 1;
      var init := packets[..n];
      RelevantIndicesExact(init, sel);
      var ri := RelevantIndices(init, sel);
      var tail: seq<nat> := if IsRelevant(packets[n], sel) then [n] else [];
      var r := RelevantIndices(packets, sel);
      assert r == ri + tail;
      forall k | 0 <= k < |r|
        ensures IsRelevant(packets[r[k]], sel)
      {
        if k < |ri| {
          assert r[k] == ri[k] && packets[ri[k]] == init[ri[k]];
        } else {
          assert tail == [n] && r[k] == n;
        }
      }
      forall i | 0 <= i < |packets| && IsRelevant(packets[i], sel)
        ensures i in r
      {
        if i < n {
          assert init[i] == packets[i];
          assert i in ri;
        } else {
          assert r[|r| - 1] == n;
        }
      }
    }
  }

  /** Whether the frame at relevant position `pos` is printed by
      `print_relevant_packets(offset, count)`. A frame is printed once its
      position reaches `offset`; after each relevant frame the loop stops when
      `count != 0` and the frames seen reach `offset + count`, so position
      `pos` is still reached when it is the first one or lies below
      `offset + count`. */
  predicate InWindow(pos: int, offset: int, count: int) {
    offset <= pos && (count == 0 || pos == 0 || pos < offset + count)
  }

  /** The indices `print_relevant_packets` prints, in capture order. */
  function WindowIndices(packets: seq<Json>, sel: Selection, offset: int, count: int): (r: seq<nat>)
    ensures forall k :: 0 <= k < |r| ==> r[k] < |packets|
    decreases |packets|
  {
    if packets == [] then []
    else
      var n := |packets| - 1;
      var pos := |RelevantIndices(packets[..n], sel)|;
      WindowIndices(packets[..n], sel, offset, count)
        + if IsRelevant(packets[n], sel) && InWindow(pos, offset, count) then [n] else []
  }

  /** The slice bounds of `WindowIsSlice` over `m` relevant frames: from
      `offset`, or the end when `offset` lies past it ... */
  function SliceLo(offset: int, m: nat): nat
    requires offset >= 0
  {
    if offset <= m then offset else m
  }

  /** ... up to `offset + count`, or the end when `count` is zero or the
      window runs past the end. */
  function SliceHi(offset: int, count: int, m: nat): nat
    requires offset >= 0 && count >= 0
  {
    if count == 0 || offset + count >= m then m else offset + count
  }

  /** One more relevant frame at position `m` grows the slice by that frame
      exactly when position `m` is in the window. */
  lemma SliceSnoc(rel: seq<nat>, x: nat, offset: int, count: int)
    requires offset >= 0 && count >= 0
    ensures var m := |rel|;
      SliceLo(offset, m) <= SliceHi(offset, count, m)
      && SliceLo(offset, m + 1) <= SliceHi(offset, count, m + 1)
      && (rel + [x])[SliceLo(offset, m + 1)..SliceHi(offset, count, m + 1)] ==
           rel[SliceLo(offset, m)..SliceHi(offset, count, m)] + if InWindow(m, offset, count) then [x] else []
  {
    var m := |rel|;
    var r := rel + [x];
    if InWindow(m, offset, count) {
      assert r[offset..m + 1] == rel[offset..m] + [x];
    } else if offset > m {
      assert r[m + 1..m + 1] == [] && rel[m..m] == [];
    } else {
      assert r[offset..offset + count] == rel[offset..offset + count];
    }
  }

  /** For a non-negative offset and count, the printed frames are the slice of
      the relevant frames from position `offset` up to (not including)
      `offset + count`, or to the end when `count` is zero. */
  lemma {:induction false} WindowIsSlice(packets: seq<Json>, sel: Selection, offset: int, count: int)
    requires offset >= 0 && count >= 0
    ensures var rel := RelevantIndices(packets, sel);
      var lo, hi := SliceLo(offset, |rel|), SliceHi(offset, count, |rel|);
      lo <= hi && WindowIndices(packets, sel, offset, count) == rel[lo..hi]
    decreases |packets|
  {
    if packets != [] {
      var n := |packets| - 1;
      var init := packets[..n];
      WindowIsSlice(init, sel, offset, count);
      var ri := RelevantIndices(init, sel);
      if IsRelevant(packets[n], sel) {
        SliceSnoc(ri, n, offset, count);
      }
    }
  }

  /** Paging with offset 1 and count 2 over five relevant frames prints the
      relevant frames at positions 1 and 2 and no other. */
  lemma SecondPageOfTwo(packets: seq<Json>, sel: Selection)
    requires |RelevantIndices(packets, sel)| == 5
    ensures var rel := RelevantIndices(packets, sel);
      WindowIndices(packets, sel, 1, 2) == [rel[1], rel[2]]
  {
    WindowIsSlice(packets, sel, 1, 2);
  }

  /** With a negative count and an offset of at most zero, the loop returns
      right after the first relevant frame: only that frame is printed. */
  lemma {:induction false} NegativeCountPrintsFirst(packets: seq<Json>, sel: Selection, offset: int, count: int)
    requires count < 0 && offset <= 0
    ensures var rel := RelevantIndices(packets, sel);
      WindowIndices(packets, sel, offset, count) == if rel == [] then [] else [rel[0]]
    decreases |packets|
  {
    if packets != [] {
      var n := |packets| - 1;
      NegativeCountPrintsFirst(packets[..n], sel, offset, count);
    }
  }

  /** The window over a prefix of the capture is a prefix of the window. */
  lemma {:induction false} WindowPrefix(packets: seq<Json>, sel: Selection, offset: int, count: int, i: nat)
    requires i <= |packets|
    ensures WindowIndices(packets[..i], sel, offset, count) <= WindowIndices(packets, sel, offset, count)
    decreases |packets| - i
  {
    if i < |packets| {
      WindowPrefix(packets, sel, offset, count, i + 1);
      WindowStep(packets, sel, offset, count, i);
    } else {
      assert packets[..i] == packets;
    }
  }

  /** Once the frames seen reach `offset + count` (with `count != 0`), no
      later frame is in the window. */
  lemma {:induction false} WindowClosed(packets: seq<Json>, sel: Selection, offset: int, count: int, i: nat)
    requires i <= |packets|
    requires count != 0
    requires var seen := |RelevantIndices(packets[..i], sel)|; seen >= 1 && seen >= offset + count
    ensures WindowIndices(packets, sel, offset, count) == WindowIndices(packets[..i], sel, offset, count)
    decreases |packets| - i
  {
    if i < |packets| {
      WindowStep(packets, sel, offset, count, i);
      assert !InWindow(|RelevantIndices(packets[..i], sel)|, offset, count);
      WindowClosed(packets, sel, offset, count, i + 1);
    } else {
      assert packets[..i] == packets;
    }
  }

  /** One printed line: the frame's index in the capture and its decoding. */
  datatype Line = Line(index: nat, frame: Decoded)

  /** `lines` are the decodings of the frames at the first `|lines|` of
      `indices`, each tagged with its index. */
  predicate LinesMatch(packets: seq<Json>, indices: seq<nat>, lines: seq<Line>)
    requires forall k :: 0 <= k < |indices| ==> indices[k] < |packets|
  {
    |lines| <= |indices| &&
    forall k :: 0 <= k < |lines| ==>
      lines[k].index == indices[k] && DecodePacket(packets[indices[k]]) == Ok(lines[k].frame)
  }

  /** Lines that match a prefix of the indices match the indices. */
  lemma LinesMatchPrefix(packets: seq<Json>, indices: seq<nat>, n: nat, lines: seq<Line>)
    requires forall k :: 0 <= k < |indices| ==> indices[k] < |packets|
    requires n <= |indices|
    requires LinesMatch(packets, indices[..n], lines)
    ensures LinesMatch(packets, indices, lines)
  {
    forall k | 0 <= k < |lines|
      ensures lines[k].index == indices[k]
    {
      assert indices[..n][k] == indices[k];
    }
  }

  /** Decoding the next index adds its line. */
  lemma LinesMatchSnoc(packets: seq<Json>, indices: seq<nat>, lines: seq<Line>, d: Decoded)
    requires forall k :: 0 <= k < |indices| ==> indices[k] < |packets|
    requires indices != []
    requires |lines| == |indices| - 1
    requires LinesMatch(packets, indices[..|indices| - 1], lines)
    requires DecodePacket(packets[indices[|indices| - 1]]) == Ok(d)
    ensures LinesMatch(packets, indices, lines + [Line(indices[|indices| - 1], d)])
  {
    var n := |indices| - 1;
    LinesMatchPrefix(packets, indices, n, lines);
    var last := Line(indices[n], d);
    assert forall k :: 0 <= k < n ==> (lines + [last])[k] == lines[k];
  }

  /** Decode the frames at `indices` one after the other; the first frame
      whose decoding raises ends the output, and the lines before it stay. */
  function DecodeLines(packets: seq<Json>, indices: seq<nat>): (r: (seq<Line>, Option<Error>))
    requires forall k :: 0 <= k < |indices| ==> indices[k] < |packets|
    ensures LinesMatch(packets, indices, r.0)
    ensures r.1.None? ==> |r.0| == |indices|
    ensures r.1.Some? ==> |r.0| < |indices| && DecodePacket(packets[indices[|r.0|]]) == Err(r.1.value)
    decreases |indices|
  {
    if indices == [] then ([], None)
    else
      var n := |indices| - 1;
      var (lines, fault) := DecodeLines(packets, indices[..n]);
      LinesMatchPrefix(packets, indices, n, lines);
      if fault.Some? then (lines, fault)
      else match DecodePacket(packets[indices[n]])
        case Err(e) => (lines, Some(e))
        case Ok(d) => LinesMatchSnoc(packets, indices, lines, d); (lines + [Line(indices[n], d)], None)
  }

  /** After a fault, decoding more frames changes nothing. */
  lemma {:induction false} DecodeLinesStopsAtFault(packets: seq<Json>, a: seq<nat>, b: seq<nat>)
    requires forall k :: 0 <= k < |a| ==> a[k] < |packets|
    requires forall k :: 0 <= k < |b| ==> b[k] < |packets|
    requires DecodeLines(packets, a).1.Some?
    ensures forall k :: 0 <= k < |a + b| ==> (a + b)[k] < |packets|
    ensures DecodeLines(packets, a + b) == DecodeLines(packets, a)
    decreases |b|
  {
    if b == [] {
      assert a + b == a;
    } else {
      var n := |b| - 1;
      DecodeLinesStopsAtFault(packets, a, b[..n]);
      assert (a + b)[..|a + b| - 1] == a + b[..n];
    }
  }

  /** One more frame of the capture: the relevant count and the window grow
      by that frame at most. */
  lemma WindowStep(packets: seq<Json>, sel: Selection, offset: int, count: int, i: nat)
    requires i < |packets|
    ensures var seen := |RelevantIndices(packets[..i], sel)|;
      var now := IsRelevant(packets[i], sel);
      && |RelevantIndices(packets[..i + 1], sel)| == seen + (if now then 1 else 0)
      && WindowIndices(packets[..i + 1], sel, offset, count) ==
           WindowIndices(packets[..i], sel, offset, count) + if now && InWindow(seen, offset, count) then [i] else []
  {
    assert packets[..i + 1][..i] == packets[..i];
  }

  /** Decoding one more index after a fault-free prefix. */
  lemma DecodeLinesSnoc(packets: seq<Json>, indices: seq<nat>, j: nat)
    requires forall k :: 0 <= k < |indices| ==> indices[k] < |packets|
    requires j < |packets|
    requires DecodeLines(packets, indices).1.None?
    ensures forall k :: 0 <= k < |indices + [j]| ==> (indices + [j])[k] < |packets|
    ensures DecodeLines(packets, indices + [j]) ==
      match DecodePacket(packets[j])
      case Err(e) => (DecodeLines(packets, indices).0, Some(e))
      case Ok(d) => (DecodeLines(packets, indices).0 + [Line(j, d)], None)
  {
    assert (indices + [j])[..|indices|] == indices;
  }

  /** One iteration of the loop of `print_relevant_packets`, given that the
      window has not closed: a relevant frame at a position from `offset` on
      is decoded and either adds its line or ends the output with the error;
      any other frame leaves the output as it was. */
  lemma PrintWindowStep(packets: seq<Json>, sel: Selection, offset: int, count: int, i: nat, seen: nat, lines: seq<Line>)
    requires i < |packets|
    requires seen == |RelevantIndices(packets[..i], sel)|
    requires count != 0 ==> seen == 0 || seen < offset + count
    requires DecodeLines(packets, WindowIndices(packets[..i], sel, offset, count)) == (lines, None)
    ensures |RelevantIndices(packets[..i + 1], sel)| == if IsRelevant(packets[i], sel) then seen + 1 else seen
    ensures IsRelevant(packets[i], sel) && seen >= offset && DecodePacket(packets[i]).Err? ==>
      DecodeLines(packets, WindowIndices(packets[..i + 1], sel, offset, count)) == (lines, Some(DecodePacket(packets[i]).error))
    ensures IsRelevant(packets[i], sel) && seen >= offset && DecodePacket(packets[i]).Ok? ==>
      DecodeLines(packets, WindowIndices(packets[..i + 1], sel, offset, count)) == (lines + [Line(i, DecodePacket(packets[i]).value)], None)
    ensures !(IsRelevant(packets[i], sel) && seen >= offset) ==>
      DecodeLines(packets, WindowIndices(packets[..i + 1], sel, offset, count)) == (lines, None)
  {
    WindowStep(packets, sel, offset, count, i);
    var before := WindowIndices(packets[..i], sel, offset, count);
    if IsRelevant(packets[i], sel) && seen >= offset {
      assert InWindow(seen, offset, count);
      DecodeLinesSnoc(packets, before, i);
    } else {
      assert WindowIndices(packets[..i + 1], sel, offset, count) == before + [];
      assert before + [] == before;
    }
  }

  /** The loop of `print_relevant_packets` (sharktooth.py:305-315): count the
      relevant frames, print those from position `offset` on, and return once
      `offset + count` of them were seen when `count` is not zero. */
  method PrintWindow(packets: seq<Json>, sel: Selection, offset: int, count: int)
    returns (lines: seq<Line>, fault: Option<Error>)
    ensures (lines, fault) == DecodeLines(packets, WindowIndices(packets, sel, offset, count))
  {
    lines, fault := [], None;
    var lineCount := 0;
    var i := 0;
    assert packets[..0] == [];
    while i < |packets|
      invariant 0 <= i <= |packets|
      invariant lineCount == |RelevantIndices(packets[..i], sel)|
      invariant count != 0 ==> lineCount == 0 || lineCount < offset + count
      invariant DecodeLines(packets, WindowIndices(packets[..i], sel, offset, count)) == (lines, None)
    {
      PrintWindowStep(packets, sel, offset, count, i, lineCount, lines);
      var addr := UsbAddr(packets[i]);
      if addr == sel.cmd || addr == sel.read {
        if lineCount >= offset {
          var d := DecodePacket(packets[i]);
          if d.Err? {
            FaultEndsWindow(packets, sel, offset, count, i + 1);
            return lines, Some(d.error);
          }
          lines := lines + [Line(i, d.value)];
        }
        lineCount := lineCount + 1;
        if lineCount >= offset + count && count != 0 {
          WindowClosed(packets, sel, offset, count, i + 1);
          return lines, None;
        }
      }
      i := i + 1;
    }
    assert packets[..i] == packets;
  }

  /** A fault while printing the window over a prefix ends the whole window's output. */
  lemma FaultEndsWindow(packets: seq<Json>, sel: Selection, offset: int, count: int, i: nat)
    requires i <= |packets|
    requires DecodeLines(packets, WindowIndices(packets[..i], sel, offset, count)).1.Some?
    ensures DecodeLines(packets, WindowIndices(packets, sel, offset, count))
         == DecodeLines(packets, WindowIndices(packets[..i], sel, offset, count))
  {
    WindowPrefix(packets, sel, offset, count, i);
    var done := WindowIndices(packets[..i], sel, offset, count);
    var all := WindowIndices(packets, sel, offset, count);
    assert all == done + all[|done|..];
    DecodeLinesStopsAtFault(packets, done, all[|done|..]);
  }
}
