/** Device discovery (`select_spectrometer`, sharktooth.py:174-228): two
    fingerprints over the whole capture, each of which must name exactly one
    endpoint address. */
module Classifier {
  import opened Wrappers
  import opened JsonPath
  import opened Capture

  /** Setup bytes of an "acquire spectrum" control request (opcode 0xAD). */
  const AcqPattern: string := "0040ad0000"

  /** The two fingerprints of a spectrometer's traffic. */
  datatype Fingerprint = Acquisition | BulkRead

  /** Python's `s in t` for strings: `pat` occurs somewhere in `s`. */
  function Contains(s: string, pat: string): bool
    decreases |s|
  {
    |pat| <= |s| && (s[..|pat|] == pat || Contains(s[1..], pat))
  }

  predicate OccursAt(s: string, pat: string, i: int) {
    0 <= i <= |s| - |pat| && s[i..i + |pat|] == pat
  }

  /** Shifting a window of `s` onto the tail `s[1..]`. */
  lemma OccursInTail(s: string, pat: string, i: int)
    requires 1 <= i && |s| >= 1
    ensures OccursAt(s, pat, i) <==> OccursAt(s[1..], pat, i - 1)
  {
    if 0 <= i <= |s| - |pat| {
      var a, b := s[i..i + |pat|], s[1..][i - 1..i - 1 + |pat|];
      assert |a| == |b| == |pat|;
      assert forall j :: 0 <= j < |pat| ==> a[j] == s[i + j] == b[j];
      assert a == b;
    }
  }

  /** The search finds `pat` exactly when it occurs at some position of `s`. */
  lemma {:induction false} ContainsIff(s: string, pat: string)
    ensures Contains(s, pat) <==> exists i :: OccursAt(s, pat, i)
    decreases |s|
  {
    if |pat| <= |s| {
      if s[..|pat|] == pat {
        assert OccursAt(s, pat, 0);
      } else {
        ContainsIff(s[1..], pat);
        if Contains(s[1..], pat) {
          var i :| OccursAt(s[1..], pat, i);
          OccursInTail(s, pat, i + 1);
        } else {
          forall i | OccursAt(s, pat, i)
            ensures false
          {
            if i > 0 {
              OccursInTail(s, pat, i);
            }
          }
        }
      }
    }
  }

  /** `frame_raw and "0040ad0000" in frame_raw` (sharktooth.py:196): a falsy
      value does not match; a string is searched, a list tested for an equal
      element, a dictionary for the key; `in` on a true boolean or a non-zero
      number raises a TypeError. */
  function AcqTest(payload: Json): (r: Result<bool, Error>)
    ensures r.Err? <==> payload == JBool(true) || (payload.JNum? && payload.n != 0.0)
    ensures payload.JStr? ==> (r == Ok(true) <==> exists i :: OccursAt(payload.s, AcqPattern, i))
    ensures payload.JArr? ==> (r == Ok(true) <==> JStr(AcqPattern) in payload.items)
    ensures payload.JObj? ==> (r == Ok(true) <==> AcqPattern in payload.fields)
    ensures payload.JNull? || payload == JBool(false) ==> r == Ok(false)
  {
    if !Truthy(payload) then Ok(false)
    else match payload
      case JStr(s) => ContainsIff(s, AcqPattern); Ok(Contains(s, AcqPattern))
      case JArr(a) => Ok(JStr(AcqPattern) in a)
      case JObj(m) => Ok(AcqPattern in m)
      case _ => Err(TypeFault)
  }

  /** `frame_raw_size and frame_raw_size >= 2075` (sharktooth.py:202). */
  function BulkTest(size: Json): (r: Result<bool, Error>)
    ensures r == Ok(true) <==> size.JNum? && size.n >= BulkReadSize
  {
    if !Truthy(size) then Ok(false) else SizeAtLeastBulk(size)
  }

  function Test(fp: Fingerprint, packet: Json): Result<bool, Error> {
    match fp
    case Acquisition => AcqTest(Field(packet, PayloadPath))
    case BulkRead => BulkTest(Field(packet, SizePath))
  }

  predicate Matches(fp: Fingerprint, packet: Json) {
    Test(fp, packet) == Ok(true)
  }

  /** Either fingerprint test raises on this frame. */
  predicate Faulty(packet: Json) {
    Test(Acquisition, packet).Err? || Test(BulkRead, packet).Err?
  }

  /** A set element must be hashable: Python lists and dictionaries are not. */
  predicate Hashable(v: Json) {
    !v.JArr? && !v.JObj?
  }

  /** The set of endpoint addresses of the frames that carry a fingerprint. */
  ghost function FingerprintAddrs(packets: seq<Json>, fp: Fingerprint): set<Json> {
    set i | 0 <= i < |packets| && Matches(fp, packets[i]) :: UsbAddr(packets[i])
  }

  /** The only element of a singleton set. */
  ghost function TheOnly(s: set<Json>): (x: Json)
    requires |s| == 1
    ensures s == {x}
  {
    var x :| x in s;
    assert |s - {x}| == 0;
    x
  }

  /** What `select_spectrometer` computes: an error, or the command and the
      read address of the one spectrometer in the capture. */
  ghost function Classify(packets: seq<Json>): Result<Selection, Error> {
    if |packets| == 0 then Err(NoPacketData)
    else if exists i :: 0 <= i < |packets| && Faulty(packets[i]) then Err(TypeFault)
    else SelectFrom(FingerprintAddrs(packets, Acquisition), FingerprintAddrs(packets, BulkRead))
  }

  /** The end of `select_spectrometer` (sharktooth.py:205-226), given the two
      address sets: unhashable addresses raise, then each set must hold
      exactly one address. */
  ghost function SelectFrom(acq: set<Json>, bulk: set<Json>): Result<Selection, Error> {
    if exists a :: a in acq + bulk && !Hashable(a) then Err(TypeFault)
    else if |acq| != 1 || |bulk| != 1 then Err(NotSingleSpectrometer)
    else Ok(Selection(TheOnly(acq), TheOnly(bulk)))
  }

  /** The frames carrying a fingerprint, in capture order (the lists
      `collected_acq_packets` and `collected_read_packets`). */
  function Candidates(packets: seq<Json>, fp: Fingerprint): seq<Json>
    decreases |packets|
  {
    if packets == [] then []
    else
      var last := packets[|packets| - 1];
      Candidates(packets[..|packets| - 1], fp) + if Matches(fp, last) then [last] else []
  }

  /** Every collected frame comes from the capture and carries the
      fingerprint, and every frame carrying it is collected. */
  lemma {:induction false} CandidatesMatch(packets: seq<Json>, fp: Fingerprint)
    ensures forall p :: p in Candidates(packets, fp) <==> p in packets && Matches(fp, p)
    decreases |packets|
  {
    if packets != [] {
      var n := |packets| - 1;
      CandidatesMatch(packets[..n], fp);
      assert packets == packets[..n] + [packets[n]];
    }
  }

  /** One more frame extends the collected frames by that frame at most. */
  lemma CandidatesStep(packets: seq<Json>, fp: Fingerprint, i: nat)
    requires i < |packets|
    ensures Candidates(packets[..i + 1], fp) ==
      Candidates(packets[..i], fp) + if Matches(fp, packets[i]) then [packets[i]] else []
  {
    assert packets[..i + 1][..i] == packets[..i];
  }

  /** The set of addresses of some frames. */
  function Addrs(packets: seq<Json>): (s: set<Json>)
    ensures forall p :: p in packets ==> UsbAddr(p) in s
    decreases |packets|
  {
    if packets == [] then {}
    else Addrs(packets[..|packets| - 1]) + {UsbAddr(packets[|packets| - 1])}
  }

  lemma FingerprintAddrsSnoc(packets: seq<Json>, fp: Fingerprint)
    requires packets != []
    ensures var n := |packets| - 1;
      FingerprintAddrs(packets, fp) ==
        FingerprintAddrs(packets[..n], fp) + if Matches(fp, packets[n]) then {UsbAddr(packets[n])} else {}
  {
    var n := |packets| - 1;
    var init := packets[..n];
    forall a | a in FingerprintAddrs(packets, fp)
      ensures a in FingerprintAddrs(init, fp) || (Matches(fp, packets[n]) && a == UsbAddr(packets[n]))
    {
      var i :| 0 <= i < |packets| && Matches(fp, packets[i]) && UsbAddr(packets[i]) == a;
      if i < n {
        assert init[i] == packets[i];
      }
    }
    forall a | a in FingerprintAddrs(init, fp)
      ensures a in FingerprintAddrs(packets, fp)
    {
      var i :| 0 <= i < n && Matches(fp, init[i]) && UsbAddr(init[i]) == a;
      assert packets[i] == init[i];
    }
  }

  /** The addresses of the collected frames are the fingerprint's addresses. */
  lemma {:induction false} AddrsOfCandidates(packets: seq<Json>, fp: Fingerprint)
    ensures Addrs(Candidates(packets, fp)) == FingerprintAddrs(packets, fp)
    decreases |packets|
  {
    if packets != [] {
      var n := |packets| - 1;
      AddrsOfCandidates(packets[..n], fp);
      FingerprintAddrsSnoc(packets, fp);
      var ci := Candidates(packets[..n], fp);
      if Matches(fp, packets[n]) {
        assert (ci + [packets[n]])[..|ci|] == ci;
      } else {
        assert ci + [] == ci;
      }
    }
  }

  lemma SingletonIs(s: set<Json>, x: Json)
    requires |s| == 1 && x in s
    ensures s == {x}
  {
    assert |s - {x}| == 0;
  }

  /** `select_spectrometer` without its final assignment: the first loop
      collects fingerprinted frames, the next two collect their addresses into
      sets, then both sets must be singletons. */
  method ClassifyCapture(packets: seq<Json>) returns (r: Result<Selection, Error>)
    ensures r == Classify(packets)
  {
    if |packets| == 0 {
      return Err(NoPacketData);
    }
    var candidates := CollectCandidates(packets);
    if candidates.Err? {
      return Err(TypeFault);
    }
    var (acqPackets, readPackets) := candidates.value;
    AddrsOfCandidates(packets, Acquisition);
    AddrsOfCandidates(packets, BulkRead);
    r := SelectFromCandidates(acqPackets, readPackets);
  }

  /** The address loops and the cardinality check (sharktooth.py:205-226). */
  method SelectFromCandidates(acqPackets: seq<Json>, readPackets: seq<Json>) returns (r: Result<Selection, Error>)
    ensures r == SelectFrom(Addrs(acqPackets), Addrs(readPackets))
  {
    var acqAddrs := CollectAddrs(acqPackets);
    if acqAddrs.Err? {
      return Err(TypeFault);
    }
    var readAddrs := CollectAddrs(readPackets);
    if readAddrs.Err? {
      return Err(TypeFault);
    }
    if |acqAddrs.value| != 1 || |readAddrs.value| != 1 {
      return Err(NotSingleSpectrometer);
    }
    var cmd :| cmd in acqAddrs.value;
    var read :| read in readAddrs.value;
    SingletonIs(acqAddrs.value, cmd);
    SingletonIs(readAddrs.value, read);
    r := Ok(Selection(cmd, read));
  }

  /** The first loop of `select_spectrometer` (sharktooth.py:191-203): test
      each frame against both fingerprints, in capture order. */
  method CollectCandidates(packets: seq<Json>) returns (r: Result<(seq<Json>, seq<Json>), Error>)
    ensures r.Err? <==> exists i :: 0 <= i < |packets| && Faulty(packets[i])
    ensures r.Ok? ==> r.value == (Candidates(packets, Acquisition), Candidates(packets, BulkRead))
  {
    var acqPackets: seq<Json> := [];
    var readPackets: seq<Json> := [];
    var i := 0;
    while i < |packets|
      invariant 0 <= i <= |packets|
      invariant forall k :: 0 <= k < i ==> !Faulty(packets[k])
      invariant acqPackets == Candidates(packets[..i], Acquisition)
      invariant readPackets == Candidates(packets[..i], BulkRead)
    {
      var packet := packets[i];
      CandidatesStep(packets, Acquisition, i);
      CandidatesStep(packets, BulkRead, i);
      // frame_raw[0] and frame_raw[2] are tested in Test(Acquisition, _) and Test(BulkRead, _)
      var isAcq := Test(Acquisition, packet);
      if isAcq.Err? {
        return Err(TypeFault);
      }
      assert isAcq.value == Matches(Acquisition, packet);
      if isAcq.value {
        acqPackets := acqPackets + [packet];
      }
      var isRead := Test(BulkRead, packet);
      if isRead.Err? {
        return Err(TypeFault);
      }
      assert isRead.value == Matches(BulkRead, packet);
      if isRead.value {
        readPackets := readPackets + [packet];
      }
      i := i + 1;
    }
    assert packets[..i] == packets;
    r := Ok((acqPackets, readPackets));
  }

  /** One `for packet in ...: addrs.add(get_usb_addr(packet))` loop; adding a
      list or a dictionary to a set raises a TypeError. */
  method CollectAddrs(packets: seq<Json>) returns (r: Result<set<Json>, Error>)
    ensures r.Err? <==> exists a :: a in Addrs(packets) && !Hashable(a)
    ensures r.Ok? ==> r.value == Addrs(packets)
  {
    var addrs: set<Json> := {};
    var j := 0;
    while j < |packets|
      invariant 0 <= j <= |packets|
      invariant addrs == Addrs(packets[..j])
      invariant forall a :: a in addrs ==> Hashable(a)
    {
      var a := UsbAddr(packets[j]);
      assert packets[..j + 1][..j] == packets[..j];
      if !Hashable(a) {
        return Err(TypeFault);
      }
      addrs := addrs + {a};
      j := j + 1;
    }
    assert packets[..j] == packets;
    r := Ok(addrs);
  }

  /** Classification succeeds exactly when the capture is not empty, no frame
      makes a fingerprint test raise, and each fingerprint names one single,
      hashable address; the selection is then that pair (the two addresses
      may coincide). */
  lemma ClassifyOkIff(packets: seq<Json>)
    ensures Classify(packets).Ok? <==>
      && |packets| > 0
      && (forall i :: 0 <= i < |packets| ==> !Faulty(packets[i]))
      && (exists c :: FingerprintAddrs(packets, Acquisition) == {c} && Hashable(c))
      && (exists d :: FingerprintAddrs(packets, BulkRead) == {d} && Hashable(d))
    ensures Classify(packets).Ok? ==>
      && FingerprintAddrs(packets, Acquisition) == {Classify(packets).value.cmd}
      && FingerprintAddrs(packets, BulkRead) == {Classify(packets).value.read}
  {
    if |packets| > 0 && forall i :: 0 <= i < |packets| ==> !Faulty(packets[i]) {
      SelectFromOkIff(FingerprintAddrs(packets, Acquisition), FingerprintAddrs(packets, BulkRead));
    }
  }

  /** The cardinality check passes exactly on two hashable singletons, and
      then selects their elements. */
  lemma SelectFromOkIff(acq: set<Json>, bulk: set<Json>)
    ensures SelectFrom(acq, bulk).Ok? <==>
      (exists c :: acq == {c} && Hashable(c)) && (exists d :: bulk == {d} && Hashable(d))
    ensures SelectFrom(acq, bulk).Ok? ==>
      acq == {SelectFrom(acq, bulk).value.cmd} && bulk == {SelectFrom(acq, bulk).value.read}
  {
    if exists a :: a in acq + bulk && !Hashable(a) {
      var a :| a in acq + bulk && !Hashable(a);
      forall c, d | acq == {c} && bulk == {d} ensures !Hashable(c) || !Hashable(d) {
        assert a in {c, d};
      }
    } else if |acq| == 1 && |bulk| == 1 {
      var c, d := TheOnly(acq), TheOnly(bulk);
      assert c in acq + bulk && d in acq + bulk;
    }
  }

  /** A non-empty capture with no raising test and only hashable addresses:
      whatever fails its classification is the cardinality check. */
  ghost predicate ReachesCardinalityCheck(packets: seq<Json>) {
    && |packets| > 0
    && (forall k :: 0 <= k < |packets| ==> !Faulty(packets[k]))
    && (forall a :: a in FingerprintAddrs(packets, Acquisition) + FingerprintAddrs(packets, BulkRead) ==> Hashable(a))
  }

  /** Every collected address is the address of some frame. */
  lemma FingerprintAddrsHashable(packets: seq<Json>, fp: Fingerprint)
    requires forall k :: 0 <= k < |packets| ==> Hashable(UsbAddr(packets[k]))
    ensures forall a :: a in FingerprintAddrs(packets, fp) ==> Hashable(a)
  {
  }

  /** A fingerprint that no frame carries fails the classification; when the
      cardinality check is reached, it is the one that raises. */
  lemma MissingFingerprintRejected(packets: seq<Json>, fp: Fingerprint)
    requires forall i :: 0 <= i < |packets| ==> !Matches(fp, packets[i])
    ensures Classify(packets).Err?
    ensures ReachesCardinalityCheck(packets) ==> Classify(packets) == Err(NotSingleSpectrometer)
  {
    assert FingerprintAddrs(packets, fp) == {};
  }

  /** Two frames with the same fingerprint from different endpoints (two
      spectrometers, or an unrelated device) fail the classification. */
  lemma AmbiguousFingerprintRejected(packets: seq<Json>, fp: Fingerprint, i: nat, j: nat)
    requires i < |packets| && j < |packets|
    requires Matches(fp, packets[i]) && Matches(fp, packets[j])
    requires UsbAddr(packets[i]) != UsbAddr(packets[j])
    ensures Classify(packets).Err?
    ensures ReachesCardinalityCheck(packets) ==> Classify(packets) == Err(NotSingleSpectrometer)
  {
    var s := FingerprintAddrs(packets, fp);
    assert {UsbAddr(packets[i]), UsbAddr(packets[j])} <= s;
    if |s| == 1 {
      var x := TheOnly(s);
      assert false;
    }
  }

  /** Frames that all carry a fingerprint from one address give that address
      alone. */
  lemma OneAddressFingerprint(packets: seq<Json>, fp: Fingerprint, i: nat)
    requires i < |packets| && Matches(fp, packets[i])
    requires forall j :: 0 <= j < |packets| && Matches(fp, packets[j]) ==> UsbAddr(packets[j]) == UsbAddr(packets[i])
    ensures FingerprintAddrs(packets, fp) == {UsbAddr(packets[i])}
  {
  }
}
