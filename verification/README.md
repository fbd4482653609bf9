# SharkTooth analysis core, modelled in Dafny

SharkTooth post-processes a Wireshark capture of USB traffic between a host
and a Wasatch Photonics spectrometer. The capture is exported as JSON and
parsed into a tree. This model covers what `sharktooth.py` does with that
tree:

- a total path lookup into a frame record;
- the endpoint address of a frame;
- the discovery of the spectrometer's two endpoints from two traffic
  fingerprints;
- the filtering of the frames that belong to it;
- the decoding of one frame into a record (time, operation name, direction,
  length);
- the offset/count paging of the printed trace.

The modules follow the program's parts:

| file | module | part of `sharktooth.py` |
|---|---|---|
| `wrappers.dfy` | `Wrappers` | `Option` and `Result`, used for `None` and for exceptions |
| `json_path.dfy` | `JsonPath` | the JSON value type and `_json_nav_path` |
| `capture.dfy` | `Capture` | frame field paths, `get_usb_addr`, the error kinds, the `>= 2075` comparison |
| `classifier.dfy` | `Classifier` | `select_spectrometer`'s fingerprint passes and cardinality check |
| `decoder.dfy` | `Decoder` | `_opcode_lookup` and `decode_packet` |
| `relevance.dfy` | `Relevance` | the relevance filter and the paging loop of `print_relevant_packets` |
| `sharktooth.dfy` | `SharkTooth` | the session: the loaded capture and the two selection globals |
| `scenarios.dfy` | `Scenarios` | small concrete captures and their proved outcomes |

How the model reads Python:

- A JSON value is `Json`: null, boolean, number, string, array or object.
  Numbers are reals, because Python treats `1` and `1.0` as equal.
- Python's `None` and a JSON `null` are the same value. So a lookup that
  misses (`NavPath` gives `None`) reads as `JNull` wherever the code uses the
  result (`Capture.Field`).
- Each Python exception becomes an `Err` with an error kind:
  - `NoPacketData`: the capture is empty.
  - `NotSingleSpectrometer`: the fingerprints do not each name exactly one
    address.
  - `NotSelected`: a command runs before a usable selection.
  - `TypeFault`: a `TypeError` from a field of an unexpected type. Examples:
    `in` on a number, a list or dictionary added to a set, `>=` on a string,
    `%d` on `"??"`.
- The globals `_spec_cmd_addr` and `_spec_read_addr` are fields of the class
  `SharkTooth.Session`. `SelectSpectrometer` writes them only after the
  cardinality check passes, so a failing call leaves the earlier selection
  unchanged.
- The loops of the source are methods with loop invariants. Each is proved
  equal to a specification function:
  - the lookup loop: `JsonNavPath` = `NavPath`;
  - the three loops of `select_spectrometer`: `ClassifyCapture` = `Classify`;
  - the relevance loops: `GetRelevantFrameNumbers` and `GetRelevantPackets`
    = `RelevantIndices`;
  - the paging loop: `PrintWindow` = `DecodeLines` over `WindowIndices`.

  Lemmas then state the source's promises about those functions.

Behaviour of `sharktooth.py` that the model keeps:

- `decode_packet` takes the opcode only from hex characters 58..60 of the
  payload. The program has no direction-byte check, no `wValue`/`wIndex`
  decoding and no option to hide unknown frames, so an unknown opcode is
  always shown as `0x..`.
- The opcode table has one entry, `"ad"` named `"Spectral Acquisition"`.
- In `decode_packet`, a missing or zero frame length raises. A missing
  length makes the `>= 2075` comparison raise. A zero length (or `False`)
  becomes `"??"`, which `%d` refuses. See `Decoder.ZeroLengthFrameFaults`.
  In `select_spectrometer` the same lengths are harmless: the
  `frame_raw_size and` guard makes them a non-match for the bulk-read
  fingerprint (`Classifier.BulkTest`).
- A failed classification leaves an earlier selection in place: the globals
  are written only after the cardinality check passes.
- A classification can succeed with a falsy address, such as `None` when the
  fingerprinted frames have no `usb` layer. Every later command then raises
  "not selected". See `Scenarios.NullAddressSelection`.
- The paging loop returns only after it has seen a relevant frame. With a
  negative `count` and an `offset` of at most zero, it prints exactly the
  first relevant frame. See `Relevance.NegativeCountPrintsFirst`.

## Model

| member | source | states |
|---|---|---|
| `JsonPath.Truthy` | sharktooth.py:235 | Python truthiness: `None`, `False`, zero, the empty string, list and dictionary are false, every other value is true |
| `JsonPath.NavPath` | sharktooth.py:60-74 | the lookup as a value: each step must be an index in range into a list or a key present in a dictionary, and the first step that is neither gives `None` |
| `JsonPath.JsonNavPath` | sharktooth.py:60-74 | the lookup loop returns exactly `NavPath(obj, path)`; with an empty path it returns the input unchanged |
| `JsonPath.DescendIsValidStep` | sharktooth.py:63-67 | one step descends exactly into a list with an index `0 <= p < len`, or into a dictionary holding the key, and yields that child |
| `JsonPath.NavPathSnoc` | sharktooth.py:62-72 | a path extended by one step yields `None` when the prefix failed or the step does not fit (wrong container, index out of range or negative, missing key), and the child otherwise; no other outcome exists |
| `JsonPath.NavPathAppend` | sharktooth.py:62-74 | looking up `p + q` is looking up `p` and then `q` from where `p` led, failing if either fails |
| `JsonPath.NavPathFindsPart` | sharktooth.py:62-66 | whatever a lookup finds is the input or a value nested inside it |
| `Capture.FieldNullIff` | sharktooth.py:266-268 | the value read is `None` exactly when the lookup misses or finds a JSON null; any other value read is the value found at the path |
| `Capture.UsbAddr` | sharktooth.py:160-172 | the address is `usb.dst` when `usb.src` is `"host"` and `usb.src` otherwise; it is `"host"` only when both fields are `"host"` |
| `Capture.SizeAtLeastBulk` | sharktooth.py:273 | `size >= 2075` is defined exactly on numbers and booleans, and is true exactly for a number of at least 2075 |
| `Classifier.AcqTest` | sharktooth.py:196 | a falsy payload does not match; a string matches iff `0040ad0000` occurs in it, a list iff it holds that string, a dictionary iff it has that key; `True` or a non-zero number raises, as `in` refuses them |
| `Classifier.ContainsIff` | sharktooth.py:196 | the substring search succeeds exactly when the pattern occurs at some position of the payload |
| `Classifier.BulkTest` | sharktooth.py:200-203 | a frame carries the bulk-read fingerprint exactly when its length is a number of at least 2075 |
| `Classifier.CandidatesMatch` | sharktooth.py:191-203 | a frame is collected for a fingerprint exactly when it belongs to the capture and passes that fingerprint's test |
| `Classifier.Hashable` | sharktooth.py:208-213 | `set.add` accepts every address except a list or a dictionary |
| `Classifier.FingerprintAddrs` | sharktooth.py:205-213 | the set of addresses of the frames that pass a fingerprint's test |
| `Classifier.CollectCandidates` | sharktooth.py:187-203 | the first pass raises exactly when some frame makes a fingerprint test raise; otherwise it returns the fingerprinted frames of each kind, in capture order |
| `Classifier.CollectAddrs` | sharktooth.py:205-213 | an address pass raises exactly when some collected address is unhashable, and otherwise returns the set of the collected frames' addresses |
| `Classifier.AddrsOfCandidates` | sharktooth.py:205-213 | the addresses of the collected frames are exactly the addresses of the frames carrying the fingerprint |
| `Classifier.SelectFromCandidates` | sharktooth.py:205-226 | the two address passes and the cardinality check raise on an unhashable address, fail unless each pass found exactly one address, and otherwise return those two addresses |
| `Classifier.SelectFrom` | sharktooth.py:215-226 | given the two address sets: an unhashable address raises, a set that is not a singleton fails, and otherwise the pair of the two only elements is selected |
| `Classifier.SelectFromOkIff` | sharktooth.py:215-226 | the cardinality check passes exactly when both sets are singletons of a hashable address, and then selects those two addresses |
| `Classifier.Classify` | sharktooth.py:183-226 | the whole of `select_spectrometer` as a value: an empty capture raises first, then any frame whose test raises, then the address sets decide |
| `Classifier.ClassifyCapture` | sharktooth.py:183-226 | the three loops and the cardinality check compute `Classify`: no data, a type fault, no single spectrometer, or the pair of unique addresses |
| `Classifier.ClassifyOkIff` | sharktooth.py:183-226 | classification succeeds iff the capture is non-empty, no test raises, and each fingerprint's address set is one hashable address; on success the pair is those two addresses, which may be equal |
| `Classifier.MissingFingerprintRejected` | sharktooth.py:215-217 | when no frame carries a fingerprint, classification fails; on a non-empty capture where no test raises and every collected address is hashable, the failure is the "single operating spectrometer" exception |
| `Classifier.AmbiguousFingerprintRejected` | sharktooth.py:215-220 | two frames with the same fingerprint and different addresses make classification fail; on a non-empty capture where no test raises and every collected address is hashable, the failure is the "single operating spectrometer" exception |
| `Classifier.OneAddressFingerprint` | sharktooth.py:205-213 | when every fingerprinted frame has the same address, the fingerprint's address set is that one address |
| `Decoder.PySlice` | sharktooth.py:271 | the slice `s[lo:hi]` clamps to the length and keeps the elements from `lo` on |
| `Decoder.OpcodeOf` | sharktooth.py:271 | `[58:60]` is defined exactly on strings and lists; the opcode is non-empty iff the payload is longer than 58, and is characters 58 and 59 when the payload reaches 60 |
| `Decoder.KindOf` | sharktooth.py:273-280 | `"BULK READ"` iff the length reached 2075; below it `"unknown"` iff the opcode is empty, the table name for a known opcode, and a name starting `0x` (then `"0x"` plus the opcode) iff the opcode is a non-empty string missing from the table; a non-empty list opcode raises, being unhashable |
| `Decoder.SpectralAcquisitionOpcode` | sharktooth.py:54-56 | the opcode table names exactly one opcode: below the bulk length, an opcode string decodes as `"Spectral Acquisition"` iff it is `ad` |
| `Decoder.Trunc` | sharktooth.py:290-291 | `%d` of a number truncates toward zero |
| `Decoder.PrintedSize` | sharktooth.py:290-291 | `%d` of `size or "??"` succeeds exactly on a non-zero number, printed truncated toward zero, and on `True`, printed as 1; any other value raises |
| `Decoder.Direction` | sharktooth.py:282-288 | direction is `"  toSpec"` iff `usb.src` is `"host"`, and `"fromSpec"` otherwise |
| `Decoder.DecodePacket` | sharktooth.py:264-291 | a decoded record passes the time through and carries the source-derived direction; its name is `"BULK READ"` iff the length is a number of at least 2075 |
| `Decoder.DecodeWellFormedFrame` | sharktooth.py:270-280 | a string payload with a non-zero numeric length decodes, and the length is truncated. The name follows the priority order: `"BULK READ"` iff length >= 2075. Below that, a known opcode `payload[58:60]` gives its table name; an unknown non-empty opcode gives `"0x"` plus the opcode, and only then does the name start with `0x`; `"unknown"` iff the payload has at most 58 characters |
| `Decoder.DecodeFaultIff` | sharktooth.py:266-291 | decoding raises exactly on an unsliceable payload, an incomparable length, a falsy length, or a non-empty opcode list below the bulk length |
| `Decoder.ZeroLengthFrameFaults` | sharktooth.py:290-291 | a frame of length 0 never decodes, because `"??"` is refused by `%d` |
| `Relevance.IsRelevant` | sharktooth.py:242 | a frame is relevant when its address is one of the selected pair |
| `Relevance.RelevantIndices` | sharktooth.py:238-245 | the relevant indices as a value, in capture order; each lies inside the capture |
| `Relevance.RelevantIndicesExact` | sharktooth.py:238-245 | the result holds exactly the indices whose address is one of the selected pair, in strictly ascending order |
| `Relevance.InWindow` | sharktooth.py:309-315 | relevant position `pos` is printed when it has reached `offset` and the loop has not yet returned: `count` is 0, or `pos` is the first position, or it lies below `offset + count` |
| `Relevance.WindowIndices` | sharktooth.py:305-315 | the indices of the relevant frames whose relevant position is in the window, in capture order; each lies inside the capture |
| `Relevance.WindowIsSlice` | sharktooth.py:305-315 | for a non-negative offset and count, the printed frames are the relevant frames at positions `offset .. offset+count-1`, or from `offset` to the end when `count` is 0 |
| `Relevance.SecondPageOfTwo` | sharktooth.py:305-315 | with offset 1 and count 2 over five relevant frames, exactly relevant positions 1 and 2 are printed |
| `Relevance.NegativeCountPrintsFirst` | sharktooth.py:309-315 | with a negative count and an offset of at most 0, only the first relevant frame is printed |
| `Relevance.WindowClosed` | sharktooth.py:312-315 | once at least one and `offset+count` relevant frames have been seen and `count != 0`, no later frame is in the window |
| `Relevance.DecodeLines` | sharktooth.py:309-310 | the printed lines carry the given indices in order, each with that frame's decoding; the output stops at the first frame whose decoding raises, and that error is reported |
| `Relevance.DecodeLinesStopsAtFault` | sharktooth.py:309-310 | after a decoding error, no further frame changes the output |
| `Relevance.PrintWindow` | sharktooth.py:305-315 | the counter loop with its early return prints exactly the decoded frames of the window, in capture order and tagged with their index |
| `SharkTooth.Session.constructor` | sharktooth.py:47-48 | a freshly loaded capture has no selection |
| `SharkTooth.Session.Selected` | sharktooth.py:235 | a selection is usable exactly when both addresses are truthy, the guard of the three commands |
| `SharkTooth.Session.SelectSpectrometer` | sharktooth.py:215-226 | the result is `Classify(packets)`; on success both globals hold the selected pair, and on failure both keep their earlier values |
| `SharkTooth.Session.GetRelevantFrameNumbers` | sharktooth.py:230-245 | raises "not selected" iff either address is falsy, and otherwise returns exactly the relevant indices in ascending order |
| `SharkTooth.Session.GetRelevantPackets` | sharktooth.py:247-262 | raises "not selected" iff either address is falsy, and otherwise returns the frames at the relevant indices in the same order |
| `SharkTooth.Session.PrintRelevantPackets` | sharktooth.py:293-315 | raises "not selected" iff either address is falsy, and otherwise prints exactly the window's decoded frames, stopping at a decoding error |
| `SharkTooth.SelectTwice` | sharktooth.py:215-226 | selecting twice on the same capture gives the same result and the same selection as selecting once |
| `Scenarios.SameEndpointSelected` | sharktooth.py:187-226 | an acquisition request and a 2200-byte readout, both on endpoint `2.2.0`, select `("2.2.0", "2.2.0")` |
| `Scenarios.TwoEndpointsSelected` | sharktooth.py:187-226 | a request to `2.2.0` and a readout from `2.255.2` select the two distinct addresses |
| `Scenarios.TwoSpectrometersRejected` | sharktooth.py:215-217 | acquisition requests to two devices, then a readout, raise the "single operating spectrometer" exception |
| `Scenarios.TwoRequestsThenReadout` | sharktooth.py:205-217 | any two well-formed acquisition requests to different hashable addresses, then a well-formed frame, raise the "single operating spectrometer" exception |
| `Scenarios.AcquisitionRequestDecodes` | sharktooth.py:264-291 | a host-sent frame with opcode `ad` at byte 29 decodes as `"Spectral Acquisition"`, direction `"  toSpec"` |
| `Scenarios.NullAddressSelection` | sharktooth.py:166-172 | a fingerprinted frame without a `usb` layer is selected as `(None, None)`, after which the relevance command raises "not selected" |

## Left out

- Non-finite numbers: Python's `json.load` accepts `NaN` and `Infinity`, on
  which `%d` raises (sharktooth.py:290-291). `JNum` holds a real, so such
  values are not modelled.
- The interactive shell, `help`, `clear`, the `pyreadline3` import and the
  symbol bookkeeping (sharktooth.py:76-158, 337): user interface and
  `os.system` calls.
- The `__main__` block (sharktooth.py:317-335): file opening, `json.load` and
  banners are I/O. The model takes the parsed list of frame records as its
  input. A top-level JSON value other than a list is not modelled.
- The `errout=True` branch of `_json_nav_path` (sharktooth.py:68-71): it
  prints and exits the process.
- The printed messages and the `%`-formatted line: the model returns the
  decoded record and the printed lines as values. From the rendering, it keeps
  only the `TypeError` that `%d` raises on `"??"` and the truncation of `%d`.
- `frame.time_relative` is passed through as found, with no arithmetic.
- The unused `index` parameter of `select_spectrometer` has no behaviour.
- Python's equality of `True` with `1` (and `False` with `0`) is not
  modelled. A boolean address and a numeric address are distinct in the
  model's sets.
- Path elements other than strings and ints are not modelled. The code's
  callers pass only those.
- Exception messages are reduced to the error kinds above. Which `TypeError`
  was raised, and at which frame, is not recorded. Indexing a dictionary with
  a slice is modelled as that same kind: it is a `TypeError` in older Python
  versions and a `KeyError` in newer ones.
- `Relevance.WindowIndices`: its own contract only bounds the indices. What
  the window contains is stated by `Relevance.WindowIsSlice`,
  `Relevance.NegativeCountPrintsFirst` and `Relevance.PrintWindow`.
