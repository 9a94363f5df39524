# spikeFileIO: spike events, their binary files and their tensors

This project is a Dafny model of the event container and the file and
tensor conversions of `src/spikeFileIO.py`, with proofs about them.

- **Events.** An event set holds index-aligned columns: `x`, `y` (absent for
  one spatial dimension), polarity or channel `p`, and timestamp `t`.
  `class event` owns one set. On construction it works out `dim` and shifts
  `p` so that its minimum is 0. This is `SpikeEvent.Event`. The columns as a
  value are `EventColumns.Columns`.
- **Binary spike files.** Four fixed-width big-endian record formats:
  - 1D events (five bytes per record), `Codec1D`;
  - 2D events (five bytes, the N-MNIST layout), `Codec2D`;
  - 3D events with a channel (seven bytes), `Codec3D`;
  - spike-count summaries (ten bytes), `NumSpikesCodec`.

  Each reader is a pure `Decode` function over the file's bytes. Each writer
  is an `Encode` method. It fills a fresh byte array one strided column at a
  time (`out[j::n] = …`, modelled by `ByteArrays.StridedFill`). It is proved
  against an `Encoded` specification function. The bytes 2 to 4 shared by
  the two five-byte formats live in `FiveByteRecord`. Shifts, masks and
  `np.uint8` are defined on unbounded naturals in `Bits`.
- **Spike tensors.**
  - `Event.ToSpikeTensor` writes `1 / samplingTime` into a caller's tensor,
    in place, at every event's `[p, y, x, bin]` that lies inside the tensor.
  - `Event.ToSpikeArray` does the same on a fresh zero tensor of the given or
    automatic shape.
  - `SpikeArrayToEvent` turns every positive cell back into an event.

  A tensor is a flat row-major `array<real>` with its shape. The scatter is
  specified by `Binning.Scattered`, the gather by `Binning.Gather`.

Timestamps are integers, and `samplingTime` is a positive integer in the same
unit. The binner divides, rounds and writes `1 / samplingTime` in that one
unit. In the source the event's `t` and `samplingTime` are both milliseconds
(src/spikeFileIO.py:14, 33 and 60), so the binner agrees with the source
exactly when timestamps are whole milliseconds and are given in
milliseconds. The file formats store microseconds, and the codecs read and
write those integers unchanged. `round(t / samplingTime)` is
`Binning.RoundDiv`, which rounds halves to even as `np.round` does.

The model follows the code as written:

- **1D byte 0.** The 1D writer computes byte 0 as
  `np.uint8((x >> 8) & 0xFF00)`, which is always 0 (src/spikeFileIO.py:178).
  A 1D address survives a write and read only below 256, although lines
  136 and 161 document 16 bits.
- **3D y.** In the 3D writer's byte 1, `&` binds tighter than `|`, so the
  term carrying y's high nibble is masked to a multiple of 256 and lost in
  the cast (src/spikeFileIO.py:301). A 3D y survives only below 256,
  although lines 255 and 282 document 12 bits.

- **Half-bin last event.** The automatic bin count is
  `round(max(t) / samplingTime + 1)`, and an event's bin is
  `round(t / samplingTime)`, both rounded half to even. When
  `max(t) / samplingTime` is k + ½ with k odd, both are k + 1, so the bounds
  filter drops the latest event (src/spikeFileIO.py:50 and 76-79). Integer
  timestamps do not avoid this: t = 3 with `samplingTime` 2 is such a case.

The first two are stated as lemmas: the exact round-trip ranges, and the
lemmas that show the documented wider values are changed. The third is
`Binning.HalfBinLastEventDropped`, next to `Binning.AutoShapeKeepsWholeBins`,
which keeps every event whose timestamp is a whole number of bins.

## Model

| member | source | states |
|---|---|---|
| SpikeEvent.Minimum | src/spikeFileIO.py:31 | `p.min()`: the result is an entry of the column, is no larger than any entry, and is the column's minimum |
| SpikeEvent.Event.constructor | src/spikeFileIO.py:20-31 | dim is 1 exactly when y is absent, else 2; x, y and t are kept; p becomes `p - min(p)`, so its minimum is 0 and every difference between entries is unchanged |
| SpikeEvent.Event.Valid | src/spikeFileIO.py:20-31 | what construction establishes: dim is 1 or 2, 1 exactly when y is absent; p is non-empty with minimum 0 (a definition; the constructor's ensures establishes it) |
| SpikeEvent.Event.ToSpikeTensor | src/spikeFileIO.py:73-97 | the new tensor contents are the old ones with `1/samplingTime` written at the cell of every event whose indices are below the tensor's bounds; events out of bounds are skipped; y is 0 for a 1D event |
| SpikeEvent.Event.ToSpikeArray | src/spikeFileIO.py:47-58 | the shape is the given one, or max+1 per axis and `round(max t / samplingTime + 1)` bins; the fresh tensor is a zero tensor with the events scattered into it, a 1D one through the frame `[P, 1, X, T]` |
| SpikeEvent.SpikeArrayToEvent | src/spikeFileIO.py:99-128 | succeeds exactly when the rank is 3 or 4 and some cell is positive; another rank gives UnsupportedRank, no positive cell gives EmptyEventSet; on success the event holds the gathered columns with dim = rank - 2 and p normalised |
| EventColumns.SeqMin | src/spikeFileIO.py:31 | the minimum is an entry of the column and a lower bound of it |
| EventColumns.SeqMax | src/spikeFileIO.py:48-56 | the maximum is an entry of the column and an upper bound of it |
| EventColumns.Normalize | src/spikeFileIO.py:31 | `p - p.min()` has the same length, minimum 0, and the same pairwise differences |
| EventColumns.NormalizeShifts | src/spikeFileIO.py:31 | subtracting the minimum entry by entry is exactly `Normalize` |
| EventColumns.NormalizeKeepsNormalized | src/spikeFileIO.py:31 | a column whose minimum is already 0 is left unchanged |
| EventColumns.NormalizeIdempotent | src/spikeFileIO.py:31 | normalising twice is normalising once |
| Binning.Offset | src/spikeFileIO.py:80-83 | the row-major position of an in-bounds index lies inside the tensor |
| Binning.Unravel | src/spikeFileIO.py:114 | `np.argwhere`'s multi-index of a flat position is in bounds and maps back to that position |
| Binning.UnravelOffset | src/spikeFileIO.py:114 | unravelling the offset of an in-bounds index gives that index back |
| Binning.OffsetInjective | src/spikeFileIO.py:80-83 | two in-bounds indices with the same offset are equal |
| Binning.OffsetSnoc | src/spikeFileIO.py:80-83 | appending an axis appends a coordinate to the index and a last digit to the row-major offset |
| Binning.RoundDiv | src/spikeFileIO.py:76 | `round(t / samplingTime)` is within half a bin of the quotient, and a tie goes to the even bin |
| Binning.RoundDivExact | src/spikeFileIO.py:76 | a timestamp that is a whole number of bins rounds to that number |
| Binning.RoundDivAtLeastFloor | src/spikeFileIO.py:76 | rounding never gives fewer bins than truncating |
| Binning.SpikeValue | src/spikeFileIO.py:83 | the value written, `1/samplingTime` per unit of the timestamps, is positive |
| Binning.Target | src/spikeFileIO.py:74-83 | the cell an event is written to has four indices `[p, y, x, round(t / samplingTime)]`, with y = 0 for a 1D event |
| Binning.Kept | src/spikeFileIO.py:77-92 | the bounds filter: the event's cell lies inside the tensor (a definition; its consequences are ScatterWritesKept and ScatterLeavesOthers) |
| Binning.ScatteredBy | src/spikeFileIO.py:77-83 | the tensor after the first n events: a cell hit by a kept event holds `1/samplingTime`, every other cell its old value; the length is unchanged |
| Binning.Scattered | src/spikeFileIO.py:73-97 | the tensor after all events are scattered, with the length unchanged |
| Binning.ScatterStep | src/spikeFileIO.py:80-83 | scattering one more event writes its cell if it is in bounds and changes nothing else |
| Binning.ScatterNone | src/spikeFileIO.py:80-83 | scattering no event leaves the tensor as it was |
| Binning.ScatterWritesKept | src/spikeFileIO.py:77-83 | every in-bounds event's cell holds `1/samplingTime` afterwards |
| Binning.ScatterLeavesOthers | src/spikeFileIO.py:77-83 | a cell no in-bounds event targets keeps its old value |
| Binning.ScatterIdempotent | src/spikeFileIO.py:80-83 | scattering the same events twice is scattering them once |
| Binning.Zeros | src/spikeFileIO.py:51 | `np.zeros`: every entry is 0 |
| Binning.AutoShape | src/spikeFileIO.py:48-56 | the automatic shape has three axes for 1D events and four for 2D |
| Binning.FrameShape | src/spikeFileIO.py:51 | the frame has four axes and as many cells as the requested shape |
| Binning.AutoShapeKeepsWholeBins | src/spikeFileIO.py:48-56 | in the automatic shape, every event whose timestamp is a whole number of bins is inside the tensor |
| Binning.HalfBinLastEventDropped | src/spikeFileIO.py:50-79 | one event at t = 3 with samplingTime 2: the automatic shape has 2 bins, the event's bin is 2, and the bounds filter drops it |
| Binning.WholeBinBelowCount | src/spikeFileIO.py:50 | a whole-bin timestamp no later than the last one falls below the automatic bin count |
| Binning.PositiveCells | src/spikeFileIO.py:114 | the positions of exactly the positive cells, in increasing order |
| Binning.Gather | src/spikeFileIO.py:113-126 | succeeds exactly on rank 3 or 4, else UnsupportedRank; one event per positive cell; y is absent exactly for rank 3 |
| Binning.GatherCell | src/spikeFileIO.py:114-128 | event j's channel, spatial and bin indices are the multi-index of the j-th positive cell, and its timestamp is exactly that bin times samplingTime |
| Binning.BinStart | src/spikeFileIO.py:128 | the timestamp `tEvent * samplingTime` a gathered event gets for its time bin (a definition; GatherCell states that every gathered timestamp is this value) |
| Binning.GatherSound | src/spikeFileIO.py:114-124 | every gathered event's cell is in bounds and positive |
| Binning.GatherComplete | src/spikeFileIO.py:114-124 | every positive cell gives a gathered event |
| Binning.Squeeze | src/spikeFileIO.py:51 | drops the unit height axis of a 1D frame index |
| Binning.SqueezeOffset | src/spikeFileIO.py:51 | a 1D frame index and its squeezed form are in bounds together and have the same offset |
| Binning.KeptSqueezed | src/spikeFileIO.py:51-58 | an in-bounds event's cell of the frame is in bounds of the requested shape, at the same offset |
| Binning.ScatterThenGatherSound | src/spikeFileIO.py:47-58 | gathering the array `toSpikeArray` builds gives only the cells of in-bounds events, each with the event's timestamp quantised to `round(t / samplingTime) * samplingTime` |
| Binning.ScatterThenGatherComplete | src/spikeFileIO.py:47-58 | gathering that array gives back the cell of every in-bounds event, with the event's timestamp quantised to `round(t / samplingTime) * samplingTime` |
| ByteArrays.StridedFill | src/spikeFileIO.py:178-182 | `out[offset::stride] = column`: the slots with this offset get the column in order, and every other byte is unchanged |
| ByteArrays.FillStep | src/spikeFileIO.py:178-182 | writing field `offset` of record i extends the filled records by one and leaves every other byte alone |
| ByteArrays.FillDone | src/spikeFileIO.py:178-182 | once every record is filled, the strided slots hold the column and every other byte is as before |
| FiveByteRecord.PolarityTimeByte | src/spikeFileIO.py:180 | byte 2 as written: bits 16-22 of t or-ed with p shifted left by 7, cast to a byte (a definition; its value is PackPolarityTime) |
| FiveByteRecord.Polarity | src/spikeFileIO.py:151 | the reader's `b2 >> 7` (a definition; its value is UnpackPolarityTime) |
| FiveByteRecord.Timestamp | src/spikeFileIO.py:152 | the reader's t: b2, b3 and b4 joined big-endian and masked to 23 bits (a definition; its value is UnpackPolarityTime) |
| FiveByteRecord.TimeMidByte | src/spikeFileIO.py:181 | byte 3 as written: bits 8-15 of t, `np.uint8((t >> 8) & 0xFF)` (a definition; its value is PackPolarityTime) |
| FiveByteRecord.TimeLowByte | src/spikeFileIO.py:182 | byte 4 as written: the low byte of t, `np.uint8(t & 0xFF)` (a definition; its value is PackPolarityTime) |
| FiveByteRecord.PackPolarityTime | src/spikeFileIO.py:180-182 | byte 2 is bits 16-22 of t under p's low bit; bytes 3 and 4 are bits 8-15 and 0-7 of t |
| FiveByteRecord.UnpackPolarityTime | src/spikeFileIO.py:151-152 | the reader's p is the top bit of byte 2; its t is the 23 bits below it |
| FiveByteRecord.PolarityTimeRoundTrip | src/spikeFileIO.py:151-152 | written then read, p keeps its low bit and t its low 23 bits |
| FiveByteRecord.PolarityTimeReadBack | src/spikeFileIO.py:180-182 | read then written, bytes 2 to 4 come back unchanged |
| Codec1D.Decode | src/spikeFileIO.py:150-153 | one 1D event per five bytes, with no y column |
| Codec1D.DecodeFields | src/spikeFileIO.py:150-152 | x = 256·b0 + b1, p = b2 / 128, t = the low 23 bits of b2 b3 b4 |
| Codec1D.Encoded | src/spikeFileIO.py:177-182 | five bytes per event |
| Codec1D.AddressHighByte | src/spikeFileIO.py:178 | byte 0 as written, `uint8((x >> 8) & 0xFF00)` (a definition; its value is AddressHighByteZero) |
| Codec1D.AddressLowByte | src/spikeFileIO.py:179 | byte 1 as written, `uint8(x & 0xFF)` (a definition; its value is AddressLowByteValue) |
| Codec1D.Address | src/spikeFileIO.py:150 | the reader's x: b0 shifted left by 8, or-ed with b1 (a definition; its value is DecodeFields) |
| Codec1D.EncodeFields | src/spikeFileIO.py:178-182 | the five bytes of written record i: 0, x mod 256, p's low bit over bits 16-22 of t, then bits 8-15 and 0-7 of t |
| Codec1D.AddressHighByteZero | src/spikeFileIO.py:178 | byte 0 of every written record is 0, whatever x is |
| Codec1D.AddressLowByteValue | src/spikeFileIO.py:179 | byte 1 is x mod 256 |
| Codec1D.AddressRoundTrip | src/spikeFileIO.py:150-179 | written then read, an address keeps only its low eight bits |
| Codec1D.AddressReadBack | src/spikeFileIO.py:150-179 | read then written, byte 1 comes back, and byte 0 comes back exactly when it is 0 |
| Codec1D.WideAddressLost | src/spikeFileIO.py:178 | every address of 256 or more, which the docstring gives 16 bits (line 161), reads back changed |
| Codec1D.EncodedAt | src/spikeFileIO.py:178-182 | byte j of record i is field j of event i |
| Codec1D.ReadAddressAt | src/spikeFileIO.py:150-179 | the address read from a written record comes from its bytes 0 and 1 |
| Codec1D.ReadPolarityTimeAt | src/spikeFileIO.py:151-182 | the p and t read from a written record come from its bytes 2 to 4 |
| Codec1D.DecodeEncodeAt | src/spikeFileIO.py:150-182 | reading event i of a written file gives x mod 256, p mod 2 and t mod 2^23 |
| Codec1D.DecodeEncode | src/spikeFileIO.py:150-182 | the same for every event, with the event count kept |
| Codec1D.RoundTrip | src/spikeFileIO.py:150-182 | x below 256, p in {0, 1} and t below 2^23 come back exactly |
| Codec1D.EventRoundTrip | src/spikeFileIO.py:150-182 | for such an event with normalised p, the event read back has the same columns |
| Codec1D.RecordBack | src/spikeFileIO.py:150-182 | a byte of one record, read and written again, comes back unless it is a nonzero byte 0 |
| Codec1D.RecordReadBack | src/spikeFileIO.py:150-182 | a byte of a record comes back from reading and writing, unless it is a nonzero byte 0 |
| Codec1D.ReadBackUnchanged | src/spikeFileIO.py:150-182 | a file whose byte 0 is 0 in every record is written back unchanged |
| Codec1D.ReadBackClearsHighByte | src/spikeFileIO.py:178 | writing back what was read gives byte 0 = 0 in every record |
| Codec1D.EncodeDecode | src/spikeFileIO.py:150-182 | a file is written back unchanged exactly when byte 0 is 0 in every record |
| Codec1D.Encode | src/spikeFileIO.py:173-182 | refuses an event whose dim is not 1 with DimensionMismatch; otherwise a fresh array of 5 bytes per event holding `Encoded` |
| Codec1D.Read | src/spikeFileIO.py:147-153 | an empty file is refused with EmptyFile, since numpy reads no bytes as a float array and the first shift raises; otherwise a fresh 1D event with the decoded x and t and normalised p |
| Codec2D.Decode | src/spikeFileIO.py:208-212 | one 2D event per five bytes |
| Codec2D.Encoded | src/spikeFileIO.py:239-244 | five bytes per event |
| Codec2D.EncodedAt | src/spikeFileIO.py:240-244 | byte j of record i is field j of event i |
| Codec2D.ReadXYAt | src/spikeFileIO.py:208-241 | the x and y read from a written record are its bytes 0 and 1 |
| Codec2D.ReadPolarityTimeAt | src/spikeFileIO.py:210-244 | the p and t read from a written record come from its bytes 2 to 4 |
| Codec2D.DecodeEncodeAt | src/spikeFileIO.py:208-244 | reading event i of a written file gives x and y mod 256, p mod 2 and t mod 2^23 |
| Codec2D.DecodeEncode | src/spikeFileIO.py:208-244 | the same for every event, with the event count kept |
| Codec2D.RoundTrip | src/spikeFileIO.py:208-244 | x and y below 256, p in {0, 1} and t below 2^23 come back exactly |
| Codec2D.EventRoundTrip | src/spikeFileIO.py:208-244 | for such an event with normalised p, the event read back has the same columns |
| Codec2D.RecordBack | src/spikeFileIO.py:208-244 | every byte of one record, read and written again, comes back |
| Codec2D.RecordReadBack | src/spikeFileIO.py:208-244 | every byte of a record comes back from reading and writing |
| Codec2D.EncodeDecode | src/spikeFileIO.py:208-244 | every file of whole records is written back unchanged |
| Codec2D.Encode | src/spikeFileIO.py:234-244 | refuses an event whose dim is not 2 with DimensionMismatch; otherwise a fresh array of 5 bytes per event holding `Encoded` |
| Codec2D.Read | src/spikeFileIO.py:205-212 | an empty file is refused with EmptyFile, since numpy reads no bytes as a float array and the first shift raises; otherwise a fresh 2D event with the decoded x, y and t and normalised p |
| Codec3D.XHighByte | src/spikeFileIO.py:300 | byte 0 as written: `np.uint8(x >> 4)` (a definition; its value is XHighByteValue) |
| Codec3D.XYByte | src/spikeFileIO.py:301 | byte 1 as written: `(x << 4) & 0xFF` or-ed with `(y >> 8) & 0xFF00`, cast to a byte (a definition; its value is XYByteValue) |
| Codec3D.YLowByte | src/spikeFileIO.py:302 | byte 2 as written: `np.uint8(y & 0xFF)` (a definition; its value is YLowByteValue) |
| Codec3D.ChannelByte | src/spikeFileIO.py:303 | byte 3 as written: `np.uint8(p)`, the channel mod 256 (a definition; DecodeEncodeAt states that the channel reads back mod 256) |
| Codec3D.TimeByte | src/spikeFileIO.py:304-306 | bytes 4 to 6 as written: bits 16-23, 8-15 and 0-7 of t (a definition; its values are TimeByteValues) |
| Codec3D.XOf | src/spikeFileIO.py:269 | the reader's x: b0 shifted left by 4, or-ed with b1 shifted right by 4 (a definition; its value is XOfValue) |
| Codec3D.YOf | src/spikeFileIO.py:270 | the reader's y: b2 or-ed with the low nibble of b1 shifted left by 8 (a definition; its value is YOfValue) |
| Codec3D.TimeOf | src/spikeFileIO.py:272 | the reader's t: b4, b5 and b6 joined big-endian (a definition; its values are TimeRoundTrip and TimeReadBack) |
| Codec3D.XHighByteValue | src/spikeFileIO.py:300 | byte 0 holds bits 4-11 of x |
| Codec3D.LowNibbleShifted | src/spikeFileIO.py:301 | `(x << 4) & 0xFF` is x's low nibble in the high half of a byte |
| Codec3D.HighTermOfY | src/spikeFileIO.py:301 | `(y >> 8) & 0xFF00` is a multiple of 256 |
| Codec3D.OrAboveByte | src/spikeFileIO.py:301 | or-ing a multiple of 256 into a byte changes nothing after the cast |
| Codec3D.XYByteValue | src/spikeFileIO.py:301 | byte 1 is x's low nibble times 16, whatever y is |
| Codec3D.YLowByteValue | src/spikeFileIO.py:302 | byte 2 is y mod 256 |
| Codec3D.TimeByteValues | src/spikeFileIO.py:304-306 | bytes 4 to 6 are the three low bytes of t, high byte first |
| Codec3D.XOfValue | src/spikeFileIO.py:269 | the reader's x is 16·b0 + b1 / 16 |
| Codec3D.YOfValue | src/spikeFileIO.py:270 | the reader's y is 256·(b1 mod 16) + b2 |
| Codec3D.XRoundTrip | src/spikeFileIO.py:269-301 | written then read, x keeps its low 12 bits |
| Codec3D.YRoundTrip | src/spikeFileIO.py:270-302 | written then read, y keeps only its low 8 bits |
| Codec3D.TimeRoundTrip | src/spikeFileIO.py:272-306 | written then read, t keeps its low 24 bits |
| Codec3D.XYReadBack | src/spikeFileIO.py:269-302 | read then written, bytes 0 and 2 come back, and byte 1 exactly when its low nibble is 0 |
| Codec3D.TimeReadBack | src/spikeFileIO.py:272-306 | read then written, bytes 4 to 6 come back |
| Codec3D.Decode | src/spikeFileIO.py:269-273 | one 3D event per seven bytes |
| Codec3D.Encoded | src/spikeFileIO.py:299-306 | seven bytes per event |
| Codec3D.EncodedAt | src/spikeFileIO.py:300-306 | byte j of record i is field j of event i |
| Codec3D.ReadXAt | src/spikeFileIO.py:269-301 | the x read from a written record comes from its bytes 0 and 1 |
| Codec3D.ReadYAt | src/spikeFileIO.py:270-302 | the y read from a written record comes from its bytes 1 and 2 |
| Codec3D.ReadChannelTimeAt | src/spikeFileIO.py:271-306 | the p and t read from a written record come from its bytes 3 to 6 |
| Codec3D.DecodeEncodeAt | src/spikeFileIO.py:269-306 | reading event i of a written file gives x mod 4096, y mod 256, p mod 256 and t mod 2^24 |
| Codec3D.DecodeEncode | src/spikeFileIO.py:269-306 | the same for every event, with the event count kept |
| Codec3D.RoundTrip | src/spikeFileIO.py:269-306 | x below 4096, y below 256, p below 256 and t below 2^24 come back exactly |
| Codec3D.EventRoundTrip | src/spikeFileIO.py:269-306 | for such an event with normalised p, the event read back has the same columns |
| Codec3D.WideYLost | src/spikeFileIO.py:301 | every y of 256 or more, which the docstring gives 12 bits (line 282), reads back changed |
| Codec3D.RecordBack | src/spikeFileIO.py:269-306 | a byte of one record, read and written again, comes back unless it is a byte 1 with a nonzero low nibble |
| Codec3D.RecordReadBack | src/spikeFileIO.py:269-306 | a byte of a record comes back from reading and writing, unless it is a byte 1 with a nonzero low nibble |
| Codec3D.ReadBackUnchanged | src/spikeFileIO.py:269-306 | a file whose byte 1 has a zero low nibble in every record is written back unchanged |
| Codec3D.ReadBackClearsLowNibble | src/spikeFileIO.py:301 | writing back what was read clears the low nibble of byte 1 in every record |
| Codec3D.EncodeDecode | src/spikeFileIO.py:269-306 | a file is written back unchanged exactly when every byte 1 has a zero low nibble |
| Codec3D.Encode | src/spikeFileIO.py:294-306 | refuses an event whose dim is not 2 with DimensionMismatch; otherwise a fresh array of 7 bytes per event holding `Encoded` |
| Codec3D.Read | src/spikeFileIO.py:266-273 | an empty file is refused with EmptyFile, since numpy reads no bytes as a float array and the first shift raises; otherwise a fresh 2D event with the decoded x, y and t and normalised p |
| NumSpikesCodec.ByteAt | src/spikeFileIO.py:365-374 | the writer's `uint8(v >> k)` (a definition; its values are Word16RoundTrip and Word24RoundTrip) |
| NumSpikesCodec.Word16 | src/spikeFileIO.py:332 | the reader's 16-bit field: b0 shifted left by 8, or-ed with b1 (a definition; its values are Word16RoundTrip and Word16ReadBack) |
| NumSpikesCodec.Word24 | src/spikeFileIO.py:333 | the reader's 24-bit field: b0, b1 and b2 joined big-endian (a definition; its values are Word24RoundTrip and Word24ReadBack) |
| NumSpikesCodec.Word16RoundTrip | src/spikeFileIO.py:332-366 | written then read, a 16-bit field keeps its low 16 bits |
| NumSpikesCodec.Word24RoundTrip | src/spikeFileIO.py:333-369 | written then read, a 24-bit field keeps its low 24 bits |
| NumSpikesCodec.Word16ReadBack | src/spikeFileIO.py:332-366 | read then written, both bytes of a 16-bit field come back |
| NumSpikesCodec.Word24ReadBack | src/spikeFileIO.py:333-369 | read then written, all three bytes of a 24-bit field come back |
| NumSpikesCodec.Decode | src/spikeFileIO.py:332-336 | the record decoder: one summary record per ten bytes, four aligned columns (the empty file is refused only by Read) |
| NumSpikesCodec.Read | src/spikeFileIO.py:330-336 | an empty file is refused with EmptyFile, since numpy reads no bytes as a float array and the first shift raises; any other file of whole records decodes to a non-empty summary |
| NumSpikesCodec.ReadRoundTrip | src/spikeFileIO.py:330-374 | a non-empty summary with ids and counts below 2^16 and times below 2^24 is read back from its encoding |
| NumSpikesCodec.Encoded | src/spikeFileIO.py:364-374 | ten bytes per record |
| NumSpikesCodec.EncodedAt | src/spikeFileIO.py:365-374 | byte j of record i is field j of summary i |
| NumSpikesCodec.ReadIdAt | src/spikeFileIO.py:332-366 | the neuron id read from a written record comes from its bytes 0 and 1 |
| NumSpikesCodec.ReadStartAt | src/spikeFileIO.py:333-369 | the start time read from a written record comes from its bytes 2 to 4 |
| NumSpikesCodec.ReadEndAt | src/spikeFileIO.py:334-372 | the end time read from a written record comes from its bytes 5 to 7 |
| NumSpikesCodec.ReadCountAt | src/spikeFileIO.py:335-374 | the spike count read from a written record comes from its bytes 8 and 9 |
| NumSpikesCodec.DecodeEncodeAt | src/spikeFileIO.py:332-374 | reading record i of a written file gives id and count mod 2^16 and start and end mod 2^24 |
| NumSpikesCodec.DecodeEncode | src/spikeFileIO.py:332-374 | the same for every record, with the record count kept |
| NumSpikesCodec.RoundTrip | src/spikeFileIO.py:332-374 | ids and counts below 2^16 and times below 2^24 come back exactly, with no column normalised |
| NumSpikesCodec.RecordBack | src/spikeFileIO.py:332-374 | every byte of one record, read and written again, comes back |
| NumSpikesCodec.RecordReadBack | src/spikeFileIO.py:332-374 | every byte of a record comes back from reading and writing |
| NumSpikesCodec.EncodeDecode | src/spikeFileIO.py:332-374 | every file of whole records is written back unchanged |
| NumSpikesCodec.Encode | src/spikeFileIO.py:360-374 | a fresh array of 10 bytes per record holding `Encoded`; no dimension check |

## Left out

- File I/O: `open`, `read` and `write` are not modelled. Readers take the file's bytes and writers return them.
- Visualisation: `showTD`, `_showTD1D` and `_showTD2D` are matplotlib animation and are not modelled. Neither is the commented-out `spikeMat2TD`.
- Millisecond conversion: the readers' `t / 1000` and the writers' `np.round(t * 1000)` on doubles are not modelled. Timestamps keep the file's integer microseconds from reader to writer, so the writers' rounding is the identity. An event read from a file therefore carries microsecond timestamps where the source's carries milliseconds. The summary reader's `tSt / 1000` and `tEn / 1000` are left out for the same reason.
- Floating-point rounding: `np.round` of the doubles `x` and `p` is the identity on the model's integers and is not modelled. `t / samplingTime` is rounded exactly, half to even, including the half-bin case above.
- Binning.SpikeValue: writes `1 / samplingTime` in the unit of the timestamps. For an event read from a file, whose timestamps stay in microseconds, binning with a `samplingTime` in microseconds gives 1/1000 of the source's per-millisecond value `1 / samplingTime`, and bins of the same width.
- Integer width: numpy's `int64` columns are unbounded naturals here. Overflow and negative coordinates are not modelled. Negative indices, which numpy would wrap, cannot occur.
- Malformed file lengths: the decoders never check the length. Stride slicing of a file whose length is not a whole number of records may raise or mis-decode. Every `Decode` requires whole records.
- NumSpikesCodec.Encode: requires the four columns to have equal lengths. The source does not check this; on a mismatch Python's extended-slice assignment into the `bytearray` (src/spikeFileIO.py:365-374) raises `ValueError`.
- Codec1D.Encode, Codec2D.Encode and Codec3D.Encode: require an event with aligned columns, which the source does not check either.
- SpikeEvent.Event.ToSpikeTensor: requires a nonzero height axis for a 1D event, since the source always writes at height 0. Only the flat row-major layout is modelled, not a torch tensor as `emptyTensor`.
- SpikeEvent.Event.constructor: copies the columns. The source keeps a reference to the caller's `p` array when it is already an ndarray and shifts it in place; that aliasing is not modelled. The constructor requires a non-empty `p`, because `p.min()` raises on an empty one. `SpikeArrayToEvent` models that case as an `EmptyEventSet` failure. The readers never reach it: an empty file already fails at the first shift (an `EmptyFile` failure).
- SpikeEvent.Event.ToSpikeArray: requires a non-empty event set when no shape is given, since `max(...)` raises on an empty one. This follows from the constructor's non-empty `p` and aligned columns.
