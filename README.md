# Govee BLE → MQTT bridge, modelled in Dafny

The bridge listens for BLE advertisements from Govee GVH5075 and GVH5104
thermometers. It decodes the manufacturer data into temperature, humidity
and battery. It then publishes temperature and humidity to an MQTT broker
under a topic built from a template such as `govee/{device}/{attribute}`.
A device can be given a friendly name through the `MAC_NAMES` setting
(`address=name;address=name`).

The model covers `main.py`:

- `decoder.dfy` (module `GoveeDecoder`): `decode_govee_data`. It picks a
  byte layout by the first matching name prefix. It reads a 3-byte big-endian
  value and one battery byte. It ends in one of three ways: `NoReading`
  (Python `None`), `Reading`, or `IndexError` when the payload is too short.
  `GoveeData` keeps the exact integers: the packed value and the battery
  byte. Temperature, humidity and battery are exact `real` quotients of
  these integers.
- `byteorder.dfy` (module `ByteOrder`): `int.from_bytes(..., 'big')` and its
  inverse.
- `pystr.dfy` (module `PyStr`): `str.startswith`, `str.replace` and
  `str.split`, as the bridge uses them.
- `topic.dfy` (module `Topic`): `generate_topic`. It makes two replace
  passes, first `{device}`, then `{attribute}`.
- `macnames.dfy` (module `MacNames`): the `MAC_NAMES` expression
  `dict(e.split('=') for e in value.split(';') if e)`. The result is a map,
  or the error `dict()` raises for an entry that does not split into exactly
  two parts.
- `bridge.dfy` (module `Bridge`): the MQTT client is a class. It keeps the
  log of messages it was asked to publish. The bridge is a class that holds
  the parsed configuration and the injected client. `PublishGoveeData` and
  `OnBluetoothAdvertisement` append to that log.

The code does not check the payload length. Indexing the battery byte of a
short payload raises `IndexError`, so the model has a third outcome besides
`None` and a reading.

## Model

| member | source | states |
|---|---|---|
| `PyStr.StartsWith` | main.py:35-44 | `name.startswith(p)` holds exactly when `p` is no longer than `name` and matches it character by character from the start |
| `PyStr.ReplaceAll` | main.py:64 | `str.replace`: when the replacement has the pattern's length, the result has the string's length |
| `PyStr.Split` | main.py:13 | `str.split` always yields at least one piece |
| `PyStr.ReplaceAllAbsent` | main.py:64 | `str.replace` leaves a string without the pattern unchanged |
| `PyStr.ReplaceAllSelf` | main.py:64 | replacing a pattern by itself gives the string back |
| `PyStr.ReplaceAllAtStart` | main.py:64 | an occurrence at the start is replaced and the scan resumes after it |
| `PyStr.ReplaceAllSeparated` | main.py:64 | a character absent from the pattern cuts the scan: the occurrence-free part before it is copied and the rest is replaced on its own |
| `PyStr.ReplaceAllIsJoinOfSplit` | main.py:64 | `s.replace(p, r)` equals `r.join(s.split(p))` |
| `PyStr.SplitJoinRoundTrip` | main.py:13 | joining the pieces of a split with the separator gives the string back |
| `PyStr.SplitPiecesFree` | main.py:13 | no piece of a split contains the separator: every occurrence is cut out, so with `ReplaceAllIsJoinOfSplit` every occurrence is replaced |
| `PyStr.SplitAbsent` | main.py:13 | a string without the separator character splits into itself alone |
| `PyStr.SplitConcat` | main.py:13 | splitting `a;b` on `;` gives the pieces of `a` followed by the pieces of `b` |
| `PyStr.SplitCount` | main.py:13 | a split on one character has one piece more than the character's occurrences |
| `ByteOrder.FromBytesBig` | main.py:36 | the big-endian value of `n` bytes is below `256^n` |
| `ByteOrder.FromToBytesBig` | main.py:36 | encoding a value in `n` bytes and decoding it gives the value back |
| `ByteOrder.ToFromBytesBig` | main.py:36 | decoding bytes and encoding at the same width gives the bytes back |
| `ByteOrder.FromThreeBytes` | main.py:36 | three bytes decode to `b0*65536 + b1*256 + b2` |
| `GoveeDecoder.GoveeData.Temperature` | main.py:40 | the temperature is the packed value in units of 1/10000 of a degree, never negative |
| `GoveeDecoder.GoveeData.Humidity` | main.py:41 | the humidity is the packed value's last three decimal digits in tenths of a percent, between 0 and 99.9 |
| `GoveeDecoder.GoveeData.Battery` | main.py:42 | the battery is the battery byte in hundredths, between 0 and 2.55, with no clamping to 1.0 |
| `GoveeDecoder.DecodeLayout` | main.py:36-42 | one layout never gives `None`; it raises `IndexError` at the battery index exactly when the payload ends before it; a reading copies the address and packs a value below 2^24 |
| `GoveeDecoder.DecodeGoveeData` | main.py:26-54 | the result is `None` exactly when the payload or the name is absent or the name has neither prefix, whatever the payload; a reading copies the address |
| `GoveeDecoder.PrefixesExclusive` | main.py:35-44 | no name starts with both `GVH5075` and `GVH5104`, so the first-match order never decides between them |
| `GoveeDecoder.IndexErrorExactly` | main.py:35-52 | an `IndexError` happens exactly for a GVH5075 payload under 7 bytes (at index 6) or a GVH5104 payload under 8 bytes (at index 7) |
| `GoveeDecoder.DecodeH5075` | main.py:35-43 | GVH5075: value `b[3]*65536 + b[4]*256 + b[5]`, battery byte `b[6]`, address copied |
| `GoveeDecoder.DecodeH5104` | main.py:44-52 | GVH5104: value `b[4]*65536 + b[5]*256 + b[6]`, battery byte `b[7]`, address copied |
| `GoveeDecoder.H5104IsShiftedH5075` | main.py:35-52 | the GVH5104 layout is the GVH5075 layout shifted by one byte, for readings and for errors |
| `GoveeDecoder.ReadingBounds` | main.py:36-51 | with no clamping: value below 2^24, raw humidity at most 999 (so at most 99.9 percent), temperature in [0, 1677.7216), battery in [0, 2.55] |
| `GoveeDecoder.HumidityFromTemperature` | main.py:40-41 | humidity is the last three decimal digits of the temperature's packed value, divided by 10 |
| `GoveeDecoder.ExampleH5075` | main.py:35-43 | a GVH5075 payload packing 234567 with battery 55 reads 23.4567 degrees, 56.7 percent, 0.55 |
| `GoveeDecoder.ExampleH5104` | main.py:44-52 | a GVH5104 payload packing 185000 with battery 80 reads 18.5 degrees, 0.0 percent, 0.8 |
| `GoveeDecoder.ExampleBatteryNotClamped` | main.py:42 | battery byte 255 gives 2.55, above 1.0 |
| `GoveeDecoder.ExampleShortPayload` | main.py:42 | a six-byte GVH5075 payload raises `IndexError` at index 6 rather than giving `None` |
| `Topic.GenerateTopic` | main.py:63-64 | a template with neither `{device}` nor `{attribute}` comes back unchanged |
| `Topic.TopicOfShape` | main.py:63-64 | a template `a/{device}/{attribute}` whose prefix holds neither field gives `a/<device>/<attribute>` when the device name holds no `{attribute}` |
| `Topic.DefaultTopic` | main.py:63-64 | with the default `govee/{device}/{attribute}` and a device name free of `{attribute}`, the topic is `govee/<device>/<attribute>` |
| `Topic.DeviceNamedAttributeField` | main.py:63-64 | the device pass runs first, so a device name `{attribute}` is replaced by the attribute as well |
| `MacNames.Segments` | main.py:13 | every segment kept from `value.split(';')` is non-empty and holds no `;` |
| `MacNames.EntryPairs` | main.py:13 | `e.split('=')` per segment: on success one pair per segment; a failure names an element within the range and a part count other than 2 |
| `MacNames.ToMap` | main.py:13 | every binding of `dict(pairs)` is one of the pairs |
| `MacNames.NonEmpty` | main.py:13 | the `if e` filter keeps exactly the non-empty segments |
| `MacNames.ToMapKeys` | main.py:13 | the keys of `dict(pairs)` are the keys of the pairs |
| `MacNames.LaterEntryWins` | main.py:13 | a key maps to the value of its last pair |
| `MacNames.ToMapConcat` | main.py:13 | `dict(a + b)` is `dict(a)` updated by `dict(b)` |
| `MacNames.SegmentsConcat` | main.py:13 | the non-empty segments of `a;b` are those of `a` followed by those of `b` |
| `MacNames.EntryPairsFailure` | main.py:13 | `dict()` fails exactly when a segment lacks exactly one `=`; the error names the first such segment and its part count |
| `MacNames.EntryOfSegment` | main.py:13 | a segment `k=v` without other `=` gives the pair `(k, v)` |
| `MacNames.ParseEmpty` | main.py:13 | the default empty string gives an empty map |
| `MacNames.ParseMacNames` | main.py:13 | the setting is rejected exactly when a non-empty segment does not hold exactly one `=` |
| `MacNames.ParseConcat` | main.py:13 | two valid settings joined by `;` give their union, the right-hand entries winning |
| `MacNames.ParseTrailingSeparator` | main.py:13 | a trailing `;` changes nothing |
| `MacNames.ParseDoubledSeparator` | main.py:13 | an empty segment between two `;` changes nothing |
| `MacNames.ParseSingle` | main.py:13 | one `address=name` entry gives a one-entry map |
| `MacNames.ParseLaterAddressWins` | main.py:13 | appending `;address=name` to a valid setting maps that address to that name, whatever came before |
| `Bridge.DeviceName` | main.py:58 | `MAC_NAMES.get(address, address)`: the configured name when the address has one, the address itself otherwise |
| `Bridge.Messages` | main.py:57-60 | a reading gives exactly two publishes, both with the configured QoS and retain flag |
| `Bridge.MqttClient.Publish` | main.py:59-60 | a publish appends one message with its topic, payload, QoS and retain flag to the client's log |
| `Bridge.GoveeBridge.PublishGoveeData` | main.py:57-60 | the log grows by exactly the messages of `Messages`, and by nothing else |
| `Bridge.GoveeBridge.OnBluetoothAdvertisement` | main.py:67-70 | no reading or an `IndexError` publishes nothing; a reading publishes its messages |
| `Bridge.MessagesShape` | main.py:57-60 | exactly two messages, temperature then humidity, one device segment, the configured QoS and retain flag, no battery |
| `Bridge.MessagesIgnoreBattery` | main.py:57-60 | the battery is never published: readings that differ only in the battery byte publish the same messages |
| `Bridge.UnnamedDeviceTopics` | main.py:58-60 | an address absent from `MAC_NAMES` appears in the topics unchanged |
| `Bridge.NamedDeviceTopics` | main.py:58-60 | an address named by the last `address=name` entry of `MAC_NAMES` is published under that name |
| `Bridge.PipelineH5075` | main.py:67-70 | a GVH5075 advertisement under the default template publishes its decoded temperature and humidity, in that order, under the device's address |

## Left out

- `main()` (main.py:73-91): the prints, creating and connecting the MQTT
  client, `loop_forever`, and the BLE adapter and observer set-up. These are
  I/O and library plumbing.
- Reading the environment and `int(...)` parsing (main.py:8-12). The model
  takes `MQTT_TOPIC_FORMAT`, `MQTT_QOS`, `MQTT_RETAIN` and the parsed
  `MAC_NAMES` map as `Config` values. Only the `MAC_NAMES` parse itself is
  modelled.
- The global `mqttc`, which is `None` until `main` assigns it (main.py:15,
  74, 83). The client is injected into `GoveeBridge` instead.
- Threading between the BLE callback and the MQTT network loop, transport
  failures, and what `mqttc.publish` does with a message. The client only
  records what it was asked to publish.
- IEEE-754 floats: `values / 10000`, `/ 10` and `/ 100` are exact `real`
  quotients of the integers.
- What the BLE library does with an exception raised by the callback. The
  model returns it as the outcome `Raised(index)`.
- `str.replace` and `str.split` with an empty pattern. Every call in
  `main.py` passes a non-empty literal, so `PyStr` requires a non-empty
  pattern.
- `PyStr.SplitConcat`: stated for a one-character separator only, the only
  kind `main.py` splits on. For longer separators, occurrences can overlap
  the join point.
- The four-attribute variant (name, temperature, humidity, battery) is not
  part of this model. `main.py` publishes only temperature and humidity.
