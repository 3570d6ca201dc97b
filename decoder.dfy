/**
 * `decode_govee_data`: turns a BLE advertisement from a Govee GVH5075 or
 * GVH5104 thermometer into a reading. The manufacturer data carries one
 * 3-byte big-endian integer that packs both temperature and humidity, and
 * one battery byte.
 */
module GoveeDecoder {
  import opened Wrappers
  import opened ByteOrder
  import opened PyStr

  /** What the BLE stack hands the callback: the name and the payload may be absent. */
  datatype Advertisement = Advertisement(address: string, name: Option<string>, mfgData: Option<seq<Byte>>)

  /**
   * `GoveeData`: the device address, the packed integer and the battery byte.
   * Temperature, humidity and battery are the exact quotients of those
   * integers, with no floating-point rounding.
   */
  datatype GoveeData = GoveeData(address: string, values: nat, batteryByte: Byte) {
    /** `values / 10000`, degrees Celsius, in steps of 1/10000 of a degree */
    function Temperature(): (t: real)
      ensures 0.0 <= t && t * 10000.0 == values as real
    {
      values as real / 10000.0
    }

    /** `values % 1000`, humidity in tenths of a percent */
    function HumidityRaw(): nat { values % 1000 }

    /** `(values % 1000) / 10`, percent, never above 99.9 */
    function Humidity(): (h: real)
      ensures 0.0 <= h <= 99.9
      ensures h * 10.0 == (values % 1000) as real
    {
      HumidityRaw() as real / 10.0
    }

    /** `mfg_data[i] / 100`, not clamped to 1.0 */
    function Battery(): (b: real)
      ensures 0.0 <= b <= 2.55
      ensures b * 100.0 == batteryByte as real
    {
      batteryByte as real / 100.0
    }
  }

  /**
   * The three ways `decode_govee_data` can end: `None`, a reading, or an
   * `IndexError` raised by reading the battery byte at `index` past the end
   * of a short payload.
   */
  datatype Decoded = NoReading | Reading(data: GoveeData) | IndexError(index: nat)

  const H5075Prefix: string := "GVH5075"
  const H5104Prefix: string := "GVH5104"

  /**
   * One model's layout: the packed value in `mfg[valuesAt..valuesAt + 3]`
   * and the battery byte right after it. The slice is taken before the
   * battery byte is indexed, but it is complete whenever the index succeeds,
   * so the outcome depends only on the index.
   */
  function DecodeLayout(address: string, mfg: seq<Byte>, valuesAt: nat): (r: Decoded)
    ensures !r.NoReading?
    ensures r.IndexError? <==> |mfg| <= valuesAt + 3
    ensures r.IndexError? ==> r.index == valuesAt + 3
    ensures r.Reading? ==> r.data.address == address && r.data.values < 0x100_0000
  {
    var batteryAt := valuesAt + 3;
    if |mfg| <= batteryAt then IndexError(batteryAt)
    else
      assert Pow256(3) == 0x100_0000;
      Reading(GoveeData(address, FromBytesBig(mfg[valuesAt..valuesAt + 3]), mfg[batteryAt]))
  }

  /**
   * `decode_govee_data(advertisement)`: the first matching name prefix picks
   * the layout. `None` comes exactly when a field is absent or the name is
   * of no known model, whatever the payload.
   */
  function DecodeGoveeData(adv: Advertisement): (r: Decoded)
    ensures r.NoReading? <==> adv.mfgData.None? || adv.name.None? || !KnownModel(adv.name.value)
    ensures r.Reading? ==> r.data.address == adv.address
  {
    if adv.mfgData.None? || adv.name.None? then NoReading
    else if StartsWith(adv.name.value, H5075Prefix) then DecodeLayout(adv.address, adv.mfgData.value, 3)
    else if StartsWith(adv.name.value, H5104Prefix) then DecodeLayout(adv.address, adv.mfgData.value, 4)
    else NoReading
  }

  /** The name selects a known layout. */
  predicate KnownModel(name: string) {
    StartsWith(name, H5075Prefix) || StartsWith(name, H5104Prefix)
  }

  // ---------------------------------------------------------------------
  // Outcomes

  /** No name starts with both prefixes, so the order of the checks decides nothing. */
  lemma PrefixesExclusive(name: string)
    ensures !(StartsWith(name, H5075Prefix) && StartsWith(name, H5104Prefix))
  {
    if StartsWith(name, H5075Prefix) {
      assert name[..7][4] == '0' != H5104Prefix[4];
    }
  }

  /** A known model with a payload too short for its battery byte raises, and nothing else does. */
  lemma IndexErrorExactly(adv: Advertisement)
    ensures DecodeGoveeData(adv).IndexError?
        <==> adv.mfgData.Some? && adv.name.Some?
             && ((StartsWith(adv.name.value, H5075Prefix) && |adv.mfgData.value| < 7)
                 || (StartsWith(adv.name.value, H5104Prefix) && |adv.mfgData.value| < 8))
    ensures DecodeGoveeData(adv).IndexError? ==>
              DecodeGoveeData(adv).index == if StartsWith(adv.name.value, H5075Prefix) then 6 else 7
  {
    if adv.name.Some? {
      PrefixesExclusive(adv.name.value);
    }
  }

  /** GVH5075: value from bytes 3 to 5, battery from byte 6. */
  lemma DecodeH5075(adv: Advertisement)
    requires adv.name.Some? && StartsWith(adv.name.value, H5075Prefix)
    requires adv.mfgData.Some? && |adv.mfgData.value| >= 7
    ensures var b := adv.mfgData.value;
            DecodeGoveeData(adv) == Reading(GoveeData(adv.address, b[3] as int * 65536 + b[4] as int * 256 + b[5], b[6]))
  {
    var b := adv.mfgData.value;
    assert b[3..6] == [b[3], b[4], b[5]];
    FromThreeBytes(b[3], b[4], b[5]);
  }

  /** GVH5104: value from bytes 4 to 6, battery from byte 7. */
  lemma DecodeH5104(adv: Advertisement)
    requires adv.name.Some? && StartsWith(adv.name.value, H5104Prefix)
    requires adv.mfgData.Some? && |adv.mfgData.value| >= 8
    ensures var b := adv.mfgData.value;
            DecodeGoveeData(adv) == Reading(GoveeData(adv.address, b[4] as int * 65536 + b[5] as int * 256 + b[6], b[7]))
  {
    var b := adv.mfgData.value;
    PrefixesExclusive(adv.name.value);
    assert b[4..7] == [b[4], b[5], b[6]];
    FromThreeBytes(b[4], b[5], b[6]);
  }

  /** The GVH5104 layout is the GVH5075 layout shifted by one byte. */
  lemma H5104IsShiftedH5075(address: string, b: seq<Byte>, name5104: string, name5075: string)
    requires StartsWith(name5104, H5104Prefix) && StartsWith(name5075, H5075Prefix)
    requires |b| >= 1
    ensures var r := DecodeGoveeData(Advertisement(address, Some(name5104), Some(b)));
            var q := DecodeGoveeData(Advertisement(address, Some(name5075), Some(b[1..])));
            && (r.Reading? <==> q.Reading?)
            && (r.Reading? ==> r.data == q.data)
            && (r.IndexError? ==> q.IndexError? && r.index == q.index + 1)
  {
    PrefixesExclusive(name5104);
    if |b| >= 8 {
      assert b[4..7] == b[1..][3..6];
    }
  }

  /**
   * What a reading can hold follows from the byte widths alone, with no
   * clamping: the packed value is below 2^24, the humidity is at most 99.9
   * percent, and the battery can exceed 1.0 (up to 2.55).
   */
  lemma ReadingBounds(adv: Advertisement)
    requires DecodeGoveeData(adv).Reading?
    ensures var d := DecodeGoveeData(adv).data;
            && d.address == adv.address
            && d.values < 0x100_0000 && d.HumidityRaw() <= 999
            && 0.0 <= d.Temperature() < 1677.7216
            && 0.0 <= d.Humidity() <= 99.9
            && 0.0 <= d.Battery() <= 2.55
  {
    var d := DecodeGoveeData(adv).data;
    var b := adv.mfgData.value;
    var at := if StartsWith(adv.name.value, H5075Prefix) then 3 else 4;
    assert d.values == FromBytesBig(b[at..at + 3]);
    assert Pow256(3) == 0x100_0000;
  }

  /** Humidity is read off the last three decimal digits of the temperature's packed value. */
  lemma HumidityFromTemperature(d: GoveeData)
    ensures d.Humidity() == (((d.Temperature() * 10000.0).Floor % 1000) as real) / 10.0
  {
    assert d.Temperature() * 10000.0 == d.values as real;
  }

  // ---------------------------------------------------------------------
  // Worked examples

  /** GVH5075 packing 234567 with battery byte 55: 23.4567 degrees, 56.7 percent, 0.55. */
  lemma ExampleH5075(address: string)
    ensures var adv := Advertisement(address, Some("GVH5075_ABCD"), Some([0x88, 0xEC, 0x00, 0x03, 0x94, 0x47, 55]));
            var r := DecodeGoveeData(adv);
            && r.Reading?
            && r.data.Temperature() == 23.4567 && r.data.Humidity() == 56.7 && r.data.Battery() == 0.55
  {
    var adv := Advertisement(address, Some("GVH5075_ABCD"), Some([0x88, 0xEC, 0x00, 0x03, 0x94, 0x47, 55]));
    assert StartsWith("GVH5075_ABCD", H5075Prefix);
    DecodeH5075(adv);
  }

  /** GVH5104 packing 185000 with battery byte 80: 18.5 degrees, 0.0 percent, 0.8. */
  lemma ExampleH5104(address: string)
    ensures var adv := Advertisement(address, Some("GVH5104_XYZ"), Some([0x01, 0x00, 0x01, 0x01, 0x02, 0xD2, 0xA8, 80]));
            var r := DecodeGoveeData(adv);
            && r.Reading?
            && r.data.Temperature() == 18.5 && r.data.Humidity() == 0.0 && r.data.Battery() == 0.8
  {
    var adv := Advertisement(address, Some("GVH5104_XYZ"), Some([0x01, 0x00, 0x01, 0x01, 0x02, 0xD2, 0xA8, 80]));
    assert StartsWith("GVH5104_XYZ", H5104Prefix);
    DecodeH5104(adv);
  }

  /** A full battery byte is passed through: 255 gives 2.55, not 1.0. */
  lemma ExampleBatteryNotClamped(address: string)
    ensures var adv := Advertisement(address, Some("GVH5075"), Some([0, 0, 0, 0, 0, 0, 255]));
            DecodeGoveeData(adv).Reading? && DecodeGoveeData(adv).data.Battery() == 2.55
  {
    var adv := Advertisement(address, Some("GVH5075"), Some([0, 0, 0, 0, 0, 0, 255]));
    assert StartsWith("GVH5075", H5075Prefix);
    DecodeH5075(adv);
  }

  /** A six-byte GVH5075 payload raises on byte 6 instead of giving `None`. */
  lemma ExampleShortPayload(address: string)
    ensures DecodeGoveeData(Advertisement(address, Some("GVH5075"), Some([0, 0, 0, 0, 0, 0]))) == IndexError(6)
  {
    assert StartsWith("GVH5075", H5075Prefix);
  }
}
