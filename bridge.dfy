/**
 * `publish_govee_data` and `on_bluetooth_advertisement`: a decoded reading
 * becomes two MQTT publishes, temperature then humidity, under the topic
 * built from the device's friendly name or, failing that, its address.
 */
module Bridge {
  import opened Wrappers
  import opened PyStr
  import opened GoveeDecoder
  import opened Topic
  import MacNames
  import ByteOrder

  /** The settings read once at start-up, already parsed. */
  datatype Config = Config(topicFormat: string, qos: int, retain: bool, macNames: map<string, string>)

  /** One call `mqttc.publish(topic, payload, qos=qos, retain=retain)`. */
  datatype Message = Message(topic: string, payload: real, qos: int, retain: bool)

  /** The MQTT client, seen only through the messages it was asked to publish. */
  class MqttClient {
    var sent: seq<Message>

    constructor ()
      ensures sent == []
    {
      sent := [];
    }

    method Publish(topic: string, payload: real, qos: int, retain: bool)
      modifies this
      ensures sent == old(sent) + [Message(topic, payload, qos, retain)]
    {
      sent := sent + [Message(topic, payload, qos, retain)];
    }
  }

  /** `MAC_NAMES.get(address, address)`: the friendly name if one is set, else the address itself. */
  function DeviceName(macNames: map<string, string>, address: string): (device: string)
    ensures address in macNames ==> device == macNames[address]
    ensures address !in macNames ==> device == address
  {
    if address in macNames then macNames[address] else address
  }

  /** What `publish_govee_data` sends for one reading, in order: two messages, both with the configured QoS and retain flag. */
  function Messages(config: Config, data: GoveeData): (ms: seq<Message>)
    ensures |ms| == 2
    ensures forall m | m in ms :: m.qos == config.qos && m.retain == config.retain
  {
    var device := DeviceName(config.macNames, data.address);
    [ Message(GenerateTopic(config.topicFormat, device, "temperature"), data.Temperature(), config.qos, config.retain),
      Message(GenerateTopic(config.topicFormat, device, "humidity"), data.Humidity(), config.qos, config.retain) ]
  }

  /** How the advertisement callback ends: nothing to publish, published, or `IndexError` raised. */
  datatype Outcome = Skipped | Published | Raised(index: nat)

  /** The bridge: the configuration and the connected client it publishes through. */
  class GoveeBridge {
    const config: Config
    const client: MqttClient

    constructor (config: Config, client: MqttClient)
      ensures this.config == config && this.client == client
    {
      this.config := config;
      this.client := client;
    }

    /** `publish_govee_data(govee_data)` */
    method PublishGoveeData(data: GoveeData)
      modifies client
      ensures client.sent == old(client.sent) + Messages(config, data)
    {
      var device := DeviceName(config.macNames, data.address);
      client.Publish(GenerateTopic(config.topicFormat, device, "temperature"), data.Temperature(), config.qos, config.retain);
      client.Publish(GenerateTopic(config.topicFormat, device, "humidity"), data.Humidity(), config.qos, config.retain);
    }

    /** `on_bluetooth_advertisement(advertisement)`: decode, and publish only a reading. */
    method OnBluetoothAdvertisement(adv: Advertisement) returns (outcome: Outcome)
      modifies client
      ensures match DecodeGoveeData(adv)
              case NoReading => outcome == Skipped && client.sent == old(client.sent)
              case IndexError(i) => outcome == Raised(i) && client.sent == old(client.sent)
              case Reading(d) => outcome == Published && client.sent == old(client.sent) + Messages(config, d)
    {
      match DecodeGoveeData(adv)
      case NoReading =>
        outcome := Skipped;
      case IndexError(i) =>
        outcome := Raised(i);
      case Reading(d) =>
        PublishGoveeData(d);
        outcome := Published;
    }
  }

  // ---------------------------------------------------------------------
  // What gets published

  /**
   * Exactly two messages per reading, temperature first, with the same
   * device segment, the configured QoS and retain flag, and no battery.
   */
  lemma MessagesShape(config: Config, data: GoveeData)
    ensures var ms := Messages(config, data);
            var device := DeviceName(config.macNames, data.address);
            && |ms| == 2
            && ms[0].payload == data.Temperature() && ms[1].payload == data.Humidity()
            && ms[0].topic == GenerateTopic(config.topicFormat, device, "temperature")
            && ms[1].topic == GenerateTopic(config.topicFormat, device, "humidity")
            && forall m :: m in ms ==> m.qos == config.qos && m.retain == config.retain
  {
  }

  /** The battery reading is never published: readings that differ only in the battery byte publish the same messages. */
  lemma MessagesIgnoreBattery(config: Config, address: string, values: nat, battery1: ByteOrder.Byte, battery2: ByteOrder.Byte)
    ensures Messages(config, GoveeData(address, values, battery1)) == Messages(config, GoveeData(address, values, battery2))
  {
  }

  /** An address with no friendly name appears in the topics unchanged. */
  lemma UnnamedDeviceTopics(config: Config, data: GoveeData)
    requires config.topicFormat == DefaultTopicFormat
    requires data.address !in config.macNames
    requires '{' !in data.address
    ensures var ms := Messages(config, data);
            && ms[0].topic == "govee/" + data.address + "/" + "temperature"
            && ms[1].topic == "govee/" + data.address + "/" + "humidity"
  {
    NotContainsWithoutHead(data.address, AttributeField);
    DefaultTopic(data.address, "temperature");
    DefaultTopic(data.address, "humidity");
  }

  /**
   * An address given a name by the last `address=name` entry of `MAC_NAMES`
   * is published under that name.
   */
  lemma NamedDeviceTopics(config: Config, data: GoveeData, value: string, name: string)
    requires MacNames.ParseMacNames(value).Success?
    requires ';' !in data.address && '=' !in data.address
    requires ';' !in name && '=' !in name && '{' !in name
    requires config.topicFormat == DefaultTopicFormat
    requires MacNames.ParseMacNames(value + ";" + data.address + "=" + name) == Wrappers.Success(config.macNames)
    ensures var ms := Messages(config, data);
            && ms[0].topic == "govee/" + name + "/" + "temperature"
            && ms[1].topic == "govee/" + name + "/" + "humidity"
  {
    MacNames.ParseLaterAddressWins(value, data.address, name);
    NotContainsWithoutHead(name, AttributeField);
    DefaultTopic(name, "temperature");
    DefaultTopic(name, "humidity");
  }

  /**
   * End to end for a GVH5075 advertisement under the default template:
   * the callback publishes the decoded temperature and humidity, in that
   * order, under the device's address.
   */
  lemma PipelineH5075(config: Config, adv: Advertisement)
    requires config.topicFormat == DefaultTopicFormat
    requires adv.address !in config.macNames && '{' !in adv.address
    requires adv.name.Some? && StartsWith(adv.name.value, H5075Prefix)
    requires adv.mfgData.Some? && |adv.mfgData.value| >= 7
    ensures var b := adv.mfgData.value;
            var d := GoveeData(adv.address, b[3] as int * 65536 + b[4] as int * 256 + b[5], b[6]);
            && DecodeGoveeData(adv) == Reading(d)
            && Messages(config, d)
               == [ Message("govee/" + adv.address + "/" + "temperature", d.Temperature(), config.qos, config.retain),
                    Message("govee/" + adv.address + "/" + "humidity", d.Humidity(), config.qos, config.retain) ]
  {
    var b := adv.mfgData.value;
    DecodeH5075(adv);
    UnnamedDeviceTopics(config, GoveeData(adv.address, b[3] as int * 65536 + b[4] as int * 256 + b[5], b[6]));
  }
}
