/**
 * `generate_topic`: fills the topic template by two `str.replace` passes,
 * first every `{device}`, then every `{attribute}`.
 */
module Topic {
  import opened PyStr

  const DeviceField: string := "{device}"
  const AttributeField: string := "{attribute}"

  /** The default of `MQTT_TOPIC_FORMAT`. */
  const DefaultTopicFormat: string := "govee/{device}/{attribute}"

  /**
   * `generate_topic(device_name, attribute)` under the template `format`;
   * a template without either field is published as it is.
   */
  function GenerateTopic(format: string, device: string, attribute: string): (topic: string)
    ensures !Contains(format, DeviceField) && !Contains(format, AttributeField) ==> topic == format
  {
    ReplaceAllAbsent(format, DeviceField, device);
    ReplaceAllAbsent(format, AttributeField, attribute);
    ReplaceAll(ReplaceAll(format, DeviceField, device), AttributeField, attribute)
  }

  /** A string that starts with the pattern's first character but differs at its second, and never repeats that first character, does not contain the pattern. */
  lemma NotContainsAfterMismatch(s: string, pat: string)
    requires |pat| >= 2 && |s| >= 2
    requires s[0] == pat[0] && s[1] != pat[1] && pat[0] !in s[1..]
    ensures !Contains(s, pat)
  {
    forall i | 0 <= i <= |s| - |pat|
      ensures !OccursAt(s, pat, i)
    {
      if i == 0 {
        assert s[i..i + |pat|][1] == s[1];
      } else {
        assert s[i..i + |pat|][0] == s[1..][i - 1];
      }
    }
  }

  /** One pass over `a c pat c t`, where only the middle holds the pattern. */
  lemma ReplaceMiddle(a: string, c: char, pat: string, t: string, rep: string)
    requires |pat| > 0 && c !in pat && !Contains(a, pat) && !Contains(t, pat)
    ensures ReplaceAll(a + [c] + pat + [c] + t, pat, rep) == a + [c] + rep + [c] + t
  {
    var u := [c] + t;
    assert ReplaceAll(u, pat, rep) == u by {
      assert u == [] + [c] + t;
      ReplaceAllSeparated([], c, t, pat, rep);
      ReplaceAllAbsent(t, pat, rep);
    }
    assert ReplaceAll(pat + u, pat, rep) == rep + u by {
      ReplaceAllAtStart(pat, u, rep);
    }
    assert ReplaceAll(a + [c] + (pat + u), pat, rep) == a + [c] + (rep + u) by {
      ReplaceAllSeparated(a, c, pat + u, pat, rep);
    }
    assert a + [c] + pat + [c] + t == a + [c] + (pat + u);
    assert a + [c] + (rep + u) == a + [c] + rep + [c] + t;
  }

  /** One pass over `a c d c pat`, where only the end is the pattern. */
  lemma ReplaceLast(a: string, c: char, d: string, pat: string, rep: string)
    requires |pat| > 0 && c !in pat && !Contains(a, pat) && !Contains(d, pat)
    ensures ReplaceAll(a + [c] + d + [c] + pat, pat, rep) == a + [c] + d + [c] + rep
  {
    var t := d + [c] + pat;
    calc {
      ReplaceAll(a + [c] + d + [c] + pat, pat, rep);
      { assert a + [c] + d + [c] + pat == a + [c] + t; }
      ReplaceAll(a + [c] + t, pat, rep);
      { ReplaceAllSeparated(a, c, t, pat, rep); }
      a + [c] + ReplaceAll(t, pat, rep);
      { ReplaceAllSeparated(d, c, pat, pat, rep); ReplacePatternItself(pat, rep); }
      a + [c] + (d + [c] + rep);
      { assert a + [c] + (d + [c] + rep) == a + [c] + d + [c] + rep; }
      a + [c] + d + [c] + rep;
    }
  }

  /** The pattern alone becomes the replacement. */
  lemma ReplacePatternItself(pat: string, rep: string)
    requires |pat| > 0
    ensures ReplaceAll(pat, pat, rep) == rep
  {
    ReplaceAllAtStart(pat, [], rep);
    assert pat + [] == pat;
    assert ReplaceAll([], pat, rep) == [];
  }

  /** One pass over `a c pat c pat`: both occurrences are replaced. */
  lemma ReplaceTwice(a: string, c: char, pat: string, rep: string)
    requires |pat| > 0 && c !in pat && !Contains(a, pat)
    ensures ReplaceAll(a + [c] + pat + [c] + pat, pat, rep) == a + [c] + rep + [c] + rep
  {
    var u := [c] + pat;
    assert ReplaceAll(u, pat, rep) == [c] + rep by {
      assert u == [] + [c] + pat;
      ReplaceAllSeparated([], c, pat, pat, rep);
      ReplacePatternItself(pat, rep);
    }
    calc {
      ReplaceAll(a + [c] + pat + [c] + pat, pat, rep);
      { assert a + [c] + pat + [c] + pat == a + [c] + (pat + u); }
      ReplaceAll(a + [c] + (pat + u), pat, rep);
      { ReplaceAllSeparated(a, c, pat + u, pat, rep); }
      a + [c] + ReplaceAll(pat + u, pat, rep);
      { ReplaceAllAtStart(pat, u, rep); }
      a + [c] + (rep + ([c] + rep));
      { assert a + [c] + (rep + ([c] + rep)) == a + [c] + rep + [c] + rep; }
      a + [c] + rep + [c] + rep;
    }
  }

  /** The pieces of the default template. */
  lemma DefaultFormatPieces()
    ensures DefaultTopicFormat == "govee" + ['/'] + DeviceField + ['/'] + AttributeField
    ensures '/' !in DeviceField && '/' !in AttributeField
    ensures !Contains("govee", DeviceField) && !Contains("govee", AttributeField)
    ensures !Contains(AttributeField, DeviceField)
  {
    NotContainsAfterMismatch(AttributeField, DeviceField);
  }

  /** Both passes on a template `a/{device}/{attribute}` whose prefix `a` holds neither field. */
  lemma TopicOfShape(format: string, a: string, device: string, attribute: string)
    requires format == a + ['/'] + DeviceField + ['/'] + AttributeField
    requires !Contains(a, DeviceField) && !Contains(a, AttributeField)
    requires !Contains(device, AttributeField)
    ensures GenerateTopic(format, device, attribute) == a + ['/'] + device + ['/'] + attribute
  {
    DefaultFormatPieces();
    ReplaceMiddle(a, '/', DeviceField, AttributeField, device);
    ReplaceLast(a, '/', device, AttributeField, attribute);
  }

  /**
   * With the default template, a device name free of `{attribute}` lands in
   * the second level and the attribute in the third.
   */
  lemma DefaultTopic(device: string, attribute: string)
    requires !Contains(device, AttributeField)
    ensures GenerateTopic(DefaultTopicFormat, device, attribute) == "govee/" + device + "/" + attribute
  {
    calc {
      GenerateTopic(DefaultTopicFormat, device, attribute);
      { DefaultFormatPieces(); TopicOfShape(DefaultTopicFormat, "govee", device, attribute); }
      "govee" + ['/'] + device + ['/'] + attribute;
      "govee/" + device + "/" + attribute;
    }
  }

  /**
   * Because the device pass runs first, a device name that is itself
   * `{attribute}` is replaced by the second pass too.
   */
  lemma DeviceNamedAttributeField(attribute: string)
    ensures GenerateTopic(DefaultTopicFormat, AttributeField, attribute) == "govee/" + attribute + "/" + attribute
  {
    calc {
      GenerateTopic(DefaultTopicFormat, AttributeField, attribute);
      ReplaceAll(ReplaceAll(DefaultTopicFormat, DeviceField, AttributeField), AttributeField, attribute);
      { DefaultFormatPieces(); ReplaceMiddle("govee", '/', DeviceField, AttributeField, AttributeField); }
      ReplaceAll("govee" + ['/'] + AttributeField + ['/'] + AttributeField, AttributeField, attribute);
      { DefaultFormatPieces(); ReplaceTwice("govee", '/', AttributeField, attribute); }
      "govee" + ['/'] + attribute + ['/'] + attribute;
      "govee/" + attribute + "/" + attribute;
    }
  }
}
