/**
 * The `MAC_NAMES` setting: `address=name` entries separated by `;`, parsed
 * by `dict(e.split('=') for e in value.split(';') if e)`.
 */
module MacNames {
  import opened Wrappers
  import opened PyStr

  type Entry = (string, string)

  /**
   * `dict()` refuses an element that does not split into exactly two parts:
   * "dictionary update sequence element #`element` has length `length`; 2 is
   * required". Elements are numbered from 0 among the non-empty segments.
   */
  datatype ParseError = BadElement(element: nat, length: nat)

  /** The generator's `if e`: the empty segments are dropped, the rest keep their order. */
  function NonEmpty(segments: seq<string>): (r: seq<string>)
    ensures forall e :: e in r <==> e in segments && e != ""
    ensures |r| <= |segments|
  {
    if segments == [] then []
    else (if segments[0] == "" then [] else [segments[0]]) + NonEmpty(segments[1..])
  }

  /** The entries `value.split(';')` yields, empty ones dropped; none holds a `;`. */
  function Segments(value: string): (segments: seq<string>)
    ensures forall e | e in segments :: e != "" && !Contains(e, ";")
  {
    SplitPiecesFree(value, ";");
    NonEmpty(Split(value, ";"))
  }

  /**
   * `e.split('=')` for each segment in turn, numbered from `first`; fails on
   * the first segment that does not split into exactly two parts.
   */
  function EntryPairs(segments: seq<string>, first: nat): (r: Result<seq<Entry>, ParseError>)
    ensures r.Success? ==> |r.value| == |segments|
    ensures r.Failure? ==> first <= r.error.element < first + |segments| && r.error.length != 2
  {
    if segments == [] then Success([])
    else
      var parts := Split(segments[0], "=");
      if |parts| != 2 then Failure(BadElement(first, |parts|))
      else match EntryPairs(segments[1..], first + 1)
        case Failure(e) => Failure(e)
        case Success(rest) => Success([(parts[0], parts[1])] + rest)
  }

  /** `dict(pairs)`: each pair in order overwrites an earlier pair with the same key. */
  function ToMap(pairs: seq<Entry>): (m: map<string, string>)
    ensures forall k | k in m :: (k, m[k]) in pairs
  {
    if pairs == [] then map[]
    else ToMap(pairs[..|pairs| - 1])[pairs[|pairs| - 1].0 := pairs[|pairs| - 1].1]
  }

  /**
   * `MAC_NAMES`: the address-to-name map, or the error `dict()` raises. The
   * value is rejected exactly when a non-empty segment does not hold exactly
   * one `=`.
   */
  function ParseMacNames(value: string): (r: Result<map<string, string>, ParseError>)
    ensures r.Failure? <==> exists e :: e in Segments(value) && !WellFormedEntry(e)
  {
    EntryPairsFailure(Segments(value), 0);
    match EntryPairs(Segments(value), 0)
    case Failure(e) => Failure(e)
    case Success(pairs) => Success(ToMap(pairs))
  }

  /** A segment is accepted exactly when it contains one `=`. */
  predicate WellFormedEntry(e: string) {
    CountChar(e, '=') == 1
  }

  // ---------------------------------------------------------------------
  // dict()

  /** The keys of `dict(pairs)` are the keys of the pairs. */
  lemma {:induction false} ToMapKeys(pairs: seq<Entry>)
    ensures ToMap(pairs).Keys == set p | p in pairs :: p.0
  {
    if pairs != [] {
      var init := pairs[..|pairs| - 1];
      ToMapKeys(init);
      assert pairs == init + [pairs[|pairs| - 1]];
    }
  }

  /** Later wins: a key maps to the value of its last pair. */
  lemma {:induction false} LaterEntryWins(pairs: seq<Entry>, j: nat)
    requires j < |pairs|
    requires forall i :: j < i < |pairs| ==> pairs[i].0 != pairs[j].0
    ensures pairs[j].0 in ToMap(pairs) && ToMap(pairs)[pairs[j].0] == pairs[j].1
  {
    var last := |pairs| - 1;
    if j < last {
      var init := pairs[..last];
      assert forall i :: j < i < |init| ==> init[i] == pairs[i];
      LaterEntryWins(init, j);
    }
  }

  /** `dict(a + b)` is `dict(a)` updated with `dict(b)`. */
  lemma {:induction false} ToMapConcat(a: seq<Entry>, b: seq<Entry>)
    ensures ToMap(a + b) == ToMap(a) + ToMap(b)
    decreases |b|
  {
    if b == [] {
      assert a + b == a;
    } else {
      var initB, last := b[..|b| - 1], b[|b| - 1];
      calc {
        ToMap(a + b);
        { assert (a + b)[..|a + b| - 1] == a + initB; assert (a + b)[|a + b| - 1] == last; }
        ToMap(a + initB)[last.0 := last.1];
        { ToMapConcat(a, initB); }
        (ToMap(a) + ToMap(initB))[last.0 := last.1];
        ToMap(a) + ToMap(initB)[last.0 := last.1];
        ToMap(a) + ToMap(b);
      }
    }
  }

  // ---------------------------------------------------------------------
  // Segments and entries

  lemma {:induction false} NonEmptyConcat(a: seq<string>, b: seq<string>)
    ensures NonEmpty(a + b) == NonEmpty(a) + NonEmpty(b)
  {
    if a == [] {
      assert a + b == b;
    } else {
      assert (a + b)[0] == a[0];
      assert (a + b)[1..] == a[1..] + b;
      NonEmptyConcat(a[1..], b);
    }
  }

  /** Segments of `a;b` are those of `a` followed by those of `b`. */
  lemma SegmentsConcat(a: string, b: string)
    ensures Segments(a + ";" + b) == Segments(a) + Segments(b)
  {
    SplitConcat(a, ';', b);
    NonEmptyConcat(Split(a, ";"), Split(b, ";"));
  }

  /** Whether a segment list parses does not depend on where the numbering starts. */
  lemma {:induction false} EntryPairsRenumber(segments: seq<string>, f: nat, g: nat)
    ensures EntryPairs(segments, f).Success? == EntryPairs(segments, g).Success?
    ensures EntryPairs(segments, f).Success? ==> EntryPairs(segments, f).value == EntryPairs(segments, g).value
  {
    if segments != [] {
      EntryPairsRenumber(segments[1..], f + 1, g + 1);
    }
  }

  /** The entries of two segment lists in a row are the entries of each, in order. */
  lemma {:induction false} EntryPairsConcat(a: seq<string>, b: seq<string>, f: nat)
    requires EntryPairs(a, f).Success? && EntryPairs(b, f + |a|).Success?
    ensures EntryPairs(a + b, f) == Success(EntryPairs(a, f).value + EntryPairs(b, f + |a|).value)
  {
    if a == [] {
      assert a + b == b;
      assert EntryPairs(a, f).value == [];
      assert [] + EntryPairs(b, f).value == EntryPairs(b, f).value;
    } else {
      assert (a + b)[1..] == a[1..] + b;
      assert (a + b)[0] == a[0];
      var parts := Split(a[0], "=");
      assert |parts| == 2;
      var x := EntryPairs(a[1..], f + 1).value;
      var y := EntryPairs(b, f + |a|).value;
      assert EntryPairs(a, f).value == [(parts[0], parts[1])] + x;
      assert f + 1 + |a[1..]| == f + |a|;
      EntryPairsConcat(a[1..], b, f + 1);
      assert EntryPairs((a + b)[1..], f + 1) == Success(x + y);
      assert [(parts[0], parts[1])] + (x + y) == ([(parts[0], parts[1])] + x) + y;
    }
  }

  /**
   * Parsing fails exactly when some non-empty segment has no `=` or more
   * than one, and the error names the first such segment and its part count.
   */
  lemma {:induction false} EntryPairsFailure(segments: seq<string>, f: nat)
    ensures EntryPairs(segments, f).Failure? <==> exists e :: e in segments && !WellFormedEntry(e)
    ensures EntryPairs(segments, f).Failure? ==>
              var k := EntryPairs(segments, f).error.element - f;
              && 0 <= k < |segments|
              && EntryPairs(segments, f).error.length == CountChar(segments[k], '=') + 1 != 2
              && forall i :: 0 <= i < k ==> WellFormedEntry(segments[i])
  {
    if segments != [] {
      SplitCount(segments[0], '=');
      EntryPairsFailure(segments[1..], f + 1);
      if EntryPairs(segments, f).Failure? && WellFormedEntry(segments[0]) {
        var k := EntryPairs(segments, f).error.element - f;
        assert forall i :: 1 <= i < k ==> segments[i] == segments[1..][i - 1];
      }
      assert forall e :: e in segments <==> e == segments[0] || e in segments[1..];
    }
  }

  /** A well-formed segment `k=v` gives the pair `(k, v)`. */
  lemma EntryOfSegment(k: string, v: string)
    requires '=' !in k && '=' !in v
    ensures Split(k + "=" + v, "=") == [k, v]
  {
    SplitConcat(k, '=', v);
    SplitAbsent(k, '=');
    SplitAbsent(v, '=');
  }

  // ---------------------------------------------------------------------
  // MAC_NAMES

  /** An unset variable (the default `''`) gives an empty map. */
  lemma ParseEmpty()
    ensures ParseMacNames("") == Success(map[])
  {
    assert Split("", ";") == [""];
  }

  /** Two well-formed values joined by `;` give the union, the right-hand entries winning. */
  lemma ParseConcat(a: string, b: string)
    requires ParseMacNames(a).Success? && ParseMacNames(b).Success?
    ensures ParseMacNames(a + ";" + b) == Success(ParseMacNames(a).value + ParseMacNames(b).value)
  {
    var sa, sb := Segments(a), Segments(b);
    SegmentsConcat(a, b);
    EntryPairsRenumber(sb, 0, |sa|);
    EntryPairsConcat(sa, sb, 0);
    ToMapConcat(EntryPairs(sa, 0).value, EntryPairs(sb, 0).value);
  }

  /** A trailing `;` (an empty last segment) changes nothing. */
  lemma ParseTrailingSeparator(value: string)
    ensures ParseMacNames(value + ";") == ParseMacNames(value)
  {
    SegmentsConcat(value, "");
    assert value + ";" + "" == value + ";";
    assert Split("", ";") == [""];
    assert Segments("") == [];
    assert Segments(value) + [] == Segments(value);
  }

  /** Doubled separators (empty segments in the middle) change nothing. */
  lemma ParseDoubledSeparator(a: string, b: string)
    ensures ParseMacNames(a + ";;" + b) == ParseMacNames(a + ";" + b)
  {
    SegmentsConcat(a, ";" + b);
    SegmentsConcat("", b);
    assert Segments("") == [] by { assert Split("", ";") == [""]; }
    assert a + ";" + (";" + b) == a + ";;" + b;
    assert "" + ";" + b == ";" + b;
    SegmentsConcat(a, b);
    assert Segments(";" + b) == Segments(b);
  }

  /** A single `address=name` entry gives a one-entry map. */
  lemma ParseSingle(address: string, name: string)
    requires ';' !in address && ';' !in name && '=' !in address && '=' !in name
    ensures ParseMacNames(address + "=" + name) == Success(map[address := name])
  {
    var e := address + "=" + name;
    assert ';' !in e;
    SplitAbsent(e, ';');
    EntryOfSegment(address, name);
    assert e != "";
    assert [e][1..] == [];
    assert NonEmpty([e]) == [e];
    var parts := Split(e, "=");
    assert parts == [address, name];
    assert [e][0] == e;
    assert EntryPairs([e][1..], 1) == Success([]);
    assert |Split([e][0], "=")| == 2;
    assert [(address, name)] + [] == [(address, name)];
    assert EntryPairs([e], 0) == Success([(address, name)]);
    assert [(address, name)][..0] == [];
    assert ToMap([(address, name)]) == map[address := name];
  }

  /** Appending `;address=name` to a valid value makes that address map to that name, whatever came before. */
  lemma ParseLaterAddressWins(value: string, address: string, name: string)
    requires ParseMacNames(value).Success?
    requires ';' !in address && ';' !in name && '=' !in address && '=' !in name
    ensures var r := ParseMacNames(value + ";" + address + "=" + name);
            r.Success? && address in r.value && r.value[address] == name
  {
    ParseSingle(address, name);
    ParseConcat(value, address + "=" + name);
    assert value + ";" + (address + "=" + name) == value + ";" + address + "=" + name;
  }
}
