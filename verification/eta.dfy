/**
 * `Eta`, the remaining-time display of `main.rs`: whole seconds split into hours, minutes and
 * seconds and printed as `H:MM:SS`, `M:SS` or `S`. A reader of such clock strings is its
 * partner: reading the display back gives the number of seconds.
 */
module Eta {
  import opened Wrappers
  import opened Decimal

  datatype Clock = Clock(hours: nat, mins: nat, secs: nat)

  /** `total_secs / 3600`, `(total_secs % 3600) / 60` and `total_secs % 60`. */
  function Split(total: nat): (c: Clock)
    ensures c.hours * 3600 + c.mins * 60 + c.secs == total
    ensures c.mins < 60 && c.secs < 60
  {
    var c := Clock(total / 3600, (total % 3600) / 60, total % 60);
    SplitSum(total);
    c
  }

  lemma SplitSum(total: nat)
    ensures (total / 3600) * 3600 + ((total % 3600) / 60) * 60 + total % 60 == total
    ensures total % 3600 % 60 == total % 60
  {
    var r := total % 3600;
    assert total == (total / 3600) * 3600 + r;
    assert r == (r / 60) * 60 + r % 60;
    assert total % 60 == r % 60 by {
      assert total == ((total / 3600) * 60 + r / 60) * 60 + r % 60;
    }
  }

  /** The split is the only one with minutes and seconds below 60. */
  lemma SplitUnique(total: nat, c: Clock)
    requires c.hours * 3600 + c.mins * 60 + c.secs == total && c.mins < 60 && c.secs < 60
    ensures Split(total) == c
  {
    var d := Split(total);
    assert total == (c.hours * 60 + c.mins) * 60 + c.secs;
    assert total == (d.hours * 60 + d.mins) * 60 + d.secs;
    Digit60(c.hours * 60 + c.mins, c.secs, d.hours * 60 + d.mins, d.secs);
    Digit60(c.hours, c.mins, d.hours, d.mins);
  }

  /** Base-60 digits are unique. */
  lemma Digit60(a: nat, b: nat, c: nat, d: nat)
    requires b < 60 && d < 60 && a * 60 + b == c * 60 + d
    ensures a == c && b == d
  {
  }

  /** `Eta::fmt`: the leading field unpadded, every later field padded to two digits. */
  function Text(total: nat): string {
    Show(Split(total))
  }

  /** The fields of a clock as `Eta::fmt` prints them, separated by `:`. */
  function Show(c: Clock): string
    requires c.mins < 60 && c.secs < 60
  {
    Join(Fields(c))
  }

  /** `{}:{:02}:{:02}` with hours, `{}:{:02}` with minutes, else `{}`. */
  function Fields(c: Clock): seq<string>
    requires c.mins < 60 && c.secs < 60
  {
    if c.hours > 0 then [Format(c.hours), Pad2(c.mins), Pad2(c.secs)]
    else if c.mins > 0 then [Format(c.mins), Pad2(c.secs)]
    else [Format(c.secs)]
  }

  /** Strings separated by `:`. */
  function Join(fields: seq<string>): string
    requires |fields| > 0
    decreases |fields|
  {
    if |fields| == 1 then fields[0] else fields[0] + ":" + Join(fields[1..])
  }

  /** A nonempty run of decimal digits. */
  predicate Field(d: string) {
    |d| > 0 && AllDigits(d)
  }

  predicate AllFields(fields: seq<string>) {
    forall i :: 0 <= i < |fields| ==> Field(fields[i])
  }

  /** The value of fields read in base 60 after the value `acc` of those before them. */
  function Base60(fields: seq<string>, acc: nat): nat
    requires AllFields(fields)
    decreases |fields|
  {
    if |fields| == 0 then acc else Base60(fields[1..], acc * 60 + Value(fields[0]))
  }

  /**
   * A reader of clock strings: decimal fields separated by `:`, each field worth sixty of the
   * next. `acc` is the value of the fields already read.
   */
  function Read(s: string, acc: nat): Option<nat>
    decreases |s|
  {
    var k := LeadingDigits(s);
    if k == 0 then None
    else
      LeadingAreDigits(s);
      var v := acc * 60 + Value(s[..k]);
      if k == |s| then Some(v)
      else if s[k] == ':' then Read(s[k + 1..], v)
      else None
  }

  /** The last field: a run of digits that ends the string. */
  lemma ReadLast(d: string, acc: nat)
    requires Field(d)
    ensures Read(d, acc) == Some(acc * 60 + Value(d))
  {
    AllLeading(d);
    assert d[..|d|] == d;
  }

  lemma {:induction false} AllLeading(d: string)
    requires AllDigits(d)
    ensures LeadingDigits(d) == |d|
    decreases |d|
  {
    if |d| > 0 {
      assert AllDigits(d[1..]) by {
        forall i | 0 <= i < |d[1..]| ensures IsDigit(d[1..][i]) {
          assert d[1..][i] == d[i + 1];
        }
      }
      AllLeading(d[1..]);
    }
  }

  /** A field followed by `:` and more fields. */
  lemma ReadField(d: string, rest: string, acc: nat)
    requires Field(d)
    ensures Read(d + ":" + rest, acc) == Read(rest, acc * 60 + Value(d))
  {
    var s := d + (":" + rest);
    assert d + ":" + rest == s;
    LeadingDigitsOf(d, ":" + rest);
    assert s[..|d|] == d;
    assert s[|d|] == ':';
    assert s[|d| + 1..] == rest;
  }

  /** Fields joined by `:` read back as their base-60 value. */
  lemma {:induction false} ReadJoin(fields: seq<string>, acc: nat)
    requires |fields| > 0 && AllFields(fields)
    ensures Read(Join(fields), acc) == Some(Base60(fields, acc))
    decreases |fields|
  {
    var d, rest := fields[0], fields[1..];
    assert Field(d);
    var v := acc * 60 + Value(d);
    assert Base60(fields, acc) == Base60(rest, v);
    if |fields| == 1 {
      assert Join(fields) == d;
      ReadLast(d, acc);
    } else {
      assert Join(fields) == d + ":" + Join(rest);
      ReadField(d, Join(rest), acc);
      TailFields(fields);
      ReadJoin(rest, v);
    }
  }

  lemma TailFields(fields: seq<string>)
    requires |fields| > 0 && AllFields(fields)
    ensures AllFields(fields[1..])
  {
    forall i | 0 <= i < |fields[1..]| ensures Field(fields[1..][i]) {
      assert fields[1..][i] == fields[i + 1];
    }
  }

  /** Only a join of more than one field has a colon, since fields are digits. */
  lemma {:induction false} JoinColon(fields: seq<string>)
    requires |fields| > 0 && AllFields(fields)
    ensures ':' in Join(fields) <==> |fields| > 1
    decreases |fields|
  {
    assert Field(fields[0]);
    if |fields| == 1 {
      NoColonIn(fields[0]);
    } else {
      var j := fields[0] + ":" + Join(fields[1..]);
      assert j[|fields[0]|] == ':';
    }
  }

  lemma NoColonIn(d: string)
    requires AllDigits(d)
    ensures ':' !in d
  {
    if ':' in d {
      var i :| 0 <= i < |d| && d[i] == ':';
      assert IsDigit(d[i]);
    }
  }

  /** The fields of a clock are runs of digits worth its number of seconds. */
  lemma FieldsValue(c: Clock)
    requires c.mins < 60 && c.secs < 60
    ensures AllFields(Fields(c))
    ensures Base60(Fields(c), 0) == c.hours * 3600 + c.mins * 60 + c.secs
  {
    var h, m, s := c.hours, c.mins, c.secs;
    if h > 0 {
      ValueOfFormat(h);
      ValueOfPad2(m);
      ValueOfPad2(s);
      Base60Three(Format(h), Pad2(m), Pad2(s));
    } else if m > 0 {
      ValueOfFormat(m);
      ValueOfPad2(s);
      Base60Two(Format(m), Pad2(s), 0);
    } else {
      ValueOfFormat(s);
      Base60One(Format(s), 0);
    }
  }

  lemma Base60Three(d: string, e: string, f: string)
    requires Field(d) && Field(e) && Field(f)
    ensures AllFields([d, e, f])
    ensures Base60([d, e, f], 0) == (Value(d) * 60 + Value(e)) * 60 + Value(f)
  {
    var fs := [d, e, f];
    assert fs[0] == d && fs[1..] == [e, f];
    Base60Two(e, f, Value(d));
    assert Base60(fs, 0) == Base60([e, f], Value(d));
  }

  lemma Base60Two(d: string, e: string, acc: nat)
    requires Field(d) && Field(e)
    ensures AllFields([d, e])
    ensures Base60([d, e], acc) == (acc * 60 + Value(d)) * 60 + Value(e)
  {
    var fs := [d, e];
    assert fs[0] == d && fs[1..] == [e];
    Base60One(e, acc * 60 + Value(d));
    assert Base60(fs, acc) == Base60([e], acc * 60 + Value(d));
  }

  lemma Base60One(d: string, acc: nat)
    requires Field(d)
    ensures AllFields([d])
    ensures Base60([d], acc) == acc * 60 + Value(d)
  {
    var fs := [d];
    assert fs[0] == d && fs[1..] == [];
    assert Base60(fs, acc) == Base60([], acc * 60 + Value(d));
  }

  /** The display reads back as the number of seconds it was made from. */
  lemma TextReadsBack(total: nat)
    ensures Read(Text(total), 0) == Some(total)
  {
    var c := Split(total);
    FieldsValue(c);
    ReadJoin(Fields(c), 0);
  }

  /** Under a minute the display is the bare number of seconds; from a minute on it has fields. */
  lemma TextShape(total: nat)
    ensures total < 60 ==> Text(total) == Format(total)
    ensures ':' in Text(total) <==> total >= 60
  {
    var c := Split(total);
    assert Text(total) == Join(Fields(c));
    FieldsValue(c);
    JoinColon(Fields(c));
    if total < 60 {
      assert c.hours == 0 && c.mins == 0 && c.secs == total;
    } else {
      assert c.hours > 0 || c.mins > 0;
    }
  }
}
