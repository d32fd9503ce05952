/**
 * The popup builder of js/bikedata.js (`popupHtml`): the properties of a
 * collision feature, in iteration order, become the rows of an HTML table.
 * A null value is first written back into the feature as the text `[null]`;
 * the value (not the key) is escaped with the chain of replacements
 * `&` -> `&amp;`, `<` -> `&lt;`, `>` -> `&gt;`.
 */
module Popup {

  import opened Wrappers

  // ----- Escaping -----

  /** The three entities of the escape. */
  const AmpEntity: string := "&amp;"
  const LtEntity: string := "&lt;"
  const GtEntity: string := "&gt;"

  /** `s` with every occurrence of the character `c` replaced by `rep`
      (JavaScript's `s.replace(/c/g, rep)`). */
  function ReplaceAll(s: string, c: char, rep: string): (r: string)
  {
    if s == [] then []
    else (if s[0] == c then rep else [s[0]]) + ReplaceAll(s[1..], c, rep)
  }

  /** The escape chain applied to a property value, in the order written. */
  function EscapeValue(s: string): string
  {
    ReplaceAll(ReplaceAll(ReplaceAll(s, '&', AmpEntity), '<', LtEntity), '>', GtEntity)
  }

  /** The escape of one character: the reference the chain is proved against. */
  function EscapeChar(x: char): string
  {
    if x == '&' then AmpEntity else if x == '<' then LtEntity else if x == '>' then GtEntity else [x]
  }

  /** Escaping character by character. */
  function EscapeChars(s: string): string
  {
    if s == [] then [] else EscapeChar(s[0]) + EscapeChars(s[1..])
  }

  predicate StartsWith(s: string, prefix: string) {
    |prefix| <= |s| && s[..|prefix|] == prefix
  }

  /** Decodes the three entities the escape produces; every other character
      stands for itself. */
  function Unescape(s: string): string
    decreases |s|
  {
    if s == [] then []
    else if StartsWith(s, AmpEntity) then "&" + Unescape(s[|AmpEntity|..])
    else if StartsWith(s, LtEntity) then "<" + Unescape(s[|LtEntity|..])
    else if StartsWith(s, GtEntity) then ">" + Unescape(s[|GtEntity|..])
    else [s[0]] + Unescape(s[1..])
  }

  /** No character of `s` opens or closes a tag. */
  predicate NoAngleBrackets(s: string) {
    forall i :: 0 <= i < |s| ==> s[i] != '<' && s[i] != '>'
  }

  /** Every `&` in `s` begins one of the three entities. */
  predicate AmpersandsBeginEntities(s: string) {
    forall i :: 0 <= i < |s| && s[i] == '&' ==>
      StartsWith(s[i..], AmpEntity) || StartsWith(s[i..], LtEntity) || StartsWith(s[i..], GtEntity)
  }

  lemma {:induction false} ReplaceAllConcat(a: string, b: string, c: char, rep: string)
    ensures ReplaceAll(a + b, c, rep) == ReplaceAll(a, c, rep) + ReplaceAll(b, c, rep)
  {
    if a == [] {
      assert a + b == b;
    } else {
      assert (a + b)[0] == a[0];
      assert (a + b)[1..] == a[1..] + b;
      ReplaceAllConcat(a[1..], b, c, rep);
    }
  }

  lemma {:induction false} ReplaceAllAbsent(s: string, c: char, rep: string)
    requires c !in s
    ensures ReplaceAll(s, c, rep) == s
  {
    if s != [] {
      assert s == [s[0]] + s[1..];
      ReplaceAllAbsent(s[1..], c, rep);
    }
  }

  /** The chain distributes over concatenation. */
  lemma EscapeValueConcat(a: string, b: string)
    ensures EscapeValue(a + b) == EscapeValue(a) + EscapeValue(b)
  {
    var a1, b1 := ReplaceAll(a, '&', AmpEntity), ReplaceAll(b, '&', AmpEntity);
    var a2, b2 := ReplaceAll(a1, '<', LtEntity), ReplaceAll(b1, '<', LtEntity);
    ReplaceAllConcat(a, b, '&', AmpEntity);
    ReplaceAllConcat(a1, b1, '<', LtEntity);
    ReplaceAllConcat(a2, b2, '>', GtEntity);
  }

  lemma ReplaceAllSingle(x: char, c: char, rep: string)
    ensures ReplaceAll([x], c, rep) == if x == c then rep else [x]
  {
    assert [x][1..] == [];
  }

  /** On one character the chain gives that character's escape. */
  lemma EscapeValueChar(x: char)
    ensures EscapeValue([x]) == EscapeChar(x)
  {
    ReplaceAllSingle(x, '&', AmpEntity);
    if x == '&' {
      ReplaceAllAbsent(AmpEntity, '<', LtEntity);
      ReplaceAllAbsent(AmpEntity, '>', GtEntity);
    } else {
      ReplaceAllSingle(x, '<', LtEntity);
      if x == '<' {
        ReplaceAllAbsent(LtEntity, '>', GtEntity);
      } else {
        ReplaceAllSingle(x, '>', GtEntity);
      }
    }
  }

  /** The chain escapes each character of `s` on its own: `&` is replaced
      first, so the `&` of `&lt;` and `&gt;` is never escaped again. */
  lemma {:induction false} EscapeIsCharwise(s: string)
    ensures EscapeValue(s) == EscapeChars(s)
  {
    if s != [] {
      assert s == [s[0]] + s[1..];
      EscapeValueConcat([s[0]], s[1..]);
      EscapeValueChar(s[0]);
      EscapeIsCharwise(s[1..]);
    }
  }

  /** Escaped text holds no `<` and no `>`. */
  lemma {:induction false} EscapeCharsNoAngleBrackets(s: string)
    ensures NoAngleBrackets(EscapeChars(s))
  {
    if s != [] {
      EscapeCharsNoAngleBrackets(s[1..]);
      var h, r := EscapeChar(s[0]), EscapeChars(s[1..]);
      assert NoAngleBrackets(h);
      forall i | 0 <= i < |h + r|
        ensures (h + r)[i] != '<' && (h + r)[i] != '>'
      {
        if i >= |h| {
          assert (h + r)[i] == r[i - |h|];
        }
      }
    }
  }

  /** In escaped text every `&` begins an entity. */
  lemma {:induction false} EscapeCharsEntities(s: string)
    ensures AmpersandsBeginEntities(EscapeChars(s))
  {
    if s != [] {
      EscapeCharsEntities(s[1..]);
      var h, r := EscapeChar(s[0]), EscapeChars(s[1..]);
      forall i | 0 <= i < |h + r| && (h + r)[i] == '&'
        ensures StartsWith((h + r)[i..], AmpEntity) || StartsWith((h + r)[i..], LtEntity)
          || StartsWith((h + r)[i..], GtEntity)
      {
        if i < |h| {
          assert i == 0;
          assert (h + r)[0..][..|h|] == h;
        } else {
          assert (h + r)[i..] == r[i - |h|..];
          assert r[i - |h|] == '&';
        }
      }
    }
  }

  lemma UnescapeEscapeChar(x: char, rest: string)
    ensures Unescape(EscapeChar(x) + rest) == [x] + Unescape(rest)
  {
    var s := EscapeChar(x) + rest;
    if x == '&' {
      assert s[..5] == AmpEntity && s[5..] == rest;
    } else if x == '<' {
      assert s[..4] == LtEntity && s[4..] == rest;
      assert s[1] == 'l' && AmpEntity[1] == 'a';
    } else if x == '>' {
      assert s[..4] == GtEntity && s[4..] == rest;
      assert s[1] == 'g' && AmpEntity[1] == 'a' && LtEntity[1] == 'l';
    } else {
      assert s[0] == x && s[1..] == rest;
      assert AmpEntity[0] == '&' && LtEntity[0] == '&' && GtEntity[0] == '&';
    }
  }

  lemma {:induction false} UnescapeEscapeChars(s: string)
    ensures Unescape(EscapeChars(s)) == s
  {
    if s != [] {
      UnescapeEscapeChar(s[0], EscapeChars(s[1..]));
      UnescapeEscapeChars(s[1..]);
    }
  }

  /** What the escape chain guarantees of a value: no tag characters are
      left, every `&` starts an entity, and decoding the entities gives the
      value back. */
  lemma EscapeValueSafe(s: string)
    ensures NoAngleBrackets(EscapeValue(s))
    ensures AmpersandsBeginEntities(EscapeValue(s))
    ensures Unescape(EscapeValue(s)) == s
  {
    EscapeIsCharwise(s);
    EscapeCharsNoAngleBrackets(s);
    EscapeCharsEntities(s);
    UnescapeEscapeChars(s);
  }

  // ----- The table -----

  /** One property of a feature; a `None` value is JavaScript's `null`. */
  datatype Property = Property(key: string, value: Option<string>)

  /** The text written back in place of a null value. */
  const NullText: string := "[null]"

  function DisplayValue(v: Option<string>): string
  {
    v.GetOr(NullText)
  }

  /** The markup around the key and the value of a row, and around the table. */
  const RowStart: string := "<tr><td>"
  const KeyEnd: string := ":</td><td><strong>"
  const RowEnd: string := "</strong></td></tr>"
  const TableStart: string := "<table>"
  const TableEnd: string := "</table>"

  /** One row of the popup: the key as it is, the value escaped. */
  function Row(key: string, value: string): string
  {
    RowStart + key + KeyEnd + EscapeValue(value) + RowEnd
  }

  /** The rows of `ps`, one per property, in order. */
  function Rows(ps: seq<Property>): string
  {
    if ps == [] then ""
    else Rows(ps[..|ps| - 1]) + Row(ps[|ps| - 1].key, DisplayValue(ps[|ps| - 1].value))
  }

  /** The popup content for properties `ps`. */
  function PopupTable(ps: seq<Property>): string
  {
    TableStart + Rows(ps) + TableEnd
  }

  /** A property after the write-back: a null value becomes `[null]`. */
  function Filled(p: Property): Property
  {
    Property(p.key, Some(DisplayValue(p.value)))
  }

  /** The properties after the write-back: each null becomes `[null]` and
      every other property is kept. */
  function FillNulls(ps: seq<Property>): seq<Property>
  {
    seq(|ps|, i requires 0 <= i < |ps| => Filled(ps[i]))
  }

  /** A feature whose properties the popup builder reads and writes back. */
  class Feature {
    var properties: seq<Property>

    constructor (properties: seq<Property>)
      ensures this.properties == properties
    {
      this.properties := properties;
    }
  }

  /** Builds the popup content of `feature`, writing `[null]` back into its
      null properties as it goes. */
  method PopupHtml(feature: Feature) returns (html: string)
    modifies feature
    ensures feature.properties == FillNulls(old(feature.properties))
    ensures |feature.properties| == |old(feature.properties)|
    ensures forall i :: 0 <= i < |feature.properties| ==>
      feature.properties[i].key == old(feature.properties)[i].key
    ensures forall i :: 0 <= i < |feature.properties| && old(feature.properties)[i].value.Some? ==>
      feature.properties[i] == old(feature.properties)[i]
    ensures forall i :: 0 <= i < |feature.properties| && old(feature.properties)[i].value.None? ==>
      feature.properties[i].value == Some(NullText)
    ensures html == PopupTable(old(feature.properties))
  {
    ghost var original := feature.properties;
    html := TableStart;
    var i := 0;
    while i < |feature.properties|
      invariant 0 <= i <= |original| == |feature.properties|
      invariant forall j :: 0 <= j < i ==> feature.properties[j] == Filled(original[j])
      invariant forall j :: i <= j < |original| ==> feature.properties[j] == original[j]
      invariant html == TableStart + Rows(original[..i])
    {
      var key := feature.properties[i].key;
      if feature.properties[i].value == None {
        feature.properties := feature.properties[i := Property(key, Some(NullText))];
      }
      var value := EscapeValue(feature.properties[i].value.value);
      html := html + (RowStart + key + KeyEnd + value + RowEnd);
      TablePrefix(original, i);
      i := i + 1;
    }
    html := html + TableEnd;
    assert original[..i] == original;
  }

  // ----- Properties of the table -----

  lemma RowsSnoc(ps: seq<Property>, p: Property)
    ensures Rows(ps + [p]) == Rows(ps) + Row(p.key, DisplayValue(p.value))
  {
    assert (ps + [p])[..|ps|] == ps;
  }

  lemma RowsPrefix(ps: seq<Property>, i: nat)
    requires i < |ps|
    ensures Rows(ps[..i + 1]) == Rows(ps[..i]) + Row(ps[i].key, DisplayValue(ps[i].value))
  {
    assert ps[..i + 1] == ps[..i] + [ps[i]];
    RowsSnoc(ps[..i], ps[i]);
  }

  /** The table so far grows by one row per property. */
  lemma TablePrefix(ps: seq<Property>, i: nat)
    requires i < |ps|
    ensures TableStart + Rows(ps[..i + 1])
      == TableStart + Rows(ps[..i]) + (RowStart + ps[i].key + KeyEnd + EscapeValue(DisplayValue(ps[i].value)) + RowEnd)
  {
    RowsPrefix(ps, i);
  }

  /** Rows are built property by property: the rows of `a + b` are those of
      `a` followed by those of `b`. */
  lemma {:induction false} RowsConcat(a: seq<Property>, b: seq<Property>)
    ensures Rows(a + b) == Rows(a) + Rows(b)
  {
    if b == [] {
      assert a + b == a;
    } else {
      assert (a + b)[..|a + b| - 1] == a + b[..|b| - 1];
      RowsConcat(a, b[..|b| - 1]);
    }
  }

  /** The rows of the written-back properties are the rows of the original. */
  lemma {:induction false} RowsFillNulls(ps: seq<Property>)
    ensures Rows(FillNulls(ps)) == Rows(ps)
  {
    if ps != [] {
      var p := ps[..|ps| - 1];
      var last := ps[|ps| - 1];
      assert FillNulls(ps) == FillNulls(p) + [Filled(last)];
      assert ps == p + [last];
      assert DisplayValue(Filled(last).value) == DisplayValue(last.value);
      RowsSnoc(FillNulls(p), Filled(last));
      RowsSnoc(p, last);
      RowsFillNulls(p);
    }
  }

  /** The write-back does not change what is shown: rendering the written-back
      properties again gives the same table, and a second write-back changes
      nothing. */
  lemma WriteBackKeepsTable(ps: seq<Property>)
    ensures PopupTable(FillNulls(ps)) == PopupTable(ps)
    ensures FillNulls(FillNulls(ps)) == FillNulls(ps)
  {
    RowsFillNulls(ps);
  }

  /** How many times `c` occurs in `s`. */
  function Occurrences(c: char, s: string): nat
  {
    multiset(s)[c]
  }

  lemma OccurrencesConcat3(c: char, a: string, b: string, d: string)
    ensures Occurrences(c, a + b + d) == Occurrences(c, a) + Occurrences(c, b) + Occurrences(c, d)
  {
    assert multiset(a + b + d) == multiset(a) + multiset(b) + multiset(d);
  }

  /** The number of `<` in the keys of `ps`. */
  function KeyTagOpeners(ps: seq<Property>): nat
  {
    if ps == [] then 0 else KeyTagOpeners(ps[..|ps| - 1]) + Occurrences('<', ps[|ps| - 1].key)
  }

  // The `<` of each piece of markup, counted one piece at a time.
  lemma RowStartTags() ensures multiset(RowStart)['<'] == 2 {}
  lemma KeyEndTags() ensures multiset(KeyEnd)['<'] == 3 {}
  lemma RowEndTags() ensures multiset(RowEnd)['<'] == 3 {}
  lemma TableStartTags() ensures multiset(TableStart)['<'] == 1 {}
  lemma TableEndTags() ensures multiset(TableEnd)['<'] == 1 {}

  lemma EscapedValueTagCount(value: string)
    ensures Occurrences('<', EscapeValue(value)) == 0
  {
    var v := EscapeValue(value);
    EscapeIsCharwise(value);
    EscapeCharsNoAngleBrackets(value);
    assert forall i :: 0 <= i < |v| ==> v[i] != '<';
  }

  lemma RowTagCount(key: string, value: string)
    ensures Occurrences('<', Row(key, value)) == 8 + Occurrences('<', key)
  {
    RowStartTags();
    KeyEndTags();
    RowEndTags();
    EscapedValueTagCount(value);
    var v := EscapeValue(value);
    calc {
      Occurrences('<', Row(key, value));
      multiset(RowStart + key + KeyEnd + v + RowEnd)['<'];
      multiset(RowStart)['<'] + multiset(key)['<'] + multiset(KeyEnd)['<'] + multiset(v)['<']
        + multiset(RowEnd)['<'];
    }
  }

  /** Exactly one row per property: the rows hold eight `<` each, plus those
      of the (unescaped) keys; the escaped values bring none. */
  lemma {:induction false} RowsTagCount(ps: seq<Property>)
    ensures Occurrences('<', Rows(ps)) == 8 * |ps| + KeyTagOpeners(ps)
  {
    if ps != [] {
      var last := ps[|ps| - 1];
      RowsTagCount(ps[..|ps| - 1]);
      RowTagCount(last.key, DisplayValue(last.value));
    }
  }

  /** The whole table adds its own two `<` to those of the rows. */
  lemma TableTagCount(ps: seq<Property>)
    ensures Occurrences('<', PopupTable(ps)) == 2 + 8 * |ps| + KeyTagOpeners(ps)
  {
    RowsTagCount(ps);
    TableStartTags();
    TableEndTags();
    OccurrencesConcat3('<', TableStart, Rows(ps), TableEnd);
  }
}
