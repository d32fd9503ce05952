/**
 * The form encoder of js/bikedata.js (`parseFormValues`): every form control,
 * in document order, is folded into a flat map from parameter name to value.
 *
 *  - a checked checkbox registers under its name with one trailing `[]`
 *    removed; its value is appended to a truthy (present and non-empty)
 *    entry with the delimiter `,`, and otherwise replaces the entry;
 *  - an unchecked checkbox contributes nothing;
 *  - any other control (text, select, radio, ...) sets its entry when its
 *    value is non-empty, and contributes nothing otherwise.
 *
 * Checkboxes and other controls share one key space.
 */
module FormValues {

  import opened Wrappers

  /** The parts of a form control that the encoder looks at. `isCheckbox`
      stands for `tagName == 'input' && type == 'checkbox'`. */
  datatype Control = Control(isCheckbox: bool, checked: bool, name: string, value: string)

  type Parameters = map<string, string>

  /** Joins the values of a checkbox group; must match the API's delimiter. */
  const Delimiter: char := ','

  /** The marker that ends the name of a grouped checkbox, as in `type[]`. */
  const GroupSuffix: string := "[]"

  predicate HasGroupSuffix(name: string) {
    |name| >= |GroupSuffix| && name[|name| - |GroupSuffix|..] == GroupSuffix
  }

  /** The logical name of a checkbox: the regular expression `/\[\]$/g`
      matches only at the end of the name, so at most one `[]` goes. */
  function Degroup(name: string): (r: string)
    ensures HasGroupSuffix(name) ==> r + GroupSuffix == name
  {
    if HasGroupSuffix(name) then name[..|name| - |GroupSuffix|] else name
  }

  /** JavaScript truthiness of `parameters[name]`: the entry exists and is
      not the empty string. */
  predicate Truthy(m: Parameters, name: string) {
    name in m && m[name] != ""
  }

  /** The key a control writes, if it writes one at all. */
  function Target(c: Control): (r: Option<string>)
  {
    if c.isCheckbox then
      if c.checked then Some(Degroup(c.name)) else None
    else
      if c.value != "" then Some(c.name) else None
  }

  /** One iteration of the encoder's loop. Only the target key can change;
      every other entry is kept. */
  function Step(m: Parameters, c: Control): (r: Parameters)
    ensures Target(c).None? ==> r == m
    ensures Target(c).Some? ==> r.Keys == m.Keys + {Target(c).value}
    ensures forall k :: k in m && Target(c) != Some(k) ==> k in r && r[k] == m[k]
  {
    if c.isCheckbox then
      if c.checked then
        var name := Degroup(c.name);
        if Truthy(m, name) then m[name := m[name] + [Delimiter] + c.value]
        else m[name := c.value]
      else m
    else if |c.value| > 0 then m[c.name := c.value]
    else m
  }

  /** The encoder's loop over `cs`, starting from the map `m`. */
  function Run(m: Parameters, cs: seq<Control>): Parameters
  {
    if cs == [] then m else Step(Run(m, cs[..|cs| - 1]), cs[|cs| - 1])
  }

  /** What `parseFormValues` returns: the loop started from an empty map. */
  function Encode(cs: seq<Control>): Parameters
  {
    Run(map[], cs)
  }

  /** The encoder itself, as the loop over the controls in document order. */
  method ParseFormValues(controls: seq<Control>) returns (parameters: Parameters)
    ensures parameters == Encode(controls)
  {
    parameters := map[];
    var i := 0;
    while i < |controls|
      invariant 0 <= i <= |controls|
      invariant parameters == Encode(controls[..i])
    {
      var c := controls[i];
      if c.isCheckbox {
        if c.checked {
          var name := Degroup(c.name);
          if name in parameters && parameters[name] != "" {
            parameters := parameters[name := parameters[name] + [Delimiter] + c.value];
          } else {
            parameters := parameters[name := c.value];
          }
        }
      } else if |c.value| > 0 {
        parameters := parameters[c.name := c.value];
      }
      assert controls[..i + 1][..i] == controls[..i];
      i := i + 1;
    }
    assert controls[..|controls|] == controls;
  }

  // ----- Reference definitions for a checkbox group -----

  /** The values of the checked checkboxes whose logical name is `k`, in
      document order. */
  function CheckedValues(cs: seq<Control>, k: string): seq<string>
  {
    if cs == [] then []
    else
      var last := cs[|cs| - 1];
      CheckedValues(cs[..|cs| - 1], k)
        + (if last.isCheckbox && Target(last) == Some(k) then [last.value] else [])
  }

  /** `vs` joined by the delimiter. */
  function Join(vs: seq<string>): string
  {
    if vs == [] then ""
    else if |vs| == 1 then vs[0]
    else Join(vs[..|vs| - 1]) + [Delimiter] + vs[|vs| - 1]
  }

  /** `vs` without its leading empty strings: an empty accumulated value is
      not truthy, so the next value replaces it instead of being appended. */
  function DropLeadingEmpty(vs: seq<string>): (r: seq<string>)
    ensures r != [] ==> r[0] != ""
  {
    if vs == [] then [] else if vs[0] == "" then DropLeadingEmpty(vs[1..]) else vs
  }

  // ----- Properties of the encoder -----

  /** Exactly one trailing `[]` is removed: `foo[]` registers as `foo`, and
      `foo[][]` as `foo[]`. */
  lemma DegroupStripsOne(name: string)
    ensures Degroup(name + GroupSuffix) == name
  {
  }

  /** Each control extends the result of the controls before it. */
  lemma EncodeSnoc(cs: seq<Control>, c: Control)
    ensures Encode(cs + [c]) == Step(Encode(cs), c)
  {
    assert (cs + [c])[..|cs|] == cs;
  }

  /** Running over `a + b` is running over `a`, then over `b`. */
  lemma {:induction false} RunConcat(m: Parameters, a: seq<Control>, b: seq<Control>)
    ensures Run(m, a + b) == Run(Run(m, a), b)
  {
    if b != [] {
      assert (a + b)[..|a + b| - 1] == a + b[..|b| - 1];
      assert (a + b)[|a + b| - 1] == b[|b| - 1];
      RunConcat(m, a, b[..|b| - 1]);
    } else {
      assert a + b == a;
    }
  }

  /** A control that targets no key (an unchecked checkbox, or any other
      control with an empty value) can be removed without changing the
      result, wherever it stands. */
  lemma InertControlIgnored(a: seq<Control>, c: Control, b: seq<Control>)
    requires Target(c).None?
    ensures Encode(a + [c] + b) == Encode(a + b)
  {
    RunConcat(map[], a + [c], b);
    RunConcat(map[], a, [c]);
    assert [c][..0] == [];
    RunConcat(map[], a, b);
  }

  /** The checked state of a control that is not a checkbox (a radio button,
      say) plays no part: every radio of a group registers its value. */
  lemma CheckedIgnoredForOtherControls(a: seq<Control>, c: Control, b: seq<Control>)
    requires !c.isCheckbox
    ensures Encode(a + [c] + b) == Encode(a + [c.(checked := !c.checked)] + b)
  {
    var c' := c.(checked := !c.checked);
    RunConcat(map[], a + [c], b);
    RunConcat(map[], a, [c]);
    RunConcat(map[], a + [c'], b);
    RunConcat(map[], a, [c']);
    assert [c][..0] == [] && [c'][..0] == [];
  }

  /** The encoder starts from an empty map: a key is in the result exactly
      when some control of `cs` targets it. */
  lemma {:induction false} KeysAreTargets(cs: seq<Control>, k: string)
    ensures k in Encode(cs) <==> exists i :: 0 <= i < |cs| && Target(cs[i]) == Some(k)
  {
    if cs != [] {
      var p := cs[..|cs| - 1];
      KeysAreTargets(p, k);
      if exists i :: 0 <= i < |p| && Target(p[i]) == Some(k) {
        var i :| 0 <= i < |p| && Target(p[i]) == Some(k);
        assert Target(cs[i]) == Some(k);
      }
      if exists i :: 0 <= i < |cs| && Target(cs[i]) == Some(k) {
        var i :| 0 <= i < |cs| && Target(cs[i]) == Some(k);
        if i < |p| {
          assert Target(p[i]) == Some(k);
        }
      }
    }
  }

  /** A control that does not target `k` leaves the entry for `k` alone. */
  lemma {:induction false} RunFrame(m: Parameters, cs: seq<Control>, k: string)
    requires forall i :: 0 <= i < |cs| ==> Target(cs[i]) != Some(k)
    ensures k in Run(m, cs) <==> k in m
    ensures k in m ==> Run(m, cs)[k] == m[k]
  {
    if cs != [] {
      var p := cs[..|cs| - 1];
      assert forall i :: 0 <= i < |p| ==> p[i] == cs[i];
      RunFrame(m, p, k);
    }
  }

  /** A non-empty value of a control that is not a checkbox is the value of
      its name when no later control targets that name: the last one wins. */
  lemma LastValueWins(a: seq<Control>, c: Control, b: seq<Control>)
    requires !c.isCheckbox && c.value != ""
    requires forall i :: 0 <= i < |b| ==> Target(b[i]) != Some(c.name)
    ensures c.name in Encode(a + [c] + b)
    ensures Encode(a + [c] + b)[c.name] == c.value
  {
    RunConcat(map[], a + [c], b);
    RunConcat(map[], a, [c]);
    assert [c][..0] == [];
    RunFrame(Encode(a + [c]), b, c.name);
  }

  /** Appending one value to a group: an empty accumulated value is dropped. */
  lemma {:induction false} DropLeadingEmptySnoc(vs: seq<string>, v: string)
    ensures DropLeadingEmpty(vs + [v]) ==
      if DropLeadingEmpty(vs) == [] then (if v == "" then [] else [v])
      else DropLeadingEmpty(vs) + [v]
  {
    if vs == [] {
      assert vs + [v] == [v];
      assert [v][1..] == [];
    } else {
      assert (vs + [v])[1..] == vs[1..] + [v];
      if vs[0] == "" {
        DropLeadingEmptySnoc(vs[1..], v);
      }
    }
  }

  /** Values with no empty string among them are kept as they are. */
  lemma DropLeadingEmptyNoEmpty(vs: seq<string>)
    requires forall i :: 0 <= i < |vs| ==> vs[i] != ""
    ensures DropLeadingEmpty(vs) == vs
  {
  }

  /** A joined list of values is empty only when there are no values. */
  lemma JoinNonEmpty(vs: seq<string>)
    requires vs != [] && vs[0] != ""
    ensures Join(vs) != ""
  {
  }

  /** The entry for `k` in `m`, as a list of at most one value. */
  function Start(m: Parameters, k: string): (r: seq<string>)
  {
    if k in m then [m[k]] else []
  }

  /** One checked box of name `k`, on a map whose entry for `k` is the join
      of `vs` less leading empty values. */
  lemma CheckboxStep(m: Parameters, vs: seq<string>, c: Control, k: string)
    requires k in m <==> vs != []
    requires k in m ==> m[k] == Join(DropLeadingEmpty(vs))
    requires c.isCheckbox && Target(c) == Some(k)
    ensures k in Step(m, c)
    ensures Step(m, c)[k] == Join(DropLeadingEmpty(vs + [c.value]))
  {
    DropLeadingEmptySnoc(vs, c.value);
    var d := DropLeadingEmpty(vs);
    if d != [] {
      // the accumulated value is truthy: the new value is appended
      JoinNonEmpty(d);
      assert (d + [c.value])[..|d + [c.value]| - 1] == d;
      assert Join(d + [c.value]) == Join(d) + [Delimiter] + c.value;
    } else {
      // nothing truthy so far: the new value replaces the entry
      assert !Truthy(m, k);
      assert Join([c.value]) == c.value;
    }
  }

  /** The checkboxes of one logical name `k`, run from any map `m`, when no
      other kind of control among them targets `k`: the key is present
      exactly when it was already or one of them is checked, and its value
      is the previous entry followed by the checked values, joined by `,` in
      document order, less any leading empty values (an empty entry is not
      truthy and is replaced rather than appended to). */
  lemma {:induction false} CheckboxGroupFrom(m: Parameters, cs: seq<Control>, k: string)
    requires forall i :: 0 <= i < |cs| && !cs[i].isCheckbox ==> Target(cs[i]) != Some(k)
    ensures k in Run(m, cs) <==> Start(m, k) + CheckedValues(cs, k) != []
    ensures k in Run(m, cs) ==>
      Run(m, cs)[k] == Join(DropLeadingEmpty(Start(m, k) + CheckedValues(cs, k)))
  {
    if cs == [] {
      assert Start(m, k) + CheckedValues(cs, k) == Start(m, k);
      if k in m {
        assert [m[k]][1..] == [];
      }
    } else {
      var p := cs[..|cs| - 1];
      var c := cs[|cs| - 1];
      assert forall i :: 0 <= i < |p| ==> p[i] == cs[i];
      CheckboxGroupFrom(m, p, k);
      var vs := Start(m, k) + CheckedValues(p, k);
      if c.isCheckbox && Target(c) == Some(k) {
        assert Start(m, k) + CheckedValues(cs, k) == vs + [c.value];
        CheckboxStep(Run(m, p), vs, c, k);
      } else {
        assert Target(c) != Some(k);
        assert CheckedValues(cs, k) == CheckedValues(p, k);
      }
    }
  }

  /** The same rule from the empty map the encoder starts with: the key is
      present exactly when one of the boxes is checked. */
  lemma CheckboxGroup(cs: seq<Control>, k: string)
    requires forall i :: 0 <= i < |cs| && !cs[i].isCheckbox ==> Target(cs[i]) != Some(k)
    ensures k in Encode(cs) <==> CheckedValues(cs, k) != []
    ensures k in Encode(cs) ==> Encode(cs)[k] == Join(DropLeadingEmpty(CheckedValues(cs, k)))
  {
    CheckboxGroupFrom(map[], cs, k);
    assert Start(map[], k) + CheckedValues(cs, k) == CheckedValues(cs, k);
  }

  /** Checkboxes and other controls share one key space: after the last
      non-empty value `v` of a control that is not a checkbox, the checked
      boxes of the same logical name append their values to `v`. */
  lemma ValueThenCheckboxes(a: seq<Control>, c: Control, b: seq<Control>)
    requires !c.isCheckbox && c.value != ""
    requires forall i :: 0 <= i < |b| && !b[i].isCheckbox ==> Target(b[i]) != Some(c.name)
    ensures c.name in Encode(a + [c] + b)
    ensures Encode(a + [c] + b)[c.name] == Join([c.value] + CheckedValues(b, c.name))
  {
    var k := c.name;
    RunConcat(map[], a + [c], b);
    EncodeSnoc(a, c);
    var m := Encode(a + [c]);
    assert Start(m, k) == [c.value];
    CheckboxGroupFrom(m, b, k);
    assert DropLeadingEmpty([c.value] + CheckedValues(b, k)) == [c.value] + CheckedValues(b, k);
  }

  /** The common case: checked values that are all non-empty are joined by
      `,` in document order. */
  lemma CheckboxGroupJoined(cs: seq<Control>, k: string)
    requires forall i :: 0 <= i < |cs| && !cs[i].isCheckbox ==> Target(cs[i]) != Some(k)
    requires forall i :: 0 <= i < |CheckedValues(cs, k)| ==> CheckedValues(cs, k)[i] != ""
    requires CheckedValues(cs, k) != []
    ensures k in Encode(cs) && Encode(cs)[k] == Join(CheckedValues(cs, k))
  {
    CheckboxGroup(cs, k);
    DropLeadingEmptyNoEmpty(CheckedValues(cs, k));
  }

  // ----- Worked examples -----

  /** One checked `type[]=car` and one unchecked `type[]=bike`. */
  lemma ExampleOneChecked()
    ensures Encode([Control(true, true, "type[]", "car"), Control(true, false, "type[]", "bike")])
      == map["type" := "car"]
  {
    var cs := [Control(true, true, "type[]", "car"), Control(true, false, "type[]", "bike")];
    assert Degroup("type[]") == "type" by { assert "type[]"[4..] == GroupSuffix; }
    EncodeSnoc([], cs[0]);
    EncodeSnoc([cs[0]], cs[1]);
    assert [cs[0]] + [cs[1]] == cs;
  }

  /** Two checked `type[]` boxes, car then bike. */
  lemma ExampleTwoChecked()
    ensures Encode([Control(true, true, "type[]", "car"), Control(true, true, "type[]", "bike")])
      == map["type" := "car,bike"]
  {
    var cs := [Control(true, true, "type[]", "car"), Control(true, true, "type[]", "bike")];
    assert Degroup("type[]") == "type" by { assert "type[]"[4..] == GroupSuffix; }
    EncodeSnoc([], cs[0]);
    EncodeSnoc([cs[0]], cs[1]);
    assert [cs[0]] + [cs[1]] == cs;
    assert "car" + [Delimiter] + "bike" == "car,bike";
  }

  /** A filled `date_from` and an empty `date_to`. */
  lemma ExampleEmptyTextOmitted()
    ensures Encode([Control(false, false, "date_from", "2020-01-01"), Control(false, false, "date_to", "")])
      == map["date_from" := "2020-01-01"]
  {
    var cs := [Control(false, false, "date_from", "2020-01-01"), Control(false, false, "date_to", "")];
    EncodeSnoc([], cs[0]);
    EncodeSnoc([cs[0]], cs[1]);
    assert [cs[0]] + [cs[1]] == cs;
  }

  /** Checkboxes and other controls share one key space: a checked `type[]`
      appends to the value a text control `type` set before it. */
  lemma ExampleSharedKeySpace()
    ensures Encode([Control(false, false, "type", "bus"), Control(true, true, "type[]", "car")])
      == map["type" := "bus,car"]
  {
    var cs := [Control(false, false, "type", "bus"), Control(true, true, "type[]", "car")];
    assert Degroup("type[]") == "type" by { assert "type[]"[4..] == GroupSuffix; }
    EncodeSnoc([], cs[0]);
    EncodeSnoc([cs[0]], cs[1]);
    assert [cs[0]] + [cs[1]] == cs;
    assert "bus" + [Delimiter] + "car" == "bus,car";
  }
}
