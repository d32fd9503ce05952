# bikedata: form encoding and collision popups

A model of the data handling in `js/bikedata.js`, the browser controller
that shows collision locations on a map and filters them with a form.
Three pieces of it carry logic of their own:

- **`parseFormValues`**, the form encoder. It walks every form control in
  document order and builds a flat map from parameter name to value.
  A checked checkbox registers under its name without one trailing `[]`.
  Its value is appended with `,` to a truthy entry (present and non-empty),
  and otherwise replaces the entry. An unchecked checkbox contributes
  nothing. Any other control sets its entry when its value is non-empty.
  Both kinds share one key space. Module `FormValues`: the loop is the
  method `ParseFormValues`, proved equal to the fold `Encode` of the
  one-control step `Step`, and the lemmas state the encoder's rules about
  `Encode`.
- **`popupHtml`**, the popup builder. It walks a feature's properties in
  order and writes a null value back into the feature as `[null]`. It
  escapes each value by replacing `&`, then `<`, then `>`, and emits one
  table row per property with the key unescaped. Module `Popup`: the
  feature is a class whose `properties` field the method `PopupHtml`
  rewrites in place. The escape chain is the function `EscapeValue`,
  written as the three replacements in source order. It is proved equal
  to a character-by-character escape, which is proved safe and reversible.
- **the request data of `getData`**. It is built from the map's bounding
  box and the API key. Module `Request`.

`Wrappers` holds the `Option` type that stands for a JavaScript value
that may be `null`.

Modelling choices:

- A form control is the record `Control(isCheckbox, checked, name, value)`.
  `isCheckbox` stands for `tagName == 'input' && type == 'checkbox'`. The
  jQuery traversal `$(':input').each` becomes the sequence of controls in
  document order.
- A feature's properties are a sequence of `Property(key, value)` in the
  order `for (var key in ...)` visits them. A `None` value is `null`.
- The map's bounding box and the API key are parameters of `ApiData`.

## Model

| member | source | states |
|---|---|---|
| `FormValues.Degroup` | js/bikedata.js:128 | a name ending in `[]` loses exactly that suffix: the result followed by `[]` is the name |
| `FormValues.DegroupStripsOne` | js/bikedata.js:128 | only one `[]` goes: `n[]` registers as `n`, so `foo[][]` registers as `foo[]` |
| `FormValues.Target` | js/bikedata.js:126-144 | computes the key a control writes: the degrouped name for a checked checkbox, the name for another control with a non-empty value, none otherwise |
| `FormValues.Step` | js/bikedata.js:126-144 | one control changes at most its own key: a non-writing control leaves the map as it was, a writing one adds its key, and every other entry is kept |
| `FormValues.Run` | js/bikedata.js:116-145 | computes the encoder's loop from a given map: `Step` applied to each control in document order |
| `FormValues.Encode` | js/bikedata.js:110-148 | computes what `parseFormValues` returns: the loop run from the empty map of line 110 |
| `FormValues.ParseFormValues` | js/bikedata.js:107-149 | the loop over the controls, starting from an empty map, returns `Encode(controls)`, so two calls on the same controls give equal maps |
| `FormValues.InertControlIgnored` | js/bikedata.js:126-144 | an unchecked checkbox, or any other control with an empty value, can be removed from anywhere in the controls without changing the result |
| `FormValues.CheckedIgnoredForOtherControls` | js/bikedata.js:126-144 | the checked state of a control that is not a checkbox (a radio button) has no effect on the result |
| `FormValues.KeysAreTargets` | js/bikedata.js:110-148 | a key is in the result iff some control writes it: no key comes from anywhere else, and no written key is lost |
| `FormValues.LastValueWins` | js/bikedata.js:140-144 | a non-checkbox control with a non-empty value gives its name that value when no later control writes the name: the last one wins |
| `FormValues.CheckboxStep` | js/bikedata.js:126-136 | one checked box appends its value with `,` to a truthy entry and otherwise replaces the entry, so the entry stays the join of the values so far less leading empty ones |
| `FormValues.CheckboxGroupFrom` | js/bikedata.js:126-136 | from any starting map, checkboxes of one logical name (no other control among them writing it) leave the key present iff it was present or one box is checked, with the previous entry followed by the checked values, joined by `,` in document order, less leading empty values (an empty entry is not truthy and is replaced) |
| `FormValues.CheckboxGroup` | js/bikedata.js:126-136 | the same from the empty map: the key is present iff one of the boxes is checked, and its value is the checked values joined by `,` in document order, less leading empty values |
| `FormValues.ValueThenCheckboxes` | js/bikedata.js:126-144 | checkboxes and other controls share one key space: after the last non-empty value `v` set by another control, the checked boxes of that name append their values, giving `v` and those values joined by `,` |
| `FormValues.CheckboxGroupJoined` | js/bikedata.js:130-134 | when all checked values of a group are non-empty, the entry is exactly those values joined by `,` in document order |
| `FormValues.ExampleOneChecked` | js/bikedata.js:126-136 | checked `type[]=car` and unchecked `type[]=bike` encode to `{type: "car"}` |
| `FormValues.ExampleTwoChecked` | js/bikedata.js:126-136 | checked `type[]=car` then `type[]=bike` encode to `{type: "car,bike"}` |
| `FormValues.ExampleEmptyTextOmitted` | js/bikedata.js:139-144 | `date_from=2020-01-01` and an empty `date_to` encode to `{date_from: "2020-01-01"}` |
| `FormValues.ExampleSharedKeySpace` | js/bikedata.js:126-144 | a text control `type=bus` followed by a checked `type[]=car` encode to `{type: "bus,car"}` |
| `Popup.ReplaceAll` | js/bikedata.js:192 | computes JavaScript's `s.replace(/c/g, rep)` for a one-character pattern: every occurrence of `c` replaced by `rep` |
| `Popup.EscapeValue` | js/bikedata.js:192 | computes the escape chain: `&` replaced by `&amp;`, then `<` by `&lt;`, then `>` by `&gt;` |
| `Popup.EscapeIsCharwise` | js/bikedata.js:192 | the three replacements, in source order, escape each character on its own (the `&` of `&lt;` and `&gt;` is not escaped again) |
| `Popup.EscapeValueSafe` | js/bikedata.js:192 | an escaped value holds no `<` or `>`, each `&` in it begins `&amp;`, `&lt;` or `&gt;`, and decoding those entities gives back the value |
| `Popup.Filled` | js/bikedata.js:189-191 | computes the written-back property: a null value becomes `[null]` under the same key |
| `Popup.FillNulls` | js/bikedata.js:188-191 | computes the written-back properties, one per property in order |
| `Popup.Row` | js/bikedata.js:193 | computes one row: `<tr><td>`, the key as it is, `:</td><td><strong>`, the escaped value, `</strong></td></tr>` |
| `Popup.Rows` | js/bikedata.js:188-194 | computes the rows of the properties, one per property, in order, a null value shown as `[null]` |
| `Popup.PopupTable` | js/bikedata.js:187-195 | computes the popup content: `<table>`, the rows, `</table>` |
| `Popup.Feature.constructor` | js/bikedata.js:184-190 | a feature holds its properties in a field that the popup builder rewrites in place |
| `Popup.PopupHtml` | js/bikedata.js:184-199 | the feature keeps the number, order and keys of its properties, each null value becomes `[null]` and every other property is unchanged; the result is `<table>`, one row per property in order (key as is, value escaped, null shown as `[null]`), then `</table>` |
| `Popup.RowsConcat` | js/bikedata.js:188-194 | rows are emitted property by property: the rows of `a + b` are those of `a` followed by those of `b` |
| `Popup.WriteBackKeepsTable` | js/bikedata.js:188-193 | the written-back properties render the same table as the originals, and a second write-back changes nothing |
| `Popup.TableTagCount` | js/bikedata.js:187-195 | a consequence of the table's shape: its `<` are 2 of its own, 8 per property and those in the unescaped keys, so the escaped values add none |
| `Request.ApiData` | js/bikedata.js:157-164 | computes the request data as written: `bbox` and `key` only |
| `Request.ApiDataKeys` | js/bikedata.js:157-164 | the request data has exactly the keys `bbox` and `key`, holding the bounding box and the API key, whatever the form parameters |
| `Request.ParametersIgnored` | js/bikedata.js:153-164 | the form parameters passed to `getData` do not affect the request data |
| `Request.FormValuesNotSent` | js/bikedata.js:153-164 | no form parameter other than one named `bbox` or `key` reaches the request |
| `Request.CarFilterDropped` | js/bikedata.js:153-164 | the parameters `{type: "car"}` leave no `type` in the request |
| `Request.MergedApiData` | js/bikedata.js:153-164 | computes the intended request: the form parameters with `bbox` and `key` over them |
| `Request.MergedExtendsApiData` | js/bikedata.js:153-164 | the merged request less the form-only keys is the as-written request; it carries every form parameter, each one other than `bbox` and `key` with its own value, and `bbox` and `key` hold the bounding box and the API key |

## Findings

| source | as written | input that shows it | evidently intended | confidence | as-written member | corrected member |
|---|---|---|---|---|---|---|
| js/bikedata.js:153-164 | `getData(parameters)` builds the request data from `bbox` and `key` only; `parameters` is never read | parameters `{type: "car"}` from a checked `type[]=car`: `type` is not in the request (`Request.CarFilterDropped`) | the request carries the form parameters with `bbox` and `key`, since `formInteraction` (js/bikedata.js:93-101) re-parses the form on every change to pass them in | medium, not executed | `Request.ApiData` | `Request.MergedApiData` |

## Left out

- Map creation, the tile layer, hash support, the geolocation autocomplete and the tabs (js/bikedata.js:23-86) are calls into Leaflet, jQuery UI and the autocomplete widget.
- The event wiring on `moveend` and on form `change` (js/bikedata.js:60-62, 99-102) is left out. So is any ordering of overlapping requests: the code has no guard for it, and the concern is asynchronous completion order.
- The `$.ajax` call, its URL (`apiBaseUrl + '/v2/collisions.locations'`), the JSON error parsing and the `alert` (js/bikedata.js:167-179) are network I/O and UI.
- `showCurrentData` (js/bikedata.js:203-229) is Leaflet rendering. It never removes the previous layer, and an unknown severity gives an `undefined` icon URL.
- The jQuery lookups `tagName`, `.prop('type')`, `.attr('name')` and `.val()` are abstracted into the `Control` record.
- Multi-select values (arrays from `.val()`), a `null` from `.val()`, and controls without a `name` attribute are left out. The same goes for names such as `constructor` that JavaScript finds on the object prototype, so a fresh `{}` already has a truthy entry for them. These are host-object behaviours outside a map of strings.
- Property values other than strings and `null` are left out. JavaScript would fail on `.replace` for them.
- JavaScript's own key order for objects (integer-like keys first) is left out. The model takes the properties in whatever order the sequence gives.
