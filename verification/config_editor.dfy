/** The form-configuration editor (AdminConfig.js): adding and removing fields
    behind a confirmation, changing a field's properties, the comma-separated
    options input, moving fields up and down, and saving or resetting. */
module ConfigEditor {
  import opened Wrappers
  import Text
  import Seqs
  import opened FormConfig

  /** The action waiting for confirmation. */
  datatype Action = AddField | RemoveField(id: int)

  /** The page's state: the working copy of the configuration, the banner
      message, whether the confirmation modal is open and what it confirms. */
  datatype Editor = Editor(config: Config, message: string, showConfirm: bool, pending: Option<Action>)

  /** The page starts from the live configuration, with nothing pending. */
  function Open(live: Config): (e: Editor)
    ensures e.config == live && e.pending.None? && !e.showConfirm
  {
    Editor(live, "", false, None)
  }

  function RemoveClick(e: Editor, id: int): (r: Editor)
    ensures r == e.(pending := Some(RemoveField(id)), showConfirm := true)
  {
    e.(pending := Some(RemoveField(id)), showConfirm := true)
  }

  function AddClick(e: Editor): (r: Editor)
    ensures r == e.(pending := Some(AddField), showConfirm := true)
  {
    e.(pending := Some(AddField), showConfirm := true)
  }

  /** The field "add" creates. The id and the name read the clock
      separately (two calls of `Date.now()`), so the name's number can be a
      later instant than the id. */
  function NewField(idNow: nat, nameNow: nat): Field
  {
    Field(idNow, "customField" + Text.NatToString(nameNow), "New Field", "text", false, Some([]), None, None, None, "")
  }

  function NotId(id: int): Field -> bool
  {
    (f: Field) => f.id != id
  }

  /** `handleConfirm`: "add" appends one new optional text field with no
      options; "remove" drops every field with the id and keeps the rest in
      order; either way the modal closes and nothing stays pending. */
  function HandleConfirm(e: Editor, idNow: nat, nameNow: nat): (r: Editor)
    ensures !r.showConfirm && r.pending.None? && r.message == e.message
    ensures e.pending.None? ==> r.config == e.config
    ensures e.pending == Some(AddField) ==>
      && |r.config| == |e.config| + 1
      && r.config[..|e.config|] == e.config
      && var f := r.config[|e.config|];
         f.id == idNow && f.fieldType == "text" && !f.required && f.options == Some([])
         && f.name == "customField" + Text.NatToString(nameNow)
    ensures e.pending.Some? && e.pending.value.RemoveField? ==>
      var id := e.pending.value.id;
      && (forall k :: 0 <= k < |r.config| ==> r.config[k].id != id)
      && (forall k :: 0 <= k < |e.config| && e.config[k].id != id ==> e.config[k] in r.config)
      && Seqs.IsSubsequence(r.config, e.config)
  {
    match e.pending
    case None => Editor(e.config, e.message, false, None)
    case Some(AddField) => Editor(e.config + [NewField(idNow, nameNow)], e.message, false, None)
    case Some(RemoveField(id)) =>
      Seqs.FilterIsSubsequence(e.config, NotId(id));
      Editor(Seqs.Filter(e.config, NotId(id)), e.message, false, None)
  }

  /** Adding a field and then removing it restores the configuration, as long
      as no existing field already had the new field's id. */
  lemma AddThenRemove(e: Editor, idNow: nat, nameNow: nat, later: nat, later': nat)
    requires e.pending == Some(AddField)
    requires forall k :: 0 <= k < |e.config| ==> e.config[k].id != idNow
    ensures HandleConfirm(RemoveClick(HandleConfirm(e, idNow, nameNow), idNow), later, later').config == e.config
  {
    Seqs.FilterAppend(e.config, [NewField(idNow, nameNow)], NotId(idNow));
    Seqs.FilterAll(e.config, NotId(idNow));
  }

  // ---------------------------------------------------------------------
  // editing one field

  /** The properties the editor sets, with their new values. */
  datatype Property = SetLabel(text: string) | SetType(fieldType: string) | SetRequired(required: bool)
                    | SetOptions(options: seq<string>)

  /** `{ ...item, [field]: value }`: the named property takes the value; id,
      name, placeholder, dependency and class never change. */
  function Apply(f: Field, p: Property): (r: Field)
    ensures r.id == f.id && r.name == f.name && r.placeholder == f.placeholder
    ensures r.dependsOn == f.dependsOn && r.dependsOnValue == f.dependsOnValue && r.className == f.className
    ensures p.SetLabel? ==> r.labelText == p.text && r.(labelText := f.labelText) == f
    ensures p.SetType? ==> r.fieldType == p.fieldType && r.(fieldType := f.fieldType) == f
    ensures p.SetRequired? ==> r.required == p.required && r.(required := f.required) == f
    ensures p.SetOptions? ==> r.options == Some(p.options) && r.(options := f.options) == f
  {
    match p
    case SetLabel(text) => f.(labelText := text)
    case SetType(t) => f.(fieldType := t)
    case SetRequired(b) => f.(required := b)
    case SetOptions(o) => f.(options := Some(o))
  }

  /** `handleFieldChange`: every field with the id gets the property; all
      other fields are untouched and the order is kept. */
  function FieldChange(c: Config, id: int, p: Property): (r: Config)
    ensures |r| == |c|
    ensures forall k :: 0 <= k < |c| && c[k].id != id ==> r[k] == c[k]
    ensures forall k :: 0 <= k < |c| && c[k].id == id ==> r[k] == Apply(c[k], p)
  {
    seq(|c|, k requires 0 <= k < |c| => if c[k].id == id then Apply(c[k], p) else c[k])
  }

  predicate SameProperty(p: Property, q: Property)
  {
    (p.SetLabel? && q.SetLabel?) || (p.SetType? && q.SetType?)
    || (p.SetRequired? && q.SetRequired?) || (p.SetOptions? && q.SetOptions?)
  }

  /** Setting the same property twice is setting it once; a later value of
      the same property replaces an earlier one. */
  lemma FieldChangeLastWins(c: Config, id: int, p: Property, q: Property)
    requires SameProperty(p, q)
    ensures FieldChange(FieldChange(c, id, p), id, q) == FieldChange(c, id, q)
  {
  }

  /** Editing never changes which ids are present or where. */
  lemma FieldChangeKeepsIds(c: Config, id: int, p: Property, k: int)
    requires 0 <= k < |c|
    ensures FieldChange(c, id, p)[k].id == c[k].id && FieldChange(c, id, p)[k].name == c[k].name
  {
  }

  /** `value.split(',').map(opt => opt.trim())`: one option per comma-separated
      piece, each trimmed. */
  function SplitOptions(text: string): (r: seq<string>)
    ensures |r| == Seqs.Occurrences(text, ',') + 1
    ensures forall k :: 0 <= k < |r| ==> Text.Trim(r[k]) == r[k]
  {
    var pieces := Text.Split(text, ',');
    forall k | 0 <= k < |pieces| ensures Text.Trim(Text.Trim(pieces[k])) == Text.Trim(pieces[k]) {
      Text.TrimOfTrimmed(Text.Trim(pieces[k]));
    }
    TrimAll(pieces)
  }

  function TrimAll(pieces: seq<string>): (r: seq<string>)
    ensures |r| == |pieces| && forall k :: 0 <= k < |r| ==> r[k] == Text.Trim(pieces[k])
  {
    if |pieces| == 0 then [] else [Text.Trim(pieces[0])] + TrimAll(pieces[1..])
  }

  /** `handleOptionsChange`. */
  function OptionsChange(c: Config, id: int, text: string): (r: Config)
    ensures |r| == |c|
    ensures forall k :: 0 <= k < |c| && c[k].id == id ==> r[k].options == Some(SplitOptions(text))
    ensures forall k :: 0 <= k < |c| && c[k].id != id ==> r[k] == c[k]
  {
    FieldChange(c, id, SetOptions(SplitOptions(text)))
  }

  /** Options that are trimmed and free of commas survive the trip through the
      input box: shown joined with ", " and read back, they are unchanged. */
  lemma {:induction false} OptionsRoundTrip(opts: seq<string>)
    requires |opts| > 0
    requires forall k :: 0 <= k < |opts| ==> ',' !in opts[k] && Text.Trim(opts[k]) == opts[k]
    ensures SplitOptions(Text.Join(opts, ", ")) == opts
  {
    if |opts| == 1 {
      OptionsSingle(opts[0]);
      assert opts == [opts[0]];
    } else {
      var tail := opts[1..];
      assert SplitOptions(Text.Join(tail, ", ")) == tail by {
        CleanOptionsTail(opts);
        OptionsRoundTrip(tail);
      }
      assert SplitOptions(Text.Join(opts, ", ")) == [opts[0]] + SplitOptions(Text.Join(tail, ", ")) by {
        OptionsStep(opts);
      }
      assert opts == [opts[0]] + tail;
    }
  }

  /** What holds of every option holds of every option after the first. */
  lemma CleanOptionsTail(opts: seq<string>)
    requires |opts| > 0
    requires forall k :: 0 <= k < |opts| ==> ',' !in opts[k] && Text.Trim(opts[k]) == opts[k]
    ensures forall k :: 0 <= k < |opts[1..]| ==> ',' !in opts[1..][k] && Text.Trim(opts[1..][k]) == opts[1..][k]
  {
  }

  /** A lone option is read back as itself. */
  lemma OptionsSingle(o: string)
    requires ',' !in o && Text.Trim(o) == o
    ensures SplitOptions(Text.Join([o], ", ")) == [o]
  {
    Text.SplitNoSeparator(o, ',');
    assert TrimAll([o]) == [Text.Trim(o)] + TrimAll([]) by {
      assert [o][1..] == [];
    }
  }

  /** The first option is read back, and the rest is read as the rest's own box. */
  lemma OptionsStep(opts: seq<string>)
    requires |opts| > 1 && ',' !in opts[0] && Text.Trim(opts[0]) == opts[0]
    ensures SplitOptions(Text.Join(opts, ", ")) == [opts[0]] + SplitOptions(Text.Join(opts[1..], ", "))
  {
    var j := Text.Join(opts[1..], ", ");
    var text := Text.Join(opts, ", ");
    assert text == opts[0] + ", " + j;
    CommaSpace(opts[0], j);
    Text.SplitAfterPiece(opts[0], [' '] + j, ',');
    var pieces := Text.Split(text, ',');
    assert pieces == [opts[0]] + Text.Split([' '] + j, ',');
    assert TrimAll(pieces) == [Text.Trim(opts[0])] + TrimAll(Text.Split([' '] + j, ',')) by {
      assert pieces[1..] == Text.Split([' '] + j, ',');
    }
    LeadingBlankPiece(j);
  }

  lemma CommaSpace(a: string, b: string)
    ensures a + ", " + b == a + [','] + ([' '] + b)
  {
    assert ", " == [','] + [' '];
  }

  /** A blank in front of the first piece is trimmed away. */
  lemma LeadingBlankPiece(j: string)
    ensures TrimAll(Text.Split([' '] + j, ',')) == TrimAll(Text.Split(j, ','))
  {
    var p := Text.Split(j, ',');
    var q := Text.Split([' '] + j, ',');
    assert ([' '] + j)[1..] == j;
    assert q == [[' '] + p[0]] + p[1..];
    Text.TrimLeadingSpace(p[0]);
    assert TrimAll(q) == [Text.Trim([' '] + p[0])] + TrimAll(p[1..]);
    assert TrimAll(p) == [Text.Trim(p[0])] + TrimAll(p[1..]);
  }

  /** Clearing the box does not clear the options: it leaves one empty option. */
  lemma ClearedOptions()
    ensures SplitOptions("") == [""]
  {
  }

  /** The options box as written: `field.options.join(', ')`, shown for
      dropdown and radio fields. `None` means the expression throws (the
      field has no `options` property) and the page fails to render. */
  function OptionsBoxAsWritten(f: Field): (r: Option<string>)
    requires HasChoices(f)
    ensures r.None? <==> f.options.None?
  {
    match f.options
    case None => None
    case Some(o) => Some(Text.Join(o, ", "))
  }

  /** Turning the default "Employee Name" field (which has no options) into a
      dropdown makes the options box throw. */
  lemma DefaultTextFieldToDropdownThrows()
    ensures var c := FieldChange(Default, 1, SetType("dropdown"));
      HasChoices(c[0]) && OptionsBoxAsWritten(c[0]).None?
  {
    assert Default[0].id == 1;
  }

  /** The options box with a missing list read as empty
      (`(field.options || []).join(', ')`): always defined, and a field whose
      options are trimmed and comma-free gets them back when the box is
      submitted unchanged. */
  function OptionsBox(f: Field): (r: string)
    ensures f.options.None? ==> r == ""
    ensures f.options.Some? ==> r == Text.Join(f.options.value, ", ")
    ensures f.options.Some? && HasChoices(f) ==> OptionsBoxAsWritten(f) == Some(r)
  {
    Text.Join(f.options.GetOr([]), ", ")
  }

  /** Re-submitting the corrected box unchanged is harmless for every field
      with well-formed options. */
  lemma OptionsBoxRoundTrip(c: Config, k: int)
    requires 0 <= k < |c| && c[k].options.Some? && |c[k].options.value| > 0
    requires forall i :: 0 <= i < |c[k].options.value| ==>
      ',' !in c[k].options.value[i] && Text.Trim(c[k].options.value[i]) == c[k].options.value[i]
    ensures OptionsChange(c, c[k].id, OptionsBox(c[k]))[k] == c[k]
  {
    OptionsRoundTrip(c[k].options.value);
  }

  // ---------------------------------------------------------------------
  // reordering

  /** `moveField(index, direction)`: take the field out and put it back at
      `index + direction` if that is a position of the shortened list;
      otherwise nothing changes. */
  function MoveField(c: Config, index: int, direction: int): (r: Config)
    requires 0 <= index < |c|
    ensures |r| == |c| && multiset(r) == multiset(c)
    ensures !(0 <= index + direction < |c|) ==> r == c
    ensures 0 <= index + direction < |c| ==>
      var n := index + direction;
      r[n] == c[index] && r[..n] + r[n + 1..] == c[..index] + c[index + 1..]
  {
    var rest := c[..index] + c[index + 1..];
    var n := index + direction;
    if 0 <= n <= |rest| then
      var r := rest[..n] + [c[index]] + rest[n..];
      assert r[..n] == rest[..n] && r[n + 1..] == rest[n..];
      assert rest[..n] + rest[n..] == rest;
      assert c == c[..index] + [c[index]] + c[index + 1..];
      assert multiset(r) == multiset(rest) + multiset{c[index]};
      assert multiset(c) == multiset(rest) + multiset{c[index]};
      r
    else c
  }

  /** A step of one is a swap of neighbours. */
  lemma MoveIsSwap(c: Config, index: int, direction: int, k: int)
    requires 0 <= index < |c| && (direction == 1 || direction == -1)
    requires 0 <= index + direction < |c| && 0 <= k < |c|
    ensures var r := MoveField(c, index, direction);
      r[k] == (if k == index + direction then c[index] else if k == index then c[index + direction] else c[k])
  {
    var r := MoveField(c, index, direction);
    var n := index + direction;
    var rest := c[..index] + c[index + 1..];
    assert r[..n] + r[n + 1..] == rest;
    if k < n {
      assert r[k] == (r[..n] + r[n + 1..])[k];
    } else if k > n {
      assert r[k] == (r[..n] + r[n + 1..])[k - 1];
    }
  }

  /** Moving a field up and then down again (or down and then up) restores the list. */
  lemma MoveUpThenDown(c: Config, index: int)
    requires 1 <= index < |c|
    ensures MoveField(MoveField(c, index, -1), index - 1, 1) == c
    ensures MoveField(MoveField(c, index - 1, 1), index, -1) == c
  {
    UpThenDown(c, index);
    DownThenUp(c, index - 1);
  }

  lemma UpThenDown(c: Config, index: int)
    requires 1 <= index < |c|
    ensures MoveField(MoveField(c, index, -1), index - 1, 1) == c
  {
    var up := MoveField(c, index, -1);
    var down := MoveField(up, index - 1, 1);
    forall k | 0 <= k < |c| ensures down[k] == c[k] {
      MoveIsSwap(c, index, -1, k);
      MoveIsSwap(up, index - 1, 1, k);
    }
  }

  lemma DownThenUp(c: Config, index: int)
    requires 0 <= index && index + 1 < |c|
    ensures MoveField(MoveField(c, index, 1), index + 1, -1) == c
  {
    var down := MoveField(c, index, 1);
    var up := MoveField(down, index + 1, -1);
    forall k | 0 <= k < |c| ensures up[k] == c[k] {
      MoveIsSwap(c, index, 1, k);
      MoveIsSwap(down, index + 1, -1, k);
    }
  }

  // ---------------------------------------------------------------------
  // saving and resetting

  /** `handleSave`: the working copy becomes the live, stored configuration. */
  function HandleSave(e: Editor, p: Provider): (r: (Editor, Provider))
    ensures r.0 == e.(message := "Configuration saved successfully!")
    ensures r.1.formConfig == e.config && Load(r.1.stored) == e.config
  {
    (e.(message := "Configuration saved successfully!"), Save(p, e.config))
  }

  /** `handleReset`, given the answer to the confirmation prompt: on "yes"
      the default form replaces both the working copy and the stored one. */
  function HandleReset(e: Editor, p: Provider, confirmed: bool): (r: (Editor, Provider))
    ensures !confirmed ==> r == (e, p)
    ensures confirmed ==>
      && r.0 == e.(config := Default, message := "Configuration has been reset to default.")
      && r.1.formConfig == Default && Load(r.1.stored) == Default
  {
    if confirmed then
      (e.(config := Default, message := "Configuration has been reset to default."), Save(p, Default))
    else (e, p)
  }

  /** After a confirmed reset, reopening the page shows the default form,
      whatever was edited or stored before. */
  lemma ResetThenReopen(e: Editor, p: Provider)
    ensures Open(Init(HandleReset(e, p, true).1.stored).formConfig).config == Default
  {
  }
}
