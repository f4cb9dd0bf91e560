/** The edit side panel (src/components/SidePanel.tsx, and its copy in the example
    application, example/src/components/SidePanel.tsx): a form initialised from the
    selected record, edited field by field, and a Save button enabled only while the
    form differs from the record. */
module SidePanel {
  import opened Common
  import opened Tree

  /** The form's state, `Partial<DataItem>`: a missing key reads as undefined. */
  type Form = map<string, Value>

  /** `formData[key]`. */
  function FormField(form: Form, key: string): Value
  {
    if key in form then form[key] else Undefined
  }

  /** The three fields the form tracks. */
  predicate Tracked(key: string)
  {
    key == "name" || key == "dateTime" || key == "orchestration"
  }

  /** The form the item effect sets for a record: its name, date and orchestration. */
  function FormFor(item: Node): (r: Form)
    ensures r.Keys == {"name", "dateTime", "orchestration"}
    ensures forall key :: Tracked(key) ==> FormField(r, key) == Field(item, key)
  {
    map["name" := Field(item, "name"), "dateTime" := Field(item, "dateTime"), "orchestration" := Field(item, "orchestration")]
  }

  /** `hasChanges`: false without a record; otherwise whether any of the three tracked
      fields differs from the record's. */
  predicate HasChanges(form: Form, item: Option<Node>)
  {
    item.Some? &&
      (FormField(form, "name") != Field(item.value, "name")
       || FormField(form, "dateTime") != Field(item.value, "dateTime")
       || FormField(form, "orchestration") != Field(item.value, "orchestration"))
  }

  /** `hasChanges` holds exactly when some tracked field differs from the record. */
  lemma HasChangesMeaning(form: Form, item: Option<Node>)
    ensures item.None? ==> !HasChanges(form, item)
    ensures item.Some? ==> (HasChanges(form, item) <==> exists key :: Tracked(key) && FormField(form, key) != Field(item.value, key))
  {
    if item.Some? && HasChanges(form, item) {
      if FormField(form, "name") != Field(item.value, "name") {
        assert Tracked("name");
      } else if FormField(form, "dateTime") != Field(item.value, "dateTime") {
        assert Tracked("dateTime");
      } else {
        assert Tracked("orchestration");
      }
    }
  }

  /** Right after the record arrives the form has no changes. */
  lemma FreshFormUnchanged(item: Node)
    ensures !HasChanges(FormFor(item), Some(item))
  {
  }

  /** Editing a field of a form that matches the record makes a change exactly when the
      field is tracked and the new value differs; status and other fields never count. */
  lemma SingleEdit(form: Form, item: Node, key: string, value: string)
    requires !HasChanges(form, Some(item))
    ensures HasChanges(form[key := Str(value)], Some(item)) <==> Tracked(key) && Str(value) != Field(item, key)
  {
  }

  /** Edits of untracked fields, such as the status, never change `hasChanges`. */
  lemma UntrackedEditIgnored(form: Form, item: Option<Node>, key: string, value: string)
    requires !Tracked(key)
    ensures HasChanges(form[key := Str(value)], item) == HasChanges(form, item)
  {
    assert FormField(form[key := Str(value)], "name") == FormField(form, "name");
    assert FormField(form[key := Str(value)], "dateTime") == FormField(form, "dateTime");
    assert FormField(form[key := Str(value)], "orchestration") == FormField(form, "orchestration");
  }

  /** What the panel draws: nothing unless open with a record, otherwise the form with the
      Save button disabled exactly when there are no changes. */
  datatype PanelView = NotDrawn | Drawn(saveDisabled: bool)

  function View(isOpen: bool, item: Option<Node>, form: Form): (r: PanelView)
    ensures r.Drawn? <==> isOpen && item.Some?
    ensures r.Drawn? ==> (r.saveDisabled <==> !HasChanges(form, item))
  {
    if !isOpen || item.None? then NotDrawn else Drawn(!HasChanges(form, item))
  }

  /** The panel's form state. */
  class Panel {
    var formData: Form

    /** `useState({})`. */
    constructor ()
      ensures formData == map[]
    {
      formData := map[];
    }

    /** The item effect: a record replaces the form by its three fields; no record leaves
        the form as it was. */
    method SyncItem(item: Option<Node>)
      modifies this
      ensures item.Some? ==> formData == FormFor(item.value)
      ensures item.None? ==> formData == old(formData)
    {
      if item.Some? {
        var it := item.value;
        formData := map["name" := Field(it, "name"), "dateTime" := Field(it, "dateTime"), "orchestration" := Field(it, "orchestration")];
      }
    }

    /** `handleInputChange(field, value)`: sets one field, keeps the others. */
    method HandleInputChange(field: string, value: string)
      modifies this
      ensures formData == old(formData)[field := Str(value)]
      ensures forall key :: key != field ==> FormField(formData, key) == FormField(old(formData), key)
    {
      formData := formData[field := Str(value)];
    }
  }

  /** A record arrives, one tracked field is edited away from it and then back: the Save
      button goes from disabled to enabled and back to disabled. */
  method EditAndRevert(item: Node, key: string, value: string) returns (before: bool, during: bool, after: bool)
    requires Tracked(key) && Str(value) != Field(item, key) && Field(item, key).Str?
    ensures !before && during && !after
  {
    var panel := new Panel();
    panel.SyncItem(Some(item));
    before := HasChanges(panel.formData, Some(item));
    panel.HandleInputChange(key, value);
    SingleEdit(FormFor(item), item, key, value);
    during := HasChanges(panel.formData, Some(item));
    var original := Field(item, key).s;
    panel.HandleInputChange(key, original);
    assert panel.formData == FormFor(item);
    after := HasChanges(panel.formData, Some(item));
  }
}
