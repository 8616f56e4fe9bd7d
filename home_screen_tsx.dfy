/** The entry form of the TypeScript home screen. It differs from the
    JavaScript screen in three ways: submitting requires a body-part name and
    a risk, editing reads flags with `Boolean(...)` and keeps every field of
    the item, and picking an image guards against an empty asset list. */
module HomeScreenTsx {
  import opened Records
  import opened Database
  import HomeScreenJs

  /** `Boolean(value)` on a number: false exactly for 0. */
  function Truthy(v: int): bool
  {
    v != 0
  }

  /** The record `handleEdit` builds with `{ ...item, flag: Boolean(item.flag) }`:
      every field of the item is kept, the id included, and a flag is true
      exactly when its column is non-zero. */
  function EditedForm(itemId: Option<int>, item: Columns): (f: Form)
    ensures f.id == itemId && f.isFromselfExam == Str(item.isFromselfExam)
    ensures CopiesTexts(f, item)
    ensures forall name :: Flag(f, name) <==> FlagValue(item, name) != 0
    ensures FlagsCanonical(item) ==> Encode(f) == item
  {
    Form(
      itemId,
      item.imageByteArray,
      item.bodyPartName,
      item.bodyPartType,
      item.risk,
      Truthy(item.assymetry),
      Truthy(item.irregularBorders),
      Truthy(item.variedColors),
      Truthy(item.diameterLargerThanSix),
      item.selectedSkinColor,
      item.analyzed,
      item.timeStamp,
      Truthy(item.isSelected),
      Str(item.isFromselfExam))
  }

  /** The two screens read a stored flag the same way exactly when it is 0 or 1. */
  lemma FlagReadersAgree(v: int)
    ensures HomeScreenJs.IsOne(v) == Truthy(v) <==> v == 0 || v == 1
  {
  }

  /** On rows the store wrote, the two screens load the same record, apart
      from this screen keeping the id. */
  lemma {:induction false} EditorsAgreeOnStoredRows(item: Row)
    requires FlagsCanonical(item.cols)
    ensures EditedForm(Some(item.id), item.cols) == HomeScreenJs.EditedForm(item).(id := Some(item.id))
  {
    var f := EditedForm(Some(item.id), item.cols);
    var g := HomeScreenJs.EditedForm(item).(id := Some(item.id));
    forall name ensures Flag(f, name) == Flag(g, name) {
      FlagReadersAgree(FlagValue(item.cols, name));
    }
    FormsAgree(f, g);
  }

  /** A flag column holding 2 loads as false on the JavaScript screen and as
      true here, so saving the entry again writes 0 from one screen and 1
      from the other. */
  lemma EditorsDisagreeOnTwo(item: Row)
    requires item.cols.assymetry == 2
    ensures !HomeScreenJs.EditedForm(item).assymetry && EditedForm(Some(item.id), item.cols).assymetry
    ensures Encode(HomeScreenJs.EditedForm(item)).assymetry == 0
    ensures Encode(EditedForm(Some(item.id), item.cols)).assymetry == 1
  {
    assert FlagValue(item.cols, Assymetry) == 2;
    assert Flag(HomeScreenJs.EditedForm(item), Assymetry) == false;
    assert Flag(EditedForm(Some(item.id), item.cols), Assymetry) == true;
  }

  /** The guard of `handleAddOrUpdate`: `!name || !risk` is false, and the
      empty string is the only falsy string, so both texts are non-empty. */
  predicate Complete(f: Form)
  {
    f.bodyPartName != "" && f.risk != ""
  }

  /** A cleared form is refused; typing a body-part name and a risk into it
      makes it acceptable exactly when both typed texts are non-empty. */
  lemma {:induction false} FillingRequiredFields(now: int, name: string, risk: string)
    ensures !Complete(EmptyForm(now))
    ensures Complete(Changed(Changed(EmptyForm(now), BodyPartName, name), Risk, risk)) <==> name != "" && risk != ""
  {
    var f := Changed(Changed(EmptyForm(now), BodyPartName, name), Risk, risk);
    assert Field(f, BodyPartName) == Str(name);
    assert Field(f, Risk) == Str(risk);
  }

  /** The home screen's state (`useState` hooks) over the shared store. */
  class Screen {
    var formData: Form
    var editingId: Option<int>
    var entries: seq<Row>
    const store: ScanStore

    ghost predicate Valid()
      reads this, store
    {
      store.Valid()
    }

    /** The initial state; `now` stands for `Date.now()`. */
    constructor (store: ScanStore, now: int)
      requires store.Valid()
      ensures Valid() && this.store == store
      ensures formData == EmptyForm(now) && editingId == None && entries == []
    {
      this.store := store;
      formData := EmptyForm(now);
      editingId := None;
      entries := [];
    }

    /** `loadData`: replaces the entry list with the fetched rows; a rejected
        fetch leaves the list as it was. */
    method LoadData()
      requires Valid()
      modifies this`entries
      ensures Valid()
      ensures store.tableExists ==> Lists(entries, store.rows)
      ensures !store.tableExists ==> entries == old(entries)
    {
      var r, data := store.FetchData();
      if r.Ok? {
        entries := data;
      }
    }

    /** `clearForm`: every field back to its default, editing stops. */
    method ClearForm(now: int)
      requires Valid()
      modifies this`formData, this`editingId
      ensures Valid()
      ensures formData == EmptyForm(now) && editingId == None
    {
      formData := EmptyForm(now);
      editingId := None;
    }

    /** `handleEdit`: loads an item into the form; editing continues with the
        item's id, or stops when the item has none (`item.id ?? null`). */
    method HandleEdit(itemId: Option<int>, item: Columns)
      requires Valid()
      modifies this`formData, this`editingId
      ensures Valid()
      ensures formData == EditedForm(itemId, item) && editingId == itemId
    {
      formData := EditedForm(itemId, item);
      editingId := itemId;
    }

    /** `handleChange`: sets one text field to the typed text. */
    method HandleChange(name: TextField, text: string)
      requires Valid()
      modifies this`formData
      ensures Valid()
      ensures formData == Changed(old(formData), name, text)
    {
      formData := Changed(formData, name, text);
    }

    /** `toggleBoolean`: flips one Yes/No field of the previous state. */
    method ToggleBoolean(name: FlagField)
      requires Valid()
      modifies this`formData
      ensures Valid()
      ensures formData == Toggled(old(formData), name)
    {
      formData := Toggled(formData, name);
    }

    /** The state update of `pickImage`: a cancelled pick or an empty asset
        list changes nothing; otherwise only the image text changes, to the
        first asset's base64 text, or "" when it has none (`base64Image || ""`). */
    method PickImage(canceled: bool, assets: seq<Option<string>>)
      requires Valid()
      modifies this`formData
      ensures Valid()
      ensures canceled || assets == [] ==> formData == old(formData)
      ensures !canceled && assets != [] && assets[0].Some? ==>
        formData == old(formData).(imageByteArray := assets[0].value)
      ensures !canceled && assets != [] && assets[0].None? ==>
        formData == old(formData).(imageByteArray := "")
    {
      if !canceled && |assets| > 0 {
        var base64Image := assets[0];
        formData := formData.(imageByteArray := if base64Image.Some? then base64Image.value else "");
      }
    }

    /** `handleAddOrUpdate`: an incomplete form is refused (None) and nothing
        changes. Otherwise the row being edited is updated, or the form is
        inserted when nothing is being edited; a successful statement reloads
        the entries and clears the form, a rejected one keeps the screen's state. */
    method HandleAddOrUpdate(now: int) returns (r: Option<Outcome>)
      requires Valid()
      modifies this, store
      ensures Valid()
      ensures store.tableExists == old(store.tableExists)
      ensures r.None? <==> !Complete(old(formData))
      ensures r.None? ==> store.rows == old(store.rows) && store.lastId == old(store.lastId)
      ensures r.None? ==> formData == old(formData) && editingId == old(editingId) && entries == old(entries)
      ensures r.Some? ==>
        (r.value.Ok? <==> old(store.tableExists) && (old(editingId).Some? || old(store.lastId) < MaxRowId))
      ensures r.Some? && old(editingId).Some? ==>
        store.rows == (if r.value.Ok? then Updated(old(store.rows), old(editingId).value, Encode(old(formData))) else old(store.rows))
      ensures r.Some? && old(editingId).None? && r.value.Ok? ==>
        store.lastId == old(store.lastId) + 1 && store.rows == old(store.rows)[store.lastId := Encode(old(formData))]
      ensures r.Some? && r.value.Err? ==> store.rows == old(store.rows)
      ensures r.None? || old(editingId).Some? || r.value.Err? ==>
        store.lastId == old(store.lastId) && store.issued == old(store.issued)
      ensures r == Some(Ok) && old(editingId).None? ==> store.issued == old(store.issued) + {store.lastId}
      ensures r == Some(Ok) ==> formData == EmptyForm(now) && editingId == None && Lists(entries, store.rows)
      ensures r.Some? && r.value.Err? ==>
        formData == old(formData) && editingId == old(editingId) && entries == old(entries)
    {
      if !Complete(formData) {
        return None;
      }
      var outcome;
      if editingId.Some? {
        outcome := store.UpdateData(editingId.value, formData);
      } else {
        outcome := store.InsertData(formData);
      }
      if outcome.Ok? {
        LoadData();
        ClearForm(now);
      }
      r := Some(outcome);
    }

    /** `handleDelete`: deletes the row only when the user confirms; the entries
        are reloaded after a successful delete. The form is not touched. */
    method HandleDelete(id: int, confirmed: bool)
      requires Valid()
      modifies this, store
      ensures Valid()
      ensures formData == old(formData) && editingId == old(editingId)
      ensures store.tableExists == old(store.tableExists) && store.lastId == old(store.lastId)
      ensures !confirmed ==> store.rows == old(store.rows) && entries == old(entries)
      ensures confirmed ==> store.rows == (if old(store.tableExists) then old(store.rows) - {id} else old(store.rows))
      ensures confirmed && store.tableExists ==> Lists(entries, store.rows)
      ensures !store.tableExists ==> entries == old(entries)
      ensures store.issued == old(store.issued)
    {
      if confirmed {
        var r := store.DeleteData(id);
        if r.Ok? {
          LoadData();
        }
      }
    }
  }
}
