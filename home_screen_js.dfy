/** The entry form of the JavaScript home screen: the form record, the id of
    the entry being edited, the list of fetched entries, and the handlers that
    change them and call the store. */
module HomeScreenJs {
  import opened Records
  import opened Database

  /** `value === 1`: how this screen reads a stored flag. */
  function IsOne(v: int): bool
  {
    v == 1
  }

  /** The record `handleEdit` loads into the form from a fetched row, whatever
      its flag columns hold. Each flag is true exactly when its column holds 1;
      the image, the text columns, the timestamp and the self-exam text are
      copied; the row's id is not. */
  function EditedForm(item: Row): (f: Form)
    ensures f.id == None && f.isFromselfExam == Str(item.cols.isFromselfExam)
    ensures CopiesTexts(f, item.cols)
    ensures forall name :: Flag(f, name) <==> FlagValue(item.cols, name) == 1
    ensures FlagsCanonical(item.cols) ==> Encode(f) == item.cols
  {
    var c := item.cols;
    var f := Form(
      None,
      c.imageByteArray,
      c.bodyPartName,
      c.bodyPartType,
      c.risk,
      IsOne(c.assymetry),
      IsOne(c.irregularBorders),
      IsOne(c.variedColors),
      IsOne(c.diameterLargerThanSix),
      c.selectedSkinColor,
      c.analyzed,
      c.timeStamp,
      IsOne(c.isSelected),
      Str(c.isFromselfExam));
    f
  }

  /** A boolean written as `b ? 1 : 0` reads back as `b`. */
  lemma FlagRoundTrip(b: bool)
    ensures IsOne(FlagColumn(b)) == b
  {
  }

  /** Saving a form and loading the stored row back into the form gives the
      same record, except that the draft id is dropped and the self-exam
      value comes back as the text it was stored as. */
  lemma {:induction false} SaveThenEdit(d: Form, id: int)
    ensures EditedForm(Row(id, Encode(d))) == d.(id := None, isFromselfExam := Str(SelfExamText(d.isFromselfExam)))
  {
    var f := EditedForm(Row(id, Encode(d)));
    var g := d.(id := None, isFromselfExam := Str(SelfExamText(d.isFromselfExam)));
    forall name ensures Flag(f, name) == Flag(g, name) {
      assert FlagValue(Encode(d), name) == 1 <==> Flag(d, name);
    }
    FormsAgree(f, g);
  }

  /** A form whose self-exam value is already text survives saving and
      editing unchanged. */
  lemma SaveThenEditText(d: Form, id: int)
    requires d.id == None && d.isFromselfExam.Str?
    ensures EditedForm(Row(id, Encode(d))) == d
  {
    SaveThenEdit(d, id);
  }

  /** Opening a stored entry for editing and saving it without changes
      leaves the table as it was. */
  lemma ResaveKeepsTable(table: map<int, Columns>, id: int)
    requires id in table && FlagsCanonical(table[id])
    ensures Updated(table, id, Encode(EditedForm(Row(id, table[id])))) == table
  {
  }

  /** The home screen's state (`useState` hooks) over the shared store. */
  class Screen {
    var formData: Form
    var editingId: Option<int>
    var entries: seq<Row>
    const store: ScanStore

    /** The store is consistent, and this screen's form never carries an id. */
    ghost predicate Valid()
      reads this, store
    {
      store.Valid() && formData.id == None
    }

    /** The initial state; `now` stands for `Date.now()`. */
    constructor (store: ScanStore, now: int)
      requires store.Valid()
      ensures Valid() && this.store == store
      ensures formData == EmptyForm(now) && editingId == None && entries == []
    {
      this.store := store;
      formData := EmptyForm(now);
      editingId := None;
      entries := [];
    }

    /** `loadData`: replaces the entry list with the fetched rows; a rejected
        fetch leaves the list as it was. */
    method LoadData()
      requires Valid()
      modifies this`entries
      ensures Valid()
      ensures store.tableExists ==> Lists(entries, store.rows)
      ensures !store.tableExists ==> entries == old(entries)
    {
      var r, data := store.FetchData();
      if r.Ok? {
        entries := data;
      }
    }

    /** `clearForm`: every field back to its default, editing stops. */
    method ClearForm(now: int)
      requires Valid()
      modifies this`formData, this`editingId
      ensures Valid()
      ensures formData == EmptyForm(now) && editingId == None
    {
      formData := EmptyForm(now);
      editingId := None;
    }

    /** `handleEdit`: loads a fetched row into the form and remembers its id. */
    method HandleEdit(item: Row)
      requires Valid()
      modifies this`formData, this`editingId
      ensures Valid()
      ensures formData == EditedForm(item) && editingId == Some(item.id)
    {
      formData := EditedForm(item);
      editingId := Some(item.id);
    }

    /** `handleChange`: sets one text field to the typed text. */
    method HandleChange(name: TextField, text: string)
      requires Valid()
      modifies this`formData
      ensures Valid()
      ensures formData == Changed(old(formData), name, text)
    {
      formData := Changed(formData, name, text);
    }

    /** `toggleBoolean`: flips one Yes/No field. */
    method ToggleBoolean(name: FlagField)
      requires Valid()
      modifies this`formData
      ensures Valid()
      ensures formData == Toggled(old(formData), name)
    {
      formData := Toggled(formData, name);
    }

    /** `handleAddOrUpdate`: updates the row being edited, or inserts the form
        as a new row when nothing is being edited. When the statement
        succeeds, the entries are reloaded and the form is cleared; when it is
        rejected, the screen keeps its state. `r` is how the statement settled. */
    method HandleAddOrUpdate(now: int) returns (r: Outcome)
      requires Valid()
      modifies this, store
      ensures Valid()
      ensures store.tableExists == old(store.tableExists)
      ensures r.Ok? <==> old(store.tableExists) && (old(editingId).Some? || old(store.lastId) < MaxRowId)
      ensures old(editingId).Some? ==>
        store.rows == (if r.Ok? then Updated(old(store.rows), old(editingId).value, Encode(old(formData))) else old(store.rows))
      ensures old(editingId).None? && r.Ok? ==>
        store.lastId == old(store.lastId) + 1 && store.rows == old(store.rows)[store.lastId := Encode(old(formData))]
      ensures r.Err? ==> store.rows == old(store.rows)
      ensures old(editingId).Some? || r.Err? ==>
        store.lastId == old(store.lastId) && store.issued == old(store.issued)
      ensures old(editingId).None? && r.Ok? ==> store.issued == old(store.issued) + {store.lastId}
      ensures r.Ok? ==> formData == EmptyForm(now) && editingId == None && Lists(entries, store.rows)
      ensures r.Err? ==> formData == old(formData) && editingId == old(editingId) && entries == old(entries)
    {
      if editingId.Some? {
        r := store.UpdateData(editingId.value, formData);
      } else {
        r := store.InsertData(formData);
      }
      if r.Ok? {
        LoadData();
        ClearForm(now);
      }
    }

    /** `handleDelete`: deletes the row only when the user confirms; the entries
        are reloaded after a successful delete. The form is not touched. */
    method HandleDelete(id: int, confirmed: bool)
      requires Valid()
      modifies this, store
      ensures Valid()
      ensures formData == old(formData) && editingId == old(editingId)
      ensures store.tableExists == old(store.tableExists) && store.lastId == old(store.lastId)
      ensures !confirmed ==> store.rows == old(store.rows) && entries == old(entries)
      ensures confirmed ==> store.rows == (if old(store.tableExists) then old(store.rows) - {id} else old(store.rows))
      ensures confirmed && store.tableExists ==> Lists(entries, store.rows)
      ensures !store.tableExists ==> entries == old(entries)
      ensures store.issued == old(store.issued)
    {
      if confirmed {
        var r := store.DeleteData(id);
        if r.Ok? {
          LoadData();
        }
      }
    }
  }

  /** Deleting the entry that is open for editing does not stop the edit: the
      next submit updates a row that no longer exists, which changes nothing,
      and still reports success and clears the form. */
  method DeleteWhileEditing(screen: Screen, item: Row, now: int)
    requires screen.Valid() && screen.store.tableExists
    modifies screen, screen.store
    ensures screen.Valid()
    ensures screen.store.rows == old(screen.store.rows) - {item.id}
    ensures screen.formData == EmptyForm(now) && screen.editingId == None
  {
    screen.HandleEdit(item);
    screen.HandleDelete(item.id, true);
    var r := screen.HandleAddOrUpdate(now);
    assert r.Ok?;
  }
}
