/** The shapes shared by the store and the screens of the skin-scan logger:
    the form record a user edits (`ScannedData`), the columns of a row of the
    `scanned_data` table, and the pure updates the entry form applies to its record. */
module Records {

  datatype Option<T> = None | Some(value: T)

  /** A JavaScript scalar: the declared type of the self-exam field is
      `string | number | boolean`. Numbers are modelled as integers. */
  datatype Scalar = Bool(b: bool) | Num(n: int) | Str(s: string)

  /** The form record (`ScannedData`): typed booleans, a numeric timestamp,
      an optional id (absent on drafts) and the polymorphic self-exam flag. */
  datatype Form = Form(
    id: Option<int>,
    imageByteArray: string,
    bodyPartName: string,
    bodyPartType: string,
    risk: string,
    assymetry: bool,
    irregularBorders: bool,
    variedColors: bool,
    diameterLargerThanSix: bool,
    selectedSkinColor: string,
    analyzed: string,
    timeStamp: int,
    isSelected: bool,
    isFromselfExam: Scalar)

  /** The thirteen data columns of a `scanned_data` row: TEXT columns as strings,
      INTEGER columns as integers (the flags are whatever integer the row holds). */
  datatype Columns = Columns(
    imageByteArray: string,
    bodyPartName: string,
    bodyPartType: string,
    risk: string,
    assymetry: int,
    irregularBorders: int,
    variedColors: int,
    diameterLargerThanSix: int,
    selectedSkinColor: string,
    analyzed: string,
    timeStamp: int,
    isSelected: int,
    isFromselfExam: string)

  /** A row as `SELECT *` returns it: the primary key and the data columns. */
  datatype Row = Row(id: int, cols: Columns)

  /** The form holds the row's image, its five free-text columns and its
      timestamp, unchanged. */
  predicate CopiesTexts(f: Form, c: Columns)
  {
    && f.imageByteArray == c.imageByteArray
    && f.bodyPartName == c.bodyPartName
    && f.bodyPartType == c.bodyPartType
    && f.risk == c.risk
    && f.selectedSkinColor == c.selectedSkinColor
    && f.analyzed == c.analyzed
    && f.timeStamp == c.timeStamp
  }

  /** The five fields the form shows as Yes/No toggles. */
  datatype FlagField = Assymetry | IrregularBorders | VariedColors | DiameterLargerThanSix | IsSelected

  /** The fields the form edits through text inputs. */
  datatype TextField = BodyPartName | BodyPartType | Risk | SelectedSkinColor | Analyzed | IsFromselfExam

  function Flag(f: Form, name: FlagField): bool
  {
    match name
    case Assymetry => f.assymetry
    case IrregularBorders => f.irregularBorders
    case VariedColors => f.variedColors
    case DiameterLargerThanSix => f.diameterLargerThanSix
    case IsSelected => f.isSelected
  }

  /** The stored integer of a flag column. */
  function FlagValue(c: Columns, name: FlagField): int
  {
    match name
    case Assymetry => c.assymetry
    case IrregularBorders => c.irregularBorders
    case VariedColors => c.variedColors
    case DiameterLargerThanSix => c.diameterLargerThanSix
    case IsSelected => c.isSelected
  }

  /** The value a text input shows for its field, as a JavaScript scalar. */
  function Field(f: Form, name: TextField): Scalar
  {
    match name
    case BodyPartName => Str(f.bodyPartName)
    case BodyPartType => Str(f.bodyPartType)
    case Risk => Str(f.risk)
    case SelectedSkinColor => Str(f.selectedSkinColor)
    case Analyzed => Str(f.analyzed)
    case IsFromselfExam => f.isFromselfExam
  }

  /** The record the form starts with and returns to after `clearForm`;
      `now` stands for `Date.now()`. */
  function EmptyForm(now: int): (f: Form)
    ensures f.id == None && f.imageByteArray == "" && f.timeStamp == now
    ensures forall name :: !Flag(f, name)
    ensures forall name :: name != IsFromselfExam ==> Field(f, name) == Str("")
    ensures f.isFromselfExam == Str("1")
  {
    Form(None, "", "", "", "", false, false, false, false, "", "", now, false, Str("1"))
  }

  /** `{ ...form, [name]: !form[name] }` for a toggle field. */
  function Toggled(f: Form, name: FlagField): (r: Form)
    ensures Flag(r, name) == !Flag(f, name)
    ensures forall other :: other != name ==> Flag(r, other) == Flag(f, other)
    ensures forall t :: Field(r, t) == Field(f, t)
    ensures r.id == f.id && r.imageByteArray == f.imageByteArray && r.timeStamp == f.timeStamp
  {
    match name
    case Assymetry => f.(assymetry := !f.assymetry)
    case IrregularBorders => f.(irregularBorders := !f.irregularBorders)
    case VariedColors => f.(variedColors := !f.variedColors)
    case DiameterLargerThanSix => f.(diameterLargerThanSix := !f.diameterLargerThanSix)
    case IsSelected => f.(isSelected := !f.isSelected)
  }

  /** `{ ...form, [name]: text }` for a text input; the self-exam input stores
      the typed text, so that field becomes a string. */
  function Changed(f: Form, name: TextField, text: string): (r: Form)
    ensures Field(r, name) == Str(text)
    ensures forall other :: other != name ==> Field(r, other) == Field(f, other)
    ensures forall flag :: Flag(r, flag) == Flag(f, flag)
    ensures r.id == f.id && r.imageByteArray == f.imageByteArray && r.timeStamp == f.timeStamp
  {
    match name
    case BodyPartName => f.(bodyPartName := text)
    case BodyPartType => f.(bodyPartType := text)
    case Risk => f.(risk := text)
    case SelectedSkinColor => f.(selectedSkinColor := text)
    case Analyzed => f.(analyzed := text)
    case IsFromselfExam => f.(isFromselfExam := Str(text))
  }

  /** Two forms that agree on every field the form shows are the same record. */
  lemma {:induction false} FormsAgree(f: Form, g: Form)
    requires forall name :: Flag(f, name) == Flag(g, name)
    requires forall name :: Field(f, name) == Field(g, name)
    requires f.id == g.id && f.imageByteArray == g.imageByteArray && f.timeStamp == g.timeStamp
    ensures f == g
  {
    assert Flag(f, Assymetry) == Flag(g, Assymetry);
    assert Flag(f, IrregularBorders) == Flag(g, IrregularBorders);
    assert Flag(f, VariedColors) == Flag(g, VariedColors);
    assert Flag(f, DiameterLargerThanSix) == Flag(g, DiameterLargerThanSix);
    assert Flag(f, IsSelected) == Flag(g, IsSelected);
    assert Field(f, BodyPartName) == Field(g, BodyPartName);
    assert Field(f, BodyPartType) == Field(g, BodyPartType);
    assert Field(f, Risk) == Field(g, Risk);
    assert Field(f, SelectedSkinColor) == Field(g, SelectedSkinColor);
    assert Field(f, Analyzed) == Field(g, Analyzed);
    assert Field(f, IsFromselfExam) == Field(g, IsFromselfExam);
  }

  /** Toggling the same field twice restores the form. */
  lemma {:induction false} ToggleTwice(f: Form, name: FlagField)
    ensures Toggled(Toggled(f, name), name) == f
  {
    var g := Toggled(Toggled(f, name), name);
    forall other ensures Flag(g, other) == Flag(f, other) {
      if other != name {
        assert Flag(Toggled(f, name), other) == Flag(f, other);
      }
    }
    FormsAgree(g, f);
  }
}
