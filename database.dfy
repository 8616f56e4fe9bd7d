/** The `scanned_data` store: the column encoding shared by insert and update,
    and the table itself with SQLite's `INTEGER PRIMARY KEY AUTOINCREMENT` id rules. */
module Database {
  import opened Records

  /** The largest rowid SQLite can hand out (2^63 - 1). */
  const MaxRowId: int := 0x7FFF_FFFF_FFFF_FFFF

  /** Why a statement is rejected: the table has not been created yet
      ("no such table"), or AUTOINCREMENT has used up every rowid (SQLITE_FULL). */
  datatype DbError = NoSuchTable | Full

  /** The settled state of a statement's promise; the completion callback runs only on `Ok`. */
  datatype Outcome = Ok | Err(error: DbError)

  // ---------------------------------------------------------------------------
  // Decimal text of an integer (Number.prototype.toString on an integral number)

  predicate IsDigit(c: char)
  {
    '0' <= c <= '9'
  }

  function DigitChar(d: int): (c: char)
    requires 0 <= d < 10
    ensures IsDigit(c) && c as int - '0' as int == d
  {
    ('0' as int + d) as char
  }

  /** The decimal digits of `n`, most significant first, without leading zeros. */
  function DecimalText(n: nat): (s: string)
    ensures |s| > 0 && forall i :: 0 <= i < |s| ==> IsDigit(s[i])
    ensures s[0] == '0' ==> n == 0
    decreases n
  {
    if n < 10 then [DigitChar(n)] else DecimalText(n / 10) + [DigitChar(n % 10)]
  }

  /** The value of a string of decimal digits. */
  function DecimalValue(s: string): int
    requires forall i :: 0 <= i < |s| ==> IsDigit(s[i])
  {
    if s == [] then 0
    else DecimalValue(s[..|s| - 1]) * 10 + (s[|s| - 1] as int - '0' as int)
  }

  /** `n.toString()` for an integral JavaScript number below 10^21 in
      magnitude: a minus sign exactly for negative numbers, then the decimal
      digits of the magnitude. */
  function NumberText(n: int): (s: string)
    ensures |s| > 0 && (s[0] == '-' <==> n < 0)
    ensures forall i :: (if n < 0 then 1 else 0) <= i < |s| ==> IsDigit(s[i])
  {
    if n < 0 then "-" + DecimalText(-n) else DecimalText(n)
  }

  /** Reading the digits back gives the number: no two naturals share a text. */
  lemma {:induction false} DecimalRoundTrip(n: nat)
    ensures DecimalValue(DecimalText(n)) == n
    decreases n
  {
    var s := DecimalText(n);
    if n >= 10 {
      DecimalRoundTrip(n / 10);
      assert s[..|s| - 1] == DecimalText(n / 10);
    }
  }

  /** The number stored for a numeric self-exam flag determines the number. */
  lemma NumberTextInjective(a: int, b: int)
    requires NumberText(a) == NumberText(b)
    ensures a == b
  {
    if a < 0 && b < 0 {
      assert DecimalText(-a) == NumberText(a)[1..];
      assert DecimalText(-b) == NumberText(b)[1..];
      DecimalRoundTrip(-a);
      DecimalRoundTrip(-b);
    } else if a >= 0 && b >= 0 {
      DecimalRoundTrip(a);
      DecimalRoundTrip(b);
    }
  }

  // ---------------------------------------------------------------------------
  // The column encoding

  /** `flag ? 1 : 0` */
  function FlagColumn(b: bool): int
  {
    if b then 1 else 0
  }

  /** The self-exam column: a boolean becomes "1" or "0"; any other value is
      stored as its `toString()`, uninterpreted. */
  function SelfExamText(v: Scalar): (t: string)
    ensures v.Bool? ==> (t == "1" <==> v.b) && (t == "0" <==> !v.b)
    ensures v.Str? ==> t == v.s
  {
    match v
    case Bool(b) => if b then "1" else "0"
    case Num(n) => NumberText(n)
    case Str(s) => s
  }

  /** The five flag columns each hold 0 or 1. */
  predicate FlagsCanonical(c: Columns)
  {
    && c.assymetry in {0, 1}
    && c.irregularBorders in {0, 1}
    && c.variedColors in {0, 1}
    && c.diameterLargerThanSix in {0, 1}
    && c.isSelected in {0, 1}
  }

  /** The parameter list bound by both INSERT and UPDATE. The draft's `id`
      is not one of the columns, so it is ignored. */
  function Encode(d: Form): (c: Columns)
    ensures FlagsCanonical(c)
    ensures forall name :: FlagValue(c, name) == 1 <==> Flag(d, name)
  {
    Columns(
      d.imageByteArray,
      d.bodyPartName,
      d.bodyPartType,
      d.risk,
      FlagColumn(d.assymetry),
      FlagColumn(d.irregularBorders),
      FlagColumn(d.variedColors),
      FlagColumn(d.diameterLargerThanSix),
      d.selectedSkinColor,
      d.analyzed,
      d.timeStamp,
      FlagColumn(d.isSelected),
      SelfExamText(d.isFromselfExam))
  }

  /** The draft's id never reaches the columns. */
  lemma EncodeIgnoresId(d: Form, id: Option<int>)
    ensures Encode(d.(id := id)) == Encode(d)
  {
  }

  /** What the self-exam column holds for the values the form can carry:
      booleans are normalised, anything else is kept as text, so the string
      "true" is NOT stored like the boolean true. */
  lemma SelfExamEncodings()
    ensures SelfExamText(Bool(true)) == "1" && SelfExamText(Bool(false)) == "0"
    ensures SelfExamText(Num(1)) == "1" && SelfExamText(Num(0)) == "0"
    ensures SelfExamText(Str("maybe")) == "maybe"
    ensures SelfExamText(Str("true")) != SelfExamText(Bool(true))
  {
    assert DecimalText(1) == "1";
    assert DecimalText(0) == "0";
  }

  // ---------------------------------------------------------------------------
  // Statement effects on the table

  /** The rows after `UPDATE ... WHERE id = ?` binds columns `c`: the matching
      row, if any, gets `c`; every other row, and the set of ids, stays. */
  function Updated(table: map<int, Columns>, id: int, c: Columns): (t: map<int, Columns>)
    ensures t.Keys == table.Keys
    ensures id in table ==> t[id] == c
    ensures forall k :: k in table && k != id ==> t[k] == table[k]
    ensures id !in table ==> t == table
  {
    if id in table then table[id := c] else table
  }

  // ---------------------------------------------------------------------------
  // Reading the table

  /** `s` lists the rows of `table`: each stored row exactly once, as stored,
      in no particular order. */
  ghost predicate Lists(s: seq<Row>, table: map<int, Columns>)
  {
    && (forall i, j :: 0 <= i < j < |s| ==> s[i].id != s[j].id)
    && (forall i :: 0 <= i < |s| ==> s[i].id in table && table[s[i].id] == s[i].cols)
    && table.Keys <= Ids(s)
  }

  /** The ids a sequence of rows carries. */
  function Ids(s: seq<Row>): set<int>
  {
    set i | 0 <= i < |s| :: s[i].id
  }

  lemma IdsAppend(s: seq<Row>, r: Row)
    ensures Ids(s + [r]) == Ids(s) + {r.id}
  {
    var t := s + [r];
    assert t[|s|] == r;
    assert forall i :: 0 <= i < |s| ==> t[i] == s[i];
  }

  lemma {:induction false} DistinctIdsCount(s: seq<Row>)
    requires forall i, j :: 0 <= i < j < |s| ==> s[i].id != s[j].id
    ensures |Ids(s)| == |s|
  {
    if s != [] {
      var t := s[..|s| - 1];
      DistinctIdsCount(t);
      assert s == t + [s[|s| - 1]];
      IdsAppend(t, s[|s| - 1]);
      assert s[|s| - 1].id !in Ids(t);
    }
  }

  /** A listing has exactly as many entries as the table has rows. */
  lemma ListsLength(s: seq<Row>, table: map<int, Columns>)
    requires Lists(s, table)
    ensures |s| == |table|
  {
    assert Ids(s) == table.Keys;
    DistinctIdsCount(s);
  }

  /** A listing holds every stored row somewhere. */
  lemma ListedAt(t: seq<Row>, table: map<int, Columns>, id: int) returns (j: nat)
    requires Lists(t, table) && id in table
    ensures j < |t| && t[j] == Row(id, table[id])
  {
    assert id in Ids(t);
    j :| 0 <= j < |t| && t[j].id == id;
  }

  /** Rows with distinct ids occur at most once each. */
  lemma {:induction false} DistinctRowsOnce(s: seq<Row>, x: Row)
    requires forall i, j :: 0 <= i < j < |s| ==> s[i].id != s[j].id
    ensures multiset(s)[x] == if x in s then 1 else 0
  {
    if s != [] {
      var init, last := s[..|s| - 1], s[|s| - 1];
      assert s == init + [last];
      DistinctRowsOnce(init, x);
      forall k | 0 <= k < |init| ensures init[k] != last {
        assert s[k].id != s[|s| - 1].id;
      }
    }
  }

  /** A listing holds a row exactly when the table stores it. */
  lemma ListedIff(s: seq<Row>, table: map<int, Columns>, x: Row)
    requires Lists(s, table)
    ensures x in s <==> x.id in table && table[x.id] == x.cols
  {
    if x.id in table && table[x.id] == x.cols {
      var j := ListedAt(s, table, x.id);
    }
  }

  /** Any two listings of the same table hold the same rows: the order is the
      only thing a fetch leaves open. */
  lemma ListingsArePermutations(s: seq<Row>, t: seq<Row>, table: map<int, Columns>)
    requires Lists(s, table) && Lists(t, table)
    ensures multiset(s) == multiset(t)
  {
    forall x ensures multiset(s)[x] == multiset(t)[x] {
      DistinctRowsOnce(s, x);
      DistinctRowsOnce(t, x);
      ListedIff(s, table, x);
      ListedIff(t, table, x);
    }
  }

  // ---------------------------------------------------------------------------
  // The table

  /** The `scanned_data` table of the local database. */
  class ScanStore {
    /** Whether `CREATE TABLE` has run. */
    var tableExists: bool
    /** The rows, keyed by their primary key. */
    var rows: map<int, Columns>
    /** The table's entry in `sqlite_sequence`: the largest id ever handed out (0 when none). */
    var lastId: int
    /** Every id ever handed out, including those of deleted rows. */
    ghost var issued: set<int>

    ghost predicate Valid()
      reads this
    {
      && rows.Keys <= issued
      && (forall id :: id in issued ==> 1 <= id <= lastId)
      && 0 <= lastId <= MaxRowId
      && (!tableExists ==> rows == map[] && lastId == 0 && issued == {})
      && (forall id :: id in rows ==> FlagsCanonical(rows[id]))
    }

    /** A database file without the table. */
    constructor ()
      ensures Valid() && !tableExists && rows == map[] && lastId == 0
    {
      tableExists := false;
      rows := map[];
      lastId := 0;
      issued := {};
    }

    /** `CREATE TABLE IF NOT EXISTS`: creates an empty table the first time and
        changes nothing afterwards. */
    method CreateTable()
      requires Valid()
      modifies this
      ensures Valid() && tableExists
      ensures old(tableExists) ==> rows == old(rows) && lastId == old(lastId) && issued == old(issued)
      ensures !old(tableExists) ==> rows == map[] && lastId == 0
    {
      if !tableExists {
        tableExists := true;
        rows := map[];
        lastId := 0;
      }
    }

    /** `INSERT` of the encoded draft; the new row's id is one past the largest
        id ever handed out, so it is larger than every earlier id, deleted or not. */
    method InsertData(d: Form) returns (r: Outcome)
      requires Valid()
      modifies this
      ensures Valid() && tableExists == old(tableExists)
      ensures !old(tableExists) ==> r == Err(NoSuchTable)
      ensures old(tableExists) && old(lastId) == MaxRowId ==> r == Err(Full)
      ensures r.Ok? <==> old(tableExists) && old(lastId) < MaxRowId
      ensures r.Err? ==> rows == old(rows) && lastId == old(lastId) && issued == old(issued)
      ensures r.Ok? ==> lastId == old(lastId) + 1 && issued == old(issued) + {lastId}
      ensures r.Ok? ==> rows == old(rows)[lastId := Encode(d)]
      ensures r.Ok? ==> lastId !in old(rows) && forall id :: id in old(issued) ==> id < lastId
    {
      if !tableExists {
        return Err(NoSuchTable);
      }
      if lastId == MaxRowId {
        return Err(Full);
      }
      lastId := lastId + 1;
      issued := issued + {lastId};
      rows := rows[lastId := Encode(d)];
      r := Ok;
    }

    /** `SELECT *`: every row, as stored, in no guaranteed order. */
    method FetchData() returns (r: Outcome, result: seq<Row>)
      requires Valid()
      ensures r == (if tableExists then Ok else Err(NoSuchTable))
      ensures r.Ok? ==> Lists(result, rows)
      ensures r.Err? ==> result == []
    {
      result := [];
      if !tableExists {
        return Err(NoSuchTable), result;
      }
      var remaining := rows.Keys;
      while remaining != {}
        invariant remaining <= rows.Keys
        invariant forall i, j :: 0 <= i < j < |result| ==> result[i].id != result[j].id
        invariant forall i :: 0 <= i < |result| ==>
          result[i].id in rows && result[i].id !in remaining && rows[result[i].id] == result[i].cols
        invariant Ids(result) == rows.Keys - remaining
        decreases remaining
      {
        // `remaining` is not empty, so some key exists for the `:|` below.
        if forall k :: k !in remaining {
          assert false;
        }
        var key :| key in remaining;
        ghost var before := result;
        result := result + [Row(key, rows[key])];
        IdsAppend(before, Row(key, rows[key]));
        remaining := remaining - {key};
      }
      r := Ok;
    }

    /** `DELETE ... WHERE id = ?`: removes that row; a missing id matches nothing. */
    method DeleteData(id: int) returns (r: Outcome)
      requires Valid()
      modifies this
      ensures Valid() && tableExists == old(tableExists)
      ensures r == (if old(tableExists) then Ok else Err(NoSuchTable))
      ensures rows == (if r.Ok? then old(rows) - {id} else old(rows))
      ensures id !in rows
      ensures id !in old(rows) ==> rows == old(rows)
      ensures lastId == old(lastId) && issued == old(issued)
    {
      if !tableExists {
        return Err(NoSuchTable);
      }
      rows := rows - {id};
      r := Ok;
    }

    /** `UPDATE ... WHERE id = ?`: overwrites the thirteen data columns of that
        row with the same encoding INSERT uses; a missing id matches nothing. */
    method UpdateData(id: int, d: Form) returns (r: Outcome)
      requires Valid()
      modifies this
      ensures Valid() && tableExists == old(tableExists)
      ensures r == (if old(tableExists) then Ok else Err(NoSuchTable))
      ensures rows == (if r.Ok? then Updated(old(rows), id, Encode(d)) else old(rows))
      ensures lastId == old(lastId) && issued == old(issued)
    {
      if !tableExists {
        return Err(NoSuchTable);
      }
      if id in rows {
        rows := rows[id := Encode(d)];
      }
      r := Ok;
    }
  }

  /** On a fresh database: create the table, insert one entry, fetch. The entry
      gets id 1 and comes back as the only row, encoded. */
  method FirstEntry(d: Form) returns (result: seq<Row>)
    ensures result == [Row(1, Encode(d))]
  {
    var store := new ScanStore();
    store.CreateTable();
    store.CreateTable();
    var r := store.InsertData(d);
    var ok;
    ok, result := store.FetchData();
    ListsLength(result, store.rows);
    assert result[0].id in store.rows;
  }
}
