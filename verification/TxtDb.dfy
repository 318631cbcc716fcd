/** The certificate database in memory: rows, a hash index on the serial number
    and, when subjects must be unique, a hash index on the name of the valid rows
    (crypto/txt_db/txt_db.c, apps/apps.c:1354-1390, 1629-1651). */
module TxtDb {
  import opened Prelude
  import opened SerialKey
  import opened LinearHash

  /** The six columns; `kind` is the character that DB_type starts with. A NULL
      revocation date and an empty one are both "". */
  datatype Row = Row(kind: char, exp: string, rev: string, serial: string, file: string, name: string)

  /** The column an index is on. */
  datatype Column = Serials | Names {
    /** The key as the comparison sees it: index_serial_cmp compares what is left
        after leading zeros, index_name_cmp the name. */
    function Key(r: Row): string {
      if Serials? then StripZeros(r.serial) else r.name
    }

    /** What index_serial_hash and index_name_hash pass to the string hash. */
    function Hashed(r: Row): string {
      if Serials? then HashedPart(r.serial) else r.name
    }

    /** The rows an index is about: all of them, or the valid ones (index_name_qual). */
    predicate Qual(r: Row) {
      Names? ==> r.kind == 'V'
    }
  }

  /** On canonical rows the hash is a function of the compared key. */
  ghost predicate Hashes(hashOf: string -> nat, c: Column, strHash: string -> nat)
  {
    forall r: Row {:trigger c.Hashed(r)} :: Canonical(r.serial) ==> strHash(c.Hashed(r)) == hashOf(c.Key(r))
  }

  /** The hash function, by compared key. */
  ghost function HashOf(c: Column, strHash: string -> nat): (h: string -> nat)
    ensures Hashes(h, c, strHash)
  {
    if c.Names? then strHash
    else
      var h := (k: string) => strHash(HashedPart(Key(Value(k))));
      assert forall r: Row {:trigger c.Hashed(r)} :: Canonical(r.serial) ==> strHash(c.Hashed(r)) == h(c.Key(r)) by {
        forall r: Row | Canonical(r.serial)
          ensures strHash(c.Hashed(r)) == h(c.Key(r))
        {
          ValueOfStripped(r.serial);
          CanonicalIsKey(r.serial);
        }
      }
      h
  }

  // ----- indexes

  /** `m` indexes the rows by a column: every row that qualifies is found under its
      key, and whatever is found is a row with that key. */
  ghost predicate Indexes(m: map<string, Node>, rows: seq<Row>, c: Column)
  {
    && (forall i {:trigger c.Key(rows[i])} :: 0 <= i < |rows| && c.Qual(rows[i]) ==>
          c.Key(rows[i]) in m && m[c.Key(rows[i])].row == i)
    && (forall k {:trigger m[k]} :: k in m ==> m[k].row < |rows| && c.Key(rows[m[k].row]) == k)
  }

  /** Two rows that qualify have one key. */
  ghost predicate Clash(rows: seq<Row>, c: Column)
  {
    exists i, j :: 0 <= i < j < |rows| && c.Qual(rows[i]) && c.Qual(rows[j]) && c.Key(rows[i]) == c.Key(rows[j])
  }

  lemma IndexedDoNotClash(m: map<string, Node>, rows: seq<Row>, c: Column)
    requires Indexes(m, rows, c)
    ensures !Clash(rows, c)
  {
  }

  /** A row changed in place keeps the indexes, as long as its key stays and it
      does not become valid. */
  lemma IndexesChanged(m: map<string, Node>, rows: seq<Row>, i: nat, row: Row, c: Column)
    requires i < |rows| && Indexes(m, rows, c)
    requires c.Key(row) == c.Key(rows[i]) && (c.Qual(row) ==> c.Qual(rows[i]))
    ensures Indexes(m, rows[i := row], c)
  {
  }

  /** Only qualifying rows have been filed. */
  ghost predicate Qualify(m: map<string, Node>, rows: seq<Row>, c: Column)
  {
    forall k :: k in m ==> m[k].row < |rows| && c.Qual(rows[m[k].row])
  }

  /** A row whose key is filed already clashes. */
  lemma FiledKeyClashes(m: map<string, Node>, rows: seq<Row>, c: Column, i: nat)
    requires i < |rows| && Indexes(m, rows[..i], c) && Qualify(m, rows[..i], c)
    requires c.Qual(rows[i]) && c.Key(rows[i]) in m
    ensures Clash(rows, c)
  {
    var j := m[c.Key(rows[i])].row;
    assert rows[..i][j] == rows[j];
  }

  /** TXT_DB_create_index: None when two rows clash. */
  method CreateIndex(rows: seq<Row>, c: Column, strHash: string -> nat) returns (ix: Option<Table>)
    requires CanonicalRows(rows)
    ensures ix.None? <==> Clash(rows, c)
    ensures ix.Some? ==> Hashes(ix.value.hashOf, c, strHash) && Indexes(ix.value.contents, rows, c)
    ensures ix.Some? ==> Qualify(ix.value.contents, rows, c)
  {
    var t: Table := EmptyTable(HashOf(c, strHash));
    var i := 0;
    while i < |rows|
      invariant 0 <= i <= |rows|
      invariant Hashes(t.hashOf, c, strHash)
      invariant Indexes(t.contents, rows[..i], c) && Qualify(t.contents, rows[..i], c)
    {
      var clash;
      t, clash := IndexRow(t, rows, i, c, strHash);
      if clash {
        return None;
      }
      i := i + 1;
    }
    assert rows[..i] == rows;
    IndexedDoNotClash(t.contents, rows, c);
    ix := Some(t);
  }

  /** One round of the loop: the row is filed if it qualifies. */
  method IndexRow(t: Table, rows: seq<Row>, i: nat, c: Column, strHash: string -> nat) returns (t': Table, clash: bool)
    requires i < |rows| && Hashes(t.hashOf, c, strHash) && Canonical(rows[i].serial)
    requires Indexes(t.contents, rows[..i], c) && Qualify(t.contents, rows[..i], c)
    ensures t'.hashOf == t.hashOf
    ensures clash ==> Clash(rows, c)
    ensures !clash ==> Indexes(t'.contents, rows[..i + 1], c) && Qualify(t'.contents, rows[..i + 1], c)
  {
    assert rows[..i + 1] == rows[..i] + [rows[i]];
    ghost var m := t.contents;
    t', clash := FileRow(t, i, rows[i], c, strHash, rows[..i]);
    if clash {
      FiledKeyClashes(m, rows, c, i);
    }
  }

  /** lh_insert on an index, for a row that qualifies. */
  method FileRow(t: Table, n: nat, row: Row, c: Column, strHash: string -> nat, ghost rows: seq<Row>)
    returns (t': Table, clash: bool)
    requires Hashes(t.hashOf, c, strHash) && Canonical(row.serial)
    requires n == |rows| && Indexes(t.contents, rows, c)
    ensures t'.hashOf == t.hashOf
    ensures clash <==> c.Qual(row) && c.Key(row) in t.contents
    ensures !clash ==> Indexes(t'.contents, rows + [row], c)
    ensures !clash && Qualify(t.contents, rows, c) ==> Qualify(t'.contents, rows + [row], c)
    ensures forall k :: k in t'.contents <==> k in t.contents || (c.Qual(row) && k == c.Key(row))
  {
    t', clash := t, false;
    if c.Qual(row) {
      var r;
      t', r := LinearHash.Insert(t, Node(strHash(c.Hashed(row)), c.Key(row), n));
      clash := r.Some?;
    }
    if !clash {
      FiledMapOk(t.contents, rows, row, c, strHash);
    }
  }

  /** The index after row number n is filed. */
  ghost function FiledMap(m: map<string, Node>, n: nat, row: Row, c: Column, strHash: string -> nat): map<string, Node>
  {
    if c.Qual(row) then m[c.Key(row) := Node(strHash(c.Hashed(row)), c.Key(row), n)] else m
  }

  lemma FiledMapOk(m: map<string, Node>, rows: seq<Row>, row: Row, c: Column, strHash: string -> nat)
    requires Indexes(m, rows, c) && !(c.Qual(row) && c.Key(row) in m)
    ensures Indexes(FiledMap(m, |rows|, row, c, strHash), rows + [row], c)
    ensures Qualify(m, rows, c) ==> Qualify(FiledMap(m, |rows|, row, c, strHash), rows + [row], c)
  {
  }

  // ----- what the indexes are for

  /** The first row from i on with serial number n, by linear scan. */
  function ScanFrom(rows: seq<Row>, n: nat, i: nat): (r: Option<nat>)
    requires i <= |rows|
    ensures r.Some? ==> i <= r.value < |rows| && Value(rows[r.value].serial) == n
    ensures r.None? ==> forall k :: i <= k < |rows| ==> Value(rows[k].serial) != n
    decreases |rows| - i
  {
    if i == |rows| then None else if Value(rows[i].serial) == n then Some(i) else ScanFrom(rows, n, i + 1)
  }

  function Scan(rows: seq<Row>, n: nat): Option<nat>
  {
    ScanFrom(rows, n, 0)
  }

  ghost predicate CanonicalRows(rows: seq<Row>)
  {
    forall i :: 0 <= i < |rows| ==> Canonical(rows[i].serial)
  }

  ghost predicate DistinctSerials(rows: seq<Row>)
  {
    forall i, j :: 0 <= i < j < |rows| ==> Value(rows[i].serial) != Value(rows[j].serial)
  }

  /** No two valid rows have one name. */
  ghost predicate DistinctNames(rows: seq<Row>)
  {
    forall i, j :: 0 <= i < j < |rows| && rows[i].kind == 'V' && rows[j].kind == 'V' ==> rows[i].name != rows[j].name
  }

  /** The serial index answers as the linear scan does. */
  lemma ScanIsIndexed(m: map<string, Node>, rows: seq<Row>, key: string)
    requires Indexes(m, rows, Serials) && CanonicalRows(rows) && Canonical(key)
    ensures StripZeros(key) in m <==> Scan(rows, Value(key)).Some?
    ensures StripZeros(key) in m ==> Scan(rows, Value(key)) == Some(m[StripZeros(key)].row)
  {
    var r := Scan(rows, Value(key));
    if r.Some? {
      CanonicalSame(rows[r.value].serial, key);
      assert Serials.Qual(rows[r.value]) && Serials.Key(rows[r.value]) == StripZeros(key);
    }
    if StripZeros(key) in m {
      CanonicalSame(rows[m[StripZeros(key)].row].serial, key);
    }
  }

  lemma IndexedAreDistinct(m: map<string, Node>, rows: seq<Row>)
    requires Indexes(m, rows, Serials) && CanonicalRows(rows)
    ensures DistinctSerials(rows)
  {
    forall i, j | 0 <= i < j < |rows|
      ensures Value(rows[i].serial) != Value(rows[j].serial)
    {
      CanonicalSame(rows[i].serial, rows[j].serial);
      assert Serials.Qual(rows[i]) && Serials.Qual(rows[j]);
      assert m[Serials.Key(rows[i])].row == i && m[Serials.Key(rows[j])].row == j;
    }
  }

  lemma SerialClash(rows: seq<Row>)
    requires CanonicalRows(rows)
    ensures Clash(rows, Serials) <==> !DistinctSerials(rows)
  {
    forall i, j | 0 <= i < j < |rows|
      ensures Serials.Key(rows[i]) == Serials.Key(rows[j]) <==> Value(rows[i].serial) == Value(rows[j].serial)
    {
      CanonicalSame(rows[i].serial, rows[j].serial);
    }
    if !DistinctSerials(rows) {
      var i, j :| 0 <= i < j < |rows| && Value(rows[i].serial) == Value(rows[j].serial);
      assert Serials.Qual(rows[i]) && Serials.Qual(rows[j]);
    }
  }

  lemma NameClash(rows: seq<Row>)
    ensures Clash(rows, Names) <==> !DistinctNames(rows)
  {
    if !DistinctNames(rows) {
      var i, j :| 0 <= i < j < |rows| && rows[i].kind == 'V' && rows[j].kind == 'V' && rows[i].name == rows[j].name;
      assert Names.Qual(rows[i]) && Names.Qual(rows[j]) && Names.Key(rows[i]) == Names.Key(rows[j]);
    }
  }

  ghost predicate IndexOk(t: Table, rows: seq<Row>, c: Column, strHash: string -> nat)
  {
    Hashes(t.hashOf, c, strHash) && Indexes(t.contents, rows, c)
  }

  /** The two serial texts compare equal and have one hash. */
  predicate SerialHit(a: string, b: string, strHash: string -> nat)
  {
    SameSerial(a, b) && strHash(HashedPart(a)) == strHash(HashedPart(b))
  }

  lemma SerialHits(t: Table, rows: seq<Row>, strHash: string -> nat, text: string)
    requires CanonicalRows(rows) && IndexOk(t, rows, Serials, strHash)
    ensures var m, k := t.contents, StripZeros(text);
            var found := k in m && m[k].hash == strHash(HashedPart(text));
            && (found ==> SerialHit(rows[m[k].row].serial, text, strHash))
            && (!found ==> forall i :: 0 <= i < |rows| ==> !SerialHit(rows[i].serial, text, strHash))
            && (Canonical(text) ==> Scan(rows, Value(text)) == if found then Some(m[k].row) else None)
  {
    var m, k := t.contents, StripZeros(text);
    forall i | 0 <= i < |rows|
      ensures var key := StripZeros(rows[i].serial);
              key in m && m[key].row == i && m[key].hash == strHash(HashedPart(rows[i].serial))
    {
      assert Serials.Qual(rows[i]) && Serials.Key(rows[i]) == StripZeros(rows[i].serial);
      assert Serials.Hashed(rows[i]) == HashedPart(rows[i].serial);
    }
    if Canonical(text) {
      ScanIsIndexed(m, rows, text);
      if k in m {
        CanonicalSame(rows[m[k].row].serial, text);
      }
    }
  }

  ghost predicate StateOk(rows: seq<Row>, serials: Table, names: Option<Table>, unique: bool, strHash: string -> nat)
  {
    && CanonicalRows(rows)
    && IndexOk(serials, rows, Serials, strHash)
    && (unique <==> names.Some?)
    && (names.Some? ==> IndexOk(names.value, rows, Names, strHash))
  }

  /** The indexes after a row is filed in both. */
  method Filed(row: Row, rows: seq<Row>, serials: Table, names: Option<Table>, ghost unique: bool,
               strHash: string -> nat)
    returns (s: Table, n: Option<Table>)
    requires StateOk(rows, serials, names, unique, strHash)
    requires Canonical(row.serial) && Scan(rows, Value(row.serial)).None?
    requires !(row.kind == 'V' && row.name in NamesIn(names))
    ensures StateOk(rows + [row], s, n, unique, strHash)
    ensures NamesIn(n) == NamesIn(names) + if unique && row.kind == 'V' then {row.name} else {}
  {
    ScanIsIndexed(serials.contents, rows, row.serial);
    var clash;
    s, clash := FileRow(serials, |rows|, row, Serials, strHash, rows);
    n := None;
    if names.Some? {
      var t := FiledName(row, rows, names.value, strHash, |rows|);
      n := Some(t);
    }
  }

  /** The name index after a row is filed. */
  method FiledName(row: Row, ghost rows: seq<Row>, names: Table, strHash: string -> nat, n: nat) returns (t: Table)
    requires n == |rows| && IndexOk(names, rows, Names, strHash) && Canonical(row.serial)
    requires !(row.kind == 'V' && row.name in names.contents)
    ensures IndexOk(t, rows + [row], Names, strHash)
    ensures t.contents.Keys == names.contents.Keys + if row.kind == 'V' then {row.name} else {}
  {
    var clash;
    t, clash := FileRow(names, n, row, Names, strHash, rows);
    assert Names.Key(row) == row.name && (Names.Qual(row) <==> row.kind == 'V');
    SameKeys(t.contents.Keys, names.contents.Keys, row.kind == 'V', row.name);
  }

  lemma SameKeys(after: set<string>, before: set<string>, added: bool, name: string)
    requires forall k :: k in after <==> k in before || (added && k == name)
    ensures after == before + if added then {name} else {}
  {
  }

  /** The names in an index that may be missing. */
  ghost function NamesIn(names: Option<Table>): set<string>
  {
    if names.Some? then names.value.contents.Keys else {}
  }

  class Db {
    const strHash: string -> nat
    const unique: bool
    var rows: seq<Row>
    var serials: Table
    var names: Option<Table>
    /** The names that the name index holds. */
    ghost var taken: set<string>

    /** The state between operations. The name index is allowed to hold rows that
        are no longer valid: they stay in it when their type changes in place. */
    ghost predicate Valid()
      reads this
    {
      StateOk(rows, serials, names, unique, strHash) && taken == NamesIn(names)
    }

    constructor (strHash: string -> nat, unique: bool, rows: seq<Row>, serials: Table, names: Option<Table>)
      ensures this.strHash == strHash && this.unique == unique && this.rows == rows
      ensures this.serials == serials && this.names == names && taken == NamesIn(names)
    {
      this.strHash, this.unique, this.rows, this.serials, this.names := strHash, unique, rows, serials, names;
      taken := NamesIn(names);
    }

    /** TXT_DB_get_by_index on the serial column, for any text: the row that
        compares equal is found when the two texts have one hash, which is always
        so for the keys the program builds. */
    method GetBySerial(text: string) returns (r: Option<nat>)
      requires Valid()
      ensures r.Some? ==> r.value < |rows| && SerialHit(rows[r.value].serial, text, strHash)
      ensures r.None? ==> forall i :: 0 <= i < |rows| ==> !SerialHit(rows[i].serial, text, strHash)
      ensures Canonical(text) ==> r == Scan(rows, Value(text))
    {
      r := Retrieve(serials, strHash(HashedPart(text)), StripZeros(text));
      SerialHits(serials, rows, strHash, text);
    }

    /** The clash test on the name index. */
    method HasName(row: Row) returns (b: bool)
      requires Valid() && Canonical(row.serial)
      ensures b <==> row.kind == 'V' && row.name in taken
    {
      b := false;
      if names.Some? && row.kind == 'V' {
        var r := Retrieve(names.value, strHash(Names.Hashed(row)), Names.Key(row));
        b := r.Some?;
      }
    }

    /** TXT_DB_insert: refused when an index already holds the row's key. */
    method Insert(row: Row) returns (ok: bool)
      requires Valid() && Canonical(row.serial)
      modifies this
      ensures Valid()
      ensures ok <==> Scan(old(rows), Value(row.serial)).None? && !(row.kind == 'V' && row.name in old(taken))
      ensures rows == if ok then old(rows) + [row] else old(rows)
      ensures taken == old(taken) + if ok && unique && row.kind == 'V' then {row.name} else {}
    {
      var r := GetBySerial(row.serial);
      if r.Some? {
        return false;
      }
      var taken := HasName(row);
      if taken {
        return false;
      }
      Append(row);
      ok := true;
    }

    /** The index checks are passed: append the row and file it. */
    method Append(row: Row)
      requires Valid() && Canonical(row.serial) && Scan(rows, Value(row.serial)).None?
      requires !(row.kind == 'V' && row.name in taken)
      modifies this
      ensures Valid() && rows == old(rows) + [row]
      ensures taken == old(taken) + if unique && row.kind == 'V' then {row.name} else {}
    {
      var s, n := Filed(row, rows, serials, names, unique, strHash);
      rows, serials, names, taken := rows + [row], s, n, NamesIn(n);
    }

    /** Overwriting columns of a row in place, as revocation and expiry do. */
    method Change(i: nat, row: Row)
      requires Valid() && i < |rows|
      requires row.serial == rows[i].serial && row.name == rows[i].name && row.kind != 'V'
      modifies this
      ensures Valid() && rows == old(rows)[i := row]
      ensures taken == old(taken)
    {
      IndexesChanged(serials.contents, rows, i, row, Serials);
      if names.Some? {
        IndexesChanged(names.value.contents, rows, i, row, Names);
      }
      rows := rows[i := row];
    }

    lemma ValidIsDistinct()
      requires Valid()
      ensures DistinctSerials(rows)
      ensures unique ==> DistinctNames(rows)
    {
      IndexedAreDistinct(serials.contents, rows);
      if unique {
        forall i, j | 0 <= i < j < |rows| && rows[i].kind == 'V' && rows[j].kind == 'V'
          ensures rows[i].name != rows[j].name
        {
          assert Names.Qual(rows[i]) && Names.Key(rows[i]) == rows[i].name;
          assert Names.Qual(rows[j]) && Names.Key(rows[j]) == rows[j].name;
        }
      }
    }
  }

  /** The names of the valid rows. */
  ghost function ValidNames(rows: seq<Row>): set<string>
  {
    set i | 0 <= i < |rows| && rows[i].kind == 'V' :: rows[i].name
  }

  lemma FiledNames(m: map<string, Node>, rows: seq<Row>)
    requires Indexes(m, rows, Names) && Qualify(m, rows, Names)
    ensures m.Keys == ValidNames(rows)
  {
    forall k
      ensures k in m <==> k in ValidNames(rows)
    {
      if k in m {
        var i := m[k].row;
        assert Names.Qual(rows[i]) && Names.Key(rows[i]) == k;
      }
      if k in ValidNames(rows) {
        var i :| 0 <= i < |rows| && rows[i].kind == 'V' && rows[i].name == k;
        assert Names.Qual(rows[i]) && Names.Key(rows[i]) == k;
      }
    }
  }

  /** index_index: the database is opened unless two rows share a serial or, when
      subjects are unique, two valid rows share a name. */
  method Open(strHash: string -> nat, unique: bool, rows: seq<Row>) returns (db: Db?)
    requires CanonicalRows(rows)
    ensures db == null <==> !DistinctSerials(rows) || (unique && !DistinctNames(rows))
    ensures db != null ==> fresh(db) && db.Valid() && db.rows == rows && db.unique == unique
    ensures db != null ==> db.taken == if unique then ValidNames(rows) else {}
  {
    SerialClash(rows);
    NameClash(rows);
    var serials := CreateIndex(rows, Serials, strHash);
    if serials.None? {
      return null;
    }
    var names: Option<Table> := None;
    if unique {
      names := CreateIndex(rows, Names, strHash);
      if names.None? {
        return null;
      }
      FiledNames(names.value.contents, rows);
    }
    db := new Db(strHash, unique, rows, serials.value, names);
  }
}
