/**
 * The country records the admin table shows, and the pure transformations
 * of the record list that its event handlers apply: the next id, the new
 * record of a create, the record-wise edit, the id filter of a delete, and
 * the id filter of an unticked checkbox.
 */
module Countries {
  import opened JsString
  import opened Slug

  /** One table row. Every field of the record is present in each row the
      table holds, so none is optional here. */
  datatype Country = Country(id: int, name: string, slug: string, createAt: string)

  /** The id column, in row order. */
  function Ids(data: seq<Country>): (r: seq<int>)
    ensures |r| == |data|
    ensures forall i :: 0 <= i < |data| ==> r[i] == data[i].id
  {
    seq(|data|, i requires 0 <= i < |data| => data[i].id)
  }

  /** The largest id in the table, or 0 when there is none larger. */
  function MaxId(data: seq<Country>): (m: int)
    ensures 0 <= m
    ensures forall i :: 0 <= i < |data| ==> data[i].id <= m
    ensures m == 0 || exists i :: 0 <= i < |data| && data[i].id == m
  {
    if data == [] then 0
    else
      var rest := MaxId(data[1..]);
      if data[0].id > rest then data[0].id else rest
  }

  /** The record a create adds: a fresh id one above every id in the table
      (and at least 1), the trimmed name, the slug of the trimmed name, and
      the day of the create. */
  function NewCountry(data: seq<Country>, name: string, today: string): (c: Country)
    ensures 1 <= c.id
    ensures forall i :: 0 <= i < |data| ==> data[i].id < c.id
    ensures c.id == 1 || exists i :: 0 <= i < |data| && data[i].id == c.id - 1
    ensures c.name == Trim(name) && c.slug == GenerateSlug(c.name) && c.createAt == today
  {
    var trimmed := Trim(name);
    Country(MaxId(data) + 1, trimmed, GenerateSlug(trimmed), today)
  }

  /** The edit of a save: every row carrying `id` takes the trimmed name and
      its slug and keeps its id and creation date; every other row is left
      as it was. */
  function EditCountries(data: seq<Country>, id: int, name: string): (r: seq<Country>)
    ensures |r| == |data|
    ensures forall i :: 0 <= i < |data| ==> r[i].id == data[i].id && r[i].createAt == data[i].createAt
    ensures forall i :: 0 <= i < |data| && data[i].id == id ==>
              r[i].name == Trim(name) && r[i].slug == GenerateSlug(Trim(name))
    ensures forall i :: 0 <= i < |data| && data[i].id != id ==> r[i] == data[i]
  {
    seq(|data|, i requires 0 <= i < |data| =>
      if data[i].id == id then data[i].(name := Trim(name), slug := GenerateSlug(Trim(name)))
      else data[i])
  }

  /** Saving an edit whose id is in no row changes nothing. */
  lemma EditAbsent(data: seq<Country>, id: int, name: string)
    requires id !in Ids(data)
    ensures EditCountries(data, id, name) == data
  {
    var r := EditCountries(data, id, name);
    forall i | 0 <= i < |data| ensures r[i] == data[i] {
      assert Ids(data)[i] == data[i].id;
    }
  }

  /** The delete filter: the rows whose id is not listed. */
  function RemoveIds(data: seq<Country>, ids: seq<int>): (r: seq<Country>)
    ensures |r| <= |data|
    ensures forall i :: 0 <= i < |r| ==> r[i].id !in ids
  {
    if data == [] then []
    else (if data[0].id in ids then [] else [data[0]]) + RemoveIds(data[1..], ids)
  }

  /** Every listed row is gone; every other row survives exactly as often as
      it occurred. */
  lemma {:induction false} RemoveIdsCount(data: seq<Country>, ids: seq<int>, c: Country)
    ensures multiset(RemoveIds(data, ids))[c] == if c.id in ids then 0 else multiset(data)[c]
  {
    if data != [] {
      assert data == [data[0]] + data[1..];
      RemoveIdsCount(data[1..], ids, c);
    }
  }

  /** The delete filter keeps row order: filtering a concatenation is the
      concatenation of the filtered parts. */
  lemma {:induction false} RemoveIdsAppend(a: seq<Country>, b: seq<Country>, ids: seq<int>)
    ensures RemoveIds(a + b, ids) == RemoveIds(a, ids) + RemoveIds(b, ids)
  {
    if a == [] {
      assert a + b == b;
    } else {
      assert (a + b)[0] == a[0] && (a + b)[1..] == a[1..] + b;
      RemoveIdsAppend(a[1..], b, ids);
    }
  }

  /** Nothing listed in the table: the delete filter keeps every row. */
  lemma {:induction false} RemoveIdsNone(data: seq<Country>, ids: seq<int>)
    requires forall i :: 0 <= i < |data| ==> data[i].id !in ids
    ensures RemoveIds(data, ids) == data
  {
    if data != [] {
      RemoveIdsNone(data[1..], ids);
    }
  }

  /** With unique ids, deleting the first row's id removes exactly that
      row. */
  lemma RemoveFirst(data: seq<Country>)
    requires UniqueIds(data) && data != []
    ensures RemoveIds(data, [data[0].id]) == data[1..]
  {
    var rest := data[1..];
    forall i | 0 <= i < |rest| ensures rest[i].id !in [data[0].id] {
      assert rest[i] == data[i + 1];
    }
    RemoveIdsNone(rest, [data[0].id]);
  }

  /** The unticking filter: every occurrence of `id` goes, every other entry
      stays as often as it was there. */
  function Without(s: seq<int>, id: int): (r: seq<int>)
    ensures id !in r
    ensures forall x :: x != id ==> multiset(r)[x] == multiset(s)[x]
  {
    if s == [] then []
    else
      assert s == [s[0]] + s[1..];
      (if s[0] == id then [] else [s[0]]) + Without(s[1..], id)
  }

  /** The unticking filter keeps the order of what it keeps. */
  lemma {:induction false} WithoutAppend(a: seq<int>, b: seq<int>, id: int)
    ensures Without(a + b, id) == Without(a, id) + Without(b, id)
  {
    if a == [] {
      assert a + b == b;
    } else {
      assert (a + b)[0] == a[0] && (a + b)[1..] == a[1..] + b;
      WithoutAppend(a[1..], b, id);
    }
  }

  /** No row shares its id with another. */
  predicate UniqueIds(data: seq<Country>) {
    forall i, j :: 0 <= i < j < |data| ==> data[i].id != data[j].id
  }

  /** A row as the table creates and edits them: positive id, non-blank
      trimmed name, and the slug of that name. */
  predicate WellFormedRow(c: Country) {
    0 < c.id && c.name != [] && IsTrimmed(c.name) && c.slug == GenerateSlug(c.name)
  }

  predicate RowsWellFormed(data: seq<Country>) {
    forall c :: c in data ==> WellFormedRow(c)
  }

  /** The invariant of the record list. */
  predicate WellFormed(data: seq<Country>) {
    UniqueIds(data) && RowsWellFormed(data)
  }

  /** The record a create adds is well formed whenever the name is not
      blank. */
  lemma NewCountryWellFormed(data: seq<Country>, name: string, today: string)
    requires Trim(name) != []
    ensures WellFormedRow(NewCountry(data, name, today))
  {
  }

  /** A create keeps the record list well formed. */
  lemma CreateWellFormed(data: seq<Country>, name: string, today: string)
    requires WellFormed(data) && Trim(name) != []
    ensures WellFormed(data + [NewCountry(data, name, today)])
  {
    var c := NewCountry(data, name, today);
    NewCountryWellFormed(data, name, today);
    AppendUnique(data, c);
    AppendRows(data, c);
  }

  lemma AppendUnique(data: seq<Country>, c: Country)
    requires UniqueIds(data) && forall i :: 0 <= i < |data| ==> data[i].id < c.id
    ensures UniqueIds(data + [c])
  {
  }

  lemma AppendRows(data: seq<Country>, c: Country)
    requires RowsWellFormed(data) && WellFormedRow(c)
    ensures RowsWellFormed(data + [c])
  {
  }

  /** An edit keeps the record list well formed. */
  lemma EditWellFormed(data: seq<Country>, id: int, name: string)
    requires WellFormed(data) && Trim(name) != []
    ensures WellFormed(EditCountries(data, id, name))
  {
    EditUnique(data, id, name);
    EditRows(data, id, name);
  }

  lemma EditUnique(data: seq<Country>, id: int, name: string)
    requires UniqueIds(data)
    ensures UniqueIds(EditCountries(data, id, name))
  {
  }

  lemma EditRows(data: seq<Country>, id: int, name: string)
    requires RowsWellFormed(data) && Trim(name) != []
    ensures RowsWellFormed(EditCountries(data, id, name))
  {
    var r := EditCountries(data, id, name);
    forall x | x in r ensures WellFormedRow(x) {
      var i :| 0 <= i < |r| && r[i] == x;
      RowAt(data, i);
      if data[i].id == id {
        assert x.id == data[i].id && x.name == Trim(name) && x.slug == GenerateSlug(x.name);
      } else {
        assert x == data[i];
      }
    }
  }

  lemma RowAt(data: seq<Country>, i: int)
    requires RowsWellFormed(data) && 0 <= i < |data|
    ensures WellFormedRow(data[i])
  {
    assert data[i] in data;
  }

  /** A delete keeps the record list well formed. */
  lemma RemoveWellFormed(data: seq<Country>, ids: seq<int>)
    requires WellFormed(data)
    ensures WellFormed(RemoveIds(data, ids))
  {
    RemoveUnique(data, ids);
    RemoveRows(data, ids);
  }

  /** What the delete filter keeps comes from the table. */
  lemma RemoveIdsSubset(data: seq<Country>, ids: seq<int>, x: Country)
    requires x in RemoveIds(data, ids)
    ensures x in data
  {
    RemoveIdsCount(data, ids, x);
    assert x in multiset(RemoveIds(data, ids));
  }

  lemma {:induction false} RemoveUnique(data: seq<Country>, ids: seq<int>)
    requires UniqueIds(data)
    ensures UniqueIds(RemoveIds(data, ids))
  {
    if data != [] {
      var tail := data[1..];
      RemoveUnique(tail, ids);
      var rest := RemoveIds(tail, ids);
      forall i | 0 <= i < |rest| ensures rest[i].id != data[0].id {
        RemoveIdsSubset(tail, ids, rest[i]);
        var k :| 0 <= k < |tail| && tail[k] == rest[i];
        assert tail[k] == data[k + 1];
      }
      var head: seq<Country> := if data[0].id in ids then [] else [data[0]];
      var r := head + rest;
      forall i, j | 0 <= i < j < |r| ensures r[i].id != r[j].id {
        assert r[j] == rest[j - |head|];
        if i < |head| { assert r[i] == data[0]; } else { assert r[i] == rest[i - |head|]; }
      }
    }
  }

  lemma RemoveRows(data: seq<Country>, ids: seq<int>)
    requires RowsWellFormed(data)
    ensures RowsWellFormed(RemoveIds(data, ids))
  {
    forall x | x in RemoveIds(data, ids) ensures WellFormedRow(x) {
      RemoveIdsSubset(data, ids, x);
    }
  }

  /** The rows the table starts with. */
  const MockData: seq<Country> := [
    Country(1, "Vi\U{1EC7}t Nam", "viet-nam", "2024-01-15"),
    Country(2, "United States", "united-states", "2024-01-20"),
    Country(3, "Japan", "japan", "2024-02-01"),
    Country(4, "South Korea", "south-korea", "2024-02-10"),
    Country(5, "Singapore", "singapore", "2024-02-15"),
    Country(6, "Thailand", "thailand", "2024-02-20")
  ]

  /** The starting rows are well formed; in particular the recorded slug of
      each is the slug of its name. */
  lemma MockDataWellFormed()
    ensures WellFormed(MockData)
  {
    forall c | c in MockData ensures WellFormedRow(c) {
      MockRow(c);
    }
  }

  lemma MockRow(c: Country)
    requires c in MockData
    ensures WellFormedRow(c)
  {
    if c == Country(1, "Vi\U{1EC7}t Nam", "viet-nam", "2024-01-15") {
      VietNamRow(c);
    } else if c == Country(2, "United States", "united-states", "2024-01-20") {
      UnitedStatesRow(c);
    } else if c == Country(3, "Japan", "japan", "2024-02-01") {
      JapanRow(c);
    } else if c == Country(4, "South Korea", "south-korea", "2024-02-10") {
      SouthKoreaRow(c);
    } else if c == Country(5, "Singapore", "singapore", "2024-02-15") {
      SingaporeRow(c);
    } else {
      ThailandRow(c);
    }
  }

  lemma VietNamRow(c: Country)
    requires c == Country(1, "Vi\U{1EC7}t Nam", "viet-nam", "2024-01-15")
    ensures WellFormedRow(c)
  {
    VietNamSlug();
    VietNamTrimmed();
  }

  lemma VietNamTrimmed()
    ensures IsTrimmed("Vi\U{1EC7}t Nam")
  {
  }

  lemma UnitedStatesRow(c: Country)
    requires c == Country(2, "United States", "united-states", "2024-01-20")
    ensures WellFormedRow(c)
  {
    UnitedStatesSlug();
    UnitedStatesTrimmed();
  }

  lemma UnitedStatesTrimmed()
    ensures IsTrimmed("United States")
  {
  }

  lemma UnitedStatesSlug()
    ensures GenerateSlug("United States") == "united-states"
  {
    UnitedStatesWords();
    TwoWordsKept("united", "states");
    KeptFolded("United States");
    WordsSlug("United States", "united", "states");
  }

  lemma UnitedStatesWords()
    ensures ToLowerCase("United States") == "united" + " " + "states"
    ensures IsWord("united") && IsWord("states") && "united-states" == "united" + "-" + "states"
  {
  }

  lemma JapanRow(c: Country)
    requires c == Country(3, "Japan", "japan", "2024-02-01")
    ensures WellFormedRow(c)
  {
    JapanSlug();
    JapanTrimmed();
  }

  lemma JapanTrimmed()
    ensures IsTrimmed("Japan")
  {
  }

  lemma JapanSlug()
    ensures GenerateSlug("Japan") == "japan"
  {
    JapanWords();
    KeptFolded("Japan");
    WordSlug("Japan", "japan");
  }

  lemma JapanWords()
    ensures ToLowerCase("Japan") == "japan" && IsWord("japan")
  {
  }

  lemma SouthKoreaRow(c: Country)
    requires c == Country(4, "South Korea", "south-korea", "2024-02-10")
    ensures WellFormedRow(c)
  {
    SouthKoreaSlug();
    SouthKoreaTrimmed();
  }

  lemma SouthKoreaTrimmed()
    ensures IsTrimmed("South Korea")
  {
  }

  lemma SouthKoreaSlug()
    ensures GenerateSlug("South Korea") == "south-korea"
  {
    SouthKoreaWords();
    TwoWordsKept("south", "korea");
    KeptFolded("South Korea");
    WordsSlug("South Korea", "south", "korea");
  }

  lemma SouthKoreaWords()
    ensures ToLowerCase("South Korea") == "south" + " " + "korea"
    ensures IsWord("south") && IsWord("korea") && "south-korea" == "south" + "-" + "korea"
  {
  }

  lemma SingaporeRow(c: Country)
    requires c == Country(5, "Singapore", "singapore", "2024-02-15")
    ensures WellFormedRow(c)
  {
    SingaporeSlug();
    SingaporeTrimmed();
  }

  lemma SingaporeTrimmed()
    ensures IsTrimmed("Singapore")
  {
  }

  lemma SingaporeSlug()
    ensures GenerateSlug("Singapore") == "singapore"
  {
    SingaporeWords();
    KeptFolded("Singapore");
    WordSlug("Singapore", "singapore");
  }

  lemma SingaporeWords()
    ensures ToLowerCase("Singapore") == "singapore" && IsWord("singapore")
  {
  }

  lemma ThailandRow(c: Country)
    requires c == Country(6, "Thailand", "thailand", "2024-02-20")
    ensures WellFormedRow(c)
  {
    ThailandSlug();
    ThailandTrimmed();
  }

  lemma ThailandTrimmed()
    ensures IsTrimmed("Thailand")
  {
  }

  lemma ThailandSlug()
    ensures GenerateSlug("Thailand") == "thailand"
  {
    ThailandWords();
    KeptFolded("Thailand");
    WordSlug("Thailand", "thailand");
  }

  lemma ThailandWords()
    ensures ToLowerCase("Thailand") == "thailand" && IsWord("thailand")
  {
  }
}
