/**
 * The country admin table: its four pieces of state (the records, the ticked
 * ids, the delete confirmation and the create/edit form) and the event
 * handlers that change them. Each handler runs as one atomic step.
 */
module Table {
  import opened JsString
  import opened Slug
  import opened Countries

  datatype Option<T> = None | Some(value: T)

  /** Whether a delete confirmation was opened from a row or from the
      toolbar of ticked rows. */
  datatype DeleteKind = Single | Bulk

  datatype DeleteDialog = DeleteDialog(open: bool, countryIds: seq<int>, kind: DeleteKind)

  datatype Mode = Create | Edit

  /** The record the create/edit form works on. */
  datatype Draft = Draft(id: int, name: string, createAt: string)

  datatype CountryDialog = CountryDialog(open: bool, mode: Mode, country: Draft)

  /** The delete confirmation as it starts and as a confirmed delete leaves
      it. */
  const ClosedDeleteDialog := DeleteDialog(false, [], Single)

  /** The form as it starts and as a save or the cancel button leaves it. */
  const ClosedCountryDialog := CountryDialog(false, Create, Draft(0, "", ""))

  /** The draft a form opens with: the fields of the row it edits, or id 0
      and empty text when there is no row. */
  function DraftOf(country: Option<Country>): (r: Draft)
    ensures country.None? ==> r == ClosedCountryDialog.country
    ensures country.Some? ==>
              r.id == country.value.id && r.name == country.value.name &&
              r.createAt == country.value.createAt
  {
    match country
    case None => Draft(0, "", "")
    case Some(c) => Draft(c.id, c.name, c.createAt)
  }

  /** The header checkbox shows ticked: as many ticked ids as rows, and at
      least one row. */
  predicate IsAllSelected(selected: seq<int>, data: seq<Country>)
    ensures IsAllSelected(selected, data) ==> data != [] && selected != []
  {
    |selected| == |data| && |data| > 0
  }

  /** The header checkbox shows the dash: some ticked ids, fewer than rows. */
  predicate IsIndeterminate(selected: seq<int>, data: seq<Country>)
    ensures IsIndeterminate(selected, data) ==> selected != [] && !IsAllSelected(selected, data)
  {
    0 < |selected| < |data|
  }

  /** A row's checkbox shows ticked: some entry of the selection is its
      id. */
  predicate IsChecked(selected: seq<int>, id: int)
    ensures IsChecked(selected, id) <==> exists k :: 0 <= k < |selected| && selected[k] == id
  {
    id in selected
  }

  /** The header checkbox is never ticked and dashed at once. */
  lemma FlagsExclusive(selected: seq<int>, data: seq<Country>)
    ensures !(IsAllSelected(selected, data) && IsIndeterminate(selected, data))
  {
  }

  predicate Distinct(s: seq<int>) {
    forall i, j :: 0 <= i < j < |s| ==> s[i] != s[j]
  }

  /** The header flag counts ticks; it agrees with "every row is ticked"
      as long as no id is ticked twice and every ticked id is still a row. */
  lemma AllSelectedIffAllChecked(selected: seq<int>, data: seq<Country>)
    requires UniqueIds(data) && Distinct(selected)
    requires forall x :: x in selected ==> x in Ids(data)
    ensures IsAllSelected(selected, data) <==>
            (data != [] && forall i :: 0 <= i < |data| ==> IsChecked(selected, data[i].id))
  {
    var ids := Ids(data);
    assert Distinct(ids) by {
      forall i, j | 0 <= i < j < |ids| ensures ids[i] != ids[j] {
        assert ids[i] == data[i].id && ids[j] == data[j].id;
      }
    }
    var rows := set x | x in ids;
    var ticked := set x | x in selected;
    DistinctCard(ids);
    DistinctCard(selected);
    DistinctInto(selected, rows);
    if IsAllSelected(selected, data) {
      forall i | 0 <= i < |data| ensures IsChecked(selected, data[i].id) {
        assert ids[i] in rows;
      }
    }
    if forall i :: 0 <= i < |data| ==> IsChecked(selected, data[i].id) {
      DistinctInto(ids, ticked);
    }
  }

  /** A repeat-free sequence drawn from a set is no longer than the set, and
      as long as the set only when it covers it. */
  lemma {:induction false} DistinctInto(a: seq<int>, t: set<int>)
    requires Distinct(a) && forall i :: 0 <= i < |a| ==> a[i] in t
    ensures |a| <= |t|
    ensures |a| == |t| ==> forall y :: y in t ==> y in a
  {
    if a != [] {
      var rest := a[1..];
      assert Distinct(rest) by {
        forall i, j | 0 <= i < j < |rest| ensures rest[i] != rest[j] {
          assert rest[i] == a[i + 1] && rest[j] == a[j + 1];
        }
      }
      forall i | 0 <= i < |rest| ensures rest[i] in t - {a[0]} {
        assert rest[i] == a[i + 1];
      }
      DistinctInto(rest, t - {a[0]});
      assert t == (t - {a[0]}) + {a[0]};
      assert |t - {a[0]}| == |t| - 1;
      if |a| == |t| {
        forall y | y in t ensures y in a {
          if y != a[0] {
            assert y in rest;
          }
        }
      }
    }
  }

  /** A sequence without repeats has as many elements as its set. */
  lemma {:induction false} DistinctCard(s: seq<int>)
    requires Distinct(s)
    ensures |set x | x in s| == |s|
  {
    if s != [] {
      var rest := s[1..];
      assert Distinct(rest) by {
        forall i, j | 0 <= i < j < |rest| ensures rest[i] != rest[j] {
          assert rest[i] == s[i + 1] && rest[j] == s[j + 1];
        }
      }
      DistinctCard(rest);
      assert s[0] !in rest by {
        forall k | 0 <= k < |rest| ensures rest[k] != s[0] {
          assert rest[k] == s[k + 1];
        }
      }
      assert (set x | x in s) == {s[0]} + (set x | x in rest) by {
        assert s == [s[0]] + rest;
      }
    }
  }

  /** The record list after a save of a non-blank draft: a create appends
      the new record, an edit renames every row carrying the draft's id. */
  function Saved(data: seq<Country>, mode: Mode, draft: Draft, today: string): (r: seq<Country>)
    ensures mode == Create ==>
              |r| == |data| + 1 && r[..|data|] == data &&
              (forall i :: 0 <= i < |data| ==> data[i].id < r[|data|].id) &&
              r[|data|].name == Trim(draft.name) && r[|data|].slug == GenerateSlug(r[|data|].name) &&
              r[|data|].createAt == today
    ensures mode == Edit ==> |r| == |data|
  {
    match mode
    case Create => data + [NewCountry(data, draft.name, today)]
    case Edit => EditCountries(data, draft.id, draft.name)
  }

  /** A save of a non-blank draft keeps the record list well formed. */
  lemma SavedWellFormed(data: seq<Country>, mode: Mode, draft: Draft, today: string)
    ensures WellFormed(data) && !AllSpace(draft.name) ==> WellFormed(Saved(data, mode, draft, today))
  {
    if WellFormed(data) && !AllSpace(draft.name) {
      TrimEmptyIff(draft.name);
      SavedWellFormedCases(data, mode, draft, today);
    }
  }

  lemma SavedWellFormedCases(data: seq<Country>, mode: Mode, draft: Draft, today: string)
    requires WellFormed(data) && Trim(draft.name) != []
    ensures WellFormed(Saved(data, mode, draft, today))
  {
    match mode
    case Create => CreateWellFormed(data, draft.name, today);
    case Edit => EditWellFormed(data, draft.id, draft.name);
  }

  class DataTable {
    var data: seq<Country>
    var selected: seq<int>
    var deleteDialog: DeleteDialog
    var countryDialog: CountryDialog

    /** The record list keeps unique positive ids, trimmed non-blank names
        and slugs that are the slugs of the names. */
    ghost predicate Valid()
      reads this
    {
      WellFormed(data)
    }

    /** The table starts with the six sample rows, nothing ticked and both
        dialogs closed. */
    constructor ()
      ensures data == MockData && selected == []
      ensures deleteDialog == ClosedDeleteDialog && countryDialog == ClosedCountryDialog
      ensures Valid()
    {
      data := MockData;
      selected := [];
      deleteDialog := ClosedDeleteDialog;
      countryDialog := ClosedCountryDialog;
      MockDataWellFormed();
    }

    /** The header checkbox: ticking it ticks every row in row order,
        unticking it clears the selection. */
    method SelectAll(checked: bool)
      modifies this
      ensures selected == (if checked then Ids(data) else [])
      ensures data == old(data) && deleteDialog == old(deleteDialog)
      ensures countryDialog == old(countryDialog)
      ensures checked ==> forall i :: 0 <= i < |data| ==> IsChecked(selected, data[i].id)
      ensures checked ==> (IsAllSelected(selected, data) <==> data != [])
      ensures !IsIndeterminate(selected, data)
      ensures !checked ==> !IsAllSelected(selected, data)
    {
      if checked {
        selected := Ids(data);
      } else {
        selected := [];
      }
    }

    /** A row checkbox: ticking appends the id without looking for it first,
        unticking removes every occurrence of it. No other row's checkbox
        changes. */
    method SelectCountry(id: int, checked: bool)
      modifies this
      ensures selected == (if checked then old(selected) + [id] else Without(old(selected), id))
      ensures IsChecked(selected, id) == checked
      ensures forall x :: x != id ==> IsChecked(selected, x) == IsChecked(old(selected), x)
      ensures data == old(data) && deleteDialog == old(deleteDialog)
      ensures countryDialog == old(countryDialog)
    {
      if checked {
        selected := selected + [id];
      } else {
        selected := Without(selected, id);
      }
      forall x | x != id ensures IsChecked(selected, x) == IsChecked(old(selected), x) {
        if !checked {
          assert x in selected <==> x in multiset(selected);
          assert x in old(selected) <==> x in multiset(old(selected));
        }
      }
    }

    /** Opens the delete confirmation for the given ids. */
    method OpenDeleteDialog(countryIds: seq<int>, kind: DeleteKind)
      modifies this
      ensures deleteDialog == DeleteDialog(true, countryIds, kind)
      ensures data == old(data) && selected == old(selected)
      ensures countryDialog == old(countryDialog)
    {
      deleteDialog := DeleteDialog(true, countryIds, kind);
    }

    /** Opens the form, on a copy of the row's fields when there is one. */
    method OpenCountryDialog(mode: Mode, country: Option<Country>)
      modifies this
      ensures countryDialog == CountryDialog(true, mode, DraftOf(country))
      ensures data == old(data) && selected == old(selected)
      ensures deleteDialog == old(deleteDialog)
    {
      countryDialog := CountryDialog(true, mode, DraftOf(country));
    }

    /** Confirms the delete: exactly the rows whose id was listed go, in
        order; the confirmation closes and forgets its ids; the selection is
        cleared after a bulk delete and left alone after a single one. */
    method ConfirmDelete()
      modifies this
      ensures data == RemoveIds(old(data), old(deleteDialog).countryIds)
      ensures deleteDialog == ClosedDeleteDialog
      ensures selected == (if old(deleteDialog).kind == Bulk then [] else old(selected))
      ensures countryDialog == old(countryDialog)
      ensures old(Valid()) ==> Valid()
    {
      if Valid() {
        RemoveWellFormed(data, deleteDialog.countryIds);
      }
      data := RemoveIds(data, deleteDialog.countryIds);
      var kind := deleteDialog.kind;
      deleteDialog := ClosedDeleteDialog;
      if kind == Bulk {
        selected := [];
      }
    }

    /** Saves the form. A blank name (all whitespace, which is exactly when
        `trim` empties it, by `TrimEmptyIff`) is refused and nothing changes.
        Otherwise the record list becomes the saved list and the form
        closes and resets. */
    method ConfirmCountryAction(today: string)
      modifies this
      ensures var draft := old(countryDialog).country;
              AllSpace(draft.name) ==> data == old(data) && countryDialog == old(countryDialog)
      ensures var draft := old(countryDialog).country;
              !AllSpace(draft.name) ==>
                countryDialog == ClosedCountryDialog &&
                data == Saved(old(data), old(countryDialog).mode, draft, today)
      ensures selected == old(selected) && deleteDialog == old(deleteDialog)
      ensures old(Valid()) ==> Valid()
    {
      if !AllSpace(countryDialog.country.name) {
        SaveDraft(today);
      }
    }

    /** The save proper, once the name has passed the blank test. */
    method SaveDraft(today: string)
      requires !AllSpace(countryDialog.country.name)
      modifies this
      ensures data == Saved(old(data), old(countryDialog).mode, old(countryDialog).country, today)
      ensures countryDialog == ClosedCountryDialog
      ensures selected == old(selected) && deleteDialog == old(deleteDialog)
      ensures old(Valid()) ==> Valid()
    {
      SavedWellFormed(data, countryDialog.mode, countryDialog.country, today);
      data := Saved(data, countryDialog.mode, countryDialog.country, today);
      countryDialog := ClosedCountryDialog;
    }

    /** The delete confirmation opening or closing by itself (overlay click,
        Escape): only the open flag changes. */
    method SetDeleteDialogOpen(open: bool)
      modifies this
      ensures deleteDialog == old(deleteDialog).(open := open)
      ensures data == old(data) && selected == old(selected)
      ensures countryDialog == old(countryDialog)
    {
      deleteDialog := deleteDialog.(open := open);
    }

    /** The cancel button of the delete confirmation: it closes, keeping
        its ids and kind. */
    method CancelDelete()
      modifies this
      ensures deleteDialog == old(deleteDialog).(open := false)
      ensures data == old(data) && selected == old(selected)
      ensures countryDialog == old(countryDialog)
    {
      deleteDialog := deleteDialog.(open := false);
    }

    /** The form opening or closing by itself: only the open flag changes,
        the mode and the draft survive. */
    method SetCountryDialogOpen(open: bool)
      modifies this
      ensures countryDialog == old(countryDialog).(open := open)
      ensures data == old(data) && selected == old(selected)
      ensures deleteDialog == old(deleteDialog)
    {
      countryDialog := countryDialog.(open := open);
    }

    /** Typing in the name field: only the draft's name changes. */
    method SetDraftName(name: string)
      modifies this
      ensures countryDialog == old(countryDialog).(country := old(countryDialog).country.(name := name))
      ensures data == old(data) && selected == old(selected)
      ensures deleteDialog == old(deleteDialog)
    {
      countryDialog := countryDialog.(country := countryDialog.country.(name := name));
    }

    /** The cancel button of the form: it closes and resets to an empty
        create form. */
    method CancelCountryDialog()
      modifies this
      ensures countryDialog == ClosedCountryDialog
      ensures data == old(data) && selected == old(selected)
      ensures deleteDialog == old(deleteDialog)
    {
      countryDialog := ClosedCountryDialog;
    }
  }

  /** Ticking every row and then unticking the header leaves nothing
      ticked. */
  method SelectAllThenClear(t: DataTable)
    modifies t
    ensures t.selected == [] && t.data == old(t.data)
  {
    t.SelectAll(true);
    t.SelectAll(false);
  }

  /** A single delete leaves the deleted row's id ticked. Tick the first
      row, delete it from its own menu, then tick every remaining row but
      the last: the header shows all ticked although the last row is not,
      because the deleted id still counts. */
  method DanglingSelection(t: DataTable)
    requires UniqueIds(t.data) && 2 <= |t.data|
    modifies t
    ensures t.data == old(t.data)[1..]
    ensures IsChecked(t.selected, old(t.data)[0].id)
    ensures IsAllSelected(t.selected, t.data)
    ensures !IsChecked(t.selected, t.data[|t.data| - 1].id)
  {
    DanglingTicks(t.data);
    TickAndDeleteFirst(t);
    TickAllButLast(t);
  }

  /** Clears the ticks, ticks the first row and deletes it from its own
      menu: the row goes, its id stays ticked. */
  method TickAndDeleteFirst(t: DataTable)
    requires UniqueIds(t.data) && t.data != []
    modifies t
    ensures t.data == old(t.data)[1..] && t.selected == [old(t.data)[0].id]
  {
    var first := t.data[0];
    RemoveFirst(t.data);
    t.SelectAll(false);
    t.SelectCountry(first.id, true);
    t.OpenDeleteDialog([first.id], Single);
    t.ConfirmDelete();
  }

  /** Ticks every row but the last, one row checkbox at a time. */
  method TickAllButLast(t: DataTable)
    requires t.data != []
    modifies t
    ensures t.data == old(t.data)
    ensures t.selected == old(t.selected) + Ids(t.data)[..|t.data| - 1]
  {
    var rows := t.data;
    var i := 0;
    while i < |rows| - 1
      invariant 0 <= i <= |rows| - 1
      invariant t.data == rows
      invariant t.selected == old(t.selected) + Ids(rows)[..i]
    {
      assert Ids(rows)[..i + 1] == Ids(rows)[..i] + [rows[i].id];
      t.SelectCountry(rows[i].id, true);
      i := i + 1;
    }
  }

  /** The selection `DanglingSelection` ends with: the deleted first id and
      the ids of every remaining row but the last. */
  lemma DanglingTicks(data: seq<Country>)
    requires UniqueIds(data) && 2 <= |data|
    ensures var rest := data[1..];
            var ticked := [data[0].id] + Ids(rest)[..|rest| - 1];
            IsAllSelected(ticked, rest) && !IsChecked(ticked, rest[|rest| - 1].id)
  {
    var rest := data[1..];
    var ids := Ids(rest)[..|rest| - 1];
    var last := rest[|rest| - 1].id;
    assert last == data[|data| - 1].id;
    forall k | 0 <= k < |ids| ensures ids[k] != last {
      assert ids[k] == data[k + 1].id;
    }
  }

  /** A blank name is refused: the records, the ticks and the delete
      confirmation stay, and the form stays open with its draft. */
  method BlankNameScenario(t: DataTable)
    modifies t
    ensures t.data == old(t.data) && t.selected == old(t.selected)
    ensures t.deleteDialog == old(t.deleteDialog)
    ensures t.countryDialog == CountryDialog(true, Create, Draft(0, "   ", ""))
  {
    t.OpenCountryDialog(Create, None);
    t.SetDraftName("   ");
    assert AllSpace("   ");
    t.ConfirmCountryAction("2024-03-01");
  }
}
