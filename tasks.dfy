/** The task records of the todo component, the input validation applied to
    a trimmed entry, and the list transforms its handlers perform
    (`find`, `some`, `map`, `filter`). */
module Tasks {
  import opened Text

  datatype Option<T> = None | Some(value: T)

  /** One entry of the list: its text, its numeric id (a creation time
      stamp) and its completion flag. */
  datatype Task = Task(list: string, id: int, status: bool)

  /** Why an entry was refused, checked in this order. */
  datatype ValidationError = EmptyText | TooShort | TooLong

  const MinLength: nat := 3
  const MaxLength: nat := 50

  /** The three length checks `addTodo` applies to the trimmed input;
      `None` means the text is acceptable. */
  function CheckText(trimmed: string): (r: Option<ValidationError>)
    ensures r.None? <==> MinLength <= |trimmed| <= MaxLength
    ensures r == Some(EmptyText) <==> trimmed == []
    ensures r == Some(TooShort) <==> 0 < |trimmed| < MinLength
    ensures r == Some(TooLong) <==> |trimmed| > MaxLength
  {
    if trimmed == [] then Some(EmptyText)
    else if |trimmed| < MinLength then Some(TooShort)
    else if |trimmed| > MaxLength then Some(TooLong)
    else None
  }

  predicate HasId(s: seq<Task>, id: int) {
    exists i :: 0 <= i < |s| && s[i].id == id
  }

  /** `todos.find(item => item.id === id)`: the first record with that id. */
  function Find(s: seq<Task>, id: int): (r: Option<Task>)
    ensures r.Some? <==> HasId(s, id)
    ensures r.Some? ==> r.value.id == id
    ensures r.Some? ==> exists i :: 0 <= i < |s| && s[i] == r.value && forall j :: 0 <= j < i ==> s[j].id != id
  {
    if s == [] then None
    else if s[0].id == id then Some(s[0])
    else
      var r := Find(s[1..], id);
      assert forall i :: 0 <= i < |s| - 1 ==> s[1..][i] == s[i + 1];
      r
  }

  /** `todos.some(item => item.list.toLowerCase() === text.toLowerCase())`. */
  function IsDuplicate(s: seq<Task>, text: string): (r: bool)
    ensures r <==> exists i :: 0 <= i < |s| && EqualsIgnoreCase(s[i].list, text)
  {
    if s == [] then false
    else
      var r := EqualsIgnoreCase(s[0].list, text) || IsDuplicate(s[1..], text);
      assert forall i :: 0 <= i < |s| - 1 ==> s[1..][i] == s[i + 1];
      r
  }

  /** The edit path's `map`: every record with the given id gets the new
      text and keeps its id and status; all other records are kept. */
  function Rename(s: seq<Task>, id: int, text: string): (r: seq<Task>)
    ensures |r| == |s|
    ensures forall i :: 0 <= i < |s| ==>
      r[i].id == s[i].id && r[i].status == s[i].status &&
      r[i].list == (if s[i].id == id then text else s[i].list)
  {
    if s == [] then []
    else [if s[0].id == id then s[0].(list := text) else s[0]] + Rename(s[1..], id, text)
  }

  /** `handleComplete`'s `map`: the status of every record with the given id
      is negated; ids, texts and every other record are kept. */
  function ToggleStatus(s: seq<Task>, id: int): (r: seq<Task>)
    ensures |r| == |s|
    ensures forall i :: 0 <= i < |s| ==>
      r[i].id == s[i].id && r[i].list == s[i].list &&
      r[i].status == (if s[i].id == id then !s[i].status else s[i].status)
  {
    if s == [] then []
    else [if s[0].id == id then s[0].(status := !s[0].status) else s[0]] + ToggleStatus(s[1..], id)
  }

  /** `handleDelete`'s `filter`: the records whose id differs. */
  function RemoveId(s: seq<Task>, id: int): (r: seq<Task>)
    ensures |r| <= |s|
    ensures forall i :: 0 <= i < |r| ==> r[i].id != id
  {
    if s == [] then []
    else if s[0].id == id then RemoveId(s[1..], id)
    else [s[0]] + RemoveId(s[1..], id)
  }

  // ---------------------------------------------------------------------
  // Properties of the transforms

  /** Deleting keeps exactly the records whose id differs. */
  lemma {:induction false} RemoveMembers(s: seq<Task>, id: int)
    ensures forall t :: t in RemoveId(s, id) <==> t in s && t.id != id
  {
    if s != [] {
      RemoveMembers(s[1..], id);
      assert s == [s[0]] + s[1..];
    }
  }

  /** Deleting preserves the relative order of what it keeps: it acts on
      each part of a split list separately. */
  lemma {:induction false} RemoveConcat(a: seq<Task>, b: seq<Task>, id: int)
    ensures RemoveId(a + b, id) == RemoveId(a, id) + RemoveId(b, id)
  {
    if a == [] {
      assert a + b == b;
    } else {
      assert (a + b)[1..] == a[1..] + b;
      RemoveConcat(a[1..], b, id);
    }
  }

  /** Deleting an id that is absent changes nothing. */
  lemma {:induction false} RemoveAbsent(s: seq<Task>, id: int)
    requires !HasId(s, id)
    ensures RemoveId(s, id) == s
  {
    if s != [] {
      var tail := s[1..];
      assert s[0].id != id;
      assert !HasId(tail, id) by {
        forall i | 0 <= i < |tail| ensures tail[i].id != id {
          assert tail[i] == s[i + 1];
        }
      }
      RemoveAbsent(tail, id);
      assert RemoveId(s, id) == [s[0]] + tail;
    }
  }

  /** Deleting twice is deleting once. */
  lemma RemoveIdempotent(s: seq<Task>, id: int)
    ensures RemoveId(RemoveId(s, id), id) == RemoveId(s, id)
  {
    RemoveAbsent(RemoveId(s, id), id);
  }

  /** When ids are unique, deleting a present id removes exactly one record. */
  lemma {:induction false} RemoveUniqueLength(s: seq<Task>, id: int)
    requires UniqueIds(s) && HasId(s, id)
    ensures |RemoveId(s, id)| == |s| - 1
  {
    assert forall i :: 0 <= i < |s| - 1 ==> s[1..][i] == s[i + 1];
    if s[0].id == id {
      RemoveAbsent(s[1..], id);
    } else {
      RemoveUniqueLength(s[1..], id);
    }
  }

  /** Toggling twice restores the list. */
  lemma ToggleInvolution(s: seq<Task>, id: int)
    ensures ToggleStatus(ToggleStatus(s, id), id) == s
  {
    var r := ToggleStatus(ToggleStatus(s, id), id);
    assert forall i :: 0 <= i < |s| ==> r[i] == s[i];
  }

  /** After an edit, looking the id up yields the old record with the new text. */
  lemma {:induction false} FindAfterRename(s: seq<Task>, id: int, text: string)
    requires HasId(s, id)
    ensures Find(Rename(s, id, text), id) == Some(Find(s, id).value.(list := text))
  {
    if s[0].id != id {
      assert forall i :: 0 <= i < |s| - 1 ==> s[1..][i] == s[i + 1];
      FindAfterRename(s[1..], id, text);
    }
  }

  // ---------------------------------------------------------------------
  // Invariants of a list the component maintains

  predicate UniqueIds(s: seq<Task>) {
    forall i, j :: 0 <= i < j < |s| ==> s[i].id != s[j].id
  }

  /** Every text is trimmed and passes the length checks. */
  predicate ValidTexts(s: seq<Task>) {
    forall i :: 0 <= i < |s| ==> IsTrimmed(s[i].list) && CheckText(s[i].list).None?
  }

  /** No two texts are equal ignoring case. */
  predicate DistinctTexts(s: seq<Task>) {
    forall i, j :: 0 <= i < j < |s| ==> !EqualsIgnoreCase(s[i].list, s[j].list)
  }

  predicate WellFormed(s: seq<Task>) {
    UniqueIds(s) && ValidTexts(s)
  }

  /** The add path keeps the list well formed when the new text is valid and
      the new id is fresh. */
  lemma AppendPreserves(s: seq<Task>, text: string, id: int)
    requires IsTrimmed(text) && CheckText(text).None?
    ensures WellFormed(s) && !HasId(s, id) ==> WellFormed(s + [Task(text, id, false)])
  {
    var r := s + [Task(text, id, false)];
    if WellFormed(s) && !HasId(s, id) {
      forall i | 0 <= i < |r| ensures IsTrimmed(r[i].list) && CheckText(r[i].list).None? {
        if i < |s| { assert r[i] == s[i]; }
      }
      forall i, j | 0 <= i < j < |r| ensures r[i].id != r[j].id {
        assert r[i] == s[i];
        if j < |s| { assert r[j] == s[j]; }
      }
    }
  }

  /** The add path keeps texts distinct ignoring case, because it runs only
      when the duplicate check passed. */
  lemma AppendPreservesDistinct(s: seq<Task>, text: string, id: int)
    requires !IsDuplicate(s, text)
    ensures DistinctTexts(s) ==> DistinctTexts(s + [Task(text, id, false)])
  {
    var r := s + [Task(text, id, false)];
    if DistinctTexts(s) {
      forall i, j | 0 <= i < j < |r| ensures !EqualsIgnoreCase(r[i].list, r[j].list) {
        assert r[i] == s[i];
        if j < |s| {
          assert r[j] == s[j];
        } else {
          assert !EqualsIgnoreCase(s[i].list, text);
        }
      }
    }
  }

  /** The edit path keeps the list well formed when the new text is valid. */
  lemma RenamePreserves(s: seq<Task>, id: int, text: string)
    requires IsTrimmed(text) && CheckText(text).None?
    ensures WellFormed(s) ==> WellFormed(Rename(s, id, text))
  {
  }

  /** Toggling keeps every invariant, case-insensitive distinctness included. */
  lemma TogglePreserves(s: seq<Task>, id: int)
    ensures WellFormed(s) ==> WellFormed(ToggleStatus(s, id))
    ensures DistinctTexts(s) ==> DistinctTexts(ToggleStatus(s, id))
  {
  }

  /** Deleting keeps a subsequence: the records it keeps sit at strictly
      increasing positions of the original list. */
  lemma {:induction false} RemoveIndices(s: seq<Task>, id: int) returns (idx: seq<int>)
    ensures |idx| == |RemoveId(s, id)|
    ensures forall i :: 0 <= i < |idx| ==> 0 <= idx[i] < |s| && RemoveId(s, id)[i] == s[idx[i]]
    ensures forall i, j :: 0 <= i < j < |idx| ==> idx[i] < idx[j]
  {
    if s == [] {
      return [];
    }
    var tail := s[1..];
    var rt := RemoveId(tail, id);
    var rest := RemoveIndices(tail, id);
    var shifted := seq(|rest|, i requires 0 <= i < |rest| => rest[i] + 1);
    forall i | 0 <= i < |rest| ensures 1 <= shifted[i] < |s| && rt[i] == s[shifted[i]] {
      assert tail[rest[i]] == s[rest[i] + 1];
    }
    if s[0].id == id {
      idx := shifted;
    } else {
      idx := [0] + shifted;
      var r := RemoveId(s, id);
      assert r == [s[0]] + rt;
      forall i | 0 < i < |idx| ensures idx[i] == shifted[i - 1] && r[i] == rt[i - 1] { }
    }
  }

  /** Deleting keeps every invariant, case-insensitive distinctness included. */
  lemma RemovePreserves(s: seq<Task>, id: int)
    ensures WellFormed(s) ==> WellFormed(RemoveId(s, id))
    ensures DistinctTexts(s) ==> DistinctTexts(RemoveId(s, id))
  {
    var r := RemoveId(s, id);
    var idx := RemoveIndices(s, id);
    if WellFormed(s) {
      forall i, j | 0 <= i < j < |r| ensures r[i].id != r[j].id {
        assert r[i] == s[idx[i]] && r[j] == s[idx[j]];
      }
      forall i | 0 <= i < |r| ensures IsTrimmed(r[i].list) && CheckText(r[i].list).None? {
        assert r[i] == s[idx[i]];
      }
    }
    if DistinctTexts(s) {
      forall i, j | 0 <= i < j < |r| ensures !EqualsIgnoreCase(r[i].list, r[j].list) {
        assert r[i] == s[idx[i]] && r[j] == s[idx[j]];
      }
    }
  }

  /** Editing performs no duplicate check, so two texts can become equal
      ignoring case: renaming "Walk dog" to "buy milk" next to "Buy milk". */
  lemma RenameMayDuplicate()
    ensures var s := [Task("Buy milk", 1, false), Task("Walk dog", 2, false)];
      DistinctTexts(s) && !DistinctTexts(Rename(s, 2, "buy milk"))
  {
    var s := [Task("Buy milk", 1, false), Task("Walk dog", 2, false)];
    assert ToLower("Buy milk") == "buy milk";
    assert ToLower("Walk dog")[0] == 'w';
    EqualsIgnoreCaseStrict();
    var r := Rename(s, 2, "buy milk");
    assert r[0].list == "Buy milk" && r[1].list == "buy milk";
  }
}
