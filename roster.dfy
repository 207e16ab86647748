/** The roster `state.alumnos` seen as a value: lookup by id (obtenerAlumno),
    removal by id (the filter in eliminarAlumno), the three summary counts
    (renderResumen), the invariant the operations keep, and how each kind of
    change moves the counts. */
module Roster {
  import opened Options
  import opened Records

  /** Some student in `s` has this id. */
  predicate HasId(s: seq<Student>, id: Id)
  {
    exists k :: 0 <= k < |s| && s[k].id == id
  }

  /** No two students share an id. */
  predicate UniqueIds(s: seq<Student>)
  {
    forall j, k :: 0 <= j < k < |s| ==> s[j].id != s[k].id
  }

  /** The invariant of the roster: ids are unique and each student has at
      most one attendance mark per date. */
  predicate WellFormed(s: seq<Student>)
  {
    UniqueIds(s) && forall k :: 0 <= k < |s| ==> OneMarkPerDay(s[k].attendance)
  }

  /** Where `Array.prototype.find` stops: the position of the first student
      with this id, or `None` when there is none. */
  function FindIndex(s: seq<Student>, id: Id): (r: Option<nat>)
    ensures r.Some? ==> r.value < |s| && s[r.value].id == id
    ensures r.Some? ==> forall k :: 0 <= k < r.value ==> s[k].id != id
    ensures r.None? ==> forall k :: 0 <= k < |s| ==> s[k].id != id
  {
    if s == [] then None
    else if s[0].id == id then Some(0)
    else match FindIndex(s[1..], id)
      case Some(i) => Some(i + 1)
      case None => None
  }

  /** obtenerAlumno: the first student with this id, if any. */
  function Find(s: seq<Student>, id: Id): (r: Option<Student>)
    ensures r.Some? <==> HasId(s, id)
    ensures r.Some? ==> r.value in s && r.value.id == id
    ensures r.Some? ==> exists i :: 0 <= i < |s| && s[i] == r.value && forall k :: 0 <= k < i ==> s[k].id != id
  {
    match FindIndex(s, id)
    case Some(i) => Some(s[i])
    case None => None
  }

  /** With unique ids the first match is the only one. */
  lemma FindIndexUnique(s: seq<Student>, id: Id, k: nat)
    requires UniqueIds(s) && k < |s| && s[k].id == id
    ensures FindIndex(s, id) == Some(k)
  {
  }

  /** `s.filter(a => a.id !== id)`: the students whose id differs, in their order. */
  function RemoveId(s: seq<Student>, id: Id): (r: seq<Student>)
    ensures |r| <= |s|
    ensures forall x :: x in r <==> x in s && x.id != id
  {
    if s == [] then []
    else if s[0].id == id then RemoveId(s[1..], id)
    else [s[0]] + RemoveId(s[1..], id)
  }

  /** The filter works element by element: removing from a concatenation is
      the concatenation of the removals. With the case of a single student this
      pins the result down, order included. */
  lemma {:induction false} RemoveIdAppend(a: seq<Student>, b: seq<Student>, id: Id)
    ensures RemoveId(a + b, id) == RemoveId(a, id) + RemoveId(b, id)
  {
    if a != [] {
      assert (a + b)[1..] == a[1..] + b;
      RemoveIdAppend(a[1..], b, id);
    } else {
      assert a + b == b;
    }
  }

  /** Removing an id nobody has leaves the roster as it was. */
  lemma {:induction false} RemoveAbsent(s: seq<Student>, id: Id)
    requires !HasId(s, id)
    ensures RemoveId(s, id) == s
  {
    if s != [] {
      assert !HasId(s[1..], id) by {
        forall k | 0 <= k < |s[1..]| ensures s[1..][k].id != id {
          assert s[1..][k] == s[k + 1];
        }
      }
      RemoveAbsent(s[1..], id);
      assert s == [s[0]] + s[1..];
    }
  }

  /** Removing the id of the student at position `i`, when ids are unique,
      deletes exactly that student and keeps the rest in order. */
  lemma {:induction false} RemovePresent(s: seq<Student>, id: Id, i: nat)
    requires UniqueIds(s) && i < |s| && s[i].id == id
    ensures RemoveId(s, id) == s[..i] + s[i + 1..]
  {
    assert s == s[..i] + ([s[i]] + s[i + 1..]);
    RemoveIdAppend(s[..i], [s[i]] + s[i + 1..], id);
    RemoveIdAppend([s[i]], s[i + 1..], id);
    assert RemoveId([s[i]], id) == [] by {
      assert [s[i]][1..] == [];
    }
    assert !HasId(s[..i], id) by {
      forall k | 0 <= k < i ensures s[..i][k].id != id {
        assert s[..i][k] == s[k];
      }
    }
    assert !HasId(s[i + 1..], id) by {
      var t := s[i + 1..];
      forall k | 0 <= k < |t| ensures t[k].id != id {
        assert t[k] == s[i + 1 + k];
      }
    }
    RemoveAbsent(s[..i], id);
    RemoveAbsent(s[i + 1..], id);
  }

  /** Removing by id keeps the roster well formed. */
  lemma {:induction false} RemoveKeepsWellFormed(s: seq<Student>, id: Id)
    requires WellFormed(s)
    ensures WellFormed(RemoveId(s, id))
  {
    if s != [] {
      var rest := s[1..];
      assert WellFormed(rest) by {
        forall k | 0 <= k < |rest| ensures OneMarkPerDay(rest[k].attendance) {
          assert rest[k] == s[k + 1];
        }
      }
      RemoveKeepsWellFormed(rest, id);
      if s[0].id != id {
        var r := [s[0]] + RemoveId(rest, id);
        assert forall x :: x in RemoveId(rest, id) ==> x in rest;
        forall j, k | 0 <= j < k < |r| ensures r[j].id != r[k].id {
          if j == 0 {
            var n :| 0 <= n < |rest| && rest[n] == r[k];
            assert s[n + 1] == r[k];
          }
        }
      }
    }
  }

  /** Adding a student whose id is new and who has no marks keeps the roster well formed. */
  lemma AppendKeepsWellFormed(s: seq<Student>, st: Student)
    requires WellFormed(s) && !HasId(s, st.id) && st.attendance == []
    ensures WellFormed(s + [st])
  {
    var t := s + [st];
    forall j, k | 0 <= j < k < |t| ensures t[j].id != t[k].id {
      if k == |s| {
        assert t[j] == s[j];
      }
    }
  }

  /** Replacing the student at `i` by one with the same id and at most one
      mark per date keeps the roster well formed. */
  lemma ReplaceKeepsWellFormed(s: seq<Student>, i: nat, st: Student)
    requires WellFormed(s) && i < |s| && st.id == s[i].id && OneMarkPerDay(st.attendance)
    ensures WellFormed(s[i := st])
  {
  }

  /** renderResumen's `reduce((acc, a) => acc + a.asistencia.length, 0)`:
      attendance marks summed over the roster, left to right. */
  function AttendanceTotal(s: seq<Student>): nat
  {
    if s == [] then 0 else AttendanceTotal(s[..|s| - 1]) + |s[|s| - 1].attendance|
  }

  /** renderResumen's `reduce((acc, a) => acc + a.progreso.length, 0)`. */
  function ProgressTotal(s: seq<Student>): nat
  {
    if s == [] then 0 else ProgressTotal(s[..|s| - 1]) + |s[|s| - 1].progress|
  }

  /** The three numbers of the summary view. */
  datatype Summary = Summary(students: nat, attendance: nat, progress: nat)

  function Summarize(s: seq<Student>): Summary
  {
    Summary(|s|, AttendanceTotal(s), ProgressTotal(s))
  }

  /** The totals add up over a split of the roster. */
  lemma {:induction false} TotalsAppend(a: seq<Student>, b: seq<Student>)
    ensures AttendanceTotal(a + b) == AttendanceTotal(a) + AttendanceTotal(b)
    ensures ProgressTotal(a + b) == ProgressTotal(a) + ProgressTotal(b)
  {
    if b == [] {
      assert a + b == a;
    } else {
      var c := a + b;
      assert c[..|c| - 1] == a + b[..|b| - 1];
      assert c[|c| - 1] == b[|b| - 1];
      TotalsAppend(a, b[..|b| - 1]);
    }
  }

  /** No student has more marks of either kind than the matching total. */
  lemma {:induction false} TotalsBound(s: seq<Student>, i: nat)
    requires i < |s|
    ensures |s[i].attendance| <= AttendanceTotal(s) && |s[i].progress| <= ProgressTotal(s)
  {
    assert s == s[..i] + [s[i]] + s[i + 1..];
    TotalsAppend(s[..i] + [s[i]], s[i + 1..]);
    TotalsAppend(s[..i], [s[i]]);
    TotalsSingle(s[i]);
  }

  /** A total is zero exactly when no student has a mark of that kind. */
  lemma {:induction false} TotalsZero(s: seq<Student>)
    ensures AttendanceTotal(s) == 0 <==> forall k :: 0 <= k < |s| ==> s[k].attendance == []
    ensures ProgressTotal(s) == 0 <==> forall k :: 0 <= k < |s| ==> s[k].progress == []
  {
    if s != [] {
      var init := s[..|s| - 1];
      TotalsZero(init);
      assert forall k :: 0 <= k < |init| ==> init[k] == s[k];
    }
  }

  /** Totals of the roster with one student. */
  lemma TotalsSingle(st: Student)
    ensures AttendanceTotal([st]) == |st.attendance| && ProgressTotal([st]) == |st.progress|
  {
    assert [st][..0] == [];
  }

  /** Appending a student raises the student count by one and the mark
      totals by that student's marks. */
  lemma {:induction false} SummaryAppend(s: seq<Student>, st: Student)
    ensures Summarize(s + [st]) == Summary(|s| + 1, AttendanceTotal(s) + |st.attendance|,
                                           ProgressTotal(s) + |st.progress|)
  {
    TotalsAppend(s, [st]);
    TotalsSingle(st);
  }

  /** Replacing the student at `i` moves each total by the difference in that
      student's marks; the student count does not move. */
  lemma {:induction false} SummaryReplace(s: seq<Student>, i: nat, st: Student)
    requires i < |s|
    ensures Summarize(s[i := st]).students == |s|
    ensures Summarize(s[i := st]).attendance == AttendanceTotal(s) - |s[i].attendance| + |st.attendance|
    ensures Summarize(s[i := st]).progress == ProgressTotal(s) - |s[i].progress| + |st.progress|
  {
    var t := s[i := st];
    assert s == s[..i] + [s[i]] + s[i + 1..];
    assert t == s[..i] + [st] + s[i + 1..];
    TotalsAppend(s[..i] + [s[i]], s[i + 1..]);
    TotalsAppend(s[..i], [s[i]]);
    TotalsAppend(s[..i] + [st], s[i + 1..]);
    TotalsAppend(s[..i], [st]);
    TotalsSingle(s[i]);
    TotalsSingle(st);
  }

  /** Deleting the student at `i` lowers the student count by one and each
      total by that student's marks. */
  lemma {:induction false} SummaryDelete(s: seq<Student>, i: nat)
    requires i < |s|
    ensures Summarize(s[..i] + s[i + 1..]).students == |s| - 1
    ensures Summarize(s[..i] + s[i + 1..]).attendance == AttendanceTotal(s) - |s[i].attendance|
    ensures Summarize(s[..i] + s[i + 1..]).progress == ProgressTotal(s) - |s[i].progress|
  {
    assert s == s[..i] + [s[i]] + s[i + 1..];
    TotalsAppend(s[..i] + [s[i]], s[i + 1..]);
    TotalsAppend(s[..i], [s[i]]);
    TotalsAppend(s[..i], s[i + 1..]);
    TotalsSingle(s[i]);
  }
}
