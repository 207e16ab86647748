/** The tracker's global roster `state` and the student whose AI panel is
    open (`alumnoIAActual`), with the operations that change them in place
    (script.js:102-201). What the source reads from the page (form fields,
    selects) arrives as parameters, as do the generated id and today's date. */
module Tracker {
  import opened Options
  import opened Text
  import opened Records
  import opened Roster

  /** The student whose AI panel is open, by the two fields generarIAAlumno
      reads from it: its id, to find its history, and its name, for the text. */
  datatype Selection = Selection(id: Id, name: string)

  class RosterState {
    /** `state.alumnos`, in registration order. */
    var students: seq<Student>
    /** `alumnoIAActual`; `None` stands for null or undefined. */
    var current: Option<Selection>
    /** Every id `crypto.randomUUID` has handed out so far. Random UUIDs do not
        repeat, so an id once issued is never given to a later student. */
    ghost var issued: set<Id>

    /** Ids are unique, each student has at most one attendance mark per date,
        and every id the state refers to (a student's, the open panel's) was issued. */
    ghost predicate Valid()
      reads this
    {
      WellFormed(students)
      && (forall st :: st in students ==> st.id in issued)
      && (current.Some? ==> current.value.id in issued)
    }

    /** The counts renderResumen shows. */
    function Totals(): Summary
      reads this
    {
      Summarize(students)
    }

    /** The state before anything is stored: `{ alumnos: [] }` and no open panel. */
    constructor ()
      ensures Valid() && students == [] && current == None && issued == {}
    {
      students := [];
      current := None;
      issued := {};
    }

    /** agregarAlumno: refuses when the trimmed name or age is empty; otherwise
        appends a student with the new id, the trimmed name and age, today as
        registration date and no records, raising the student count by one.
        The new id is one never issued before, and is issued by the call. */
    method AddStudent(nameInput: string, ageInput: string, level: string, newId: Id, today: Date)
      returns (r: Outcome)
      requires Valid()
      requires newId !in issued
      modifies this`students, this`issued
      ensures Valid()
      ensures issued == if r.Applied? then old(issued) + {newId} else old(issued)
      ensures r == (if Trim(nameInput) == [] || Trim(ageInput) == [] then Rejected(MissingFields) else Applied)
      ensures r.Rejected? ==> students == old(students)
      ensures r.Applied? ==>
        students == old(students) + [Student(newId, Trim(nameInput), Trim(ageInput), level, today, [], [], [])]
      ensures r.Applied? ==>
        Totals() == Summary(old(Totals()).students + 1, old(Totals()).attendance, old(Totals()).progress)
    {
      var name := Trim(nameInput);
      var age := Trim(ageInput);
      if name == [] || age == [] {
        return Rejected(MissingFields);
      }
      var newcomer := Student(newId, name, age, level, today, [], [], []);
      issued := issued + {newId};
      AppendKeepsWellFormed(students, newcomer);
      SummaryAppend(students, newcomer);
      students := students + [newcomer];
      r := Applied;
    }

    /** eliminarAlumno: keeps the students whose id differs, in order. An
        absent id changes nothing; a present one deletes exactly that student
        and its records from the counts. */
    method RemoveStudent(id: Id)
      requires Valid()
      modifies this`students
      ensures Valid()
      ensures students == RemoveId(old(students), id)
      ensures !HasId(old(students), id) ==> students == old(students)
      ensures HasId(old(students), id) ==>
        var i := FindIndex(old(students), id).value;
        students == old(students)[..i] + old(students)[i + 1..]
        && Totals().students == old(Totals()).students - 1
        && Totals().attendance == old(Totals()).attendance - |old(students)[i].attendance|
        && Totals().progress == old(Totals()).progress - |old(students)[i].progress|
    {
      RemoveKeepsWellFormed(students, id);
      match FindIndex(students, id) {
        case Some(i) =>
          RemovePresent(students, id, i);
          SummaryDelete(students, i);
        case None =>
          RemoveAbsent(students, id);
      }
      students := RemoveId(students, id);
    }

    /** abrirPanelIA: remembers the student found by id (none if absent). */
    method OpenAIPanel(id: Id)
      requires Valid()
      modifies this`current
      ensures Valid()
      ensures current.Some? <==> HasId(students, id)
      ensures current.Some? ==> current.value.id == id && current.value.name == Find(students, id).value.name
    {
      match Find(students, id) {
        case Some(st) => current := Some(Selection(st.id, st.name));
        case None => current := None;
      }
    }

    /** generarIAAlumno: refuses an empty trimmed topic, before the open panel
        is read, so that refusal needs no panel; otherwise appends one entry,
        dated today and carrying the templated text, to the history of the open
        student and to no one else. When that student has been removed since the
        panel opened the roster stays as it is: its id is never issued again, so
        no later student can receive the entry. No count moves. */
    method GenerateAI(kind: string, topicInput: string, today: Date) returns (r: Outcome)
      requires Valid()
      requires Trim(topicInput) != [] ==> current.Some?
      modifies this`students
      ensures Valid()
      ensures Totals() == old(Totals())
      ensures r == (if Trim(topicInput) == [] then Rejected(MissingTopic) else Applied)
      ensures r.Rejected? ==> students == old(students)
      ensures r.Applied? && HasId(old(students), current.value.id) ==>
        var topic := Trim(topicInput);
        var entry := AIEntry(today, kind, topic, AIContent(kind, topic, current.value.name));
        var i := FindIndex(old(students), current.value.id).value;
        students == old(students)[i := old(students)[i].(aiHistory := old(students)[i].aiHistory + [entry])]
      ensures r.Applied? && !HasId(old(students), current.value.id) ==> students == old(students)
    {
      var topic := Trim(topicInput);
      if topic == [] {
        return Rejected(MissingTopic);
      }
      var content := AIContent(kind, topic, current.value.name);
      match FindIndex(students, current.value.id) {
        case Some(i) =>
          var st := students[i];
          var st' := st.(aiHistory := st.aiHistory + [AIEntry(today, kind, topic, content)]);
          ReplaceKeepsWellFormed(students, i, st');
          SummaryReplace(students, i, st');
          students := students[i := st'];
        case None =>
      }
      r := Applied;
    }

    /** registrarAsistencia: refuses when the student already has a mark dated
        today; otherwise appends `{today, status}` to that student only, which
        keeps one mark per date and raises the attendance count by one. Either
        way the student is marked for today afterwards, so a second call the
        same day is refused. The source dereferences the lookup unguarded, so
        the student must exist. */
    method MarkAttendance(id: Id, status: string, today: Date) returns (r: Outcome)
      requires Valid()
      requires HasId(students, id)
      modifies this`students
      ensures Valid()
      ensures FindIndex(students, id) == FindIndex(old(students), id)
      ensures MarkedOn(students[FindIndex(students, id).value], today)
      ensures var i := FindIndex(old(students), id).value; var st := old(students)[i];
        r == (if MarkedOn(st, today) then Rejected(AlreadyMarkedToday) else Applied)
        && (r.Rejected? ==> students == old(students))
        && (r.Applied? ==>
              students == old(students)[i := st.(attendance := st.attendance + [Attendance(today, status)])]
              && Totals() == old(Totals()).(attendance := old(Totals()).attendance + 1))
    {
      var i := FindIndex(students, id).value;
      var st := students[i];
      if MarkedOn(st, today) {
        return Rejected(AlreadyMarkedToday);
      }
      var st' := st.(attendance := st.attendance + [Attendance(today, status)]);
      MarkKeepsOneMarkPerDay(st, today, status);
      ReplaceKeepsWellFormed(students, i, st');
      SummaryReplace(students, i, st');
      FindIndexUnique(students[i := st'], id, i);
      students := students[i := st'];
      r := Applied;
    }

    /** registrarProgreso: an empty status does nothing (and is checked before
        the lookup); otherwise appends `{today, status}` to that student only,
        repeats allowed, raising the progress count by one. */
    method MarkProgress(id: Id, status: string, today: Date) returns (r: Outcome)
      requires Valid()
      requires status != [] ==> HasId(students, id)
      modifies this`students
      ensures Valid()
      ensures r == (if status == [] then Ignored else Applied)
      ensures r.Ignored? ==> students == old(students)
      ensures r.Applied? ==>
        var i := FindIndex(old(students), id).value; var st := old(students)[i];
        students == old(students)[i := st.(progress := st.progress + [Progress(today, status)])]
        && Totals() == old(Totals()).(progress := old(Totals()).progress + 1)
    {
      if status == [] {
        return Ignored;
      }
      var i := FindIndex(students, id).value;
      var st := students[i];
      var st' := st.(progress := st.progress + [Progress(today, status)]);
      ReplaceKeepsWellFormed(students, i, st');
      SummaryReplace(students, i, st');
      students := students[i := st'];
      r := Applied;
    }
  }

  /** A client of the contracts above: marking the same student twice on the
      same day refuses the second mark and leaves exactly one record. */
  method SameDayTwice(id: Id, today: Date)
  {
    var roster := new RosterState();
    var name, age := "Ana", "12";
    assert Trim(name) == name && Trim(age) == age by {
      assert !IsSpace(name[0]) && !IsSpace(name[|name| - 1]);
      TrimTrimmed(name);
      assert !IsSpace(age[0]) && !IsSpace(age[|age| - 1]);
      TrimTrimmed(age);
    }
    var added := roster.AddStudent(name, age, "Nivel 1", id, today);
    assert roster.students == [Student(id, name, age, "Nivel 1", today, [], [], [])];
    assert FindIndex(roster.students, id) == Some(0);
    var first := roster.MarkAttendance(id, "Presente", today);
    assert first == Applied;
    var second := roster.MarkAttendance(id, "Ausente", today);
    assert second == Rejected(AlreadyMarkedToday);
    assert roster.students[0].attendance == [Attendance(today, "Presente")];
  }

  /** A client of the contracts above: an empty topic is refused even before
      any panel has been opened. */
  method TopicBeforePanel(today: Date)
  {
    var roster := new RosterState();
    var refused := roster.GenerateAI("Ejercicios", " ", today);
    assert refused == Rejected(MissingTopic) by {
      assert AllSpace(" ");
    }
  }

  /** A client of the contracts above: an entry generated for a student
      removed since the panel opened lands on nobody, not on a student added
      later. */
  method GenerateAfterRemoval(id: Id, other: Id, name: string, age: string, kind: string, topic: string, today: Date)
    requires id != other
    requires Trim(name) != [] && Trim(age) != [] && Trim(topic) != []
  {
    var roster := new RosterState();
    var added := roster.AddStudent(name, age, "Nivel 1", id, today);
    roster.OpenAIPanel(id);
    roster.RemoveStudent(id);
    assert roster.issued == {id};
    added := roster.AddStudent(name, age, "Nivel 1", other, today);
    ghost var before := roster.students;
    assert !HasId(before, id);
    var generated := roster.GenerateAI(kind, topic, today);
    assert generated == Applied && roster.students == before;
  }
}
