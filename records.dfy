/** The records the tracker keeps for each student (script.js:112-121,
    162-167, 185, 198) and the outcome of an operation. */
module Records {
  import opened Options
  import opened Text

  /** The value of crypto.randomUUID(): compared only for equality. */
  type Id = string

  /** A day as fechaHoyISO returns it ("YYYY-MM-DD"): compared only for equality. */
  type Date = string

  /** One attendance mark `{fecha, estado}`; the interface offers "Presente" and "Ausente". */
  datatype Attendance = Attendance(date: Date, status: string)

  /** One progress mark `{fecha, estado}`; the interface offers "Dominado",
      "En proceso" and "Reforzar". */
  datatype Progress = Progress(date: Date, status: string)

  /** One simulated AI request `{fecha, tipo, tema, contenido}`. */
  datatype AIEntry = AIEntry(date: Date, kind: string, topic: string, content: string)

  /** A student `{id, nombre, edad, nivel, fechaRegistro, asistencia, progreso,
      historialIA}`. The age is the trimmed text of the form field, as stored. */
  datatype Student = Student(
    id: Id,
    name: string,
    age: string,
    level: string,
    registered: Date,
    attendance: seq<Attendance>,
    progress: seq<Progress>,
    aiHistory: seq<AIEntry>)

  /** The messages the tracker shows with alert() when it refuses an operation. */
  datatype Alert =
    | MissingFields        // "Complete los campos obligatorios"
    | AlreadyMarkedToday   // "Ya se registró asistencia hoy"
    | MissingTopic         // "Especifica un tema"

  /** How an operation ended: applied, silently ignored (the source returns
      without a message), or refused with an alert. State changes only when applied. */
  datatype Outcome = Applied | Ignored | Rejected(alert: Alert)

  /** Whether the student already has an attendance mark dated `day`
      (the `asistencia.find(a => a.fecha === hoy)` test). */
  predicate MarkedOn(st: Student, day: Date)
  {
    exists k :: 0 <= k < |st.attendance| && st.attendance[k].date == day
  }

  /** A day is marked exactly when a mark with that date is among the
      student's marks, whatever its status. */
  lemma MarkedOnSomeStatus(st: Student, day: Date)
    ensures MarkedOn(st, day) <==> exists status :: Attendance(day, status) in st.attendance
  {
    if MarkedOn(st, day) {
      var k :| 0 <= k < |st.attendance| && st.attendance[k].date == day;
      assert Attendance(day, st.attendance[k].status) == st.attendance[k];
    }
    if exists status :: Attendance(day, status) in st.attendance {
      var status :| Attendance(day, status) in st.attendance;
      var k :| 0 <= k < |st.attendance| && st.attendance[k] == Attendance(day, status);
    }
  }

  /** At most one attendance mark per date. */
  predicate OneMarkPerDay(marks: seq<Attendance>)
  {
    forall j, k :: 0 <= j < k < |marks| ==> marks[j].date != marks[k].date
  }

  const GeneratePrefix := "Simulación IA: Generando "
  const TopicOpen := " sobre \""
  const TopicClose := "\" para "

  /** The simulated AI text for a request of kind `kind` on `topic` for the
      student called `name`: `Simulación IA: Generando <kind> sobre "<topic>" para <name>`. */
  function AIContent(kind: string, topic: string, name: string): (r: string)
    ensures |r| == |GeneratePrefix| + |kind| + |TopicOpen| + |topic| + |TopicClose| + |name|
    ensures r[..|GeneratePrefix|] == GeneratePrefix
    ensures r[|GeneratePrefix|..|GeneratePrefix| + |kind|] == kind
    ensures r[|GeneratePrefix| + |kind|..|GeneratePrefix| + |kind| + |TopicOpen|] == TopicOpen
    ensures var p := |GeneratePrefix| + |kind| + |TopicOpen|; r[p..p + |topic|] == topic
    ensures var p := |GeneratePrefix| + |kind| + |TopicOpen|; r[p + |topic|..|r| - |name|] == TopicClose
    ensures r[|r| - |name|..] == name
  {
    var r := GeneratePrefix + kind + TopicOpen + topic + TopicClose + name;
    var p := |GeneratePrefix| + |kind| + |TopicOpen|;
    assert r == (GeneratePrefix + kind + TopicOpen) + topic + (TopicClose + name);
    assert r[p..p + |topic|] == topic;
    r
  }

  /** The topic recorded in an AI text, given the kind and student it was
      generated for; `None` when the text is not of that form. */
  function TopicOf(content: string, kind: string, name: string): (r: Option<string>)
    ensures r.Some? ==> content == AIContent(kind, r.value, name)
  {
    Between(content, GeneratePrefix + kind + TopicOpen, TopicClose + name)
  }

  /** The template keeps the topic: it can be read back from the text. */
  lemma TopicOfContent(kind: string, topic: string, name: string)
    ensures TopicOf(AIContent(kind, topic, name), kind, name) == Some(topic)
  {
    var pre := GeneratePrefix + kind + TopicOpen;
    var suf := TopicClose + name;
    assert AIContent(kind, topic, name) == pre + topic + suf;
    BetweenOf(pre, topic, suf);
  }

  /** Adding a mark for a day that has none keeps one mark per day, and the
      day is then marked, so a second mark that day is refused. */
  lemma MarkKeepsOneMarkPerDay(st: Student, day: Date, status: string)
    requires OneMarkPerDay(st.attendance) && !MarkedOn(st, day)
    ensures var st' := st.(attendance := st.attendance + [Attendance(day, status)]);
      OneMarkPerDay(st'.attendance) && MarkedOn(st', day)
  {
    var marks := st.attendance + [Attendance(day, status)];
    forall j, k | 0 <= j < k < |marks| ensures marks[j].date != marks[k].date {
      if k == |marks| - 1 {
        assert marks[j] == st.attendance[j];
      }
    }
    assert marks[|marks| - 1].date == day;
  }
}
