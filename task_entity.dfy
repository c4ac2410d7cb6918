/**
 * The `Task` entity and the constraints its table declares:
 * a generated integer primary key, a unique non-null title of at most 50
 * characters, a non-null description, an enumerated state defaulting to
 * PENDING, and a creation timestamp (epoch milliseconds).
 *
 * The table itself is a map from primary key to row.
 */
module TaskEntity {
  import opened Wrappers

  /** The four values of the `state` enum column. */
  datatype State = Pending | InProgress | Completed | Deleted

  /** The value the column takes when an insert does not supply one. */
  const DefaultState: State := Pending

  /** The declared length of the `title` column. */
  const MaxTitleLength: nat := 50

  /** The spellings the enum column and the request validators accept. */
  const StateNames: set<string> := {"PENDING", "IN_PROGRESS", "COMPLETED", "DELETED"}

  /** How a state is written in the column and in requests. */
  function StateName(s: State): (name: string)
    ensures name in StateNames
  {
    match s
    case Pending => "PENDING"
    case InProgress => "IN_PROGRESS"
    case Completed => "COMPLETED"
    case Deleted => "DELETED"
  }

  /** Reads a state from its spelling; anything else is not a state. */
  function ParseState(name: string): (r: Option<State>)
    ensures r.Some? <==> name in StateNames
    ensures r.Some? ==> StateName(r.value) == name
  {
    if name == "PENDING" then Some(Pending)
    else if name == "IN_PROGRESS" then Some(InProgress)
    else if name == "COMPLETED" then Some(Completed)
    else if name == "DELETED" then Some(Deleted)
    else None
  }

  /** Spelling a state and reading it back gives the same state; so no two states share a spelling. */
  lemma StateNameRoundTrip(s: State)
    ensures ParseState(StateName(s)) == Some(s)
  {
  }

  datatype Task = Task(id: int, title: string, description: string, state: State, createdAt: int)

  /** The table: primary key to row. */
  type Table = map<int, Task>

  /**
   * A column constraint that the store refuses to break on a write.
   * `NullColumn` is a `null` written to the NOT NULL `title` or
   * `description`; a `Task` row cannot hold one, so only a write of an
   * update body that sends `null` meets it.
   */
  datatype Constraint = TitleTooLong | DuplicateTitle | NullColumn

  /** Every row is stored under its own primary key. */
  ghost predicate KeyedById(t: Table)
  {
    forall id :: id in t ==> t[id].id == id
  }

  /** The `length: 50` constraint on `title`. */
  ghost predicate TitlesFit(t: Table)
  {
    forall id :: id in t ==> |t[id].title| <= MaxTitleLength
  }

  /** The `unique: true` constraint on `title`. */
  ghost predicate TitlesUnique(t: Table)
  {
    forall i, j :: i in t && j in t && t[i].title == t[j].title ==> i == j
  }

  /** Every constraint the entity declares holds of the table. */
  ghost predicate WellFormed(t: Table)
  {
    KeyedById(t) && TitlesFit(t) && TitlesUnique(t)
  }

  /** Some row has this title (the store's lookup by title found a row). */
  predicate TitleTaken(t: Table, title: string)
    ensures TitleTaken(t, title) <==> exists row :: row in t.Values && row.title == title
  {
    TitleTakenAsValue(t, title);
    exists id :: id in t && t[id].title == title
  }

  lemma TitleTakenAsValue(t: Table, title: string)
    ensures (exists id :: id in t && t[id].title == title) <==> exists row :: row in t.Values && row.title == title
  {
    if exists id :: id in t && t[id].title == title {
      var id :| id in t && t[id].title == title;
      ValueOf(t, id);
    }
    if exists row :: row in t.Values && row.title == title {
      var row :| row in t.Values && row.title == title;
      var id := KeyOf(t, row);
    }
  }

  /** Some row other than the one keyed `id` has this title. */
  predicate TitleTakenByOther(t: Table, id: int, title: string)
  {
    exists other :: other in t && other != id && t[other].title == title
  }

  /**
   * The check the store makes when it saves `row` under its key: the
   * write is refused exactly when it would break a column constraint.
   */
  function ViolatedConstraint(t: Table, row: Task): (c: Option<Constraint>)
    requires WellFormed(t)
    ensures c.None? <==> WellFormed(t[row.id := row])
    ensures c == Some(TitleTooLong) <==> |row.title| > MaxTitleLength
  {
    if |row.title| > MaxTitleLength then
      assert t[row.id := row][row.id] == row;
      Some(TitleTooLong)
    else if TitleTakenByOther(t, row.id, row.title) then
      var other :| other in t && other != row.id && t[other].title == row.title;
      assert t[row.id := row][other].title == t[row.id := row][row.id].title;
      Some(DuplicateTitle)
    else None
  }

  /** Each row appears once among the table's values: distinct keys hold distinct rows. */
  lemma {:induction false} RowsListedOnce(t: Table)
    requires KeyedById(t)
    ensures |t.Values| == |t|
  {
    if |t| != 0 {
      var k := PickKey(t);
      var rest := t - {k};
      RowsListedOnce(rest);
      ValuesWithoutKey(t, k);
      assert t.Keys == rest.Keys + {k};
    }
  }

  /** Removing one key removes exactly that key's row from the values. */
  lemma ValuesWithoutKey(t: Table, k: int)
    requires KeyedById(t) && k in t
    ensures t.Values == (t - {k}).Values + {t[k]}
    ensures t[k] !in (t - {k}).Values
  {
    var rest := t - {k};
    forall v | v in t.Values ensures v in rest.Values + {t[k]} {
      var j := KeyOf(t, v);
      if j != k { assert rest[j] == v; }
    }
    forall j | j in rest ensures rest[j] != t[k] {
      assert rest[j].id == j;
    }
  }
}
