/** `TaskRepositoryAdapter`: conversion between the domain Task and the JPA
    entity, over an abstract table standing in for the JPA repository. */
module Persistence {
  import opened Wrappers
  import opened Domain

  /** The JPA entity: the same six columns; `id` is null until assigned. */
  datatype Entity = Entity(
    id: Option<int>,
    title: string,
    description: Option<string>,
    status: Status,
    createdAt: nat,
    updatedAt: nat)

  /** `toEntity`: the five-column constructor, then the id only when the
      task has one. */
  function ToEntity(t: Task): (e: Entity)
    ensures e.title == t.title && e.description == t.description
    ensures e.status == t.status
    ensures e.createdAt == t.createdAt && e.updatedAt == t.updatedAt
    ensures e.id.Some? <==> t.id.Some?
    ensures t.id.Some? ==> e.id == t.id
  {
    var blank := Entity(None, t.title, t.description, t.status, t.createdAt, t.updatedAt);
    if t.id.Some? then blank.(id := t.id) else blank
  }

  /** `toDomain`: `Task.create` (which reads the clock twice, here `c1` and
      `c2`) followed by the rehydration setters, which overwrite the
      factory's id, status and timestamps with the stored ones. */
  function ToDomain(e: Entity, c1: nat, c2: nat): (t: Task)
    ensures t.id == e.id && t.status == e.status
    ensures t.createdAt == e.createdAt && t.updatedAt == e.updatedAt
    ensures t.title == e.title && t.description == e.description
  {
    var t := Create(e.title, e.description, c1, c2);
    var t := SetId(t, e.id);
    var t := SetStatus(t, e.status);
    var t := SetCreatedAt(t, e.createdAt);
    SetUpdatedAt(t, e.updatedAt)
  }

  /** The factory's clock readings never survive rehydration. */
  lemma ToDomainIgnoresClock(e: Entity, a1: nat, a2: nat, b1: nat, b2: nat)
    ensures ToDomain(e, a1, a2) == ToDomain(e, b1, b2)
  {
  }

  /** Rebuilding a stored row; by ToDomainIgnoresClock any readings serve. */
  function Load(e: Entity): Task {
    ToDomain(e, 0, 0)
  }

  /** Domain -> entity -> domain is the identity on all six fields, with or
      without an id; entity -> domain -> entity likewise. */
  lemma RoundTrip(t: Task, e: Entity)
    ensures Load(ToEntity(t)) == t
    ensures ToEntity(Load(e)) == e
  {
  }

  /** The table: rows keyed by their identity column, and the next value the
      identity column will hand out. */
  datatype Store = Store(rows: map<int, Entity>, nextId: int)

  /** Oracle keeps a zero-length VARCHAR2 value as NULL, so an empty
      description is read back as null. */
  function ColumnValue(d: Option<string>): (r: Option<string>)
    ensures r != Some("")
    ensures d == Some("") ==> r == None
    ensures d != Some("") ==> r == d
  {
    if d == Some("") then None else d
  }

  /** The row as the table holds it once written. */
  function Stored(e: Entity): Entity {
    e.(description := ColumnValue(e.description))
  }

  /** Every row sits under its own id, every id is below `nextId`, and no
      row holds an empty description. */
  ghost predicate Valid(s: Store) {
    && 1 <= s.nextId
    && forall k :: k in s.rows ==>
      && 1 <= k < s.nextId && s.rows[k].id == Some(k)
      && s.rows[k].description != Some("")
  }

  /** The empty table; the identity column starts at 1. */
  const Empty := Store(map[], 1)

  /** Whether `save` would write an existing row or insert a new one. */
  predicate Saveable(s: Store, t: Task) {
    t.id.Some? ==> t.id.value in s.rows
  }

  /** `save`: convert, let the table insert (assigning the next id) or
      overwrite by id, and convert back the entity the JPA repository hands
      back, which is the in-memory one: its description is the one given,
      even where the table holds NULL for an empty one. */
  function SaveTask(s: Store, t: Task): (r: (Store, Task))
    requires Valid(s) && Saveable(s, t)
    ensures Valid(r.0)
    ensures r.1.id.Some? && r.0.rows == s.rows[r.1.id.value := Stored(ToEntity(r.1))]
    ensures t.id.None? ==> r.1 == t.(id := Some(s.nextId)) && s.nextId !in s.rows
    ensures t.id.Some? ==> r.1 == t && r.0.nextId == s.nextId
  {
    var e := ToEntity(t);
    var (s', saved) :=
      if e.id.None? then
        var row := e.(id := Some(s.nextId));
        (Store(s.rows[s.nextId := Stored(row)], s.nextId + 1), row)
      else
        (Store(s.rows[e.id.value := Stored(e)], s.nextId), e);
    (s', Load(saved))
  }

  /** `findById`: empty when there is no row, the rebuilt row otherwise. */
  function FindTask(s: Store, id: int): (r: Option<Task>)
    ensures r.Some? <==> id in s.rows
    ensures r.Some? ==> r.value == Load(s.rows[id])
    ensures Valid(s) && r.Some? ==> r.value.id == Some(id)
  {
    if id in s.rows then Some(Load(s.rows[id])) else None
  }

  /** A saved task is found again under its id with every field it was
      saved with, except that an empty description reads back as null; every
      other row reads as before. */
  lemma SaveThenFind(s: Store, t: Task, other: int)
    requires Valid(s) && Saveable(s, t)
    ensures var (s', saved) := SaveTask(s, t);
      && FindTask(s', saved.id.value) == Some(saved.(description := ColumnValue(t.description)))
      && (t.description != Some("") ==> FindTask(s', saved.id.value) == Some(saved))
      && saved.title == t.title && saved.description == t.description
      && saved.status == t.status
      && saved.createdAt == t.createdAt && saved.updatedAt == t.updatedAt
      && (other != saved.id.value ==> FindTask(s', other) == FindTask(s, other))
  {
  }

  /** The one input on which the round trip through the table fails: a task
      saved with description "" is returned with "", then found with null. */
  lemma EmptyDescriptionReadsBackNull(s: Store, t: Task)
    requires Valid(s) && Saveable(s, t) && t.description == Some("")
    ensures var (s', saved) := SaveTask(s, t);
      && saved.description == Some("")
      && FindTask(s', saved.id.value).value.description == None
  {
  }

  /** Saving a task without an id allocates an id no existing row has, and
      two such saves in a row allocate different ids. */
  lemma FreshIdsDistinct(s: Store, t: Task, u: Task)
    requires Valid(s) && t.id.None? && u.id.None?
    ensures var (s1, a) := SaveTask(s, t);
      && a.id.value !in s.rows
      && var (s2, b) := SaveTask(s1, u);
      b.id.value !in s1.rows && a.id != b.id
  {
  }

  /** Saving a task that already has an id is idempotent: the second save of
      the same task changes nothing and returns the same task. */
  lemma SaveIdempotent(s: Store, t: Task)
    requires Valid(s) && t.id.Some? && t.id.value in s.rows
    ensures var (s1, a) := SaveTask(s, t);
      SaveTask(s1, t) == (s1, a) && a == t
  {
    var (s1, a) := SaveTask(s, t);
    assert s1.rows[t.id.value := Stored(ToEntity(t))] == s1.rows;
  }
}
