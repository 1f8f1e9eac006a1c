/** The database context behind the repository, as an in-memory store: the four
    tables and the identity counter from which the appointments table assigns
    new ids. Each context method stands for one change followed by SaveChanges. */
module Store {
  import opened Models
  import Queries

  predicate UniqueIds(appointments: seq<AppointmentEntity>)
  {
    forall i, j :: 0 <= i < j < |appointments| ==> appointments[i].id != appointments[j].id
  }

  /** A table with unique ids: its tail has unique ids and its head's id
      occurs nowhere in the tail. */
  lemma UniqueIdsTail(s: seq<AppointmentEntity>)
    requires UniqueIds(s) && s != []
    ensures UniqueIds(s[1..])
    ensures forall y :: y in s[1..] ==> y.id != s[0].id
  {
    var tail := s[1..];
    forall i, j | 0 <= i < j < |tail| ensures tail[i].id != tail[j].id {
      assert tail[i] == s[i + 1] && tail[j] == s[j + 1];
    }
    forall y | y in tail ensures y.id != s[0].id {
      var k :| 0 <= k < |tail| && tail[k] == y;
      assert s[k + 1] == y;
    }
  }

  /** Putting a row with a new id in front of a table with unique ids. */
  lemma UniqueIdsCons(x: AppointmentEntity, t: seq<AppointmentEntity>)
    requires UniqueIds(t)
    requires forall y :: y in t ==> y.id != x.id
    ensures UniqueIds([x] + t)
  {
    var r := [x] + t;
    forall i, j | 0 <= i < j < |r| ensures r[i].id != r[j].id {
      assert r[j] == t[j - 1] && t[j - 1] in t;
      if i > 0 {
        assert r[i] == t[i - 1];
      }
    }
  }

  /** Filtering a table keeps its ids unique. */
  lemma {:induction false} FilterKeepsUniqueIds(s: seq<AppointmentEntity>, p: AppointmentEntity -> bool)
    requires UniqueIds(s)
    ensures UniqueIds(Queries.Filter(s, p))
  {
    if s != [] {
      UniqueIdsTail(s);
      FilterKeepsUniqueIds(s[1..], p);
      if p(s[0]) {
        UniqueIdsCons(s[0], Queries.Filter(s[1..], p));
      }
    }
  }

  /** The store's invariant: appointment ids are keys, the identity counter lies
      above every appointment id and every id a link row mentions (so a new id
      never meets old links), and the account and treatment maps are keyed by id. */
  predicate WellFormed(db: Tables, nextId: int)
  {
    && UniqueIds(db.appointments)
    && (forall row :: row in db.appointments ==> row.id < nextId)
    && (forall l :: l in db.links ==> l.appointmentId < nextId)
    && (forall k :: k in db.accounts ==> db.accounts[k].id == k)
    && (forall k :: k in db.treatments ==> db.treatments[k].id == k)
  }

  /** The row CreateAppointment writes: the caller's scalars, under the assigned id. */
  function NewRow(id: int, a: Appointment): AppointmentEntity
  {
    AppointmentEntity(id, a.customerId, a.employeeId, a.date, a.duration, a.totalPrice, a.appointmentEnd)
  }

  /** The link rows CreateAppointment writes for a supplied treatment list. */
  function LinksFor(id: int, list: Option<seq<Option<Treatment>>>): (r: seq<AppointmentTreatmentEntity>)
    requires NoNullEntries(list)
    ensures forall l :: l in r ==> l.appointmentId == id
  {
    match list
    case None => []
    case Some(ts) =>
      seq(|ts|, i requires 0 <= i < |ts| => assert ts[i] in ts; AppointmentTreatmentEntity(id, ts[i].value.id))
  }

  /** The row UpdateById writes over the previous one. */
  function UpdatedRow(previous: AppointmentEntity, u: Appointment): AppointmentEntity
  {
    AppointmentEntity(previous.id, previous.customerId, u.employeeId, u.date, u.duration, u.totalPrice, u.appointmentEnd)
  }

  /** The appointments table after updating by key: the row with the entity's id
      is replaced where it stands. */
  function Replace(appointments: seq<AppointmentEntity>, entity: AppointmentEntity): seq<AppointmentEntity>
  {
    seq(|appointments|, i requires 0 <= i < |appointments| =>
      if appointments[i].id == entity.id then entity else appointments[i])
  }

  function IdIsNot(id: int): AppointmentEntity -> bool
  {
    (row: AppointmentEntity) => row.id != id
  }

  /** The appointments table after removing by key. */
  function Without(appointments: seq<AppointmentEntity>, id: int): seq<AppointmentEntity>
  {
    Queries.Filter(appointments, IdIsNot(id))
  }

  /** The tables after CreateAppointment assigned `id` to the payload `a`. */
  function Created(db: Tables, id: int, a: Appointment): Tables
    requires NoNullEntries(a.treatmentsList)
  {
    db.(appointments := db.appointments + [NewRow(id, a)], links := db.links + LinksFor(id, a.treatmentsList))
  }

  /** The tables after writing `entity` over the row with its id. */
  function Updated(db: Tables, entity: AppointmentEntity): Tables
  {
    db.(appointments := Replace(db.appointments, entity))
  }

  /** The tables after removing the appointment row `id`; link rows are kept, as no
      cascade is part of this model. */
  function Deleted(db: Tables, id: int): Tables
  {
    db.(appointments := Without(db.appointments, id))
  }

  class MainDbContext {
    var accounts: map<int, Account>
    var treatments: map<int, Treatment>
    var appointments: seq<AppointmentEntity>
    var links: seq<AppointmentTreatmentEntity>
    var nextId: int

    function Snapshot(): Tables
      reads this
    {
      Tables(accounts, treatments, appointments, links)
    }

    predicate Valid()
      reads this
    {
      WellFormed(Snapshot(), nextId)
    }

    constructor (db: Tables, nextId: int)
      requires WellFormed(db, nextId)
      ensures Valid()
      ensures Snapshot() == db && this.nextId == nextId
    {
      accounts, treatments, appointments, links := db.accounts, db.treatments, db.appointments, db.links;
      this.nextId := nextId;
    }

    /** `Add` and SaveChanges: the identity column gives the row the next id. */
    method Add(entity: AppointmentEntity) returns (stored: AppointmentEntity)
      requires Valid()
      modifies this
      ensures Valid()
      ensures stored == entity.(id := old(nextId))
      ensures forall row :: row in old(appointments) ==> row.id != stored.id
      ensures Snapshot() == old(Snapshot()).(appointments := old(appointments) + [stored])
      ensures nextId == old(nextId) + 1
    {
      stored := entity.(id := nextId);
      appointments := appointments + [stored];
      nextId := nextId + 1;
    }

    /** `AddRange` of link rows and SaveChanges. */
    method AddRange(rows: seq<AppointmentTreatmentEntity>)
      requires Valid()
      requires forall l :: l in rows ==> l.appointmentId < nextId
      modifies this
      ensures Valid()
      ensures Snapshot() == old(Snapshot()).(links := old(links) + rows)
      ensures nextId == old(nextId)
    {
      links := links + rows;
    }

    /** `Update` of an entity by key and SaveChanges. */
    method Update(entity: AppointmentEntity)
      requires Valid()
      requires exists row :: row in appointments && row.id == entity.id
      modifies this
      ensures Valid()
      ensures Snapshot() == Updated(old(Snapshot()), entity)
      ensures nextId == old(nextId)
    {
      appointments := Replace(appointments, entity);
    }

    /** `Remove` of an entity by key and SaveChanges. */
    method Remove(id: int)
      requires Valid()
      requires exists row :: row in appointments && row.id == id
      modifies this
      ensures Valid()
      ensures Snapshot() == Deleted(old(Snapshot()), id)
      ensures nextId == old(nextId)
    {
      FilterKeepsUniqueIds(appointments, IdIsNot(id));
      appointments := Without(appointments, id);
    }
  }
}
