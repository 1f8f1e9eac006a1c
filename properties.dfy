/** What the repository's writes mean for its reads: each lemma relates a table
    transition of module Store to the read paths of module Queries. */
module Properties {
  import opened Models
  import opened Queries
  import opened Store
  import Repository

  /** The list a read shows for a supplied treatment list once its links are
      stored: each supplied id resolved against the catalogue, in list order. */
  function SuppliedTreatments(treatments: map<int, Treatment>, list: Option<seq<Option<Treatment>>>): seq<Option<Treatment>>
    requires NoNullEntries(list)
  {
    match list
    case None => []
    case Some(ts) =>
      seq(|ts|, i requires 0 <= i < |ts| => assert ts[i] in ts; Resolve(treatments, ts[i].value.id))
  }

  /** In a table with unique ids, the lookup by id finds the one row with that id. */
  lemma FindRowUnique(appointments: seq<AppointmentEntity>, row: AppointmentEntity)
    requires UniqueIds(appointments)
    requires row in appointments
    ensures FindRow(appointments, row.id) == Some(row)
  {
    var found := FindRow(appointments, row.id).value;
    var i :| 0 <= i < |appointments| && appointments[i] == found;
    var j :| 0 <= j < |appointments| && appointments[j] == row;
    if i < j {
      assert appointments[i].id != appointments[j].id;
    } else if j < i {
      assert appointments[j].id != appointments[i].id;
    }
  }

  /** A fresh id has no link rows yet, and the ones Create writes are its links. */
  lemma LinksOfCreated(db: Tables, n: int, a: Appointment)
    requires WellFormed(db, n)
    requires NoNullEntries(a.treatmentsList)
    ensures LinksOf(Created(db, n, a).links, n) == LinksFor(n, a.treatmentsList)
  {
    var added := LinksFor(n, a.treatmentsList);
    FilterAppend(db.links, added, LinkedTo(n));
    FilterNone(db.links, LinkedTo(n));
    FilterAll(added, LinkedTo(n));
  }

  /** Reading back a created appointment: its scalars are the caller's, the
      customer and employee are those the caller named, and its treatment list is
      the supplied one, entry by entry, resolved in the catalogue. */
  lemma CreateReadBack(db: Tables, n: int, a: Appointment)
    requires WellFormed(db, n)
    requires NoNullEntries(a.treatmentsList)
    requires a.customerId in db.accounts && a.employeeId in db.accounts
    ensures ReadById(Created(db, n, a), n) ==
      Some(Appointment(n, 0, a.employeeId, a.date, a.duration,
                       Some(SuppliedTreatments(db.treatments, a.treatmentsList)), a.totalPrice,
                       Some(CustomerProjection(db.accounts[a.customerId])),
                       Some(EmployeeProjection(db.accounts[a.employeeId])),
                       a.appointmentEnd))
  {
    var after := Created(db, n, a);
    var row := NewRow(n, a);
    FilterAppend(db.appointments, [row], HasId(n));
    FilterNone(db.appointments, HasId(n));
    assert FindRow(after.appointments, n) == Some(row);
    LinksOfCreated(db, n, a);
    assert TreatmentsOf(after, n) == SuppliedTreatments(db.treatments, a.treatmentsList);
  }

  /** Every treatment that a read-back shows carries the id the caller supplied. */
  lemma CreateReadBackIds(db: Tables, n: int, a: Appointment, i: int)
    requires WellFormed(db, n)
    requires NoNullEntries(a.treatmentsList)
    requires a.treatmentsList.Some? && 0 <= i < |a.treatmentsList.value|
    requires a.treatmentsList.value[i].value.id in db.treatments
    ensures SuppliedTreatments(db.treatments, a.treatmentsList)[i] == Some(db.treatments[a.treatmentsList.value[i].value.id])
    ensures SuppliedTreatments(db.treatments, a.treatmentsList)[i].value.id == a.treatmentsList.value[i].value.id
  {
    assert a.treatmentsList.value[i] in a.treatmentsList.value;
  }

  /** Create keeps the store's invariant, with the counter moved on by one. */
  lemma CreatePreservesWellFormed(db: Tables, n: int, a: Appointment)
    requires WellFormed(db, n)
    requires NoNullEntries(a.treatmentsList)
    ensures WellFormed(Created(db, n, a), n + 1)
  {
  }

  /** Create changes no other appointment as its reads show it. */
  lemma CreateKeepsOthers(db: Tables, n: int, a: Appointment, id: int)
    requires WellFormed(db, n)
    requires NoNullEntries(a.treatmentsList)
    requires id != n
    requires forall row :: row in db.appointments && row.id == id ==> AccountsResolve(db, row)
    ensures forall row :: row in Created(db, n, a).appointments && row.id == id ==> AccountsResolve(Created(db, n, a), row)
    ensures ReadById(Created(db, n, a), id) == ReadById(db, id)
  {
    var after := Created(db, n, a);
    var added := LinksFor(n, a.treatmentsList);
    FilterAppend(db.appointments, [NewRow(n, a)], HasId(id));
    FilterNone([NewRow(n, a)], HasId(id));
    assert FindRow(after.appointments, id) == FindRow(db.appointments, id);
    FilterAppend(db.links, added, LinkedTo(id));
    FilterNone(added, LinkedTo(id));
    assert TreatmentsOf(after, id) == TreatmentsOf(db, id);
  }

  /** Deleting what was just created gives back the appointments table as it was;
      the created link rows stay behind. */
  lemma CreateThenDelete(db: Tables, n: int, a: Appointment)
    requires WellFormed(db, n)
    requires NoNullEntries(a.treatmentsList)
    ensures Deleted(Created(db, n, a), n).appointments == db.appointments
    ensures Deleted(Created(db, n, a), n).links == db.links + LinksFor(n, a.treatmentsList)
  {
    FilterAppend(db.appointments, [NewRow(n, a)], IdIsNot(n));
    FilterAll(db.appointments, IdIsNot(n));
    FilterNone([NewRow(n, a)], IdIsNot(n));
  }

  /** Replacing a row by key keeps ids unique and puts the entity in the table. */
  lemma ReplaceFacts(appointments: seq<AppointmentEntity>, entity: AppointmentEntity)
    requires UniqueIds(appointments)
    requires exists row :: row in appointments && row.id == entity.id
    ensures UniqueIds(Replace(appointments, entity))
    ensures entity in Replace(appointments, entity)
    ensures forall row :: row in Replace(appointments, entity) ==> row == entity || (row in appointments && row.id != entity.id)
    ensures forall row :: row in appointments && row.id != entity.id ==> row in Replace(appointments, entity)
  {
    var r := Replace(appointments, entity);
    var row :| row in appointments && row.id == entity.id;
    var k :| 0 <= k < |appointments| && appointments[k] == row;
    assert r[k] == entity;
    forall x | x in appointments && x.id != entity.id ensures x in r {
      var i :| 0 <= i < |appointments| && appointments[i] == x;
      assert r[i] == x;
    }
  }

  /** Update keeps the store's invariant. */
  lemma UpdatePreservesWellFormed(db: Tables, n: int, entity: AppointmentEntity)
    requires WellFormed(db, n)
    requires exists row :: row in db.appointments && row.id == entity.id
    ensures WellFormed(Updated(db, entity), n)
  {
    ReplaceFacts(db.appointments, entity);
  }

  /** Reading back an updated appointment: same id, the PREVIOUS customer whatever
      the payload says, employee, date, duration, price and end from the payload,
      and the treatment list it had before, since link rows are not touched. */
  lemma UpdateReadBack(db: Tables, n: int, id: int, u: Appointment)
    requires WellFormed(db, n)
    requires exists row :: row in db.appointments && row.id == id
    requires FindRow(db.appointments, id).value.customerId in db.accounts && u.employeeId in db.accounts
    ensures var previous := FindRow(db.appointments, id).value;
      ReadById(Updated(db, UpdatedRow(previous, u)), id) ==
        Some(Appointment(id, 0, u.employeeId, u.date, u.duration, Some(TreatmentsOf(db, id)), u.totalPrice,
                         Some(CustomerProjection(db.accounts[previous.customerId])),
                         Some(EmployeeProjection(db.accounts[u.employeeId])),
                         u.appointmentEnd))
  {
    var previous := FindRow(db.appointments, id).value;
    var entity := UpdatedRow(previous, u);
    ReplaceFacts(db.appointments, entity);
    FindRowUnique(Replace(db.appointments, entity), entity);
  }

  /** Update changes no other appointment as its reads show it. */
  lemma UpdateKeepsOthers(db: Tables, n: int, entity: AppointmentEntity, other: int)
    requires WellFormed(db, n)
    requires exists row :: row in db.appointments && row.id == entity.id
    requires other != entity.id
    requires forall row :: row in db.appointments && row.id == other ==> AccountsResolve(db, row)
    ensures forall row :: row in Updated(db, entity).appointments && row.id == other ==> AccountsResolve(Updated(db, entity), row)
    ensures ReadById(Updated(db, entity), other) == ReadById(db, other)
  {
    var after := Updated(db, entity);
    ReplaceFacts(db.appointments, entity);
    if found :| found in db.appointments && found.id == other {
      FindRowUnique(db.appointments, found);
      FindRowUnique(after.appointments, found);
    }
  }

  /** The updated appointment is listed for its previous customer and for no other,
      whichever customer id the payload carries. */
  lemma UpdateNeverMovesCustomer(db: Tables, n: int, id: int, u: Appointment, c: int)
    requires WellFormed(db, n)
    requires exists row :: row in db.appointments && row.id == id
    requires var after := Updated(db, UpdatedRow(FindRow(db.appointments, id).value, u));
      forall row :: row in after.appointments && row.customerId == c ==>
        AccountsResolve(after, row) && LinksResolve(after, row.id)
    ensures var previous := FindRow(db.appointments, id).value;
      var after := Updated(db, UpdatedRow(previous, u));
      (exists a :: a in GetAppointmentFromUser(after, c) && a.id == id) <==> c == previous.customerId
  {
    var previous := FindRow(db.appointments, id).value;
    var entity := UpdatedRow(previous, u);
    var after := Updated(db, entity);
    ReplaceFacts(db.appointments, entity);
    var list := GetAppointmentFromUser(after, c);
    if a :| a in list && a.id == id {
      var row :| row in after.appointments && row.customerId == c && a == AccountView(after, row);
      assert row == entity;
    }
    if c == previous.customerId {
      assert AccountView(after, entity) in list;
    }
  }

  /** After delete, the appointment reads as absent, and the invariant holds. */
  lemma DeleteRemoves(db: Tables, n: int, id: int)
    requires WellFormed(db, n)
    ensures ReadById(Deleted(db, id), id) == None
    ensures WellFormed(Deleted(db, id), n)
  {
    FilterKeepsUniqueIds(db.appointments, IdIsNot(id));
  }

  /** Delete changes no other appointment as its reads show it. */
  lemma DeleteKeepsOthers(db: Tables, n: int, id: int, other: int)
    requires WellFormed(db, n)
    requires other != id
    requires forall row :: row in db.appointments && row.id == other ==> AccountsResolve(db, row)
    ensures forall row :: row in Deleted(db, id).appointments && row.id == other ==> AccountsResolve(Deleted(db, id), row)
    ensures ReadById(Deleted(db, id), other) == ReadById(db, other)
  {
    var after := Deleted(db, id);
    FilterKeepsUniqueIds(db.appointments, IdIsNot(id));
    if found :| found in db.appointments && found.id == other {
      FindRowUnique(db.appointments, found);
      FindRowUnique(after.appointments, found);
    }
  }

  /** readAllAppointments and ReadById show the same appointments: each entry of
      the full list is the by-id read of its id (less the employee id the full list
      does not copy), and each by-id read is in the full list. */
  lemma ReadByIdAgreesWithReadAll(db: Tables, n: int)
    requires WellFormed(db, n)
    requires forall row :: row in db.appointments ==> AccountsResolve(db, row)
    ensures forall a :: a in ReadAllAppointments(db) ==>
      ReadById(db, a.id).Some? && ReadById(db, a.id).value.(employeeId := 0) == a
    ensures forall id :: ReadById(db, id).Some? ==> ReadById(db, id).value.(employeeId := 0) in ReadAllAppointments(db)
  {
    var all := ReadAllAppointments(db);
    forall a | a in all ensures ReadById(db, a.id).Some? && ReadById(db, a.id).value.(employeeId := 0) == a {
      var row :| row in db.appointments && a == ListView(db, row);
      FindRowUnique(db.appointments, row);
    }
    forall id | ReadById(db, id).Some? ensures ReadById(db, id).value.(employeeId := 0) in all {
      var row := FindRow(db.appointments, id).value;
      assert ListView(db, row) in all;
    }
  }

  /** The cutoff as written refuses an appointment 25 hours away and lets one 23
      hours away be deleted: the reverse of what its message says. */
  lemma CutoffDirection(now: Ticks)
    ensures !Repository.DeleteRejected(now + 23 * TicksPerHour, now)
    ensures Repository.DeleteRejected(now + 25 * TicksPerHour, now)
    ensures Repository.DeleteRejected(now + CancellationNotice, now)
  {
  }
}
