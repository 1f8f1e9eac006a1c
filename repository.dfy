/** The appointment repository's writing operations over a shared database
    context: create, update and delete. Its read paths are the functions of
    module Queries, applied to the context's tables. */
module Repository {
  import opened Models
  import Queries
  import Store

  /** The cancellation cutoff exactly as written: delete is refused when the
      appointment's start minus (now + 24 hours) is zero or more. TotalHours of a
      tick difference has that difference's sign, so the test is on ticks. */
  predicate DeleteRejected(date: Ticks, now: Ticks)
  {
    date - (now + CancellationNotice) >= 0
  }

  class AppointmentRepository {
    const ctx: Store.MainDbContext

    constructor (ctx: Store.MainDbContext)
      ensures this.ctx == ctx
    {
      this.ctx := ctx;
    }

    /** Stores the caller's scalar fields as supplied under a new id, then one link
        row per supplied treatment; echoes the stored scalars without price or list. */
    method CreateAppointment(appointmentToCreate: Appointment) returns (r: Appointment)
      requires ctx.Valid()
      requires NoNullEntries(appointmentToCreate.treatmentsList)
      modifies ctx
      ensures ctx.Valid()
      ensures r.id == old(ctx.nextId) && ctx.nextId == old(ctx.nextId) + 1
      ensures forall row :: row in old(ctx.appointments) ==> row.id != r.id
      ensures ctx.appointments == old(ctx.appointments) + [Store.NewRow(r.id, appointmentToCreate)]
      ensures ctx.links == old(ctx.links) + Store.LinksFor(r.id, appointmentToCreate.treatmentsList)
      ensures ctx.accounts == old(ctx.accounts) && ctx.treatments == old(ctx.treatments)
      ensures ctx.Snapshot() == Store.Created(old(ctx.Snapshot()), r.id, appointmentToCreate)
      ensures r == Appointment(r.id, appointmentToCreate.customerId, appointmentToCreate.employeeId,
                               appointmentToCreate.date, appointmentToCreate.duration, None, 0.0,
                               None, None, appointmentToCreate.appointmentEnd)
    {
      var a := appointmentToCreate;
      var entity := ctx.Add(AppointmentEntity(0, a.customerId, a.employeeId, a.date, a.duration,
                                              a.totalPrice, a.appointmentEnd));
      if a.treatmentsList.Some? {
        var appointmentTreatments := Store.LinksFor(entity.id, a.treatmentsList);
        ctx.AddRange(appointmentTreatments);
      }
      r := Appointment(entity.id, entity.customerId, entity.employeeId, entity.date, entity.duration,
                       None, 0.0, None, None, entity.appointmentEnd);
    }

    /** Writes the row under its previous id and customer, every other column from
        the payload; returns the payload's list and the previous end time. Reading the
        previous appointment first dereferences each of its links' treatments, so
        those must all exist. */
    method UpdateById(appointmentToUpdateId: int, updatedAppointment: Appointment) returns (r: Appointment)
      requires ctx.Valid()
      requires exists row :: row in ctx.appointments && row.id == appointmentToUpdateId
      requires Queries.LinksResolve(ctx.Snapshot(), appointmentToUpdateId)
      requires NoNullEntries(updatedAppointment.treatmentsList)
      modifies ctx
      ensures ctx.Valid() && ctx.nextId == old(ctx.nextId)
      ensures var previous := Queries.FindRow(old(ctx.appointments), appointmentToUpdateId).value;
        && ctx.Snapshot() == Store.Updated(old(ctx.Snapshot()), Store.UpdatedRow(previous, updatedAppointment))
        && r == Appointment(previous.id, previous.customerId, updatedAppointment.employeeId,
                            updatedAppointment.date, updatedAppointment.duration,
                            updatedAppointment.treatmentsList, updatedAppointment.totalPrice,
                            None, None, previous.appointmentEnd)
      ensures ctx.links == old(ctx.links)
    {
      var u := updatedAppointment;
      var previousAppointment := Queries.FindRow(ctx.appointments, appointmentToUpdateId).value;
      var appointmentEntity := AppointmentEntity(previousAppointment.id, previousAppointment.customerId,
                                                 u.employeeId, u.date, u.duration, u.totalPrice,
                                                 u.appointmentEnd);
      ctx.Update(appointmentEntity);
      r := Appointment(previousAppointment.id, previousAppointment.customerId, u.employeeId, u.date,
                       u.duration, u.treatmentsList, u.totalPrice, None, None,
                       previousAppointment.appointmentEnd);
    }

    /** Refuses, changing nothing, when the appointment starts 24 hours or more
        from `now`; otherwise removes its row and returns it as read before. */
    method DeleteAppointment(deletedAppointmentId: int, now: Ticks) returns (r: Result<Appointment, Error>)
      requires ctx.Valid()
      requires exists row :: row in ctx.appointments && row.id == deletedAppointmentId
      requires forall row :: row in ctx.appointments && row.id == deletedAppointmentId ==>
        Queries.AccountsResolve(ctx.Snapshot(), row)
      modifies ctx
      ensures ctx.Valid() && ctx.nextId == old(ctx.nextId)
      ensures var row := Queries.FindRow(old(ctx.appointments), deletedAppointmentId).value;
        && (r.Failure? <==> row.date >= now + CancellationNotice)
        && (r.Failure? ==> r.error == CutoffViolation(CutoffMessage) && ctx.Snapshot() == old(ctx.Snapshot()))
        && (r.Success? ==> r.value == Queries.ListView(old(ctx.Snapshot()), row)
                           && ctx.Snapshot() == Store.Deleted(old(ctx.Snapshot()), deletedAppointmentId))
    {
      var found := Queries.FindRow(ctx.appointments, deletedAppointmentId).value;
      var appointmentToDelete := Queries.ListView(ctx.Snapshot(), found);
      if DeleteRejected(appointmentToDelete.date, now) {
        return Failure(CutoffViolation(CutoffMessage));
      }
      ctx.Remove(deletedAppointmentId);
      r := Success(appointmentToDelete);
    }
  }
}
