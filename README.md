# Appointment repository of the Morales booking system

This project models the persistence core of a hairdresser booking system: the
appointment repository. The repository sits over an Entity Framework database
context with four relations:

- accounts (customers and employees);
- the treatment catalogue;
- the appointments table;
- the appointment–treatment link table.

Module `Store` models the context as an in-memory class, `MainDbContext`. It holds those
tables plus the identity counter that gives new appointment rows their ids.
Module `Queries` holds the repository's read paths as functions of the tables:

- `ReadAllAppointments`
- `ReadById`
- `GetAppointmentFromHairdresser`
- `GetAppointmentFromUser`

Each read path rebuilds ("hydrates") an `Appointment` from a row. It joins through the
link table to get the treatment list. All but `GetAppointmentFromHairdresser` also
project the customer and the employee.
Each one sets exactly the fields its C# projection sets, and every other field keeps its
C# default (0 or null). Module `Repository` holds the writing operations as methods that
change the context. Module `Properties` relates each write to what the reads show
afterwards.

Modelling choices:

- Times and durations are integer ticks of 100 ns.
- The current time is a parameter, `now`.
- A C# null is `None`.
- A null dereference in the source becomes a precondition. This covers:
  - a missing id on update and delete;
  - a missing customer or employee account on the paths that project them;
  - a missing treatment on the three queries that have no `te.Treatment != null` check:
    `GetAppointmentFromHairdresser`, `GetAppointmentFromUser`, and the read of the
    previous appointment inside `UpdateById`;
  - a null entry in a caller's treatment list.
- The two read paths that do check for a missing treatment give a `None` entry instead.

The delete rule is modelled exactly as written. Delete is refused when the appointment
starts 24 hours or more after `now`, and allowed when it starts sooner. This is the
reverse of what the exception message says ("less than 24 hours before"), and probably
a defect. `Properties.CutoffDirection` shows the direction: 23 hours is allowed, and
25 hours and exactly 24 hours are refused. The model keeps the rule as the code has it.

## Model

| member | source | states |
|---|---|---|
| Queries.ReadAllAppointments | Morales.BookingSystem.EntityFramework/Repositories/AppointmentRepository.cs:21-46 | one entry per appointment row; every row's hydrated view is in the list, and every entry is such a view; entries carry both account projections and leave Customerid and Employeeid at 0 |
| Queries.ReadById | Morales.BookingSystem.EntityFramework/Repositories/AppointmentRepository.cs:48-74 | a value exactly when a row with that id exists, otherwise null; the value has that id and is that row's hydrated view, with Employeeid copied and Customerid left at 0; its treatment list is the appointment's linked treatments |
| Queries.TreatmentsOf | Morales.BookingSystem.EntityFramework/Repositories/AppointmentRepository.cs:63-69 | one entry per link row of the appointment, in link order, each the resolved treatment; a treatment appears exactly when a link of the appointment names it; a null entry appears exactly when a link names a missing treatment |
| Queries.FindRow | Morales.BookingSystem.EntityFramework/Repositories/AppointmentRepository.cs:73 | finds a row exactly when one with that id exists; the row found is in the table and has that id |
| Queries.LinksOf | Morales.BookingSystem.EntityFramework/Repositories/AppointmentRepository.cs:26-27 | exactly the link rows of the appointment, each as often as in the link table |
| Queries.GetAppointmentFromHairdresser | Morales.BookingSystem.EntityFramework/Repositories/AppointmentRepository.cs:165-190 | exactly the appointments whose EmployeeId is the given one, in both directions, one entry per matching row in table order; no account projections; no null treatment entries |
| Queries.GetAppointmentFromUser | Morales.BookingSystem.EntityFramework/Repositories/AppointmentRepository.cs:230-258 | exactly the appointments whose CustomerId is the given one, in both directions, one entry per matching row in table order; each entry carries that customer's projection and no null treatment entries |
| Store.LinksFor | Morales.BookingSystem.EntityFramework/Repositories/AppointmentRepository.cs:90-95 | every link row written for a new appointment names that appointment's id |
| Store.MainDbContext.Add | Morales.BookingSystem.EntityFramework/Repositories/AppointmentRepository.cs:78-87 | the row is stored under the counter's id, which no earlier row has; the store stays well formed |
| Store.MainDbContext.AddRange | Morales.BookingSystem.EntityFramework/Repositories/AppointmentRepository.cs:96-97 | the link rows are appended and nothing else changes |
| Store.MainDbContext.Update | Morales.BookingSystem.EntityFramework/Repositories/AppointmentRepository.cs:143-144 | the row with the entity's id is replaced where it stands; nothing else changes |
| Store.MainDbContext.Remove | Morales.BookingSystem.EntityFramework/Repositories/AppointmentRepository.cs:225-226 | only the row with that id is removed; ids stay unique |
| Repository.AppointmentRepository.constructor | Morales.BookingSystem.EntityFramework/Repositories/AppointmentRepository.cs:16-19 | the repository works over the given context |
| Repository.AppointmentRepository.CreateAppointment | Morales.BookingSystem.EntityFramework/Repositories/AppointmentRepository.cs:76-108 | the caller's CustomerId, EmployeeId, Date, Duration, TotalPrice and AppointmentEnd are stored as supplied under a fresh id; one link row (new id, treatment id) per supplied treatment, in list order, and none for a null list; accounts and treatments are unchanged; the returned value echoes the stored fields and has no price and no list |
| Repository.AppointmentRepository.UpdateById | Morales.BookingSystem.EntityFramework/Repositories/AppointmentRepository.cs:110-163 | requires the id to exist and its links' treatments to exist, which the read of the previous appointment dereferences; the row keeps its previous Id and CustomerId and takes the other columns from the payload; links are unchanged; the returned value has the payload's list and the previous AppointmentEnd |
| Repository.AppointmentRepository.DeleteAppointment | Morales.BookingSystem.EntityFramework/Repositories/AppointmentRepository.cs:192-228 | fails, with the cutoff message and the store unchanged, exactly when Date >= now + 24 h; otherwise removes only that row and returns it as hydrated before the removal |
| Properties.CreateReadBack | Morales.BookingSystem.EntityFramework/Repositories/AppointmentRepository.cs:76-98 | reading back a created appointment gives the caller's fields, the named customer and employee, and the supplied treatments resolved in the catalogue, in list order |
| Properties.CreateReadBackIds | Morales.BookingSystem.EntityFramework/Repositories/AppointmentRepository.cs:90-95 | each treatment read back carries the id the caller supplied at that position |
| Properties.CreatePreservesWellFormed | Morales.BookingSystem.EntityFramework/Repositories/AppointmentRepository.cs:78-98 | create keeps ids unique and below the counter, which moves on by one |
| Properties.CreateKeepsOthers | Morales.BookingSystem.EntityFramework/Repositories/AppointmentRepository.cs:78-98 | create leaves every other appointment's read unchanged |
| Properties.CreateThenDelete | Morales.BookingSystem.EntityFramework/Repositories/AppointmentRepository.cs:225 | deleting a just-created appointment restores the appointments table; its link rows stay |
| Properties.UpdateReadBack | Morales.BookingSystem.EntityFramework/Repositories/AppointmentRepository.cs:133-144 | reading back an updated appointment shows the previous customer, the payload's other scalars and the treatment list it had before |
| Properties.UpdatePreservesWellFormed | Morales.BookingSystem.EntityFramework/Repositories/AppointmentRepository.cs:143 | update keeps the store's invariant |
| Properties.UpdateKeepsOthers | Morales.BookingSystem.EntityFramework/Repositories/AppointmentRepository.cs:143 | update leaves every other appointment's read unchanged |
| Properties.UpdateNeverMovesCustomer | Morales.BookingSystem.EntityFramework/Repositories/AppointmentRepository.cs:136 | after update the appointment is in customer c's list exactly when c is its previous customer |
| Properties.DeleteRemoves | Morales.BookingSystem.EntityFramework/Repositories/AppointmentRepository.cs:225 | after delete the appointment reads as absent and the store stays well formed |
| Properties.DeleteKeepsOthers | Morales.BookingSystem.EntityFramework/Repositories/AppointmentRepository.cs:225 | delete leaves every other appointment's read unchanged |
| Properties.ReadByIdAgreesWithReadAll | Morales.BookingSystem.EntityFramework/Repositories/AppointmentRepository.cs:21-74 | each entry of the full list is the by-id read of its id, less the employee id; each by-id read is in the full list |
| Properties.CutoffDirection | Morales.BookingSystem.EntityFramework/Repositories/AppointmentRepository.cs:217-224 | the cutoff allows 23 hours ahead and refuses 25 hours and exactly 24 hours ahead |

## Left out

- Entity Framework query mechanics (`Include`, `ThenInclude`, LINQ translation): each read is modelled by its result only.
- `SaveChanges` commit and transactions: each context method is one atomic change. A create whose link insert fails after the row insert is not modelled.
- Database rejections, such as foreign-key violations by a link to a missing treatment or account, or a duplicate composite link key, are not modelled: the writes always succeed.
- `DateTime.Now` is the parameter `now`. An overflow of `AddHours` near the largest DateTime is not modelled.
- `TotalHours` is a double. The model compares ticks instead, which has the same sign.
- Repository.AppointmentRepository.DeleteAppointment: the cutoff keeps the source's direction and is not corrected.
- The double `TotalPrice` and treatment price are a `real` that is only copied and never computed over.
- Cascade deletion of link rows depends on database configuration that is not shown. Delete keeps the link rows.
- Repository.AppointmentRepository.UpdateById: the previous treatment list that the source builds and never uses (lines 121-127) is not built. Only the treatments it dereferences are kept, as a precondition.
- Repository.AppointmentRepository.CreateAppointment and Repository.AppointmentRepository.UpdateById: the source dereferences each entry of the caller's treatment list after the row is already saved (lines 87 and 94-95 for create, 144 and 152 for update). A null entry therefore throws with the row written. The model makes a null-free list a precondition, so it does not capture that partial effect.
- Store.MainDbContext.Add: the identity counter is an unbounded integer. The source's ids are 32-bit `int` values, and an identity column past 2^31-1 fails. That failure is not modelled.
- AppointmentEnd is not checked against Date + Duration: the source stores whatever the caller supplies.
- Rows come back in table order. The order of a real database query is unspecified.
- `TreatmentEntity.cs` has no Price column, but the repository reads the treatment's price. The model follows the repository.
- `Account.cs`, `Treatments.cs`, `AppointmentEntity.cs` and `MainDbContext.cs` are not part of this model. Their shapes are inferred from the repository's use of them.
- The service layer, the accounts and treatments repositories, and the Moq-based test files are out of scope.
